/**
 * The module registry of the TCM core (mod_pool): application modules such
 * as the touch and testing modules register a set of callbacks; insertion and
 * removal are deferred to a work item, and every notification fan-out visits
 * only the handlers that are neither pending insertion nor pending removal.
 */
module TcmModules {
  import opened Errno
  import opened TcmProtocol

  /** The callbacks a module may provide. */
  datatype ModuleOp = Init | Remove | Syncbox | Asyncbox | Reinit | Suspend | Resume

  /** struct syna_tcm_module_cb: the module's type and which callbacks it provides. */
  datatype ModuleCallbacks = ModuleCallbacks(kind: nat, ops: set<ModuleOp>)

  /** struct syna_tcm_module_handler: a registered module and its pending flags. */
  datatype Handler = Handler(cb: ModuleCallbacks, insert: bool, detach: bool)

  /** A callback invocation, as the registry makes it. */
  datatype Call = Call(op: ModuleOp, kind: nat)

  const WAIT_STEP_MS: nat := 5
  const WAIT_MAX_MS: nat := 500

  /** A handler that is neither pending insertion nor pending removal. */
  predicate Settled(h: Handler)
  {
    !h.insert && !h.detach
  }

  /** The calls a fan-out of `op` makes: settled handlers providing `op`, in list order. */
  function Visits(hs: seq<Handler>, op: ModuleOp): seq<Call>
  {
    if hs == [] then []
    else
      var h := hs[|hs| - 1];
      Visits(hs[..|hs| - 1], op) + (if Settled(h) && op in h.cb.ops then [Call(op, h.cb.kind)] else [])
  }

  /** The calls syna_tcm_module_work makes: init for pending inserts, then remove for pending removals. */
  function WorkCalls(hs: seq<Handler>): seq<Call>
  {
    if hs == [] then []
    else
      var h := hs[|hs| - 1];
      WorkCalls(hs[..|hs| - 1])
      + (if h.insert && Init in h.cb.ops then [Call(Init, h.cb.kind)] else [])
      + (if h.detach && Remove in h.cb.ops then [Call(Remove, h.cb.kind)] else [])
  }

  /** The list syna_tcm_module_work leaves: detached handlers unlinked, the others no longer pending insertion. */
  function AfterWork(hs: seq<Handler>): seq<Handler>
  {
    if hs == [] then []
    else
      var h := hs[|hs| - 1];
      AfterWork(hs[..|hs| - 1]) + (if h.detach then [] else [h.(insert := false)])
  }

  /** The list with the first handler of type `kind` flagged for removal, if there is one. */
  function MarkFirstDetach(hs: seq<Handler>, kind: nat): seq<Handler>
  {
    if hs == [] then []
    else if hs[0].cb.kind == kind then [hs[0].(insert := false, detach := true)] + hs[1..]
    else [hs[0]] + MarkFirstDetach(hs[1..], kind)
  }

  // ---------------------------------------------------------------------
  // Properties of the registry specification
  // ---------------------------------------------------------------------

  /** A fan-out visits the list in order: visiting a concatenation visits each part in turn. */
  lemma {:induction false} VisitsAppend(a: seq<Handler>, b: seq<Handler>, op: ModuleOp)
    ensures Visits(a + b, op) == Visits(a, op) + Visits(b, op)
    decreases |b|
  {
    if b == [] {
      assert a + b == a;
    } else {
      var ab := a + b;
      assert ab[..|ab| - 1] == a + b[..|b| - 1] && ab[|ab| - 1] == b[|b| - 1];
      VisitsAppend(a, b[..|b| - 1], op);
    }
  }

  /**
   * Every call of a fan-out goes to a settled handler that provides the
   * callback, and there is one call per such handler.
   */
  lemma {:induction false} VisitsOnlySettled(hs: seq<Handler>, op: ModuleOp)
    ensures |Visits(hs, op)| <= |hs|
    ensures forall c :: c in Visits(hs, op) ==>
      c.op == op && exists i :: 0 <= i < |hs| && Settled(hs[i]) && op in hs[i].cb.ops && hs[i].cb.kind == c.kind
    ensures (forall i :: 0 <= i < |hs| ==> !Settled(hs[i])) ==> Visits(hs, op) == []
    ensures forall i :: 0 <= i < |hs| && Settled(hs[i]) && op in hs[i].cb.ops ==> Call(op, hs[i].cb.kind) in Visits(hs, op)
  {
    if hs != [] {
      var init := hs[..|hs| - 1];
      VisitsOnlySettled(init, op);
      forall i | 0 <= i < |hs| && Settled(hs[i]) && op in hs[i].cb.ops
        ensures Call(op, hs[i].cb.kind) in Visits(hs, op)
      {
        if i < |init| {
          assert hs[i] == init[i];
        }
      }
      forall c | c in Visits(hs, op)
        ensures c.op == op && exists i :: 0 <= i < |hs| && Settled(hs[i]) && op in hs[i].cb.ops && hs[i].cb.kind == c.kind
      {
        if c in Visits(init, op) {
          var i :| 0 <= i < |init| && Settled(init[i]) && op in init[i].cb.ops && init[i].cb.kind == c.kind;
          assert hs[i] == init[i];
        } else {
          assert Settled(hs[|hs| - 1]);
        }
      }
      if forall i :: 0 <= i < |hs| ==> !Settled(hs[i]) {
        assert forall i :: 0 <= i < |init| ==> !Settled(init[i]) by {
          forall i | 0 <= i < |init| ensures !Settled(init[i]) {
            assert init[i] == hs[i];
          }
        }
      }
    }
  }

  /** A module just added is not notified until the module work has run. */
  lemma PendingInsertNotVisited(hs: seq<Handler>, cb: ModuleCallbacks, op: ModuleOp)
    ensures Visits(hs + [Handler(cb, true, false)], op) == Visits(hs, op)
  {
    VisitsAppend(hs, [Handler(cb, true, false)], op);
  }

  lemma WorkAppend(a: seq<Handler>, b: seq<Handler>)
    ensures WorkCalls(a + b) == WorkCalls(a) + WorkCalls(b)
    ensures AfterWork(a + b) == AfterWork(a) + AfterWork(b)
  {
    WorkCallsAppend(a, b);
    AfterWorkAppend(a, b);
  }

  lemma {:induction false} WorkCallsAppend(a: seq<Handler>, b: seq<Handler>)
    ensures WorkCalls(a + b) == WorkCalls(a) + WorkCalls(b)
    decreases |b|
  {
    if b == [] {
      assert a + b == a;
    } else {
      var ab := a + b;
      assert ab[..|ab| - 1] == a + b[..|b| - 1] && ab[|ab| - 1] == b[|b| - 1];
      WorkCallsAppend(a, b[..|b| - 1]);
    }
  }

  lemma {:induction false} AfterWorkAppend(a: seq<Handler>, b: seq<Handler>)
    ensures AfterWork(a + b) == AfterWork(a) + AfterWork(b)
    decreases |b|
  {
    if b == [] {
      assert a + b == a;
    } else {
      var ab := a + b;
      assert ab[..|ab| - 1] == a + b[..|b| - 1] && ab[|ab| - 1] == b[|b| - 1];
      AfterWorkAppend(a, b[..|b| - 1]);
    }
  }

  /**
   * After the module work every remaining handler is settled, the removed
   * ones are gone, and running the work again changes nothing and calls
   * nothing.
   */
  lemma {:induction false} WorkSettlesAll(hs: seq<Handler>)
    ensures forall i :: 0 <= i < |AfterWork(hs)| ==> Settled(AfterWork(hs)[i])
    ensures |AfterWork(hs)| <= |hs|
    ensures (forall i :: 0 <= i < |hs| ==> !hs[i].detach) ==> |AfterWork(hs)| == |hs|
    ensures AfterWork(AfterWork(hs)) == AfterWork(hs)
    ensures WorkCalls(AfterWork(hs)) == []
  {
    if hs != [] {
      var init := hs[..|hs| - 1];
      var h := hs[|hs| - 1];
      WorkSettlesAll(init);
      var tail := if h.detach then [] else [h.(insert := false)];
      WorkAppend(AfterWork(init), tail);
      if !h.detach {
        assert [h.(insert := false)][..0] == [];
      }
      if forall i :: 0 <= i < |hs| ==> !hs[i].detach {
        assert forall i :: 0 <= i < |init| ==> !init[i].detach by {
          forall i | 0 <= i < |init| ensures !init[i].detach {
            assert init[i] == hs[i];
          }
        }
      }
    }
  }

  /**
   * Inserting a module and running the work calls its init (if it has one)
   * after the calls the rest of the list causes, and leaves it settled at
   * the tail of the list.
   */
  lemma InsertThenWork(hs: seq<Handler>, cb: ModuleCallbacks)
    ensures WorkCalls(hs + [Handler(cb, true, false)])
            == WorkCalls(hs) + (if Init in cb.ops then [Call(Init, cb.kind)] else [])
    ensures AfterWork(hs + [Handler(cb, true, false)]) == AfterWork(hs) + [Handler(cb, false, false)]
  {
    WorkAppend(hs, [Handler(cb, true, false)]);
    assert [Handler(cb, true, false)][..0] == [];
  }

  /**
   * Removal flags exactly the first handler of the given type: the handlers
   * before it are unchanged and not of that type, the ones after it are
   * unchanged; with no handler of that type the list is unchanged.
   */
  lemma MarkFirstDetachExact(hs: seq<Handler>, kind: nat)
    ensures |MarkFirstDetach(hs, kind)| == |hs|
    ensures (forall i :: 0 <= i < |hs| ==> hs[i].cb.kind != kind) ==> MarkFirstDetach(hs, kind) == hs
    ensures forall j :: 0 <= j < |hs| && hs[j].cb.kind == kind && (forall i :: 0 <= i < j ==> hs[i].cb.kind != kind) ==>
      MarkFirstDetach(hs, kind) == hs[..j] + [hs[j].(insert := false, detach := true)] + hs[j + 1..]
  {
    MarkFirstDetachNone(hs, kind);
    forall j | 0 <= j < |hs| && hs[j].cb.kind == kind && (forall i :: 0 <= i < j ==> hs[i].cb.kind != kind)
      ensures MarkFirstDetach(hs, kind) == hs[..j] + [hs[j].(insert := false, detach := true)] + hs[j + 1..]
    {
      MarkFirstDetachAt(hs, kind, j);
    }
  }

  /** Removal keeps the length, and a list without a handler of the given type is left as it is. */
  lemma {:induction false} MarkFirstDetachNone(hs: seq<Handler>, kind: nat)
    ensures |MarkFirstDetach(hs, kind)| == |hs|
    ensures (forall i :: 0 <= i < |hs| ==> hs[i].cb.kind != kind) ==> MarkFirstDetach(hs, kind) == hs
  {
    if hs != [] && hs[0].cb.kind != kind {
      MarkFirstDetachNone(hs[1..], kind);
      if forall i :: 0 <= i < |hs| ==> hs[i].cb.kind != kind {
        assert forall i :: 0 <= i < |hs[1..]| ==> hs[1..][i].cb.kind != kind by {
          forall i | 0 <= i < |hs[1..]| ensures hs[1..][i].cb.kind != kind {
            assert hs[1..][i] == hs[i + 1];
          }
        }
        assert [hs[0]] + hs[1..] == hs;
      }
    }
  }

  /** Removal flags the handler at j when it is the first of the given type, and nothing else. */
  lemma {:induction false} MarkFirstDetachAt(hs: seq<Handler>, kind: nat, j: nat)
    requires j < |hs| && hs[j].cb.kind == kind && forall i :: 0 <= i < j ==> hs[i].cb.kind != kind
    ensures MarkFirstDetach(hs, kind) == hs[..j] + [hs[j].(insert := false, detach := true)] + hs[j + 1..]
  {
    var marked := hs[j].(insert := false, detach := true);
    if j == 0 {
      assert hs[..0] + [marked] + hs[1..] == [marked] + hs[1..];
    } else {
      var t := hs[1..];
      assert t[j - 1] == hs[j];
      assert forall i :: 0 <= i < j - 1 ==> t[i].cb.kind != kind by {
        forall i | 0 <= i < j - 1 ensures t[i].cb.kind != kind {
          assert t[i] == hs[i + 1];
        }
      }
      MarkFirstDetachAt(t, kind, j - 1);
      assert t[..j - 1] == hs[1..j] && t[j..] == hs[j + 1..];
      assert hs[..j] == [hs[0]] + hs[1..j];
      assert [hs[0]] + (hs[1..j] + [marked] + hs[j + 1..]) == hs[..j] + [marked] + hs[j + 1..];
    }
  }

  /** One more handler visited by a fan-out. */
  lemma VisitsStep(before: seq<Call>, hs: seq<Handler>, i: nat, op: ModuleOp)
    requires i < |hs|
    ensures before + Visits(hs[..i + 1], op)
            == before + Visits(hs[..i], op) + (if Settled(hs[i]) && op in hs[i].cb.ops then [Call(op, hs[i].cb.kind)] else [])
  {
    assert hs[..i + 1][..i] == hs[..i];
  }

  /** One more handler processed by the module work. */
  lemma WorkStep(before: seq<Call>, hs: seq<Handler>, i: nat)
    requires i < |hs|
    ensures before + WorkCalls(hs[..i + 1])
            == before + WorkCalls(hs[..i])
               + (if hs[i].insert && Init in hs[i].cb.ops then [Call(Init, hs[i].cb.kind)] else [])
               + (if hs[i].detach && Remove in hs[i].cb.ops then [Call(Remove, hs[i].cb.kind)] else [])
    ensures AfterWork(hs[..i + 1]) == AfterWork(hs[..i]) + (if hs[i].detach then [] else [hs[i].(insert := false)])
  {
    assert hs[..i + 1][..i] == hs[..i];
  }

  // ---------------------------------------------------------------------
  // The registry
  // ---------------------------------------------------------------------

  /** struct syna_tcm_module_pool, with the calls the registry has made so far. */
  class ModulePool {
    var handlers: seq<Handler>
    var initialized: bool
    /** Whether the core has set up the work queue (mod_pool.queue_work). */
    var queueWork: bool
    /** Whether the module work has been queued and not yet run. */
    var workPending: bool
    /** mod_pool_wait_cnt: how many registrations had to wait for the pool. */
    var waitCount: nat
    var calls: seq<Call>

    constructor ()
      ensures handlers == [] && calls == [] && !initialized && !queueWork && !workPending && waitCount == 0
    {
      handlers := [];
      initialized := false;
      queueWork := false;
      workPending := false;
      waitCount := 0;
      calls := [];
    }

    /** Core probe: the pool becomes usable and module work can be queued. */
    method Open()
      modifies this
      ensures initialized && queueWork
      ensures handlers == old(handlers) && calls == old(calls) && waitCount == old(waitCount)
      ensures workPending == old(workPending)
    {
      initialized := true;
      queueWork := true;
    }

    /**
     * syna_tcm_add_module. The pool may still be being set up by the core's
     * probe: `readyAfterMs` is when that finishes, measured from the call, and
     * `allocOk` is whether the handler allocation succeeds.
     */
    method AddModule(cb: ModuleCallbacks, insert: bool, readyAfterMs: nat, allocOk: bool) returns (r: int)
      modifies this
      ensures var ready := old(initialized) || (old(waitCount) == 0 && readyAfterMs <= WAIT_MAX_MS);
        (!ready ==> r == -EINVAL && handlers == old(handlers) && workPending == old(workPending))
        && (ready && insert && !allocOk ==> r == -ENOMEM && handlers == old(handlers) && workPending == old(workPending))
        && (ready && insert && allocOk ==> r == 0 && handlers == old(handlers) + [Handler(cb, true, false)])
        && (ready && !insert ==> r == 0 && handlers == MarkFirstDetach(old(handlers), cb.kind))
        && (r == 0 ==> workPending == (old(workPending) || queueWork))
      ensures waitCount == if !old(initialized) && old(waitCount) == 0 && readyAfterMs <= WAIT_MAX_MS
                           then old(waitCount) + 1 else old(waitCount)
      ensures initialized == (old(initialized) || (old(waitCount) == 0 && readyAfterMs <= WAIT_MAX_MS + WAIT_STEP_MS))
      ensures calls == old(calls) && queueWork == old(queueWork)
    {
      var waitTimeMs := 0;
      while !initialized
        invariant waitTimeMs <= WAIT_MAX_MS && waitTimeMs % WAIT_STEP_MS == 0
        invariant initialized == (old(initialized) || (waitTimeMs > 0 && readyAfterMs <= waitTimeMs))
        invariant waitTimeMs > 0 ==> !old(initialized) && old(waitCount) == 0 && (waitTimeMs == WAIT_STEP_MS || readyAfterMs > waitTimeMs - WAIT_STEP_MS)
        invariant handlers == old(handlers) && calls == old(calls) && waitCount == old(waitCount)
        invariant workPending == old(workPending) && queueWork == old(queueWork)
        decreases WAIT_MAX_MS - waitTimeMs
      {
        if waitCount > 0 {
          return -EINVAL;
        }
        // msleep(WAIT_MOD_INITIALIZED_MS): the core's probe may finish meanwhile.
        waitTimeMs := waitTimeMs + WAIT_STEP_MS;
        if readyAfterMs <= waitTimeMs {
          initialized := true;
        }
        if waitTimeMs > WAIT_MAX_MS {
          return -EINVAL;
        }
      }
      if waitTimeMs > 0 {
        waitCount := waitCount + 1;
      }

      if insert {
        if !allocOk {
          return -ENOMEM;
        }
        handlers := handlers + [Handler(cb, true, false)];
      } else {
        var i := 0;
        while i < |handlers|
          invariant 0 <= i <= |handlers|
          invariant handlers == old(handlers)
          invariant forall k :: 0 <= k < i ==> handlers[k].cb.kind != cb.kind
        {
          if handlers[i].cb.kind == cb.kind {
            MarkFirstDetachExact(handlers, cb.kind);
            handlers := handlers[i := handlers[i].(insert := false, detach := true)];
            break;
          }
          i := i + 1;
        }
        if i == |handlers| {
          MarkFirstDetachExact(handlers, cb.kind);
        }
      }

      if queueWork {
        workPending := true;
      }
      r := 0;
    }

    /** syna_tcm_module_work: apply the deferred inits and removals, in list order. */
    method ModuleWork()
      modifies this
      ensures handlers == AfterWork(old(handlers))
      ensures calls == old(calls) + WorkCalls(old(handlers))
      ensures !workPending
      ensures initialized == old(initialized) && queueWork == old(queueWork) && waitCount == old(waitCount)
    {
      var hs, cs := handlers, calls;
      var kept: seq<Handler> := [];
      var i := 0;
      while i < |hs|
        invariant 0 <= i <= |hs|
        invariant kept == AfterWork(hs[..i])
        invariant cs == old(calls) + WorkCalls(hs[..i])
        invariant hs == old(handlers) && unchanged(this)
      {
        var h := hs[i];
        WorkStep(old(calls), hs, i);
        if h.insert {
          if Init in h.cb.ops {
            cs := cs + [Call(Init, h.cb.kind)];
          }
          h := h.(insert := false);
        }
        if h.detach {
          if Remove in h.cb.ops {
            cs := cs + [Call(Remove, h.cb.kind)];
          }
        } else {
          kept := kept + [h];
        }
        i := i + 1;
      }
      assert hs[..i] == hs;
      handlers, calls, workPending := kept, cs, false;
    }

    /** A notification fan-out (syncbox, reinit, suspend, resume): each settled handler's callback, in list order. */
    method Notify(op: ModuleOp)
      modifies this
      ensures calls == old(calls) + Visits(handlers, op)
      ensures handlers == old(handlers) && initialized == old(initialized) && queueWork == old(queueWork)
      ensures workPending == old(workPending) && waitCount == old(waitCount)
    {
      var hs, cs := handlers, calls;
      var i := 0;
      while i < |hs|
        invariant 0 <= i <= |hs|
        invariant cs == old(calls) + Visits(hs[..i], op)
        invariant hs == old(handlers) && unchanged(this)
      {
        VisitsStep(old(calls), hs, i, op);
        var h := hs[i];
        if !h.insert && !h.detach && op in h.cb.ops {
          cs := cs + [Call(op, h.cb.kind)];
        }
        i := i + 1;
      }
      assert hs[..i] == hs;
      calls := cs;
    }
  }
}
