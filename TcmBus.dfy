/**
 * The hardware interface the TCM core talks through (hw_if->bus_io and the
 * attention interrupt), as the environment of the model: what each read
 * delivers, whether each write is accepted, and how many messages the device
 * sends while a command waits for its response are scripted in advance; the
 * writes the device accepted are logged.
 */
module TcmBus {
  import opened Errno
  import opened TcmProtocol
  import opened TcmChunks

  /** A write attempt is accepted unless the script says it fails; an exhausted script accepts. */
  predicate WriteAccepted(outcomes: seq<bool>)
  {
    outcomes == [] || outcomes[0]
  }

  /** How many of n consecutive writes go through before the first rejected one (n when none is). */
  function Accepted(outcomes: seq<bool>, n: nat): (k: nat)
    ensures k <= n
  {
    if n == 0 then 0
    else if !WriteAccepted(outcomes) then 0
    else 1 + Accepted(if outcomes == [] then [] else outcomes[1..], n - 1)
  }

  /** The write script left after a loop of n writes that stops at the first rejected one. */
  function OutcomesLeft(outcomes: seq<bool>, n: nat): seq<bool>
  {
    if n == 0 || outcomes == [] then outcomes
    else if !outcomes[0] then outcomes[1..]
    else OutcomesLeft(outcomes[1..], n - 1)
  }

  /**
   * All n writes go through exactly when none of the first n scripted
   * outcomes is a rejection; otherwise the count is the position of the
   * first rejection.
   */
  lemma {:induction false} AcceptedAll(outcomes: seq<bool>, n: nat)
    ensures Accepted(outcomes, n) == n <==> forall j :: 0 <= j < n && j < |outcomes| ==> outcomes[j]
    ensures Accepted(outcomes, n) < n ==>
      Accepted(outcomes, n) < |outcomes| && !outcomes[Accepted(outcomes, n)]
      && forall j :: 0 <= j < Accepted(outcomes, n) ==> outcomes[j]
  {
    if n > 0 && outcomes == [] {
      AcceptedAll(outcomes, n - 1);
    } else if n > 0 && outcomes[0] {
      AcceptedAll(outcomes[1..], n - 1);
      assert forall j :: 1 <= j < |outcomes| ==> outcomes[j] == outcomes[1..][j - 1];
    }
  }

  /** The write log, the write script left and the error after a loop writing `frames`. */
  datatype Sent = Sent(tx: seq<seq<byte>>, outcomes: seq<bool>, err: int)

  /** A loop writing `frames` one after the other that stops at the first rejected write. */
  function SendAll(tx: seq<seq<byte>>, outcomes: seq<bool>, frames: seq<seq<byte>>): Sent
    decreases |frames|
  {
    if frames == [] then Sent(tx, outcomes, 0)
    else if !WriteAccepted(outcomes) then Sent(tx, OutcomesLeft(outcomes, 1), BUS_ERROR)
    else SendAll(tx + [frames[0]], OutcomesLeft(outcomes, 1), frames[1..])
  }

  /**
   * Such a loop logs exactly the frames before the first rejected write,
   * consumes one script entry per attempt and fails with BUS_ERROR exactly
   * when a write is rejected.
   */
  lemma {:induction false} SendAllAccepted(tx: seq<seq<byte>>, outcomes: seq<bool>, frames: seq<seq<byte>>)
    ensures var s := SendAll(tx, outcomes, frames);
      var k := Accepted(outcomes, |frames|);
      s.tx == tx + frames[..k]
      && s.outcomes == OutcomesLeft(outcomes, |frames|)
      && (s.err == 0 <==> k == |frames|)
      && (s.err != 0 ==> s.err == BUS_ERROR)
    decreases |frames|
  {
    if frames != [] && WriteAccepted(outcomes) {
      SendAllAccepted(tx + [frames[0]], OutcomesLeft(outcomes, 1), frames[1..]);
      var k := Accepted(outcomes, |frames|);
      assert k == 1 + Accepted(OutcomesLeft(outcomes, 1), |frames| - 1);
      assert frames[..k] == [frames[0]] + frames[1..][..k - 1];
    }
  }

  /**
   * A loop at write idx of `frames`: the write is logged and the loop goes
   * on when accepted, and ends with BUS_ERROR otherwise.
   */
  lemma SendStep(tx: seq<seq<byte>>, outcomes: seq<bool>, frames: seq<seq<byte>>, idx: nat)
    requires idx < |frames|
    ensures SendAll(tx, outcomes, frames[idx..])
            == if WriteAccepted(outcomes) then SendAll(tx + [frames[idx]], OutcomesLeft(outcomes, 1), frames[idx + 1..])
               else Sent(tx, OutcomesLeft(outcomes, 1), BUS_ERROR)
  {
    assert frames[idx..][1..] == frames[idx + 1..];
  }

  class TcmBus {
    /** What each coming read delivers. */
    var rx: seq<BusRead>
    /** Whether each coming write is accepted. */
    var writeOutcomes: seq<bool>
    /** The writes the device accepted, in order. */
    var tx: seq<seq<byte>>
    /** For each coming response wait: messages the device sends before RESPONSE_TIMEOUT_MS runs out. */
    var attention: seq<nat>

    constructor(rx: seq<BusRead>, writeOutcomes: seq<bool>, attention: seq<nat>)
      ensures this.rx == rx && this.writeOutcomes == writeOutcomes && this.attention == attention
      ensures tx == []
    {
      this.rx := rx;
      this.writeOutcomes := writeOutcomes;
      this.attention := attention;
      tx := [];
    }

    /** syna_tcm_read: `n` bytes clocked in, or BUS_ERROR. */
    method Read(n: nat) returns (r: int, bytes: seq<byte>)
      modifies this
      ensures |bytes| == n
      ensures old(rx) == [] || old(rx)[0].Failed? ==> r == BUS_ERROR
      ensures old(rx) != [] && old(rx)[0].Delivered? ==> r == 0 && bytes == Clocked(old(rx)[0].bytes, n)
      ensures rx == if old(rx) == [] then [] else old(rx)[1..]
      ensures tx == old(tx) && writeOutcomes == old(writeOutcomes) && attention == old(attention)
    {
      if rx == [] || rx[0].Failed? {
        r, bytes := BUS_ERROR, seq(n, _ => 0);
        rx := if rx == [] then [] else rx[1..];
      } else {
        r, bytes := 0, Clocked(rx[0].bytes, n);
        rx := rx[1..];
      }
    }

    /** syna_tcm_write: the frame is accepted and logged, or BUS_ERROR. */
    method Write(frame: seq<byte>) returns (r: int)
      modifies this
      ensures WriteAccepted(old(writeOutcomes)) ==> r == 0 && tx == old(tx) + [frame]
      ensures !WriteAccepted(old(writeOutcomes)) ==> r == BUS_ERROR && tx == old(tx)
      ensures writeOutcomes == OutcomesLeft(old(writeOutcomes), 1)
      ensures rx == old(rx) && attention == old(attention)
    {
      if WriteAccepted(writeOutcomes) {
        r := 0;
        tx := tx + [frame];
      } else {
        r := BUS_ERROR;
      }
      writeOutcomes := if writeOutcomes == [] then [] else writeOutcomes[1..];
    }

    /** The number of messages the device sends during the next response wait. */
    method Attention() returns (k: nat)
      modifies this
      ensures k == if old(attention) == [] then 0 else old(attention)[0]
      ensures attention == if old(attention) == [] then [] else old(attention)[1..]
      ensures rx == old(rx) && tx == old(tx) && writeOutcomes == old(writeOutcomes)
    {
      k := if attention == [] then 0 else attention[0];
      attention := if attention == [] then [] else attention[1..];
    }
  }
}
