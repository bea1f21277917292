/**
 * The Xiaomi touch broker (drivers/input/touchscreen/xiaomi/xiaomi_touch.c):
 * a table of touchscreen clients, one per panel, through which user space
 * reads and sets touch modes; three oneshot gesture sensors with a pending
 * event each, a requested enable state each and, per panel, the state last
 * pushed to the driver; and a suspended flag that the display's panel events
 * drive and that decides when requested gesture states reach the driver.
 *
 * The enum values of touch_mode, of the fold status and of the ioctl numbers
 * come from linux/xiaomi_touch.h, which is not part of this model: modes and
 * ioctl commands are datatypes, the fold statuses get the values 0 and 1
 * (only their being distinct matters). The callbacks of a client are
 * recorded, not run: set_mode_value calls are logged in `calls`, and the
 * answer of get_mode_value is a parameter.
 */
module XiaomiTouch {
  import opened Errno

  // ---- enum touch_id ----
  const TOUCH_ID_PRIMARY: nat := 0
  const TOUCH_ID_SECONDARY: nat := 1
  const TOUCH_ID_NUM: nat := 2

  // ---- enum oneshot_sensor_type ----
  const SENSOR_SINGLE_TAP: nat := 0
  const SENSOR_DOUBLE_TAP: nat := 1
  const SENSOR_FOD_PRESS: nat := 2
  const SENSOR_TYPE_NUM: nat := 3

  // ---- fold statuses user space reports through TOUCH_MODE_FOLD_STATUS ----
  const FOLD_STATUS_UNFOLDED: int := 0
  const FOLD_STATUS_FOLDED: int := 1

  /** enum touch_mode: the modes the broker names; any other mode is only forwarded. */
  datatype TouchMode =
    | FodFingerState | NonUiMode | FoldStatus
    | SingleTapGesture | DoubleTapGesture | FodPressGesture
    | ReportRate | OtherMode(code: int)

  datatype Option<T> = None | Some(value: T)

  /** A registered xiaomi_touch_interface: its identity and which of its two callbacks are filled in. */
  datatype Client = Client(id: nat, hasGetMode: bool, hasSetMode: bool)

  /** One call of a client's set_mode_value callback. */
  datatype ModeCall = SetMode(client: nat, mode: TouchMode, value: int)

  /** The modes touch_mode_get and touch_mode_set answer from the broker's own state. */
  predicate IsLocal(mode: TouchMode) {
    mode == FodFingerState || mode == NonUiMode || mode == FoldStatus
  }

  /** The touch mode through which each oneshot sensor is switched in the driver. */
  function SensorMode(sensor: nat): TouchMode
    requires sensor < SENSOR_TYPE_NUM
  {
    if sensor == SENSOR_SINGLE_TAP then SingleTapGesture
    else if sensor == SENSOR_DOUBLE_TAP then DoubleTapGesture
    else FodPressGesture
  }

  lemma SensorModeDistinct(i: nat, j: nat)
    requires i < SENSOR_TYPE_NUM && j < SENSOR_TYPE_NUM
    ensures SensorMode(i) == SensorMode(j) <==> i == j
    ensures !IsLocal(SensorMode(i))
  { }

  predicate IsBit(v: int) { v == 0 || v == 1 }

  /** A per-sensor table of enable states, each 0 or 1. */
  predicate Bits(row: seq<int>) {
    |row| == SENSOR_TYPE_NUM && forall i :: 0 <= i < |row| ==> IsBit(row[i])
  }

  // -------------------------------------------------------------------
  // The client table
  // -------------------------------------------------------------------

  type Table = seq<Option<Client>>

  datatype TableUpdate = TableUpdate(err: int, table: Table)

  /**
   * register_xiaomi_touch_client: an id outside the table, or a slot that
   * already holds a client, is refused with -EINVAL; otherwise the client
   * takes the slot. (touch_id is an enum with no negative value, so a
   * negative id compares as a large unsigned one and is refused too.)
   */
  function Register(table: Table, touchId: int, client: Client): (u: TableUpdate)
    requires |table| == TOUCH_ID_NUM
    ensures |u.table| == TOUCH_ID_NUM
    ensures u.err == 0 || u.err == -EINVAL
    ensures u.err != 0 ==> u.table == table
  {
    if touchId < 0 || touchId >= TOUCH_ID_NUM || table[touchId].Some? then TableUpdate(-EINVAL, table)
    else TableUpdate(0, table[touchId := Some(client)])
  }

  /** unregister_xiaomi_touch_client: only an id outside the table is refused; the slot is emptied. */
  function Unregister(table: Table, touchId: int): (u: TableUpdate)
    requires |table| == TOUCH_ID_NUM
    ensures |u.table| == TOUCH_ID_NUM
    ensures u.err == 0 || u.err == -EINVAL
    ensures u.err == 0 ==> 0 <= touchId < TOUCH_ID_NUM && u.table[touchId] == None
  {
    if touchId < 0 || touchId >= TOUCH_ID_NUM then TableUpdate(-EINVAL, table)
    else TableUpdate(0, table[touchId := None])
  }

  /** A client is registered exactly into an empty, existing slot, and no other slot changes. */
  lemma RegisterTakesEmptySlot(table: Table, touchId: int, client: Client)
    requires |table| == TOUCH_ID_NUM
    ensures Register(table, touchId, client).err == 0 <==> 0 <= touchId < TOUCH_ID_NUM && table[touchId] == None
    ensures var u := Register(table, touchId, client);
      u.err == 0 ==> (u.table[touchId] == Some(client)
                      && forall t :: 0 <= t < TOUCH_ID_NUM && t != touchId ==> u.table[t] == table[t])
  { }

  /** A registered client cannot be replaced: registering into its slot again fails and keeps it. */
  lemma RegisterKeepsClient(table: Table, touchId: int, client: Client, other: Client)
    requires |table| == TOUCH_ID_NUM
    requires Register(table, touchId, client).err == 0
    ensures var t := Register(table, touchId, client).table;
      Register(t, touchId, other) == TableUpdate(-EINVAL, t)
  { }

  /** Unregistering undoes a registration. */
  lemma UnregisterUndoesRegister(table: Table, touchId: int, client: Client)
    requires |table| == TOUCH_ID_NUM
    requires Register(table, touchId, client).err == 0
    ensures Unregister(Register(table, touchId, client).table, touchId) == TableUpdate(0, table)
  { }

  /** Unregistering twice is the same as unregistering once. */
  lemma UnregisterIdempotent(table: Table, touchId: int)
    requires |table| == TOUCH_ID_NUM
    ensures var u := Unregister(table, touchId);
      Unregister(u.table, touchId) == u
  { }

  // -------------------------------------------------------------------
  // Oneshot sensors
  // -------------------------------------------------------------------

  /** atomic_cmpxchg(pending_event, 1, 0): the status read shows the pending value and consumes it only if it is 1. */
  function ReadStatus(pending: int): (r: (int, int))
  {
    (pending, if pending == 1 then 0 else pending)
  }

  /**
   * An event of value 1 is seen by exactly one status read; any other value
   * stays and is seen again.
   */
  lemma StatusReadOnce(pending: int)
    ensures ReadStatus(pending).0 == pending
    ensures ReadStatus(ReadStatus(pending).1).0 == (if pending == 1 then 0 else pending)
  { }

  /** A client whose state oneshot_sensor_update_driver may change: present, with both callbacks. */
  predicate CanUpdate(iface: Option<Client>) {
    iface.Some? && iface.value.hasGetMode && iface.value.hasSetMode
  }

  /** The value oneshot_sensor_update_driver stores for each sensor: the requested one, or 0 when disabling. */
  function Target(enable: bool, requested: seq<int>): (t: seq<int>)
    requires enable ==> |requested| == SENSOR_TYPE_NUM
    ensures |t| == SENSOR_TYPE_NUM
  {
    seq(SENSOR_TYPE_NUM, i requires 0 <= i < SENSOR_TYPE_NUM => if enable then requested[i] else 0)
  }

  /** Disabling stores 0 everywhere; enabling stores what was requested; 0/1 tables stay 0/1 tables. */
  lemma TargetBits(enable: bool, requested: seq<int>)
    requires enable ==> Bits(requested)
    ensures Bits(Target(enable, requested))
    ensures enable ==> Target(enable, requested) == requested
    ensures !enable ==> forall i :: 0 <= i < SENSOR_TYPE_NUM ==> Target(enable, requested)[i] == 0
  { }

  /** The set_mode_value calls for sensors 0 .. n-1, in sensor order: one for each sensor whose stored value changes. */
  function Changes(client: nat, row: seq<int>, target: seq<int>, n: nat): (cs: seq<ModeCall>)
    requires n <= SENSOR_TYPE_NUM && |row| == SENSOR_TYPE_NUM && |target| == SENSOR_TYPE_NUM
    ensures |cs| <= n
    ensures forall k :: 0 <= k < |cs| ==> cs[k].client == client && !IsLocal(cs[k].mode)
  {
    if n == 0 then []
    else
      SensorModeDistinct(n - 1, n - 1);
      Changes(client, row, target, n - 1)
      + (if row[n - 1] != target[n - 1] then [SetMode(client, SensorMode(n - 1), target[n - 1])] else [])
  }

  /** One more sensor looked at: its call, if any, goes after the earlier ones. */
  lemma ChangesNext(client: nat, row: seq<int>, target: seq<int>, i: nat)
    requires i < SENSOR_TYPE_NUM && |row| == SENSOR_TYPE_NUM && |target| == SENSOR_TYPE_NUM
    ensures row[i] != target[i] ==>
      Changes(client, row, target, i + 1) == Changes(client, row, target, i) + [SetMode(client, SensorMode(i), target[i])]
    ensures row[i] == target[i] ==> Changes(client, row, target, i + 1) == Changes(client, row, target, i)
  { }

  /** set_mode_value is called for a sensor exactly when its stored value changes, and with the new value. */
  lemma {:induction false} ChangesExactly(client: nat, row: seq<int>, target: seq<int>, n: nat,
                                          sensor: nat, value: int)
    requires n <= SENSOR_TYPE_NUM && |row| == SENSOR_TYPE_NUM && |target| == SENSOR_TYPE_NUM
    requires sensor < SENSOR_TYPE_NUM
    ensures SetMode(client, SensorMode(sensor), value) in Changes(client, row, target, n)
            <==> sensor < n && row[sensor] != target[sensor] && value == target[sensor]
  {
    if n > 0 {
      ChangesExactly(client, row, target, n - 1, sensor, value);
      SensorModeDistinct(sensor, n - 1);
    }
  }

  /** Nothing changes, nothing is called: a second identical update is silent. */
  lemma {:induction false} ChangesNone(client: nat, row: seq<int>, n: nat)
    requires n <= SENSOR_TYPE_NUM && |row| == SENSOR_TYPE_NUM
    ensures Changes(client, row, row, n) == []
  {
    if n > 0 {
      ChangesNone(client, row, n - 1);
    }
  }

  /** The per-panel table after oneshot_sensor_update_driver(touchId, enable, requested). */
  function UpdateTable(enabled: seq<seq<int>>, touchId: nat, iface: Option<Client>,
                       enable: bool, requested: seq<int>): seq<seq<int>>
    requires touchId < |enabled|
    requires enable ==> |requested| == SENSOR_TYPE_NUM
  {
    if CanUpdate(iface) then enabled[touchId := Target(enable, requested)] else enabled
  }

  /** The set_mode_value calls of oneshot_sensor_update_driver on a panel whose stored row is `row`. */
  function UpdateCalls(row: seq<int>, iface: Option<Client>, enable: bool, requested: seq<int>): seq<ModeCall>
    requires |row| == SENSOR_TYPE_NUM
    requires enable ==> |requested| == SENSOR_TYPE_NUM
  {
    if CanUpdate(iface) then Changes(iface.value.id, row, Target(enable, requested), SENSOR_TYPE_NUM) else []
  }

  /**
   * What oneshot_sensor_update_driver promises: with a usable client the
   * panel's row ends as the requested states (or all 0 when disabling), the
   * other panel's row is untouched, and the client is told exactly about
   * the sensors whose stored value changed; without one nothing happens.
   */
  lemma UpdateDriverMeaning(enabled: seq<seq<int>>, touchId: nat, iface: Option<Client>,
                            enable: bool, requested: seq<int>, sensor: nat, value: int)
    requires touchId < |enabled| && |enabled[touchId]| == SENSOR_TYPE_NUM && sensor < SENSOR_TYPE_NUM
    requires enable ==> |requested| == SENSOR_TYPE_NUM
    ensures var e := UpdateTable(enabled, touchId, iface, enable, requested);
      |e| == |enabled|
      && (forall t :: 0 <= t < |enabled| && t != touchId ==> e[t] == enabled[t])
      && (CanUpdate(iface) ==> e[touchId][sensor] == if enable then requested[sensor] else 0)
      && (!CanUpdate(iface) ==> e == enabled)
    ensures CanUpdate(iface) ==>
      (SetMode(iface.value.id, SensorMode(sensor), value) in UpdateCalls(enabled[touchId], iface, enable, requested)
       <==> enabled[touchId][sensor] != Target(enable, requested)[sensor] && value == Target(enable, requested)[sensor])
    ensures !CanUpdate(iface) ==> UpdateCalls(enabled[touchId], iface, enable, requested) == []
  {
    if CanUpdate(iface) {
      ChangesExactly(iface.value.id, enabled[touchId], Target(enable, requested), SENSOR_TYPE_NUM, sensor, value);
    }
  }

  /** Pushing the same request twice: the second push changes nothing and calls nobody. */
  lemma UpdateDriverSettles(enabled: seq<seq<int>>, touchId: nat, iface: Option<Client>,
                            enable: bool, requested: seq<int>)
    requires touchId < |enabled| && |enabled[touchId]| == SENSOR_TYPE_NUM
    requires enable ==> |requested| == SENSOR_TYPE_NUM
    ensures var e := UpdateTable(enabled, touchId, iface, enable, requested);
      UpdateTable(e, touchId, iface, enable, requested) == e
      && UpdateCalls(e[touchId], iface, enable, requested) == []
  {
    if CanUpdate(iface) {
      ChangesNone(iface.value.id, Target(enable, requested), SENSOR_TYPE_NUM);
    }
  }

  // -------------------------------------------------------------------
  // Fold status
  // -------------------------------------------------------------------

  /** touch_mode_get on TOUCH_MODE_FOLD_STATUS: the fold status the active panel stands for. */
  function FoldStatusOf(touchId: nat): int
  {
    if touchId == TOUCH_ID_PRIMARY then FOLD_STATUS_UNFOLDED
    else if touchId == TOUCH_ID_SECONDARY then FOLD_STATUS_FOLDED
    else -EINVAL
  }

  /** The panel a fold status asks for: the primary when unfolded, the secondary when folded. */
  function FoldTouchId(value: int): Option<nat>
  {
    if value == FOLD_STATUS_UNFOLDED then Some(TOUCH_ID_PRIMARY)
    else if value == FOLD_STATUS_FOLDED then Some(TOUCH_ID_SECONDARY)
    else None
  }

  /** Fold statuses and panels correspond one to one. */
  lemma FoldStatusRoundTrip(value: int, touchId: nat)
    ensures FoldTouchId(value).Some? ==> FoldTouchId(value).value < TOUCH_ID_NUM
    ensures FoldTouchId(value).Some? ==> FoldStatusOf(FoldTouchId(value).value) == value
    ensures touchId < TOUCH_ID_NUM ==> FoldTouchId(FoldStatusOf(touchId)) == Some(touchId)
  { }

  /**
   * touch_mode_set on TOUCH_MODE_FOLD_STATUS as written: each valid case
   * returns 0 from inside the inner switch, so the panel change after it is
   * never reached; the result is (return value, active panel afterwards).
   */
  function FoldSwitchAsWritten(active: nat, value: int): (int, nat)
  {
    if FoldTouchId(value).None? then (-EINVAL, active) else (0, active)
  }

  /** As written, reporting "folded" while unfolded succeeds and still reports "unfolded" afterwards. */
  lemma FoldSwitchAsWrittenIgnoresFold()
    ensures var o := FoldSwitchAsWritten(TOUCH_ID_PRIMARY, FOLD_STATUS_FOLDED);
      o.0 == 0 && FoldStatusOf(o.1) == FOLD_STATUS_UNFOLDED && FoldStatusOf(o.1) != FOLD_STATUS_FOLDED
  { }

  /** touch_mode_set on TOUCH_MODE_FOLD_STATUS as intended: a valid status makes its panel the active one. */
  function FoldSwitch(active: nat, value: int): (int, nat)
  {
    match FoldTouchId(value)
    case None => (-EINVAL, active)
    case Some(touchId) => (0, touchId)
  }

  /** A fold status that is accepted is the one reported afterwards; any other is refused and changes nothing. */
  lemma FoldSwitchReported(active: nat, value: int)
    requires active < TOUCH_ID_NUM
    ensures var o := FoldSwitch(active, value);
      o.1 < TOUCH_ID_NUM
      && (o.0 == 0 <==> value == FOLD_STATUS_UNFOLDED || value == FOLD_STATUS_FOLDED)
      && (o.0 == 0 ==> FoldStatusOf(o.1) == value)
      && (o.0 != 0 ==> o == (-EINVAL, active))
  { }

  // -------------------------------------------------------------------
  // Panel events and the ioctl interface
  // -------------------------------------------------------------------

  /** The panel event types touch_panel_event_callback tells apart. */
  datatype PanelEvent = Blank | BlankLowPower | Unblank | OtherPanelEvent

  datatype Notification = Notification(event: PanelEvent, earlyTrigger: bool)

  /** _IOC_NR of an ioctl command: TOUCH_MODE_SET, TOUCH_MODE_GET or anything else. */
  datatype IoctlCommand = ModeSetIoctl | ModeGetIoctl | OtherIoctl(nr: int)

  /** struct touch_mode_request. */
  datatype ModeRequest = ModeRequest(mode: TouchMode, value: int)

  // -------------------------------------------------------------------
  // The broker's state
  // -------------------------------------------------------------------

  class Broker {
    /** interfaces[]: the registered client of each panel. */
    var interfaces: Table
    /** Whether xiaomi_touch_init has filled oneshot_sensor_map. */
    const sensorsMapped: bool
    /** pending_event of each oneshot sensor. */
    var pendingEvent: seq<int>
    /** oneshot_sensor_enabled_requested[]: what user space asked for. */
    var requested: seq<int>
    /** oneshot_sensor_enabled[][]: per panel, what was last pushed to its driver. */
    var enabled: seq<seq<int>>
    var suspended: bool
    /** Whether oneshot_sensor_enable_work is queued. */
    var enableWorkQueued: bool
    var fodFingerState: int
    var activeTouchId: nat
    var pocketDisableGestures: int
    /** The set_mode_value calls made so far, oldest first. */
    var calls: seq<ModeCall>

    predicate Valid()
      reads this
    {
      |interfaces| == TOUCH_ID_NUM && |pendingEvent| == SENSOR_TYPE_NUM && Bits(requested)
      && |enabled| == TOUCH_ID_NUM && (forall t :: 0 <= t < TOUCH_ID_NUM ==> Bits(enabled[t]))
      && activeTouchId < TOUCH_ID_NUM
    }

    /** The broker as the module is loaded: no client, nothing pending, requested or enabled, resumed. */
    constructor (sensorsMapped: bool)
      ensures Valid() && this.sensorsMapped == sensorsMapped
      ensures interfaces == [None, None] && pendingEvent == [0, 0, 0] && requested == [0, 0, 0]
      ensures enabled == [[0, 0, 0], [0, 0, 0]] && !suspended && !enableWorkQueued
      ensures fodFingerState == 0 && activeTouchId == TOUCH_ID_PRIMARY && pocketDisableGestures == 0 && calls == []
    {
      this.sensorsMapped := sensorsMapped;
      interfaces := [None, None];
      pendingEvent := [0, 0, 0];
      requested := [0, 0, 0];
      enabled := [[0, 0, 0], [0, 0, 0]];
      suspended := false;
      enableWorkQueued := false;
      fodFingerState := 0;
      activeTouchId := TOUCH_ID_PRIMARY;
      pocketDisableGestures := 0;
      calls := [];
    }

    /** register_xiaomi_touch_client. */
    method RegisterClient(touchId: int, client: Client) returns (r: int)
      requires Valid()
      modifies this`interfaces
      ensures Valid()
      ensures TableUpdate(r, interfaces) == Register(old(interfaces), touchId, client)
    {
      if touchId < 0 || touchId >= TOUCH_ID_NUM || interfaces[touchId].Some? {
        return -EINVAL;
      }
      interfaces := interfaces[touchId := Some(client)];
      r := 0;
    }

    /** unregister_xiaomi_touch_client. */
    method UnregisterClient(touchId: int) returns (r: int)
      requires Valid()
      modifies this`interfaces
      ensures Valid()
      ensures TableUpdate(r, interfaces) == Unregister(old(interfaces), touchId)
    {
      if touchId < 0 || touchId >= TOUCH_ID_NUM {
        return -EINVAL;
      }
      interfaces := interfaces[touchId := None];
      r := 0;
    }

    /**
     * notify_oneshot_sensor: an unknown sensor (or one not mapped yet) is
     * refused; in pocket / non-UI mode the event is dropped; otherwise it
     * becomes the sensor's pending event.
     */
    method NotifyOneshotSensor(sensorType: int, value: int) returns (r: int)
      requires Valid()
      modifies this`pendingEvent
      ensures Valid()
      ensures r == 0 <==> 0 <= sensorType < SENSOR_TYPE_NUM && sensorsMapped
      ensures r == 0 || r == -EINVAL
      ensures r == 0 && pocketDisableGestures == 0 ==> pendingEvent == old(pendingEvent)[sensorType := value]
      ensures r != 0 || pocketDisableGestures != 0 ==> pendingEvent == old(pendingEvent)
    {
      if sensorType < 0 || sensorType >= SENSOR_TYPE_NUM || !sensorsMapped {
        return -EINVAL;
      }
      if pocketDisableGestures == 0 {
        pendingEvent := pendingEvent[sensorType := value];
      }
      r := 0;
    }

    /** oneshot_sensor_status_show: the pending event, consumed when it is 1. */
    method StatusShow(sensor: nat) returns (shown: int)
      requires Valid() && sensor < SENSOR_TYPE_NUM
      modifies this`pendingEvent
      ensures Valid()
      ensures (shown, pendingEvent[sensor]) == ReadStatus(old(pendingEvent[sensor]))
      ensures pendingEvent == old(pendingEvent)[sensor := pendingEvent[sensor]]
    {
      shown := pendingEvent[sensor];
      if shown == 1 {
        pendingEvent := pendingEvent[sensor := 0];
      }
    }

    /** oneshot_sensor_enabled_show: the requested state of a sensor. */
    function EnabledShow(sensor: nat): (v: int)
      requires Valid() && sensor < SENSOR_TYPE_NUM
      reads this
      ensures IsBit(v)
    {
      requested[sensor]
    }

    /**
     * oneshot_sensor_enabled_store: `parsed` is what kstrtouint made of the
     * input (None when it is not a number). Only 0 and 1 are taken; a change
     * of the requested state requeues the enable work; the whole input is
     * consumed.
     */
    method EnabledStore(sensor: nat, parsed: Option<nat>, count: nat) returns (r: int)
      requires Valid() && sensor < SENSOR_TYPE_NUM
      modifies this`requested, this`enableWorkQueued
      ensures Valid()
      ensures r == (if parsed.Some? && IsBit(parsed.value) then count else -EINVAL)
      ensures r == -EINVAL ==> requested == old(requested) && enableWorkQueued == old(enableWorkQueued)
      ensures parsed.Some? && IsBit(parsed.value) ==>
        requested == old(requested)[sensor := parsed.value] && EnabledShow(sensor) == parsed.value
        && enableWorkQueued == (old(enableWorkQueued) || old(requested[sensor]) != parsed.value)
    {
      if parsed.None? {
        return -EINVAL;
      }
      var enable := parsed.value;
      if enable > 1 {
        return -EINVAL;
      }
      var previous := requested[sensor];
      requested := requested[sensor := enable];
      if previous != enable {
        enableWorkQueued := true;
      }
      r := count;
    }

    /**
     * oneshot_sensor_update_driver: push `requestedState` (or all zeros when
     * disabling) into the panel's row of stored states, calling the client's
     * set_mode_value for each sensor whose stored value changes. Nothing
     * happens unless the panel has a client with both callbacks. The loop
     * exchanges the row's entries one by one in a copy that is stored when
     * the pass is over.
     */
    method UpdateDriver(touchId: nat, enable: bool, requestedState: seq<int>)
      requires Valid() && touchId < TOUCH_ID_NUM
      requires enable ==> Bits(requestedState)
      modifies this`enabled, this`calls
      ensures Valid()
      ensures enabled == UpdateTable(old(enabled), touchId, interfaces[touchId], enable, requestedState)
      ensures calls == old(calls) + UpdateCalls(old(enabled[touchId]), interfaces[touchId], enable, requestedState)
    {
      var iface := interfaces[touchId];
      if iface.None? || !iface.value.hasGetMode || !iface.value.hasSetMode {
        return;
      }
      var client := iface.value.id;
      var row, sent := enabled[touchId], [];
      ghost var row0 := row;
      ghost var target := Target(enable, requestedState);
      TargetBits(enable, requestedState);
      var i := 0;
      while i < SENSOR_TYPE_NUM
        invariant unchanged(this)
        invariant i <= SENSOR_TYPE_NUM && |row| == SENSOR_TYPE_NUM
        invariant forall j :: 0 <= j < i ==> row[j] == target[j]
        invariant forall j :: i <= j < SENSOR_TYPE_NUM ==> row[j] == row0[j]
        invariant sent == Changes(client, row0, target, i)
      {
        var value := if enable then requestedState[i] else 0;
        var previous := row[i];
        ChangesNext(client, row0, target, i);
        row := row[i := value];
        if previous != value {
          sent := sent + [SetMode(client, SensorMode(i), value)];
        }
        i := i + 1;
      }
      assert row == target;
      enabled := enabled[touchId := row];
      calls := calls + sent;
    }

    /** oneshot_sensor_enable_handler: requested states reach the active panel only while suspended. */
    method EnableHandler()
      requires Valid()
      modifies this`enabled, this`calls
      ensures Valid()
      ensures !suspended ==> enabled == old(enabled) && calls == old(calls)
      ensures suspended ==>
        enabled == UpdateTable(old(enabled), activeTouchId, interfaces[activeTouchId], true, requested)
        && calls == old(calls) + UpdateCalls(old(enabled[activeTouchId]), interfaces[activeTouchId], true, requested)
    {
      if suspended {
        UpdateDriver(activeTouchId, true, requested);
      }
    }

    /** The workqueue runs the queued enable work. */
    method RunEnableWork()
      requires Valid() && enableWorkQueued
      modifies this`enabled, this`calls, this`enableWorkQueued
      ensures Valid() && !enableWorkQueued
      ensures !suspended ==> enabled == old(enabled) && calls == old(calls)
      ensures suspended ==>
        enabled == UpdateTable(old(enabled), activeTouchId, interfaces[activeTouchId], true, requested)
        && calls == old(calls) + UpdateCalls(old(enabled[activeTouchId]), interfaces[activeTouchId], true, requested)
    {
      enableWorkQueued := false;
      EnableHandler();
    }

    /**
     * touch_mode_get: the fod finger state, the non-UI flag and the fold
     * status come from the broker; any other mode is asked of the active
     * panel's client, whose answer is `answer`, or fails with -EFAULT when
     * there is no client or it cannot be asked.
     */
    function TouchModeGet(mode: TouchMode, answer: int): (v: int)
      requires Valid()
      reads this
      ensures mode == FoldStatus ==> FoldTouchId(v) == Some(activeTouchId)
      ensures !IsLocal(mode) ==> v == answer || v == -EFAULT
      ensures !IsLocal(mode) && answer != -EFAULT ==>
        (v == -EFAULT <==> interfaces[activeTouchId].None? || !interfaces[activeTouchId].value.hasGetMode)
    {
      match mode
      case FodFingerState => fodFingerState
      case NonUiMode => pocketDisableGestures
      case FoldStatus => FoldStatusOf(activeTouchId)
      case _ =>
        var iface := interfaces[activeTouchId];
        if iface.None? || !iface.value.hasGetMode then -EFAULT else answer
    }

    /**
     * The panel change of TOUCH_MODE_FOLD_STATUS as intended: the gestures
     * enabled on the old panel are enabled on the new one, the old one is
     * disabled, and the new one becomes active.
     */
    method SwitchPanel(touchId: nat)
      requires Valid() && touchId < TOUCH_ID_NUM
      modifies this`enabled, this`calls, this`activeTouchId
      ensures Valid() && activeTouchId == touchId
      ensures old(activeTouchId) == touchId ==> enabled == old(enabled) && calls == old(calls)
      ensures old(activeTouchId) != touchId ==>
        var was := old(activeTouchId);
        var e := UpdateTable(old(enabled), touchId, interfaces[touchId], true, old(enabled[was]));
        enabled == UpdateTable(e, was, interfaces[was], false, [])
        && calls == old(calls) + UpdateCalls(old(enabled[touchId]), interfaces[touchId], true, old(enabled[was]))
                                + UpdateCalls(old(enabled[was]), interfaces[was], false, [])
    {
      var was := activeTouchId;
      if was != touchId {
        UpdateDriver(touchId, true, enabled[was]);
        UpdateDriver(was, false, []);
        activeTouchId := touchId;
      }
    }

    /**
     * What touch_mode_set leaves behind, with the fold-status panel change
     * reached: the fod finger state and the non-UI flag are stored; a valid
     * fold status switches the active panel and an invalid one is refused;
     * any other mode goes to the active panel's client (its result is not
     * looked at), or fails with -EFAULT when there is none or it cannot set
     * modes. A local mode that was set reads back as the value set.
     */
    twostate predicate ModeSetDone(mode: TouchMode, value: int, r: int)
      reads this
    {
      && (IsLocal(mode) && r == 0 && Valid() ==> forall answer :: TouchModeGet(mode, answer) == value)
      && (mode == FodFingerState ==> r == 0 && pocketDisableGestures == old(pocketDisableGestures))
      && (mode == NonUiMode ==> r == 0 && fodFingerState == old(fodFingerState))
      && (mode != FoldStatus ==> enabled == old(enabled) && activeTouchId == old(activeTouchId))
      && (mode == FoldStatus ==>
            (r, activeTouchId) == FoldSwitch(old(activeTouchId), value)
            && fodFingerState == old(fodFingerState)
            && pocketDisableGestures == old(pocketDisableGestures))
      && (mode == FoldStatus && r != 0 ==> enabled == old(enabled) && calls == old(calls))
      && (!IsLocal(mode) && old(activeTouchId) < |old(interfaces)| ==>
            var iface := old(interfaces)[old(activeTouchId)];
            fodFingerState == old(fodFingerState) && pocketDisableGestures == old(pocketDisableGestures)
            && r == (if iface.Some? && iface.value.hasSetMode then 0 else -EFAULT)
            && calls == old(calls) + (if r == 0 then [SetMode(iface.value.id, mode, value)] else []))
      && (IsLocal(mode) && mode != FoldStatus ==> calls == old(calls))
    }

    /** touch_mode_set: ends as `ModeSetDone` describes. */
    method TouchModeSet(mode: TouchMode, value: int) returns (r: int)
      requires Valid()
      modifies this`fodFingerState, this`pocketDisableGestures, this`enabled, this`calls, this`activeTouchId
      ensures Valid()
      ensures ModeSetDone(mode, value, r)
    {
      match mode
      case FodFingerState =>
        fodFingerState := value;
        r := 0;
      case NonUiMode =>
        pocketDisableGestures := value;
        r := 0;
      case FoldStatus =>
        var requestedTouchId := FoldTouchId(value);
        if requestedTouchId.None? {
          return -EINVAL;
        }
        FoldStatusRoundTrip(value, requestedTouchId.value);
        SwitchPanel(requestedTouchId.value);
        r := 0;
      case _ =>
        var iface := interfaces[activeTouchId];
        if iface.None? || !iface.value.hasSetMode {
          return -EFAULT;
        }
        calls := calls + [SetMode(iface.value.id, mode, value)];
        r := 0;
    }

    /**
     * touch_panel_event_callback: a blank (or low-power blank) that has
     * happened suspends and queues the enable work; an unblank that is about
     * to happen resumes and cancels it; anything else, or no notification,
     * changes nothing.
     */
    method PanelEventCallback(notification: Option<Notification>)
      modifies this`suspended, this`enableWorkQueued
      ensures (notification.Some? && notification.value.event in {Blank, BlankLowPower}
               && !notification.value.earlyTrigger) ==> suspended && enableWorkQueued
      ensures (notification.Some? && notification.value.event == Unblank
               && notification.value.earlyTrigger) ==> !suspended && !enableWorkQueued
      ensures notification.None?
              || (notification.value.event in {Blank, BlankLowPower} && notification.value.earlyTrigger)
              || (notification.value.event == Unblank && !notification.value.earlyTrigger)
              || notification.value.event == OtherPanelEvent
              ==> suspended == old(suspended) && enableWorkQueued == old(enableWorkQueued)
    {
      if notification.None? {
        return;
      }
      var n := notification.value;
      match n.event
      case Blank | BlankLowPower =>
        if !n.earlyTrigger {
          suspended := true;
          enableWorkQueued := true;
        }
      case Unblank =>
        if n.earlyTrigger {
          suspended := false;
          enableWorkQueued := false;
        }
      case OtherPanelEvent =>
    }

    /**
     * xiaomi_touch_dev_ioctl: `request` is what copy_from_user read (None
     * when it failed), `answer` what the client's get_mode_value would
     * answer and `uncopied` what copy_to_user leaves uncopied. A get that
     * yields a negative value is refused with -EINVAL; otherwise the value
     * is handed back in the request; a set is touch_mode_set. Unknown
     * commands are refused.
     */
    method Ioctl(command: IoctlCommand, request: Option<ModeRequest>, answer: int, uncopied: nat)
      returns (r: int, reply: Option<ModeRequest>)
      requires Valid()
      modifies this`fodFingerState, this`pocketDisableGestures, this`enabled, this`calls, this`activeTouchId
      ensures Valid()
      ensures request.None? ==> r == -EFAULT && reply.None? && unchanged(this)
      ensures request.Some? && command.OtherIoctl? ==> r == -EINVAL && reply.None? && unchanged(this)
      ensures request.Some? && command == ModeGetIoctl ==>
        var v := old(TouchModeGet(request.value.mode, answer));
        unchanged(this)
        && (v < 0 ==> r == -EINVAL && reply.None?)
        && (v >= 0 ==> r == uncopied && reply == Some(request.value.(value := v)))
      ensures request.Some? && command == ModeSetIoctl ==>
        reply.None? && (r == 0 || r == -EINVAL || r == -EFAULT)
        && ModeSetDone(request.value.mode, request.value.value, r)
    {
      reply := None;
      if request.None? {
        return -EFAULT, None;
      }
      var req := request.value;
      match command
      case ModeSetIoctl =>
        r := TouchModeSet(req.mode, req.value);
      case ModeGetIoctl =>
        var v := TouchModeGet(req.mode, answer);
        if v < 0 {
          r := -EINVAL;
        } else {
          r := uncopied;
          reply := Some(req.(value := v));
        }
      case OtherIoctl(_) =>
        r := -EINVAL;
    }
  }
}
