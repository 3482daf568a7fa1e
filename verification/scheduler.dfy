/**
 * The render scheduler: builds the content providers and notification sources, keeps the
 * index of the provider on screen, and runs the control loop over already-resolved
 * events (which branch of the `select!` won is an input). Its output is the trace of
 * device operations and the way `start` ends.
 */
module Scheduler {
  import opened Wrappers
  import Device
  import Multiplex
  import opened Arith

  /** Milliseconds per render tick, and the ticks in one second. */
  const TICK_LENGTH: nat := 50
  const TICKS_PER_SECOND: nat := 1000 / TICK_LENGTH

  /** One more than the largest `usize`; `wrapping_add` wraps at this value. */
  const USIZE_LIMIT: nat := 0x1_0000_0000_0000_0000

  datatype Command = PreviousSource | NextSource | Shutdown

  datatype DeviceOp = Draw(fb: Device.FrameBuffer) | Clear

  /** The items a content stream produces. */
  type Content = Result<Device.FrameBuffer>

  /** A registered content provider after construction: its name and the outcome of
      `proxy_stream` (the stream's items when it could be built). */
  datatype Provider = Provider(name: string, stream: Result<seq<Content>>)

  /** The configuration, reduced to its boolean keys. */
  type Config = map<string, bool>

  function EnabledKey(name: string): (k: string)
    ensures k == name + ".enabled"
    ensures |k| == |name| + 8
  {
    name + ".enabled"
  }

  /** `config.get_bool("<name>.enabled").unwrap_or(true)`. */
  predicate Enabled(config: Config, name: string) {
    EnabledKey(name) in config ==> config[EnabledKey(name)]
  }

  /** A provider is kept when it is enabled and its stream could be built. */
  predicate Active(config: Config, p: Provider) {
    Enabled(config, p.name) && p.stream.Ok?
  }

  /** The streams of the kept providers, in registration order. */
  function ActiveStreams(config: Config, ps: seq<Provider>): (r: seq<seq<Content>>)
    ensures |r| <= |ps|
  {
    if |ps| == 0 then []
    else
      (if Active(config, ps[0]) then [ps[0].stream.value] else []) + ActiveStreams(config, ps[1..])
  }

  /** Filtering distributes over concatenation, so the kept streams keep their order. */
  lemma {:induction false} ActiveStreamsAppend(config: Config, a: seq<Provider>, b: seq<Provider>)
    ensures ActiveStreams(config, a + b) == ActiveStreams(config, a) + ActiveStreams(config, b)
  {
    if |a| == 0 {
      assert a + b == b;
    } else {
      var head := if Active(config, a[0]) then [a[0].stream.value] else [];
      assert (a + b)[0] == a[0];
      assert (a + b)[1..] == a[1..] + b;
      assert ActiveStreams(config, a + b) == head + ActiveStreams(config, a[1..] + b);
      ActiveStreamsAppend(config, a[1..], b);
      assert ActiveStreams(config, a) == head + ActiveStreams(config, a[1..]);
      assert head + (ActiveStreams(config, a[1..]) + ActiveStreams(config, b))
          == (head + ActiveStreams(config, a[1..])) + ActiveStreams(config, b);
    }
  }

  /** A stream is kept exactly when its provider is active. */
  lemma {:induction false} ActiveStreamsMembers(config: Config, ps: seq<Provider>, s: seq<Content>)
    ensures s in ActiveStreams(config, ps) <==>
      exists i :: 0 <= i < |ps| && Active(config, ps[i]) && ps[i].stream.value == s
  {
    if |ps| > 0 {
      ActiveStreamsMembers(config, ps[1..], s);
      if s in ActiveStreams(config, ps[1..]) {
        var i :| 0 <= i < |ps[1..]| && Active(config, ps[1..][i]) && ps[1..][i].stream.value == s;
        assert ps[i + 1] == ps[1..][i];
      }
      if exists i :: 0 <= i < |ps| && Active(config, ps[i]) && ps[i].stream.value == s {
        var i :| 0 <= i < |ps| && Active(config, ps[i]) && ps[i].stream.value == s;
        if i > 0 {
          assert ps[1..][i - 1] == ps[i];
        }
      }
    }
  }

  /** The first failing factory, if any (`collect::<Result<Vec<_>>>()?` stops at the
      first `Err`). */
  function FirstError<T>(results: seq<Result<T>>): (r: Option<string>)
    ensures r.None? <==> forall i :: 0 <= i < |results| ==> results[i].Ok?
    ensures r.Some? ==>
      exists i :: 0 <= i < |results| && results[i] == Err(r.value) && OkBefore(results, i)
  {
    if |results| == 0 then None
    else if results[0].Err? then
      assert OkBefore(results, 0);
      Some(results[0].error)
    else
      var rest := FirstError(results[1..]);
      if rest.Some? then
        var i :| 0 <= i < |results[1..]| && results[1..][i] == Err(rest.value) && OkBefore(results[1..], i);
        assert results[i + 1] == results[1..][i];
        assert forall j :: 1 <= j < i + 1 ==> results[j] == results[1..][j - 1];
        assert OkBefore(results, i + 1);
        rest
      else
        assert forall i :: 1 <= i < |results| ==> results[i] == results[1..][i - 1];
        rest
  }

  /** Every result before index `i` is `Ok`. */
  predicate OkBefore<T>(results: seq<Result<T>>, i: nat)
    requires i <= |results|
  {
    forall j :: 0 <= j < i ==> results[j].Ok?
  }

  function Values<T>(results: seq<Result<T>>): (r: seq<T>)
    requires forall i :: 0 <= i < |results| ==> results[i].Ok?
    ensures |r| == |results| && forall i :: 0 <= i < |r| ==> results[i] == Ok(r[i])
  {
    seq(|results|, i requires 0 <= i < |results| => results[i].value)
  }

  /** A notification source after construction: whether its `proxy_stream` succeeded. */
  datatype NotificationSource = NotificationSource(stream: Result<()>)

  /** The device as the loop sees it: the operations it has carried out, and the
      position in that trace of the first operation that fails, if one does. */
  datatype DeviceState = DeviceState(trace: seq<DeviceOp>, failAt: Option<nat>)

  /** Whether the next operation sent to the device fails. */
  predicate FailsNext(d: DeviceState) {
    d.failAt == Some(|d.trace|)
  }

  function Perform(d: DeviceState, op: DeviceOp): (r: (bool, DeviceState))
    ensures r.0 <==> !FailsNext(d)
    ensures r.0 ==> r.1.trace == d.trace + [op] && r.1.failAt == d.failAt
    ensures !r.0 ==> r.1 == d
  {
    if FailsNext(d) then (false, d) else (true, d.(trace := d.trace + [op]))
  }

  const DEVICE_ERROR: string := "device error"

  /** How `start` ends: it returns, it panics, or it is still looping when the events run
      out. */
  datatype Outcome = Returned(result: Result<()>) | Panicked(message: string) | Running

  /** The winner of one `select!` round. A command is `None` when the channel reports an
      error; a notification event carries what the notification stream yielded: `None`
      at its end, or the notification, given as the outcome of `notification.stream()`
      and the frames that stream yields. */
  datatype Event =
    | CommandEvent(cmd: Option<Command>)
    | NotificationEvent(note: Option<Result<Result<seq<Content>>>>)
    | ContentEvent

  datatype LoopState = LoopState(
    current: nat,
    mux: Multiplex.Multiplexer<Content>,
    notifying: bool,
    device: DeviceState)

  function Size(st: LoopState): nat {
    |st.mux.inner|
  }

  /** What the machine sizes guarantee: a vector has at most `usize::MAX` elements and
      the index is a `usize`. */
  predicate Bounded(st: LoopState) {
    Size(st) <= USIZE_LIMIT && st.current < USIZE_LIMIT
  }

  /** The index kept in range: `current` names an existing provider. */
  predicate IndexValid(st: LoopState) {
    Size(st) > 0 ==> st.current < Size(st)
  }

  function WrappingInc(c: nat): (r: nat)
    requires c < USIZE_LIMIT
    ensures r < USIZE_LIMIT
    ensures c + 1 < USIZE_LIMIT ==> r == c + 1
  {
    (c + 1) % USIZE_LIMIT
  }

  /** NextSource: `current.wrapping_add(1) % size`; `None` is the division-by-zero panic
      when there are no providers. */
  function NextIndex(current: nat, size: nat): (r: Option<nat>)
    requires current < USIZE_LIMIT
    ensures r.None? <==> size == 0
    ensures r.Some? ==> r.value < size
    ensures r.Some? && current < size <= USIZE_LIMIT ==>
      r.value == if current == size - 1 then 0 else current + 1
  {
    if size == 0 then None
    else
      IncMod(current, size);
      Some(WrappingInc(current) % size)
  }

  lemma IncMod(current: nat, size: nat)
    requires 0 < size && current < USIZE_LIMIT
    ensures current < size <= USIZE_LIMIT ==>
      WrappingInc(current) % size == if current == size - 1 then 0 else current + 1
  {
    if current < size <= USIZE_LIMIT {
      if current + 1 == USIZE_LIMIT {
        ModSmall(0, size);
      } else if current + 1 == size {
        DivUnique(size, size, 1, 0);
      } else {
        ModSmall(current + 1, size);
      }
    }
  }

  /** PreviousSource: `size - 1` from 0, else `(current - 1) % size`. With no providers
      `size - 1` wraps to `usize::MAX` (as in a release build), and the modulo from any
      other index is the division-by-zero panic, `None`. */
  function PrevIndex(current: nat, size: nat): (r: Option<nat>)
    requires current < USIZE_LIMIT && size <= USIZE_LIMIT
    ensures r.None? <==> size == 0 && current != 0
    ensures r.Some? ==> r.value < USIZE_LIMIT
    ensures size > 0 ==> r.Some? && r.value < size
    ensures size == 0 && current == 0 ==> r == Some(USIZE_LIMIT - 1)
    ensures current < size ==> r == Some(if current == 0 then size - 1 else current - 1)
  {
    if current == 0 then Some(if size == 0 then USIZE_LIMIT - 1 else size - 1)
    else if size == 0 then None
    else
      DecMod(current, size);
      ModBounds(current - 1, size);
      Some((current - 1) % size)
  }

  lemma DecMod(current: nat, size: nat)
    requires 0 < current
    ensures current < size ==> (current - 1) % size == current - 1
  {
    if current < size {
      ModSmall(current - 1, size);
    }
  }

  /** Next and Previous undo each other on a valid index. */
  lemma NextPrevInverse(current: nat, size: nat)
    requires current < size < USIZE_LIMIT
    ensures PrevIndex(NextIndex(current, size).value, size) == Some(current)
    ensures NextIndex(PrevIndex(current, size).value, size) == Some(current)
  {
  }

  /** `k` Next commands in a row. */
  function NextN(current: nat, size: nat, k: nat): (r: nat)
    requires current < size < USIZE_LIMIT
    ensures r < size
  {
    if k == 0 then current else NextIndex(NextN(current, size, k - 1), size).value
  }

  lemma {:induction false} NextNIsAddition(current: nat, size: nat, k: nat)
    requires current < size < USIZE_LIMIT
    ensures NextN(current, size, k) == (current + k) % size
  {
    if k == 0 {
      ModSmall(current, size);
    } else {
      NextNIsAddition(current, size, k - 1);
      ModStep(current + k - 1, size);
    }
  }

  /** Pressing Next once per provider comes back to the provider on screen. */
  lemma NextCycle(current: nat, size: nat)
    requires current < size < USIZE_LIMIT
    ensures NextN(current, size, size) == current
  {
    NextNIsAddition(current, size, size);
    ModAddPeriod(current, size);
    ModSmall(current, size);
  }

  /** Draws the frames of one notification in order; an `Err` frame or a device failure
      stops the drawing with an error. */
  function DrawFrames(d: DeviceState, frames: seq<Content>): (r: (Result<()>, DeviceState))
    ensures d.trace <= r.1.trace && r.1.failAt == d.failAt
    decreases |frames|
  {
    if |frames| == 0 then (Ok(()), d)
    else if frames[0].Err? then (Err(frames[0].error), d)
    else
      var (ok, d') := Perform(d, Draw(frames[0].value));
      if !ok then (Err(DEVICE_ERROR), d) else DrawFrames(d', frames[1..])
  }

  /** The device operations that draw the given good frames, in order. */
  function Draws(frames: seq<Content>): (r: seq<DeviceOp>)
    requires forall i :: 0 <= i < |frames| ==> frames[i].Ok?
    ensures |r| == |frames|
  {
    if |frames| == 0 then [] else [Draw(frames[0].value)] + Draws(frames[1..])
  }

  /** The device does not fail within the next `n` operations. */
  predicate Healthy(d: DeviceState, n: nat) {
    d.failAt.Some? ==> d.failAt.value < |d.trace| || d.failAt.value >= |d.trace| + n
  }

  /** A notification whose frames are all good is drawn completely, frame by frame, in
      order, with nothing in between. */
  lemma {:induction false} DrawFramesInOrder(d: DeviceState, frames: seq<Content>)
    requires forall i :: 0 <= i < |frames| ==> frames[i].Ok?
    requires Healthy(d, |frames|)
    ensures DrawFrames(d, frames).0 == Ok(())
    ensures DrawFrames(d, frames).1.trace == d.trace + Draws(frames)
    decreases |frames|
  {
    if |frames| > 0 {
      var d' := d.(trace := d.trace + [Draw(frames[0].value)]);
      DrawFirstFrame(d, frames);
      assert forall i :: 0 <= i < |frames[1..]| ==> frames[1..][i].Ok? by {
        forall i | 0 <= i < |frames[1..]| ensures frames[1..][i].Ok? {
          assert frames[1..][i] == frames[i + 1];
        }
      }
      DrawFramesInOrder(d', frames[1..]);
      assert Draws(frames) == [Draw(frames[0].value)] + Draws(frames[1..]);
      assert d.trace + [Draw(frames[0].value)] + Draws(frames[1..]) == d.trace + Draws(frames);
    }
  }

  /** A healthy device draws the first good frame and goes on with the rest, still
      healthy for the frames that remain. */
  lemma DrawFirstFrame(d: DeviceState, frames: seq<Content>)
    requires 0 < |frames| && frames[0].Ok? && Healthy(d, |frames|)
    ensures var d' := d.(trace := d.trace + [Draw(frames[0].value)]);
      DrawFrames(d, frames) == DrawFrames(d', frames[1..]) && Healthy(d', |frames| - 1)
  {
  }

  /** The first bad frame ends the drawing with its error; the frames before it have been
      drawn. */
  lemma {:induction false} DrawFramesStopsAtError(d: DeviceState, frames: seq<Content>, k: nat)
    requires k < |frames| && frames[k].Err?
    requires forall i :: 0 <= i < k ==> frames[i].Ok?
    requires Healthy(d, k)
    ensures DrawFrames(d, frames).0 == Err(frames[k].error)
    ensures DrawFrames(d, frames).1.trace == d.trace + Draws(frames[..k])
    decreases k
  {
    if k > 0 {
      var p := Perform(d, Draw(frames[0].value));
      assert DrawFrames(d, frames) == DrawFrames(p.1, frames[1..]);
      DrawFramesStopsAtError(p.1, frames[1..], k - 1);
      assert frames[1..][..k - 1] == frames[..k][1..];
      assert Draws(frames[..k]) == [Draw(frames[0].value)] + Draws(frames[1..][..k - 1]);
      assert d.trace + [Draw(frames[0].value)] + Draws(frames[1..][..k - 1]) == d.trace + Draws(frames[..k]);
    } else {
      assert frames[..0] == [];
    }
  }

  /** What one round of the loop leads to. */
  /** The two panic messages the loop can end with. */
  const REMAINDER_BY_ZERO: string := "attempt to calculate the remainder with a divisor of zero"
  const BAD_INDEX: string := "Bad index"

  datatype Step = Continue(st: LoopState) | Break(st: LoopState) | Stop(outcome: Outcome, device: DeviceState)

  /** One round of the loop body. */
  function StepEvent(st: LoopState, e: Event): (r: Step)
    requires Bounded(st)
    ensures r.Continue? ==> Size(r.st) == Size(st) && r.st.notifying == st.notifying
    ensures r.Continue? ==> Bounded(r.st)
    ensures r.Continue? && IndexValid(st) ==> IndexValid(r.st)
    ensures r.Break? ==> r.st == st
    ensures r.Continue? ==> st.device.trace <= r.st.device.trace && r.st.device.failAt == st.device.failAt
    ensures r.Stop? ==> st.device.trace <= r.device.trace && r.device.failAt == st.device.failAt
    ensures r.Stop? && r.outcome.Returned? ==> r.outcome.result.Err?
  {
    match e
    case CommandEvent(Some(Shutdown)) => Break(st)
    case CommandEvent(Some(NextSource)) => SwitchStep(st, NextIndex(st.current, Size(st)))
    case CommandEvent(Some(PreviousSource)) => SwitchStep(st, PrevIndex(st.current, Size(st)))
    case CommandEvent(None) => Continue(st)
    case NotificationEvent(note) => NotificationStep(st, note)
    case ContentEvent => ContentStep(st)
  }

  /** A notification poll: frames are drawn only while notifications are on, and a
      notification error ends the loop. */
  function NotificationStep(st: LoopState, note: Option<Result<Result<seq<Content>>>>): (r: Step)
    requires Bounded(st)
    ensures r.Continue? || r.Stop?
    ensures !st.notifying ==> r == Continue(st)
    ensures r.Continue? ==> r.st == st.(device := r.st.device)
    ensures r.Continue? ==> st.device.trace <= r.st.device.trace && r.st.device.failAt == st.device.failAt
    ensures r.Stop? ==> st.device.trace <= r.device.trace && r.device.failAt == st.device.failAt
    ensures r.Stop? ==> r.outcome.Returned? && r.outcome.result.Err?
  {
    if !st.notifying then Continue(st)
    else
      match note
      case Some(Ok(Err(e))) => Stop(Returned(Err(e)), st.device)
      case Some(Ok(Ok(frames))) =>
        var (res, d) := DrawFrames(st.device, frames);
        if res.Err? then Stop(Returned(res), d) else Continue(st.(device := d))
      case _ => Continue(st)
  }

  /** While notifications are on, a batch of notification frames is drawn in order: the
      device ends as `DrawFrames` leaves it, and the loop stops exactly when a frame failed. */
  lemma NotificationDrawsFrames(st: LoopState, frames: seq<Content>)
    requires Bounded(st) && st.notifying
    ensures var s := NotificationStep(st, Some(Ok(Ok(frames))));
      (if s.Continue? then s.st.device else s.device) == DrawFrames(st.device, frames).1
    ensures NotificationStep(st, Some(Ok(Ok(frames)))).Stop? <==> DrawFrames(st.device, frames).0.Err?
    ensures NotificationStep(st, Some(Ok(Ok(frames)))).Stop? ==>
      NotificationStep(st, Some(Ok(Ok(frames)))).outcome == Returned(DrawFrames(st.device, frames).0)
  {
  }

  /** While notifications are on, a notification error ends the loop with that error and
      draws nothing. */
  lemma NotificationErrorStops(st: LoopState, e: string)
    requires Bounded(st) && st.notifying
    ensures NotificationStep(st, Some(Ok(Err(e)))) == Stop(Returned(Err(e)), st.device)
  {
  }

  /** A content poll of the current source; an index past the end panics. */
  function ContentStep(st: LoopState): (r: Step)
    requires Bounded(st)
    ensures r.Continue? || r.Stop?
    ensures r.Continue? ==> Size(r.st) == Size(st) && r.st.current == st.current && r.st.notifying == st.notifying
    ensures r.Continue? ==> st.device.trace <= r.st.device.trace && r.st.device.failAt == st.device.failAt
    ensures r.Stop? ==> st.device.trace <= r.device.trace && r.device.failAt == st.device.failAt
    ensures r.Stop? && r.outcome.Returned? ==> r.outcome.result.Err?
    ensures st.current >= Size(st) ==> r == Stop(Panicked(BAD_INDEX), st.device)
  {
    if st.current >= Size(st) then Stop(Panicked(BAD_INDEX), st.device)
    else
      var polled := Multiplex.PollNext(st.mux, st.current);
      var st' := st.(mux := polled.1);
      var item: Option<Content> := polled.0;
      match item
      case Some(Ok(fb)) =>
        var (ok, d) := Perform(st.device, Draw(fb));
        if ok then Continue(st'.(device := d)) else Stop(Returned(Err(DEVICE_ERROR)), d)
      case _ => Continue(st')
  }

  /** A source switch to the index `NextIndex` or `PrevIndex` computed; `None` is their
      remainder by zero. */
  function SwitchStep(st: LoopState, n: Option<nat>): (r: Step)
    requires n.Some? ==> n.value < USIZE_LIMIT && (Size(st) > 0 ==> n.value < Size(st))
    ensures r.Continue? || r.Stop?
    ensures n.None? ==> r == Stop(Panicked(REMAINDER_BY_ZERO), st.device)
    ensures n.Some? ==> r == ClearAfterSwitch(st, n.value)
    ensures r.Continue? ==>
      n.Some? && r.st == st.(current := n.value, device := r.st.device) &&
      r.st.device.trace == st.device.trace + [Clear] && r.st.device.failAt == st.device.failAt
    ensures r.Stop? ==> r.device == st.device
    ensures r.Stop? && r.outcome.Returned? ==> r.outcome.result.Err?
  {
    match n
    case None => Stop(Panicked(REMAINDER_BY_ZERO), st.device)
    case Some(k) => ClearAfterSwitch(st, k)
  }

  /** Switching source stores the new index and clears the device. */
  function ClearAfterSwitch(st: LoopState, n: nat): (r: Step)
    requires n < USIZE_LIMIT && (Size(st) > 0 ==> n < Size(st))
    ensures r.Continue? || r.Stop?
    ensures r.Continue? ==> r.st == st.(current := n, device := r.st.device)
    ensures r.Continue? <==> !FailsNext(st.device)
    ensures r.Continue? ==> r.st.device.trace == st.device.trace + [Clear] && r.st.device.failAt == st.device.failAt
    ensures r.Stop? ==> r.outcome == Returned(Err(DEVICE_ERROR)) && r.device == st.device
  {
    var (ok, d) := Perform(st.device, Clear);
    if ok then Continue(st.(current := n, device := d)) else Stop(Returned(Err(DEVICE_ERROR)), d)
  }

  /** The final `device.clear()` after the loop, and `Ok(())`. */
  function Finish(st: LoopState): (r: (Outcome, DeviceState))
    ensures !FailsNext(st.device) ==> r == (Returned(Ok(())), st.device.(trace := st.device.trace + [Clear]))
    ensures FailsNext(st.device) ==> r == (Returned(Err(DEVICE_ERROR)), st.device)
  {
    var (ok, d) := Perform(st.device, Clear);
    if ok then (Returned(Ok(())), d) else (Returned(Err(DEVICE_ERROR)), d)
  }

  /** The loop over the winning events, in order. */
  function Loop(st: LoopState, events: seq<Event>): (r: (Outcome, DeviceState))
    requires Bounded(st)
    ensures st.device.trace <= r.1.trace && r.1.failAt == st.device.failAt
    ensures r.0 == Returned(Ok(())) ==> |r.1.trace| > 0 && r.1.trace[|r.1.trace| - 1] == Clear
    decreases |events|
  {
    if |events| == 0 then (Running, st.device)
    else
      match StepEvent(st, events[0])
      case Continue(st') => Loop(st', events[1..])
      case Break(st') => Finish(st')
      case Stop(o, d) => (o, d)
  }

  /** `start`: build everything, then run the loop from provider 0 on a device whose
      trace is still empty (there is no clear before the first event). */
  function Start(
    providers: seq<Result<Provider>>,
    notifications: seq<Result<NotificationSource>>,
    config: Config,
    events: seq<Event>,
    failAt: Option<nat>): (r: (Outcome, DeviceState))
    requires |providers| <= USIZE_LIMIT
    ensures FirstError(providers).Some? ==> r == (Returned(Err(FirstError(providers).value)), DeviceState([], failAt))
    ensures FirstError(providers).None? && FirstError(notifications).Some? ==>
      r == (Returned(Err(FirstError(notifications).value)), DeviceState([], failAt))
    ensures FirstError(providers).None? && FirstError(notifications).None? ==>
      |ActiveStreams(config, Values(providers))| <= USIZE_LIMIT &&
      r == Loop(InitialState(ActiveStreams(config, Values(providers)), AnyNotifying(Values(notifications)), failAt),
                events)
  {
    match FirstError(providers)
    case Some(e) => (Returned(Err(e)), DeviceState([], failAt))
    case None =>
      match FirstError(notifications)
      case Some(e) => (Returned(Err(e)), DeviceState([], failAt))
      case None =>
        Loop(InitialState(ActiveStreams(config, Values(providers)), AnyNotifying(Values(notifications)), failAt),
             events)
  }

  /** Whether some notification source's `proxy_stream` succeeded; the failed ones are
      only logged. */
  predicate AnyNotifying(sources: seq<NotificationSource>) {
    exists i :: 0 <= i < |sources| && sources[i].stream.Ok?
  }

  function InitialState(streams: seq<seq<Content>>, notifying: bool, failAt: Option<nat>): (st: LoopState)
    ensures st.current == 0 && st.device.trace == [] && Size(st) == |streams|
    ensures IndexValid(st) && (|streams| <= USIZE_LIMIT ==> Bounded(st))
    ensures forall i :: 0 <= i < |streams| ==> st.mux.inner[i] == Multiplex.FromItems(streams[i])
  {
    LoopState(0, Multiplex.New(seq(|streams|, i requires 0 <= i < |streams| => Multiplex.FromItems(streams[i]))),
      notifying, DeviceState([], failAt))
  }

  /** Every Next or Previous that does not panic clears the device exactly once (or
      ends `start` with the device's error). */
  lemma SwitchClearsOnce(st: LoopState, cmd: Command)
    requires Bounded(st) && cmd != Shutdown && Size(st) > 0
    ensures var r := StepEvent(st, CommandEvent(Some(cmd)));
      (r.Continue? && r.st.device.trace == st.device.trace + [Clear] && !FailsNext(st.device)) ||
      (r.Stop? && r.outcome == Returned(Err(DEVICE_ERROR)) && FailsNext(st.device))
  {
  }

  /** Shutdown ends the loop: the rest of the events are never looked at, the device gets
      one clear and `start` returns `Ok`. */
  lemma ShutdownClearsOnce(st: LoopState, rest: seq<Event>)
    requires Bounded(st) && !FailsNext(st.device)
    ensures Loop(st, [CommandEvent(Some(Shutdown))] + rest) ==
      (Returned(Ok(())), st.device.(trace := st.device.trace + [Clear]))
  {
  }

  /** A content event pulls from the provider on screen only; a good frame is drawn once,
      an error or the end of that stream draws nothing. */
  lemma ContentDrawsCurrent(st: LoopState)
    requires st.current < Size(st) && Bounded(st) && !FailsNext(st.device)
    ensures var r := StepEvent(st, ContentEvent);
      var polled := Multiplex.PollNext(st.mux, st.current);
      r.Continue? && r.st.mux == polled.1 && r.st.current == st.current &&
      (polled.0.Some? && polled.0.value.Ok? ==>
         r.st.device.trace == st.device.trace + [Draw(polled.0.value.value)]) &&
      (!(polled.0.Some? && polled.0.value.Ok?) ==> r.st.device == st.device)
  {
  }

  /** With no providers Next always panics on the modulo, and so does Previous from any
      index but 0; a content poll panics with "Bad index". */
  lemma NoProvidersPanics(st: LoopState)
    requires Size(st) == 0 && Bounded(st)
    ensures StepEvent(st, CommandEvent(Some(NextSource))) ==
      Stop(Panicked(REMAINDER_BY_ZERO), st.device)
    ensures st.current != 0 ==>
      (StepEvent(st, CommandEvent(Some(PreviousSource))) ==
       Stop(Panicked(REMAINDER_BY_ZERO), st.device))
    ensures StepEvent(st, ContentEvent) == Stop(Panicked(BAD_INDEX), st.device)
  {
  }

  /** With no providers, Previous from index 0 wraps `size - 1` to `usize::MAX`, stores it
      and clears the device; the panic comes at the next content poll. */
  lemma NoProvidersPreviousWraps(st: LoopState, rest: seq<Event>)
    requires Size(st) == 0 && st.current == 0 && Bounded(st) && !FailsNext(st.device)
    ensures var cleared := st.device.(trace := st.device.trace + [Clear]);
      StepEvent(st, CommandEvent(Some(PreviousSource))) ==
        Continue(st.(current := USIZE_LIMIT - 1, device := cleared)) &&
      Loop(st, [CommandEvent(Some(PreviousSource)), ContentEvent] + rest) == (Panicked(BAD_INDEX), cleared)
  {
    var cleared := st.device.(trace := st.device.trace + [Clear]);
    var st' := st.(current := USIZE_LIMIT - 1, device := cleared);
    var events := [CommandEvent(Some(PreviousSource)), ContentEvent] + rest;
    assert StepEvent(st, events[0]) == Continue(st');
    assert events[1..] == [ContentEvent] + rest;
    assert StepEvent(st', ContentEvent) == Stop(Panicked(BAD_INDEX), cleared);
  }

  /** The index stays valid through the whole loop, and only the steps themselves touch
      the device: a still-running loop has kept a valid index. */
  lemma {:induction false} LoopKeepsIndex(st: LoopState, events: seq<Event>, k: nat)
    requires Bounded(st) && IndexValid(st) && k <= |events|
    ensures var s := States(st, events, k); s.Some? ==> IndexValid(s.value) && Size(s.value) == Size(st)
    decreases k
  {
    if k > 0 {
      var r := StepEvent(st, events[0]);
      if r.Continue? {
        LoopKeepsIndex(r.st, events[1..], k - 1);
      }
    }
  }

  /** The loop state after `k` events, if the loop is still running then. */
  function States(st: LoopState, events: seq<Event>, k: nat): (r: Option<LoopState>)
    requires Bounded(st) && k <= |events|
    ensures r.Some? ==> Bounded(r.value)
    decreases k
  {
    if k == 0 then Some(st)
    else
      match StepEvent(st, events[0])
      case Continue(st') => States(st', events[1..], k - 1)
      case _ => None
  }
}
