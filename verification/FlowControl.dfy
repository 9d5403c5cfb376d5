/** The receive window of quiche/src/flowcontrol.rs, and its use by the connection: a need for a
    larger limit is noted at one time and the limit is committed when a frame is sent. */
module FlowControl {
  import opened Basics

  const WINDOW_INCREASE_FACTOR := 2
  const WINDOW_TRIGGER_FACTOR := 2

  datatype Flow = Flow(consumed: nat, maxData: nat, window: nat, maxWindow: nat, lastUpdate: Option<nat>) {
    /** Less than half of the window is left. */
    predicate ShouldUpdate() { maxData - consumed < window / 2 }

    function Next(): nat { consumed + window }
  }

  function NewFlow(maxData: nat, window: nat, maxWindow: nat): Flow {
    Flow(0, maxData, window, maxWindow, None)
  }

  function Min(a: nat, b: nat): nat { if a <= b then a else b }

  /** Zero when `earlier` is in fact later. */
  function Since(now: nat, earlier: nat): nat { if now >= earlier then now - earlier else 0 }

  /** The previous update is less than two round trips ago. */
  predicate Triggers(f: Flow, now: nat, rtt: nat) {
    f.lastUpdate.Some? && Since(now, f.lastUpdate.value) < rtt * WINDOW_TRIGGER_FACTOR
  }

  function Autotune(f: Flow, now: nat, rtt: nat): Flow {
    if Triggers(f, now, rtt) then f.(window := Min(f.window * WINDOW_INCREASE_FACTOR, f.maxWindow)) else f
  }

  function Commit(f: Flow, now: nat): Flow { f.(maxData := f.Next(), lastUpdate := Some(now)) }

  function EnsureLowerBound(f: Flow, minWindow: nat): Flow {
    if minWindow > f.window then f.(window := minWindow) else f
  }

  // ---------- The object ----------

  class FlowController {
    var consumed: nat
    var maxData: nat
    var window: nat
    const maxWindow: nat
    var lastUpdate: Option<nat>

    ghost function View(): Flow
      reads this
    {
      Flow(consumed, maxData, window, maxWindow, lastUpdate)
    }

    constructor (maxData: nat, window: nat, maxWindow: nat)
      ensures View() == NewFlow(maxData, window, maxWindow)
    {
      this.maxData, this.window, this.maxWindow := maxData, window, maxWindow;
      consumed, lastUpdate := 0, None;
    }

    method AddConsumed(n: nat)
      modifies this`consumed
      ensures View() == old(View()).(consumed := old(View()).consumed + n)
    {
      consumed := consumed + n;
    }

    /** The subtraction needs the consumed data to be within the limit. */
    method ShouldUpdateMaxData() returns (r: bool)
      requires consumed <= maxData
      ensures r == View().ShouldUpdate()
    {
      var available: nat := maxData - consumed;
      return available < window / 2;
    }

    method MaxDataNext() returns (r: nat)
      ensures r == View().Next()
    {
      return consumed + window;
    }

    method UpdateMaxData(now: nat)
      modifies this`maxData, this`lastUpdate
      ensures View() == Commit(old(View()), now)
    {
      maxData := MaxDataNext();
      lastUpdate := Some(now);
    }

    method AutotuneWindow(now: nat, rtt: nat)
      modifies this`window
      ensures View() == Autotune(old(View()), now, rtt)
    {
      if lastUpdate.Some? && Since(now, lastUpdate.value) < rtt * WINDOW_TRIGGER_FACTOR {
        window := Min(window * WINDOW_INCREASE_FACTOR, maxWindow);
      }
    }

    method EnsureWindowLowerBound(minWindow: nat)
      modifies this`window
      ensures View() == EnsureLowerBound(old(View()), minWindow)
    {
      if minWindow > window {
        window := minWindow;
      }
    }
  }

  // ---------- Runs ----------

  datatype Op =
    | Consume(n: nat)
    | Check
    | Tune(now: nat, rtt: nat)
    | Raise(minWindow: nat)
    | Update(now: nat)

  /** The receiver, and whether a larger limit has been found necessary since the last one. */
  datatype Receiver = Receiver(flow: Flow, due: bool)

  /** Data is accepted within the limit, the lower bound respects the largest window, and a
      limit is committed only when one is due. */
  predicate Enabled(r: Receiver, op: Op) {
    match op
    case Consume(n) => r.flow.consumed + n <= r.flow.maxData
    case Raise(minWindow) => minWindow <= r.flow.maxWindow
    case Update(_) => r.due
    case _ => true
  }

  function Step(r: Receiver, op: Op): Receiver {
    match op
    case Consume(n) => r.(flow := r.flow.(consumed := r.flow.consumed + n))
    case Check => r.(due := r.due || r.flow.ShouldUpdate())
    case Tune(now, rtt) => r.(flow := Autotune(r.flow, now, rtt))
    case Raise(minWindow) => r.(flow := EnsureLowerBound(r.flow, minWindow))
    case Update(now) => Receiver(Commit(r.flow, now), false)
  }

  predicate IsRun(r: Receiver, ops: seq<Op>)
    decreases |ops|
  {
    ops != [] ==> Enabled(r, ops[0]) && IsRun(Step(r, ops[0]), ops[1..])
  }

  function After(r: Receiver, ops: seq<Op>): Receiver
    decreases |ops|
  {
    if ops == [] then r else After(Step(r, ops[0]), ops[1..])
  }

  /** The limits committed by the run. */
  function Limits(r: Receiver, ops: seq<Op>): seq<nat>
    decreases |ops|
  {
    if ops == [] then []
    else
      var s := Step(r, ops[0]);
      (if ops[0].Update? then [s.flow.maxData] else []) + Limits(s, ops[1..])
  }

  ghost predicate FlowInv(r: Receiver) {
    && r.flow.consumed <= r.flow.maxData
    && r.flow.window <= r.flow.maxWindow
    && (r.due ==> r.flow.maxData < r.flow.Next())
  }

  /** Raises above `bound`, one after the other. */
  ghost predicate Rising(bound: nat, limits: seq<nat>) {
    && (forall i :: 0 <= i < |limits| ==> bound < limits[i])
    && (forall i, j :: 0 <= i < j < |limits| ==> limits[i] < limits[j])
  }

  /** Raising the lower bound keeps the window within the largest one if and only if the lower
      bound is; nothing in the code enforces it. */
  lemma LowerBoundIff(f: Flow, minWindow: nat)
    requires f.window <= f.maxWindow
    ensures EnsureLowerBound(f, minWindow).window <= f.maxWindow <==> minWindow <= f.maxWindow
  {
  }

  lemma StepKeepsInv(r: Receiver, op: Op)
    requires FlowInv(r) && Enabled(r, op)
    ensures FlowInv(Step(r, op)) && Step(r, op).flow.window >= r.flow.window
    ensures var s := Step(r, op).flow;
            if op.Update? then r.flow.maxData < s.maxData && s.maxData - s.consumed == s.window <= s.maxWindow
            else s.maxData == r.flow.maxData
  {
    if op.Raise? {
      LowerBoundIff(r.flow, op.minWindow);
    }
  }

  /** The main result, for every run: consumption stays within the limit, every committed limit
      is above all earlier ones, and the window only grows, never beyond the largest window. */
  lemma {:induction false} FlowRuns(r: Receiver, ops: seq<Op>)
    requires FlowInv(r) && IsRun(r, ops)
    ensures FlowInv(After(r, ops))
    ensures Rising(r.flow.maxData, Limits(r, ops))
    ensures After(r, ops).flow.window >= r.flow.window
    ensures var limits := Limits(r, ops);
            After(r, ops).flow.maxData == if limits == [] then r.flow.maxData else limits[|limits| - 1]
    decreases |ops|
  {
    if ops != [] {
      StepKeepsInv(r, ops[0]);
      var s := Step(r, ops[0]);
      hide FlowInv, Step, Enabled;
      FlowRuns(s, ops[1..]);
      var tail := Limits(s, ops[1..]);
      if ops[0].Update? {
        RisingCons(r.flow.maxData, s.flow.maxData, tail);
        assert Limits(r, ops) == [s.flow.maxData] + tail;
      } else {
        assert Limits(r, ops) == tail;
      }
    }
  }

  lemma RisingCons(bound: nat, first: nat, rest: seq<nat>)
    requires bound < first && Rising(first, rest)
    ensures Rising(bound, [first] + rest)
  {
  }

  /** An update is due exactly when less than half of the window is left. */
  lemma ShouldUpdateIff(f: Flow)
    requires f.consumed <= f.maxData
    ensures f.ShouldUpdate() <==> 2 * (f.maxData - f.consumed + 1) <= f.window
  {
  }

  /** The lower bound lifts a smaller window to itself and leaves a larger one alone. */
  lemma LowerBoundExact(f: Flow, minWindow: nat)
    ensures var w := EnsureLowerBound(f, minWindow).window;
            w >= f.window && w >= minWindow && (w == f.window || w == minWindow)
    ensures EnsureLowerBound(f, minWindow) == f.(window := EnsureLowerBound(f, minWindow).window)
  {
  }

  /** Tuning fires exactly within two round trips of the last update, and then doubles the window, up
      to the largest one. */
  lemma TuningExact(f: Flow, now: nat, rtt: nat)
    requires f.lastUpdate.Some? ==> f.lastUpdate.value <= now
    ensures var fires := f.lastUpdate.Some? && now < f.lastUpdate.value + 2 * rtt;
            && (!fires ==> Autotune(f, now, rtt) == f)
            && (fires && 2 * f.window <= f.maxWindow ==> Autotune(f, now, rtt) == f.(window := 2 * f.window))
            && (fires && 2 * f.window > f.maxWindow ==> Autotune(f, now, rtt) == f.(window := f.maxWindow))
  {
  }

  /** A commit starts the clock: the window is tuned later exactly within two round trips of it. */
  lemma TunesAfterCommit(f: Flow, now: nat, later: nat, rtt: nat)
    requires now <= later && 0 < f.window && 2 * f.window <= f.maxWindow
    ensures Autotune(Commit(f, now), later, rtt).window == 2 * f.window <==> later < now + 2 * rtt
    ensures Commit(f, now).maxData == f.consumed + f.window && Commit(f, now).consumed == f.consumed
  {
    TuningExact(Commit(f, now), later, rtt);
    hide Autotune;
  }

  /** Tuning shrinks the window exactly when it fires on a window above the largest one. */
  lemma TuningShrinksIff(f: Flow, now: nat, rtt: nat)
    ensures Autotune(f, now, rtt).window < f.window <==> Triggers(f, now, rtt) && f.window > f.maxWindow
  {
  }

  /** What the connection does for MAX_DATA: check for a larger limit, tune, commit. */
  function Renew(f: Flow, now: nat, rtt: nat): Flow {
    if f.maxData < f.Next() then Commit(Autotune(f, now, rtt), now) else f
  }

  /** The committed limit is larger than the one before exactly when tuning does not fire, or
      the largest window still reaches past the old limit. */
  lemma RenewGrowsIff(f: Flow, now: nat, rtt: nat)
    requires f.maxData < f.Next()
    ensures Renew(f, now, rtt).maxData > f.maxData <==>
              !Triggers(f, now, rtt) || f.consumed + f.maxWindow > f.maxData
  {
  }

  /** Once the lower bound has lifted the window above the largest one, a later MAX_DATA can
      carry a smaller limit than the one before. */
  lemma LimitCanShrink()
    ensures var f := Commit(EnsureLowerBound(NewFlow(100, 20, 100), 300), 0);
            var g := Renew(f.(consumed := 150), 1, 5);
            f.maxData == 300 && g.maxData == 250
  {
  }
}
