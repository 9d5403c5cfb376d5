/** The windowed minimum and maximum tracker of quiche/src/minmax.rs, with its three estimates.

    `quarter` and `half` are the thresholds that the source computes from the window with
    rounding division; every result holds for any two thresholds. */
module Minmax {

  datatype Sample = Sample(time: nat, value: int)

  datatype Estimates = Estimates(best: Sample, second: Sample, third: Sample)

  datatype Update = Update(win: nat, quarter: nat, half: nat, sample: Sample)

  /** Zero when `earlier` is in fact later. */
  function Since(time: nat, earlier: nat): nat {
    if time >= earlier then time - earlier else 0
  }

  /** `max` selects the direction: is `a` as extreme as `b`? */
  predicate Reaches(max: bool, a: int, b: int) {
    if max then a >= b else a <= b
  }

  predicate Beats(max: bool, a: int, b: int) {
    if max then a > b else a < b
  }

  function Reset(s: Sample): Estimates { Estimates(s, s, s) }

  /** The new sample replaces the second and third estimate that it reaches. */
  function Replace(max: bool, e: Estimates, s: Sample): Estimates {
    if Reaches(max, s.value, e.second.value) then e.(second := s, third := s)
    else if Reaches(max, s.value, e.third.value) then e.(third := s)
    else e
  }

  function Shift(e: Estimates, s: Sample): Estimates { Estimates(e.second, e.third, s) }

  /** Estimates that left the window move out; a quarter and a half of the window without a
      replacement give new second and third estimates. */
  function Subwindow(e: Estimates, u: Update): Estimates {
    var s := u.sample;
    var age := Since(s.time, e.best.time);
    if age > u.win then
      var f := Shift(e, s);
      if Since(s.time, f.best.time) > u.win then Shift(f, s) else f
    else if e.second.time == e.best.time && age > u.quarter then e.(second := s, third := s)
    else if e.third.time == e.second.time && age > u.half then e.(third := s)
    else e
  }

  function Running(max: bool, e: Estimates, u: Update): Estimates {
    var s := u.sample;
    if Reaches(max, s.value, e.best.value) || Since(s.time, e.third.time) > u.win then Reset(s)
    else Subwindow(Replace(max, e, s), u)
  }

  // ---------- The object ----------

  class Tracker {
    const estimate: array<Sample>

    ghost predicate Valid()
      reads this
    {
      estimate.Length == 3
    }

    ghost function View(): Estimates
      requires Valid()
      reads this, estimate
    {
      Estimates(estimate[0], estimate[1], estimate[2])
    }

    constructor (now: nat, value: int)
      ensures Valid() && fresh(estimate) && View() == Reset(Sample(now, value))
    {
      estimate := new Sample[3](_ => Sample(now, value));
    }

    method ResetTo(time: nat, value: int) returns (v: int)
      requires Valid()
      modifies estimate
      ensures View() == Reset(Sample(time, value)) && v == value
    {
      for i := 0 to 3
        invariant forall k :: 0 <= k < i ==> estimate[k] == Sample(time, value)
      {
        estimate[i] := Sample(time, value);
      }
      return estimate[0].value;
    }

    method RunningMin(u: Update) returns (v: int)
      requires Valid()
      modifies estimate
      ensures View() == Running(false, old(View()), u) && v == View().best.value
    {
      var s := u.sample;
      if s.value <= estimate[0].value || Since(s.time, estimate[2].time) > u.win {
        v := ResetTo(s.time, s.value);
        return;
      }
      if s.value <= estimate[1].value {
        estimate[2] := s;
        estimate[1] := s;
      } else if s.value <= estimate[2].value {
        estimate[2] := s;
      }
      assert View() == Replace(false, old(View()), s);
      v := SubwinUpdate(u);
    }

    method RunningMax(u: Update) returns (v: int)
      requires Valid()
      modifies estimate
      ensures View() == Running(true, old(View()), u) && v == View().best.value
    {
      var s := u.sample;
      if s.value >= estimate[0].value || Since(s.time, estimate[2].time) > u.win {
        v := ResetTo(s.time, s.value);
        return;
      }
      if s.value >= estimate[1].value {
        estimate[2] := s;
        estimate[1] := s;
      } else if s.value >= estimate[2].value {
        estimate[2] := s;
      }
      assert View() == Replace(true, old(View()), s);
      v := SubwinUpdate(u);
    }

    method SubwinUpdate(u: Update) returns (v: int)
      requires Valid()
      modifies estimate
      ensures View() == Subwindow(old(View()), u) && v == View().best.value
    {
      var s := u.sample;
      var age := Since(s.time, estimate[0].time);
      if age > u.win {
        estimate[0] := estimate[1];
        estimate[1] := estimate[2];
        estimate[2] := s;
        if Since(s.time, estimate[0].time) > u.win {
          estimate[0] := estimate[1];
          estimate[1] := estimate[2];
          estimate[2] := s;
        }
      } else if estimate[1].time == estimate[0].time && age > u.quarter {
        estimate[2] := s;
        estimate[1] := s;
      } else if estimate[2].time == estimate[1].time && age > u.half {
        estimate[2] := s;
      }
      return estimate[0].value;
    }
  }

  // ---------- Runs ----------

  /** The estimates after a reset and the given updates, the last one last. */
  function After(max: bool, first: Sample, us: seq<Update>): Estimates {
    if us == [] then Reset(first) else Running(max, After(max, first, us[..|us| - 1]), us[|us| - 1])
  }

  /** Everything that was measured since the reset. */
  function History(first: Sample, us: seq<Update>): seq<Sample> {
    if us == [] then [first] else History(first, us[..|us| - 1]) + [us[|us| - 1].sample]
  }

  ghost predicate Monotone(h: seq<Sample>) {
    forall i, j :: 0 <= i < j < |h| ==> h[i].time <= h[j].time
  }

  /** `e` is the sample at `k`, and it strictly beats everything measured after it. */
  ghost predicate BestSince(max: bool, h: seq<Sample>, k: int, e: Sample) {
    0 <= k < |h| && e == h[k] && forall j :: k < j < |h| ==> Beats(max, e.value, h[j].value)
  }

  /** What the three estimates are in terms of the whole history. */
  ghost predicate Tracks(max: bool, h: seq<Sample>, e: Estimates, a: int, b: int, c: int) {
    && a <= b <= c
    && BestSince(max, h, a, e.best) && BestSince(max, h, b, e.second) && BestSince(max, h, c, e.third)
  }

  ghost predicate Tracked(max: bool, h: seq<Sample>, e: Estimates) {
    exists a, b, c :: Tracks(max, h, e, a, b, c)
  }

  lemma StillBest(max: bool, h: seq<Sample>, k: int, e: Sample, s: Sample)
    requires BestSince(max, h, k, e) && Beats(max, e.value, s.value)
    ensures BestSince(max, h + [s], k, e)
  {
  }

  lemma NewestIsBest(max: bool, h: seq<Sample>, s: Sample)
    ensures BestSince(max, h + [s], |h|, s)
  {
  }

  lemma ReplaceKeeps(max: bool, h: seq<Sample>, e: Estimates, s: Sample)
    requires Tracked(max, h, e) && Beats(max, e.best.value, s.value)
    ensures Tracked(max, h + [s], Replace(max, e, s))
  {
    hide BestSince;
    var a, b, c :| Tracks(max, h, e, a, b, c);
    var g, n := h + [s], |h|;
    NewestIsBest(max, h, s);
    StillBest(max, h, a, e.best, s);
    assert a <= b <= c < n by { InRange(max, h, c, e.third); }
    if Reaches(max, s.value, e.second.value) {
      assert Tracks(max, g, Replace(max, e, s), a, n, n);
    } else if Reaches(max, s.value, e.third.value) {
      StillBest(max, h, b, e.second, s);
      assert Tracks(max, g, Replace(max, e, s), a, b, n);
    } else {
      StillBest(max, h, b, e.second, s);
      StillBest(max, h, c, e.third, s);
      assert Tracks(max, g, Replace(max, e, s), a, b, c);
    }
  }

  lemma InRange(max: bool, h: seq<Sample>, k: int, e: Sample)
    requires BestSince(max, h, k, e)
    ensures 0 <= k < |h|
  {
  }

  lemma SubwindowKeeps(max: bool, h: seq<Sample>, e: Estimates, u: Update)
    requires Tracked(max, h + [u.sample], e)
    ensures Tracked(max, h + [u.sample], Subwindow(e, u))
  {
    hide BestSince;
    var g, n := h + [u.sample], |h|;
    var a, b, c :| Tracks(max, g, e, a, b, c);
    InRange(max, g, c, e.third);
    NewestIsBest(max, h, u.sample);
    var r := Subwindow(e, u);
    if r == e {
      assert Tracks(max, g, r, a, b, c);
    } else if r == Shift(e, u.sample) {
      assert Tracks(max, g, r, b, c, n);
    } else if r == Shift(Shift(e, u.sample), u.sample) {
      assert Tracks(max, g, r, c, n, n);
    } else if r == e.(second := u.sample, third := u.sample) {
      assert Tracks(max, g, r, a, n, n);
    } else {
      assert Tracks(max, g, r, a, b, n);
    }
  }

  lemma RunningKeeps(max: bool, h: seq<Sample>, e: Estimates, u: Update)
    requires Tracked(max, h, e)
    ensures Tracked(max, h + [u.sample], Running(max, e, u))
  {
    hide Tracked, Subwindow, Replace;
    var s := u.sample;
    if Reaches(max, s.value, e.best.value) || Since(s.time, e.third.time) > u.win {
      NewestIsBest(max, h, s);
      assert Tracks(max, h + [s], Reset(s), |h|, |h|, |h|);
      Witnessed(max, h + [s], Reset(s), |h|, |h|, |h|);
    } else {
      ReplaceKeeps(max, h, e, s);
      SubwindowKeeps(max, h, Replace(max, e, s), u);
    }
  }

  lemma Witnessed(max: bool, h: seq<Sample>, e: Estimates, a: int, b: int, c: int)
    requires Tracks(max, h, e, a, b, c)
    ensures Tracked(max, h, e)
  {
  }

  /** The estimate that is returned lies within the window of the last update. */
  lemma RunningIsRecent(max: bool, e: Estimates, u: Update)
    ensures Since(u.sample.time, Running(max, e, u).best.time) <= u.win
  {
  }

  lemma {:induction false} RunKeepsTracked(max: bool, first: Sample, us: seq<Update>)
    ensures Tracked(max, History(first, us), After(max, first, us))
  {
    if us == [] {
      assert Tracks(max, [first], Reset(first), 0, 0, 0);
    } else {
      hide Tracked, Running;
      RunKeepsTracked(max, first, us[..|us| - 1]);
      RunningKeeps(max, History(first, us[..|us| - 1]), After(max, first, us[..|us| - 1]), us[|us| - 1]);
    }
  }

  /** The main result, for every monotone run after a reset: each estimate is a real sample that
      strictly beats everything measured after it, the three are ordered in time and in value,
      and the returned one is inside the window. */
  lemma TrackerRuns(max: bool, first: Sample, us: seq<Update>)
    requires Monotone(History(first, us))
    ensures var h, e := History(first, us), After(max, first, us);
            && Tracked(max, h, e)
            && e.best.time <= e.second.time <= e.third.time
            && Reaches(max, e.best.value, e.second.value) && Reaches(max, e.second.value, e.third.value)
            && (us != [] ==> us[|us| - 1].sample.time - e.best.time <= us[|us| - 1].win)
  {
    RunKeepsTracked(max, first, us);
    var h, e := History(first, us), After(max, first, us);
    var a, b, c :| Tracks(max, h, e, a, b, c);
    assert h[a].time <= h[b].time <= h[c].time;
    if us != [] {
      hide Running;
      RunningIsRecent(max, After(max, first, us[..|us| - 1]), us[|us| - 1]);
    }
  }

  // ---------- Against a tracker that keeps everything ----------

  ghost predicate InWindow(now: nat, win: nat, s: Sample) {
    Since(now, s.time) <= win
  }

  /** `v` is as extreme as every sample of the last `win` time units. */
  ghost predicate ReachesWindow(max: bool, h: seq<Sample>, now: nat, win: nat, v: int) {
    forall i :: 0 <= i < |h| && InWindow(now, win, h[i]) ==> Reaches(max, v, h[i].value)
  }

  /** `v` is the extreme of the samples of the last `win` time units. */
  ghost predicate IsWindowBest(max: bool, h: seq<Sample>, now: nat, win: nat, v: int) {
    && (exists i :: 0 <= i < |h| && InWindow(now, win, h[i]) && h[i].value == v)
    && ReachesWindow(max, h, now, win, v)
  }

  /** The estimate that an update moves up when the best one has left the window: the second, or
      the third if the second is too old as well, unless the new sample has replaced it. */
  function MovesUp(max: bool, e: Estimates, u: Update): Sample {
    var s := u.sample;
    if Since(s.time, e.third.time) > u.win || Reaches(max, s.value, e.second.value) then s
    else if Since(s.time, e.second.time) <= u.win then e.second
    else if Reaches(max, s.value, e.third.value) then s
    else e.third
  }

  /** The best estimate is still in the window when the update comes, or beaten by it. */
  predicate BestIsFresh(max: bool, e: Estimates, u: Update) {
    Since(u.sample.time, e.best.time) <= u.win || Reaches(max, u.sample.value, e.best.value)
  }

  /** The best estimate after an update, in terms of the state before it. */
  lemma BestAfter(max: bool, e: Estimates, u: Update)
    requires e.best.time <= e.second.time <= e.third.time
    ensures Running(max, e, u).best ==
              if Reaches(max, u.sample.value, e.best.value) then u.sample
              else if BestIsFresh(max, e, u) then e.best
              else MovesUp(max, e, u)
  {
  }

  /** All three estimates while the best one stays.  Past a quarter of the window a second estimate
      as old as the best is replaced, and past half of it a third as old as the second, even by
      samples that do not reach them. */
  lemma Refreshes(max: bool, e: Estimates, u: Update)
    requires e.best.time <= e.second.time <= e.third.time <= u.sample.time
    requires !Reaches(max, u.sample.value, e.best.value) && u.sample.time - e.best.time <= u.win
    ensures var r, s, age := Running(max, e, u), u.sample, u.sample.time - e.best.time;
            var second := Reaches(max, s.value, e.second.value) || (e.second.time == e.best.time && age > u.quarter);
            var third := Reaches(max, s.value, e.third.value) || (e.third.time == e.second.time && age > u.half);
            && r.best == e.best
            && r.second == (if second then s else e.second)
            && r.third == (if second || third then s else e.third)
            && (age > u.quarter ==> r.best.time < r.second.time)
  {
  }

  /** All three estimates when the best one has left the window and the third has not: those left in
      the window move up, and the sample fills the places behind them. */
  lemma MovesAllUp(max: bool, e: Estimates, u: Update)
    requires e.best.time <= e.second.time <= e.third.time <= u.sample.time
    requires !Reaches(max, u.sample.value, e.best.value)
    requires u.sample.time - e.best.time > u.win >= u.sample.time - e.third.time
    ensures var s := u.sample;
            var second := if Reaches(max, s.value, e.second.value) then s else e.second;
            var third := if second == s || Reaches(max, s.value, e.third.value) then s else e.third;
            Running(max, e, u) == if s.time - second.time <= u.win then Estimates(second, third, s)
                                  else Estimates(third, s, s)
  {
  }

  lemma TrackedOrder(max: bool, h: seq<Sample>, e: Estimates)
    requires Tracked(max, h, e) && Monotone(h)
    ensures e.best.time <= e.second.time <= e.third.time
    ensures e.best in h && e.second in h && e.third in h
  {
    var a, b, c :| Tracks(max, h, e, a, b, c);
    assert h[a].time <= h[b].time <= h[c].time;
  }

  // ---------- Nothing ages out ----------

  ghost predicate AlwaysFresh(max: bool, first: Sample, us: seq<Update>) {
    us != [] ==>
      && AlwaysFresh(max, first, us[..|us| - 1])
      && BestIsFresh(max, After(max, first, us[..|us| - 1]), us[|us| - 1])
  }

  lemma MonotonePrefix(h: seq<Sample>, s: Sample)
    requires Monotone(h + [s])
    ensures Monotone(h) && forall i :: 0 <= i < |h| ==> h[i].time <= s.time
  {
    var g := h + [s];
    assert forall i :: 0 <= i < |h| ==> g[i] == h[i];
    assert g[|h|] == s;
  }

  /** While every update finds the best estimate in the window, whatever the windows are, the
      returned value is the extreme of everything since the reset. */
  lemma {:induction false} FreshRunsForgetNothing(max: bool, first: Sample, us: seq<Update>)
    requires Monotone(History(first, us)) && AlwaysFresh(max, first, us)
    ensures var h, v := History(first, us), After(max, first, us).best.value;
            forall i :: 0 <= i < |h| ==> Reaches(max, v, h[i].value)
  {
    if us != [] {
      var before, u := us[..|us| - 1], us[|us| - 1];
      var h, e := History(first, before), After(max, first, before);
      MonotonePrefix(h, u.sample);
      FreshRunsForgetNothing(max, first, before);
      RunKeepsTracked(max, first, before);
      TrackedOrder(max, h, e);
      BestAfter(max, e, u);
      hide Running, Tracked, Monotone;
    }
  }

  // ---------- Exactly when the tracker is exact ----------

  /** The update does not forget a sample: the best estimate is fresh, or the one that moves up is
      as extreme as everything still in the window. */
  ghost predicate ForgetsNothing(max: bool, h: seq<Sample>, e: Estimates, u: Update) {
    BestIsFresh(max, e, u) || ReachesWindow(max, h, u.sample.time, u.win, MovesUp(max, e, u).value)
  }

  /** A window that has moved on holds fewer of the old samples. */
  lemma WindowMoves(max: bool, h: seq<Sample>, now: nat, later: nat, win: nat, v: int)
    requires ReachesWindow(max, h, now, win, v) && now <= later
    ensures ReachesWindow(max, h, later, win, v)
  {
  }

  lemma WindowWithNew(max: bool, h: seq<Sample>, s: Sample, win: nat, v: int)
    ensures ReachesWindow(max, h + [s], s.time, win, v)
       <==> ReachesWindow(max, h, s.time, win, v) && Reaches(max, v, s.value)
  {
    var g := h + [s];
    assert g[|h|] == s && InWindow(s.time, win, s);
    if ReachesWindow(max, g, s.time, win, v) {
      forall i | 0 <= i < |h| && InWindow(s.time, win, h[i]) ensures Reaches(max, v, h[i].value) {
        assert g[i] == h[i];
      }
    }
  }

  lemma ReachesTransitive(max: bool, h: seq<Sample>, now: nat, win: nat, v: int, w: int)
    requires ReachesWindow(max, h, now, win, v) && Reaches(max, w, v)
    ensures ReachesWindow(max, h, now, win, w)
  {
  }

  /** From an exact state, an update gives the extreme of the window again if and only if it
      forgets nothing.  The condition speaks of the state before the update only. */
  lemma UpdateExactIff(max: bool, h: seq<Sample>, e: Estimates, now: nat, u: Update)
    requires Tracked(max, h, e) && Monotone(h + [u.sample]) && now <= u.sample.time
    requires IsWindowBest(max, h, now, u.win, e.best.value)
    ensures IsWindowBest(max, h + [u.sample], u.sample.time, u.win, Running(max, e, u).best.value)
       <==> ForgetsNothing(max, h, e, u)
  {
    var s, v := u.sample, Running(max, e, u).best.value;
    MonotonePrefix(h, s);
    TrackedOrder(max, h, e);
    BestAfter(max, e, u);
    RunningIsRecent(max, e, u);
    hide Running, Tracked, Monotone;
    BestIsMeasured(max, h, e, u);
    WindowMoves(max, h, now, s.time, u.win, e.best.value);
    WindowWithNew(max, h, s, u.win, v);
    if Reaches(max, s.value, e.best.value) {
      ReachesTransitive(max, h, s.time, u.win, e.best.value, s.value);
    }
    hide ReachesWindow;
  }

  /** What is returned was measured, and is in the window. */
  lemma BestIsMeasured(max: bool, h: seq<Sample>, e: Estimates, u: Update)
    requires e.best.time <= e.second.time <= e.third.time && e.best in h && e.second in h && e.third in h
    ensures var g, r := h + [u.sample], Running(max, e, u).best;
            exists i :: 0 <= i < |g| && InWindow(u.sample.time, u.win, g[i]) && g[i].value == r.value
  {
    var g, r := h + [u.sample], Running(max, e, u).best;
    BestAfter(max, e, u);
    RunningIsRecent(max, e, u);
    hide Running;
    assert r in g;
    var i :| 0 <= i < |g| && g[i] == r;
  }

  /** The time of the last sample. */
  function Now(first: Sample, us: seq<Update>): nat {
    if us == [] then first.time else us[|us| - 1].sample.time
  }

  ghost predicate ExactThroughout(max: bool, first: Sample, us: seq<Update>, win: nat) {
    && IsWindowBest(max, History(first, us), Now(first, us), win, After(max, first, us).best.value)
    && (us != [] ==> ExactThroughout(max, first, us[..|us| - 1], win))
  }

  ghost predicate NeverForgets(max: bool, first: Sample, us: seq<Update>) {
    us != [] ==>
      var before, u := us[..|us| - 1], us[|us| - 1];
      NeverForgets(max, first, before) && ForgetsNothing(max, History(first, before), After(max, first, before), u)
  }

  lemma {:induction false} NowIsLast(first: Sample, us: seq<Update>)
    ensures var h := History(first, us); h != [] && h[|h| - 1].time == Now(first, us)
  {
  }

  /** Over every run with one window: the tracker returns the extreme of the window at all times,
      as one that keeps every sample would, if and only if no update forgets a sample. */
  lemma {:induction false} ExactIff(max: bool, first: Sample, us: seq<Update>, win: nat)
    requires Monotone(History(first, us)) && forall i :: 0 <= i < |us| ==> us[i].win == win
    ensures ExactThroughout(max, first, us, win) <==> NeverForgets(max, first, us)
  {
    if us == [] {
      assert InWindow(first.time, win, [first][0]);
    } else {
      var before, u := us[..|us| - 1], us[|us| - 1];
      var h, e := History(first, before), After(max, first, before);
      MonotonePrefix(h, u.sample);
      ExactIff(max, first, before, win);
      RunKeepsTracked(max, first, before);
      NowIsLast(first, before);
      hide Tracked, Monotone, ForgetsNothing, IsWindowBest, Running;
      if ExactThroughout(max, first, before, win) {
        UpdateExactIff(max, h, e, Now(first, before), u);
      }
    }
  }

  /** The forgetting does happen: the sample 2 is inside the window, but 3 is returned. */
  lemma ForgetsASample()
    ensures var us := [Update(8, 2, 4, Sample(1, 2)), Update(8, 2, 4, Sample(3, 3)), Update(8, 2, 4, Sample(9, 4))];
            var h := History(Sample(0, 1), us);
            && Monotone(h) && After(false, Sample(0, 1), us).best == Sample(3, 3)
            && IsWindowBest(false, h, 9, 8, 2)
  {
    var first := Sample(0, 1);
    var us := [Update(8, 2, 4, Sample(1, 2)), Update(8, 2, 4, Sample(3, 3)), Update(8, 2, 4, Sample(9, 4))];
    assert us[..2] == [us[0], us[1]] && us[..2][..1] == [us[0]] && us[..2][..1][..0] == [];
    assert After(false, first, [us[0]]) == Running(false, Reset(first), us[0]);
    assert After(false, first, us[..2]) == Running(false, After(false, first, [us[0]]), us[1]);
    assert History(first, [us[0]]) == [first, us[0].sample];
    assert History(first, us[..2]) == [first, us[0].sample, us[1].sample];
    var h := History(first, us);
    assert h == [first, us[0].sample, us[1].sample, us[2].sample];
    assert h[1].value == 2;
  }
}
