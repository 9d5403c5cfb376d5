/** The receiver of NEW_CONNECTION_ID frames on its own: what every call answers, and what no run of
    arrivals loses, whatever their order and however often they are repeated (sections 5.1.1, 5.1.2
    and 19.15 of RFC 9000). */
module CidReceiver {
  import opened Basics
  import opened Cid
  import opened CidReordering

  // ---------- What one call answers ----------

  /** The frame says again what is known. */
  ghost predicate Repeats(d: Dest, f: NewConnectionId) {
    exists e :: e in d.dcids && e.num == f.num && e.cid == f.cid && e.token == Some(f.token)
  }

  /** The frame gives a known number or a known ID a different meaning. */
  ghost predicate Conflicts(d: Dest, f: NewConnectionId) {
    exists e :: e in d.dcids && (e.num == f.num || e.cid == f.cid)
                && !(e.num == f.num && e.cid == f.cid && e.token == Some(f.token))
  }

  ghost predicate Unknown(d: Dest, f: NewConnectionId) {
    forall e :: e in d.dcids ==> e.num != f.num && e.cid != f.cid
  }

  ghost predicate Distinct(d: Dest) {
    DistinctNums(d.dcids) && DistinctCids(d.dcids)
  }

  /** Draining overflows exactly when the set is full before the last number goes in. */
  lemma {:induction false} DrainFullIff(es: seq<Entry>, d: Drained, capacity: nat)
    requires !d.full
    ensures Drain(es, d, capacity).full <==> es != [] && |d.retire + Nums(es[..|es| - 1])| >= capacity
    decreases |es|
  {
    hide Nums;
    if es != [] {
      var first, rest := es[0], es[1..];
      if |d.retire| >= capacity {
        MoreIsMore(d.retire, Nums(es[..|es| - 1]));
      } else {
        var next := Drained(d.retire + {first.num}, d.paths + PathOf(first), false);
        DrainFullIff(rest, next, capacity);
        assert Drain(es, d, capacity) == Drain(rest, next, capacity);
        hide Drain;
        if rest == [] {
          NoNums(d.retire, es[..0]);
        } else {
          DrainShift(es, d.retire);
        }
      }
    }
  }

  lemma NoNums(retire: set<nat>, es: seq<Entry>)
    requires es == []
    ensures retire + Nums(es) == retire
  {
  }

  lemma MoreIsMore(a: set<nat>, b: set<nat>)
    ensures |a| <= |a + b|
  {
    assert a + b == a + (b - a);
  }

  lemma DrainShift(es: seq<Entry>, retire: set<nat>)
    requires |es| > 1
    ensures retire + Nums(es[..|es| - 1]) == retire + {es[0].num} + Nums(es[1..][..|es| - 2])
  {
    var front := es[..|es| - 1];
    assert front[1..] == es[1..][..|es| - 2] && front[0] == es[0];
    NumsCons(front);
    hide Nums;
  }

  /** The new entry finds room once the entries before the cut are gone, and so do their numbers in
      the retire set. */
  ghost predicate HasRoom(d: Dest, f: NewConnectionId, cut: nat)
    requires cut <= |d.dcids|
  {
    if f.retirePriorTo > d.peerRetirePriorTo
    then |d.dcids| - cut < d.capacity
         && (cut == 0 || |d.retire + Nums(d.dcids[..cut - 1])| < d.retireCapacity)
    else |d.dcids| < d.capacity
  }

  /** Every answer of `new_dcid`, and which ones leave the state alone. */
  lemma Answers(d: Dest, f: NewConnectionId, cut: nat)
    requires Distinct(d) && cut <= |d.dcids|
    ensures var (t, r, _) := NewDcid(d, f, cut);
            && (r == Err(InvalidState) <==> d.zeroLength)
            && (r == Err(InvalidFrame) <==>
                  !d.zeroLength && (Conflicts(d, f) || (Unknown(d, f) && f.num < f.retirePriorTo)))
            && (Repeats(d, f) && !d.zeroLength ==> r == Ok(()))
            && (!d.zeroLength && Unknown(d, f) && f.retirePriorTo <= f.num ==>
                  r == if f.num < d.peerRetirePriorTo
                       then if |d.retire| < d.retireCapacity then Ok(()) else Err(IdLimit)
                       else if HasRoom(d, f, cut) then Ok(()) else Err(IdLimit))
            && (r == Err(InvalidState) || r == Err(InvalidFrame) || Repeats(d, f) ==> t == d)
  {
    if Clashes(d.dcids, f.cid, f.num) {
      ClashAnswers(d, f);
      hide Drain;
    } else {
      NoClashIsUnknown(d, f);
      if !d.zeroLength && d.peerRetirePriorTo <= f.num && f.retirePriorTo <= f.num {
        RoomAnswers(d, f, cut);
        hide NewDcid;
      }
    }
  }

  lemma NoClashIsUnknown(d: Dest, f: NewConnectionId)
    requires !Clashes(d.dcids, f.cid, f.num)
    ensures Unknown(d, f) && !Conflicts(d, f) && !Repeats(d, f)
  {
  }

  /** A clash is a repetition or a conflict, and the first clashing entry tells which. */
  lemma ClashAnswers(d: Dest, f: NewConnectionId)
    requires Distinct(d) && Clashes(d.dcids, f.cid, f.num)
    ensures !Unknown(d, f) && (Conflicts(d, f) <==> !Repeats(d, f))
    ensures var e := FirstClash(d.dcids, f.cid, f.num);
            Repeats(d, f) <==> e.num == f.num && e.cid == f.cid && e.token == Some(f.token)
  {
    var e := FirstClash(d.dcids, f.cid, f.num);
    var i :| 0 <= i < |d.dcids| && d.dcids[i] == e;
    if Repeats(d, f) {
      var g :| g in d.dcids && g.num == f.num && g.cid == f.cid && g.token == Some(f.token);
      var j :| 0 <= j < |d.dcids| && d.dcids[j] == g;
      assert forall k :: 0 <= k < |d.dcids| && k != j ==> d.dcids[k].num != f.num && d.dcids[k].cid != f.cid;
      assert i == j;
    }
  }

  lemma RoomAnswers(d: Dest, f: NewConnectionId, cut: nat)
    requires cut <= |d.dcids| && !d.zeroLength && !Clashes(d.dcids, f.cid, f.num)
    requires d.peerRetirePriorTo <= f.num && f.retirePriorTo <= f.num
    ensures NewDcid(d, f, cut).1 == if HasRoom(d, f, cut) then Ok(()) else Err(IdLimit)
  {
    NewInSuffix(d, f, cut);
    NewInSuffix(d, f, 0);
    assert d.dcids[0..] == d.dcids;
    DrainFullIff(d.dcids[..cut], Drained(d.retire, [], false), d.retireCapacity);
    if cut > 0 {
      assert d.dcids[..cut][..cut - 1] == d.dcids[..cut - 1];
    }
    hide Drain, Nums;
  }

  // ---------- The paths that lose their ID ----------

  /** `paths` lists the numbers and paths of exactly those entries that have a path, in their order,
      which stand at the positions `ks`. */
  ghost predicate ListsPaths(paths: seq<(nat, nat)>, es: seq<Entry>, ks: seq<nat>) {
    Ascending(ks) && PairsAt(paths, es, ks) && forall k :: 0 <= k < |es| && es[k].path.Some? ==> k in ks
  }

  ghost predicate Ascending(ks: seq<nat>) {
    forall i, j :: 0 <= i < j < |ks| ==> ks[i] < ks[j]
  }

  ghost predicate PairsAt(paths: seq<(nat, nat)>, es: seq<Entry>, ks: seq<nat>) {
    && |ks| == |paths|
    && forall i :: 0 <= i < |ks| ==>
         ks[i] < |es| && es[ks[i]].path == Some(paths[i].1) && es[ks[i]].num == paths[i].0
  }

  /** Draining stops at the first entry that finds the retire set full.  The path of that entry is
      still listed. */
  lemma {:induction false} DrainStops(es: seq<Entry>, d: Drained, capacity: nat) returns (k: nat, ks: seq<nat>)
    requires !d.full
    ensures var r := Drain(es, d, capacity);
            && k <= |es| && (r.full <==> k < |es|) && r.retire == d.retire + Nums(es[..k])
            && (r.full ==> |r.retire| >= capacity)
            && d.paths <= r.paths
            && ListsPaths(r.paths[|d.paths|..], es[..if r.full then k + 1 else k], ks)
    decreases |es|
  {
    hide Nums, ListsPaths;
    var r := Drain(es, d, capacity);
    if es == [] {
      k, ks := 0, [];
      NoNums(d.retire, es[..0]);
      assert d.paths[|d.paths|..] == [];
      NoPaths(es[..0]);
    } else if |d.retire| >= capacity {
      k := 0;
      NoNums(d.retire, es[..0]);
      assert r.paths[|d.paths|..] == PathOf(es[0]) && PathOf(es[0]) + [] == PathOf(es[0]);
      NoPaths(es[..1][1..]);
      ks := PathsCons(es[..1], [], []);
    } else {
      var next := Drained(d.retire + {es[0].num}, d.paths + PathOf(es[0]), false);
      var n, at := DrainStops(es[1..], next, capacity);
      assert r == Drain(es[1..], next, capacity);
      k := n + 1;
      hide Drain;
      ks := StopsLater(es, d.paths, r.paths, if r.full then n + 1 else n, at);
      NumsPrefix(es, k);
    }
  }

  lemma NumsPrefix(es: seq<Entry>, k: nat)
    requires 1 <= k <= |es|
    ensures Nums(es[..k]) == {es[0].num} + Nums(es[1..][..k - 1])
  {
    assert es[..k][1..] == es[1..][..k - 1];
    NumsCons(es[..k]);
    hide Nums;
  }

  lemma StopsLater(es: seq<Entry>, before: seq<(nat, nat)>, all: seq<(nat, nat)>, len: nat, at: seq<nat>)
    returns (ks: seq<nat>)
    requires es != [] && len < |es| && before + PathOf(es[0]) <= all
    requires ListsPaths(all[|before + PathOf(es[0])|..], es[1..][..len], at)
    ensures ListsPaths(all[|before|..], es[..len + 1], ks)
  {
    hide ListsPaths;
    var tail := all[|before + PathOf(es[0])|..];
    assert es[..len + 1][1..] == es[1..][..len];
    ks := PathsCons(es[..len + 1], tail, at);
    assert all[|before|..] == PathOf(es[0]) + tail;
  }

  lemma NoPaths(es: seq<Entry>)
    requires es == []
    ensures ListsPaths([], es, [])
  {
  }

  lemma PathsCons(es: seq<Entry>, tail: seq<(nat, nat)>, at: seq<nat>) returns (ks: seq<nat>)
    requires es != [] && ListsPaths(tail, es[1..], at)
    ensures ListsPaths(PathOf(es[0]) + tail, es, ks)
  {
    var later := seq(|at|, i requires 0 <= i < |at| => at[i] + 1);
    LaterPaths(es, tail, at, later);
    hide Ascending, PairsAt;
    if es[0].path.Some? {
      ks := [0] + later;
      PathsHead(es, tail, later);
      AscendingHead(later);
    } else {
      ks := later;
      assert PathOf(es[0]) + tail == tail;
    }
  }

  lemma LaterPaths(es: seq<Entry>, tail: seq<(nat, nat)>, at: seq<nat>, later: seq<nat>)
    requires es != [] && ListsPaths(tail, es[1..], at)
    requires |later| == |at| && forall i :: 0 <= i < |at| ==> later[i] == at[i] + 1
    ensures Ascending(later) && PairsAt(tail, es, later) && (forall i :: 0 <= i < |later| ==> later[i] > 0)
    ensures forall k :: 0 < k < |es| && es[k].path.Some? ==> k in later
  {
    var rest := es[1..];
    forall i | 0 <= i < |later|
      ensures 0 < later[i] < |es| && es[later[i]].path == Some(tail[i].1) && es[later[i]].num == tail[i].0
    {
      assert rest[at[i]] == es[later[i]];
    }
    forall k | 0 < k < |es| && es[k].path.Some? ensures k in later {
      assert rest[k - 1] == es[k];
      var i :| 0 <= i < |at| && at[i] == k - 1;
      assert later[i] == k;
    }
  }

  lemma PathsHead(es: seq<Entry>, tail: seq<(nat, nat)>, later: seq<nat>)
    requires es != [] && es[0].path.Some? && PairsAt(tail, es, later)
    ensures PairsAt([(es[0].num, es[0].path.value)] + tail, es, [0] + later)
  {
  }

  lemma AscendingHead(later: seq<nat>)
    requires Ascending(later) && forall i :: 0 <= i < |later| ==> later[i] > 0
    ensures Ascending([0] + later)
  {
  }

  /** The returned list of an accepted frame holds the numbers and paths of the retired entries. */
  lemma ReturnedPaths(d: Dest, f: NewConnectionId, cut: nat) returns (ks: seq<nat>)
    requires cut <= |d.dcids| && NewDcid(d, f, cut).1.Ok?
    ensures ListsPaths(NewDcid(d, f, cut).2, if Obeyed(d, f) then d.dcids[..cut] else [], ks)
  {
    if Obeyed(d, f) {
      hide NewDcid, Drain, ListsPaths;
      var k;
      k, ks := ObeyedAnyway(d, f, cut);
      assert d.dcids[..k] == d.dcids[..cut];
    } else {
      ks := [];
      OtherPaths(d, f, cut);
    }
  }

  /** What an obeyed frame does, accepted or not.  The queue loses the entries before the cut and
      takes the new one if there is room.  If the retire set fills up at position `k`, the numbers
      from there on are lost. */
  lemma ObeyedAnyway(d: Dest, f: NewConnectionId, cut: nat) returns (k: nat, ks: seq<nat>)
    requires cut <= |d.dcids| && Obeyed(d, f)
    ensures var (t, r, paths) := NewDcid(d, f, cut);
            && k <= cut && (k < cut ==> |t.retire| >= d.retireCapacity)
            && t.retire == d.retire + Nums(d.dcids[..k])
            && ListsPaths(paths, d.dcids[..if k < cut then k + 1 else k], ks)
            && t.peerRetirePriorTo == f.retirePriorTo
            && t.largest >= f.num && t.largest >= d.largest && (t.largest == f.num || t.largest == d.largest)
            && t.dcids == d.dcids[cut..] + (if |d.dcids| - cut < d.capacity
                                            then [Entry(f.cid, f.num, Some(f.token), None)] else [])
            && t == d.(dcids := t.dcids, retire := t.retire, peerRetirePriorTo := f.retirePriorTo,
                       largest := t.largest)
            && (r.Ok? <==> k == cut && |d.dcids| - cut < d.capacity)
  {
    var es, start := d.dcids[..cut], Drained(d.retire, [], false);
    k, ks := DrainStops(es, start, d.retireCapacity);
    var drained := Drain(es, start, d.retireCapacity);
    assert drained.paths[0..] == drained.paths;
    assert es[..k] == d.dcids[..k] && (k < cut ==> es[..k + 1] == d.dcids[..k + 1]);
    NewInSuffix(d, f, cut);
    hide Drain, ListsPaths, Nums, IndexOf;
  }

  lemma OtherPaths(d: Dest, f: NewConnectionId, cut: nat)
    requires cut <= |d.dcids| && !Obeyed(d, f) && NewDcid(d, f, cut).1.Ok?
    ensures NewDcid(d, f, cut).2 == []
  {
    hide Drain, FirstClash;
  }

  // ---------- Conservation ----------

  /** All numbers that the receiver answers for. */
  ghost function Known(d: Dest): set<nat> {
    Nums(d.dcids) + d.retire
  }

  /** A call that returns Ok loses no number: the new one is stored, known already, or retired at
      once because it comes late. */
  lemma CallConserves(d: Dest, f: NewConnectionId, cut: nat)
    requires Distinct(d) && cut <= |d.dcids| && NewDcid(d, f, cut).1.Ok?
    ensures Known(NewDcid(d, f, cut).0) == Known(d) + {f.num}
  {
    hide NewDcid, Nums;
    Answers(d, f, cut);
    if Clashes(d.dcids, f.cid, f.num) {
      ClashAnswers(d, f);
      RepeatedIsKnown(d, f);
    } else {
      NoClashIsUnknown(d, f);
      if f.num < d.peerRetirePriorTo {
        LateEffect(d, f, cut);
      } else if f.retirePriorTo > d.peerRetirePriorTo {
        ObeyedEffect(d, f, cut);
        NumsConcat(d.dcids[..cut], d.dcids[cut..]);
        assert d.dcids == d.dcids[..cut] + d.dcids[cut..];
      } else {
        PlainEffect(d, f, cut);
      }
    }
  }

  lemma RepeatedIsKnown(d: Dest, f: NewConnectionId)
    requires Repeats(d, f)
    ensures f.num in Nums(d.dcids) && Known(d) + {f.num} == Known(d)
  {
  }

  /** The number of a late frame goes into the retire set, and nothing else happens. */
  lemma LateEffect(d: Dest, f: NewConnectionId, cut: nat)
    requires cut <= |d.dcids| && !d.zeroLength && !Clashes(d.dcids, f.cid, f.num)
    requires f.retirePriorTo <= f.num < d.peerRetirePriorTo && |d.retire| < d.retireCapacity
    ensures NewDcid(d, f, cut) == (d.(retire := d.retire + {f.num}), Ok(()), [])
  {
  }

  lemma PlainEffect(d: Dest, f: NewConnectionId, cut: nat)
    requires cut <= |d.dcids| && !d.zeroLength && !Clashes(d.dcids, f.cid, f.num)
    requires f.retirePriorTo <= d.peerRetirePriorTo <= f.num && NewDcid(d, f, cut).1.Ok?
    ensures var t := NewDcid(d, f, cut).0;
            && t.dcids == d.dcids + [Entry(f.cid, f.num, Some(f.token), None)]
            && t.retire == d.retire && t.peerRetirePriorTo == d.peerRetirePriorTo
            && Nums(t.dcids) == Nums(d.dcids) + {f.num}
  {
    NewInSuffix(d, f, 0);
    assert d.dcids[0..] == d.dcids;
    AppendNums(d.dcids, Entry(f.cid, f.num, Some(f.token), None));
  }

  lemma CallKeepsDistinct(d: Dest, f: NewConnectionId, cut: nat)
    requires Distinct(d) && cut <= |d.dcids|
    ensures Distinct(NewDcid(d, f, cut).0)
  {
    NewDcidKeepsDistinct(d, f, cut);
    var t := NewDcid(d, f, cut).0;
    if !Clashes(d.dcids, f.cid, f.num) {
      NewInSuffix(d, f, cut);
      NewInSuffix(d, f, 0);
      assert d.dcids[0..] == d.dcids;
      hide Drain, FirstClash;
      var e := Entry(f.cid, f.num, Some(f.token), None);
      assert t.dcids == d.dcids || t.dcids == d.dcids[cut..]
          || t.dcids == d.dcids + [e] || t.dcids == d.dcids[cut..] + [e];
    }
  }

  // ---------- Runs ----------

  /** Every frame of the run is accepted. */
  ghost predicate AllOk(d: Dest, arrivals: seq<Arrival>)
    decreases |arrivals|
  {
    arrivals != [] ==>
      && Arrives(d, arrivals[0])
      && NewDcid(d, arrivals[0].frame, arrivals[0].cut).1.Ok?
      && AllOk(NewDcid(d, arrivals[0].frame, arrivals[0].cut).0, arrivals[1..])
  }

  ghost function Arrived(arrivals: seq<Arrival>): set<nat> {
    set i | 0 <= i < |arrivals| :: arrivals[i].frame.num
  }

  lemma ArrivedCons(arrivals: seq<Arrival>)
    requires arrivals != []
    ensures Arrived(arrivals) == {arrivals[0].frame.num} + Arrived(arrivals[1..])
  {
    var rest := arrivals[1..];
    forall i | 0 <= i < |rest| ensures rest[i].frame.num in Arrived(arrivals) {
      assert rest[i] == arrivals[i + 1];
    }
    forall i | 0 < i < |arrivals| ensures arrivals[i].frame.num in Arrived(rest) {
      assert arrivals[i] == rest[i - 1];
    }
  }

  /** The main result: over every accepted run of arrivals, in any order and with repetitions, the
      receiver answers for exactly the numbers it started with and those that arrived.  None is
      dropped without being retired, late ones included. */
  lemma {:induction false} ArrivalsConserve(d: Dest, arrivals: seq<Arrival>)
    requires Distinct(d) && AllOk(d, arrivals)
    ensures Known(AfterArrivals(d, arrivals)) == Known(d) + Arrived(arrivals)
    ensures Distinct(AfterArrivals(d, arrivals))
    decreases |arrivals|
  {
    if arrivals == [] {
      assert Known(d) + Arrived([]) == Known(d);
    } else {
      var a := arrivals[0];
      CallConserves(d, a.frame, a.cut);
      CallKeepsDistinct(d, a.frame, a.cut);
      ArrivedCons(arrivals);
      hide NewDcid, Known, Distinct, Arrived;
      ArrivalsConserve(NewDcid(d, a.frame, a.cut).0, arrivals[1..]);
    }
  }

  /** Whenever a frame is obeyed, the cut separates the numbers to retire from the others. */
  ghost predicate ExactCuts(d: Dest, arrivals: seq<Arrival>)
    decreases |arrivals|
  {
    arrivals != [] ==>
      var a := arrivals[0];
      && a.cut <= |d.dcids|
      && (Obeyed(d, a.frame) ==> IsExactCut(d.dcids, a.frame.retirePriorTo, a.cut))
      && ExactCuts(NewDcid(d, a.frame, a.cut).0, arrivals[1..])
  }

  /** Exactly the numbers below the largest Retire Prior To so far wait to be retired. */
  ghost predicate Split(d: Dest) {
    && (forall n :: n in d.retire ==> n < d.peerRetirePriorTo)
    && (forall n :: n in Nums(d.dcids) ==> d.peerRetirePriorTo <= n)
  }

  lemma CallSplits(d: Dest, f: NewConnectionId, cut: nat)
    requires Distinct(d) && Split(d) && cut <= |d.dcids| && NewDcid(d, f, cut).1.Ok?
    requires Obeyed(d, f) ==> IsExactCut(d.dcids, f.retirePriorTo, cut)
    ensures Split(NewDcid(d, f, cut).0)
  {
    hide NewDcid;
    Answers(d, f, cut);
    if Clashes(d.dcids, f.cid, f.num) {
      ClashAnswers(d, f);
    } else {
      NoClashIsUnknown(d, f);
      hide Nums;
      if f.num < d.peerRetirePriorTo {
        LateEffect(d, f, cut);
      } else if f.retirePriorTo > d.peerRetirePriorTo {
        ObeyedEffect(d, f, cut);
        ExactCutSets(d.dcids, f.retirePriorTo, cut);
        ObeyedBound(d, f, cut);
      } else {
        PlainEffect(d, f, cut);
      }
    }
  }

  lemma ObeyedBound(d: Dest, f: NewConnectionId, cut: nat)
    requires cut <= |d.dcids| && Obeyed(d, f) && NewDcid(d, f, cut).1.Ok?
    ensures NewDcid(d, f, cut).0.peerRetirePriorTo == f.retirePriorTo
  {
    hide Drain;
  }

  /** While every cut is exact, the two sets stay disjoint: the retire set holds the known numbers
      below Retire Prior To, and the queue holds the others. */
  lemma {:induction false} ArrivalsSplit(d: Dest, arrivals: seq<Arrival>)
    requires Distinct(d) && Split(d) && AllOk(d, arrivals) && ExactCuts(d, arrivals)
    ensures var t := AfterArrivals(d, arrivals);
            && Split(t) && Nums(t.dcids) !! t.retire
            && t.retire == (set n | n in Known(d) + Arrived(arrivals) && n < t.peerRetirePriorTo)
            && Nums(t.dcids) == (set n | n in Known(d) + Arrived(arrivals) && n >= t.peerRetirePriorTo)
    decreases |arrivals|
  {
    SplitOverRun(d, arrivals);
    ArrivalsConserve(d, arrivals);
    hide AfterArrivals, Nums, Arrived;
  }

  lemma {:induction false} SplitOverRun(d: Dest, arrivals: seq<Arrival>)
    requires Distinct(d) && Split(d) && AllOk(d, arrivals) && ExactCuts(d, arrivals)
    ensures Split(AfterArrivals(d, arrivals))
    decreases |arrivals|
  {
    if arrivals != [] {
      var a := arrivals[0];
      CallSplits(d, a.frame, a.cut);
      CallKeepsDistinct(d, a.frame, a.cut);
      hide NewDcid, Split, Distinct;
      SplitOverRun(NewDcid(d, a.frame, a.cut).0, arrivals[1..]);
    }
  }
}
