/** What `new_dcid` retires when NEW_CONNECTION_ID frames arrive in any order.  The queue is kept
    in the order of arrival, and the search for the cut assumes the order of the numbers. */
module CidReordering {
  import opened Basics
  import opened Cid

  /** The frame is new, well-formed, not late, and asks for more retirement than before. */
  ghost predicate Obeyed(d: Dest, f: NewConnectionId) {
    && !d.zeroLength && !Clashes(d.dcids, f.cid, f.num)
    && d.peerRetirePriorTo < f.retirePriorTo <= f.num
  }

  ghost function Below(es: seq<Entry>, bound: nat): set<nat> {
    set n | n in Nums(es) && n < bound
  }

  ghost function NotBelow(es: seq<Entry>, bound: nat): set<nat> {
    set n | n in Nums(es) && n >= bound
  }

  /** What section 19.15 of RFC 9000 asks for: the numbers below Retire Prior To are retired, and
      the others stay next to the new one. */
  ghost predicate RetiresExactly(d: Dest, f: NewConnectionId, t: Dest) {
    && t.retire == d.retire + Below(d.dcids, f.retirePriorTo)
    && Nums(t.dcids) == NotBelow(d.dcids, f.retirePriorTo) + {f.num}
  }

  /** A frame that is obeyed without an error retires exactly what it asks for if and only if the
      numbers to retire come first in the queue. */
  lemma RetiresExactlyIff(d: Dest, f: NewConnectionId, cut: nat)
    requires Obeyed(d, f) && DistinctNums(d.dcids) && IsCut(d.dcids, f.retirePriorTo, cut)
    requires NewDcid(d, f, cut).1.Ok?
    ensures RetiresExactly(d, f, NewDcid(d, f, cut).0) <==> Partitioned(d.dcids, f.retirePriorTo)
  {
    var t := NewDcid(d, f, cut).0;
    ObeyedEffect(d, f, cut);
    hide NewDcid;
    var es, bound := d.dcids, f.retirePriorTo;
    if Partitioned(es, bound) {
      ExactCutSets(es, bound, cut);
    } else if RetiresExactly(d, f, t) {
      NewIsOther(d, f);
      assert Nums(es[cut..]) == NotBelow(es, bound);
      CutIsExact(es, bound, cut);
    }
  }

  /** The entries before the cut are retired and the new one is appended. */
  lemma ObeyedEffect(d: Dest, f: NewConnectionId, cut: nat)
    requires Obeyed(d, f) && cut <= |d.dcids| && NewDcid(d, f, cut).1.Ok?
    ensures var t := NewDcid(d, f, cut).0;
            && t.retire == d.retire + Nums(d.dcids[..cut])
            && t.dcids == d.dcids[cut..] + [Entry(f.cid, f.num, Some(f.token), None)]
            && Nums(t.dcids) == Nums(d.dcids[cut..]) + {f.num}
  {
    var e := Entry(f.cid, f.num, Some(f.token), None);
    var drained := Drain(d.dcids[..cut], Drained(d.retire, [], false), d.retireCapacity);
    NotFull(d.dcids[..cut], Drained(d.retire, [], false), d.retireCapacity);
    AppendNums(d.dcids[cut..], e);
    hide Drain;
    var i := IndexOf(d.dcids[cut..], f.num);
    assert i == |d.dcids[cut..]| by {
      NewInSuffix(d, f, cut);
    }
    assert QueueInsert(d.dcids[cut..], d.capacity, e).Ok? ==>
        QueueInsert(d.dcids[cut..], d.capacity, e).value == d.dcids[cut..] + [e];
  }

  lemma NewInSuffix(d: Dest, f: NewConnectionId, cut: nat)
    requires cut <= |d.dcids| && !Clashes(d.dcids, f.cid, f.num)
    ensures IndexOf(d.dcids[cut..], f.num) == |d.dcids[cut..]|
  {
    assert forall i :: 0 <= i < |d.dcids[cut..]| ==> d.dcids[cut..][i] == d.dcids[cut + i];
  }

  /** Draining that does not overflow retires every drained number. */
  lemma {:induction false} NotFull(es: seq<Entry>, d: Drained, capacity: nat)
    requires !d.full
    ensures !Drain(es, d, capacity).full ==> Drain(es, d, capacity).retire == d.retire + Nums(es)
    decreases |es|
  {
    if es == [] {
      assert d.retire + Nums(es) == d.retire;
    } else if |d.retire| < capacity {
      var e := Drained(d.retire + {es[0].num}, d.paths + PathOf(es[0]), false);
      NotFull(es[1..], e, capacity);
      NumsCons(es);
      hide Nums;
      assert d.retire + Nums(es) == e.retire + Nums(es[1..]);
    }
  }

  lemma NewIsOther(d: Dest, f: NewConnectionId)
    requires !Clashes(d.dcids, f.cid, f.num)
    ensures f.num !in Nums(d.dcids) && forall cut :: 0 <= cut <= |d.dcids| ==> f.num !in Nums(d.dcids[cut..])
  {
  }

  lemma ExactCutSets(es: seq<Entry>, bound: nat, cut: nat)
    requires cut <= |es| && IsExactCut(es, bound, cut)
    ensures Nums(es[..cut]) == Below(es, bound) && Nums(es[cut..]) == NotBelow(es, bound)
  {
    NumsConcat(es[..cut], es[cut..]);
    assert es == es[..cut] + es[cut..];
    forall n | n in Nums(es[..cut]) ensures n < bound {
      var i :| 0 <= i < cut && es[..cut][i].num == n;
    }
    forall n | n in Nums(es[cut..]) ensures n >= bound {
      var i :| 0 <= i < |es| - cut && es[cut..][i].num == n;
    }
  }

  lemma CutIsExact(es: seq<Entry>, bound: nat, cut: nat)
    requires cut <= |es| && DistinctNums(es) && Nums(es[cut..]) == NotBelow(es, bound)
    ensures IsExactCut(es, bound, cut) && Partitioned(es, bound)
  {
    forall i | cut <= i < |es| ensures es[i].num >= bound {
      assert es[cut..][i - cut].num in Nums(es[cut..]);
    }
    forall i | 0 <= i < cut ensures es[i].num < bound {
      OnlyInFront(es, cut, i);
      assert es[i].num in Nums(es);
    }
  }

  lemma OnlyInFront(es: seq<Entry>, cut: nat, i: nat)
    requires i < cut <= |es| && DistinctNums(es)
    ensures es[i].num !in Nums(es[cut..])
  {
    forall j | 0 <= j < |es[cut..]| ensures es[cut..][j].num != es[i].num {
      assert es[cut..][j] == es[cut + j];
    }
  }

  // ---------- Distinct numbers are kept ----------

  datatype Arrival = Arrival(frame: NewConnectionId, cut: nat)

  ghost predicate Arrives(d: Dest, a: Arrival) {
    IsCut(d.dcids, a.frame.retirePriorTo, a.cut)
  }

  ghost function AfterArrivals(d: Dest, arrivals: seq<Arrival>): Dest
    decreases |arrivals|
  {
    if arrivals == [] || !Arrives(d, arrivals[0]) then d
    else AfterArrivals(NewDcid(d, arrivals[0].frame, arrivals[0].cut).0, arrivals[1..])
  }

  lemma {:induction false} ArrivalsKeepDistinct(d: Dest, arrivals: seq<Arrival>)
    requires DistinctNums(d.dcids)
    ensures DistinctNums(AfterArrivals(d, arrivals).dcids)
    decreases |arrivals|
  {
    if arrivals != [] && Arrives(d, arrivals[0]) {
      NewDcidKeepsDistinct(d, arrivals[0].frame, arrivals[0].cut);
      ArrivalsKeepDistinct(NewDcid(d, arrivals[0].frame, arrivals[0].cut).0, arrivals[1..]);
    }
  }

  lemma NewDcidKeepsDistinct(d: Dest, f: NewConnectionId, cut: nat)
    requires DistinctNums(d.dcids) && cut <= |d.dcids|
    ensures DistinctNums(NewDcid(d, f, cut).0.dcids)
  {
    hide Drain, FirstClash;
    var t := NewDcid(d, f, cut).0;
    if !Clashes(d.dcids, f.cid, f.num) {
      NewInSuffix(d, f, cut);
      NewInSuffix(d, f, 0);
      assert d.dcids[0..] == d.dcids;
      var e := Entry(f.cid, f.num, Some(f.token), None);
      assert t.dcids == d.dcids || t.dcids == d.dcids[cut..]
          || t.dcids == d.dcids + [e] || t.dcids == d.dcids[cut..] + [e];
    }
  }

  // ---------- Arrival out of order ----------

  /** Frames 2, 1 and 3 arrive in this order, and 3 asks for the retirement of 0 and 1.  The queue
      is then 0, 2, 1, and whatever the search returns, ID 1 is kept or ID 2 is lost. */
  lemma ReorderedArrival(a: nat, b: nat, c: nat)
    requires a <= 1 && b <= 2 && c <= 3
    ensures var start := SetInitialDcid(NewDest(4, 0), [1], None, Some(0));
            var one := NewDcid(start, NewConnectionId(2, 0, [3], 0), a).0;
            |one.dcids| == 2 &&
            var two := NewDcid(one, NewConnectionId(1, 0, [2], 0), b).0;
            |two.dcids| == 3 &&
            var three := NewDcid(two, NewConnectionId(3, 2, [4], 0), c);
            && two.dcids[0].num == 0 && two.dcids[1].num == 2 && two.dcids[2].num == 1
            && three.1.Ok?
            && (1 in Nums(three.0.dcids) || 2 !in Nums(three.0.dcids))
  {
    var start := SetInitialDcid(NewDest(4, 0), [1], None, Some(0));
    var f1, f2, f3 := NewConnectionId(2, 0, [3], 0), NewConnectionId(1, 0, [2], 0), NewConnectionId(3, 2, [4], 0);
    PlainArrival(start, f1, a);
    var one := NewDcid(start, f1, a).0;
    PlainArrival(one, f2, b);
    var two := NewDcid(one, f2, b).0;
    hide NewDcid;
    NotPartitioned(two.dcids);
    RoomToObey(two, f3, c);
    KeptOrLost(two, f3, c);
  }

  /** A frame that asks for no further retirement is appended. */
  lemma PlainArrival(d: Dest, f: NewConnectionId, cut: nat)
    requires !d.zeroLength && !Clashes(d.dcids, f.cid, f.num) && cut <= |d.dcids|
    requires f.retirePriorTo <= d.peerRetirePriorTo <= f.num && |d.dcids| < d.capacity
    ensures NewDcid(d, f, cut).1.Ok?
    ensures NewDcid(d, f, cut).0 == d.(dcids := d.dcids + [Entry(f.cid, f.num, Some(f.token), None)],
                                       largest := if f.num > d.largest then f.num else d.largest)
  {
    NewInSuffix(d, f, 0);
    assert d.dcids[0..] == d.dcids;
  }

  lemma NotPartitioned(es: seq<Entry>)
    requires |es| == 3 && es[0].num == 0 && es[1].num == 2 && es[2].num == 1
    ensures !Partitioned(es, 2) && DistinctNums(es)
  {
    assert es[2].num < 2 && es[1].num >= 2;
  }

  lemma RoomToObey(d: Dest, f: NewConnectionId, cut: nat)
    requires Obeyed(d, f) && cut <= |d.dcids| < d.capacity
    requires |d.dcids| <= d.retireCapacity && d.retire == {}
    ensures NewDcid(d, f, cut).1.Ok?
  {
    NeverFull(d.dcids[..cut], Drained(d.retire, [], false), d.retireCapacity);
    hide Drain;
  }

  lemma {:induction false} NeverFull(es: seq<Entry>, d: Drained, capacity: nat)
    requires !d.full && |d.retire| + |es| <= capacity
    ensures !Drain(es, d, capacity).full
    decreases |es|
  {
    if es != [] {
      NeverFull(es[1..], Drained(d.retire + {es[0].num}, d.paths + PathOf(es[0]), false), capacity);
    }
  }

  lemma KeptOrLost(d: Dest, f: NewConnectionId, cut: nat)
    requires Obeyed(d, f) && cut <= |d.dcids| && NewDcid(d, f, cut).1.Ok? && f.num == 3
    requires |d.dcids| == 3 && d.dcids[1].num == 2 && d.dcids[2].num == 1 && d.dcids[0].num == 0
    ensures 1 in Nums(NewDcid(d, f, cut).0.dcids) || 2 !in Nums(NewDcid(d, f, cut).0.dcids)
  {
    ObeyedEffect(d, f, cut);
    hide NewDcid;
    if cut < 3 {
      assert d.dcids[cut..][2 - cut].num == 1;
      assert 1 in Nums(d.dcids[cut..]);
    }
  }
}
