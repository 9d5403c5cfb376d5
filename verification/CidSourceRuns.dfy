/** Runs of the source-ID half: what any mix of successful and failing calls keeps, and when
    the peer's limit is respected throughout. */
module CidSourceRuns {
  import opened Basics
  import opened Cid

  datatype Call =
    | SetSourceLimit(limit: nat)
    | Issue(cid: ConnectionId, token: Option<nat>, advertise: bool, path: Option<nat>, retireIfNeeded: bool)
    | Retire(num: nat, pktDcid: ConnectionId)
    | Mark(num: nat, add: bool)
    | LinkPath(num: nat, pathId: nat)
    | PopRetired

  function LinkScid(s: Source, num: nat, path: nat): Source {
    var i := IndexOf(s.scids, num);
    if i < |s.scids| then s.(scids := s.scids[i := s.scids[i].(path := Some(path))]) else s
  }

  function Step(s: Source, c: Call): Source {
    match c
    case SetSourceLimit(v) => SetLimit(s, v)
    case Issue(cid, token, advertise, path, retire) => NewScid(s, cid, token, advertise, path, retire).0
    case Retire(num, pktDcid) => RetireScid(s, num, pktDcid).0
    case Mark(num, add) => s.(advertise := MarkAdvertise(s.advertise, num, add))
    case LinkPath(num, path) => LinkScid(s, num, path)
    case PopRetired => if s.retired == [] then s else s.(retired := s.retired[1..])
  }

  function Run(s: Source, calls: seq<Call>): Source
    decreases |calls|
  {
    if calls == [] then s else Run(Step(s, calls[0]), calls[1..])
  }

  /** The numbers whose retirement has not been asked for. */
  ghost function Usable(es: seq<Entry>, retirePriorTo: nat): set<nat> {
    set n | n in Nums(es) && n >= retirePriorTo
  }

  /** The capacity is sized for the largest limit so far, which bounds the usable IDs. */
  ghost predicate SourceInv(s: Source) {
    && Increasing(s.scids) && DistinctCids(s.scids)
    && (forall i :: 0 <= i < |s.scids| ==> s.scids[i].num < s.next)
    && s.retirePriorTo <= s.next
    && 2 * |Usable(s.scids, s.retirePriorTo)| - 1 <= s.capacity
    && 1 <= |s.scids| <= s.capacity
    && 2 <= s.limit && 2 * s.limit - 1 <= s.capacity
  }

  /** The peer is offered no more IDs than it allows. */
  ghost predicate WithinLimit(s: Source) {
    |Usable(s.scids, s.retirePriorTo)| <= s.limit
  }

  lemma SubsetSize(a: set<nat>, b: set<nat>)
    requires a <= b
    ensures |a| <= |b|
  {
    assert b == a + (b - a);
  }

  /** Issuing brings the usable IDs up to the limit, or replaces one. */
  ghost predicate NoFurther(s: Source, t: Source) {
    && t.limit == s.limit && t.capacity == s.capacity
    && |Usable(t.scids, t.retirePriorTo)| <= Larger(s.limit, |Usable(s.scids, s.retirePriorTo)|)
  }

  function Larger(a: nat, b: nat): nat { if a >= b then a else b }

  lemma IssueKeepsInv(s: Source, cid: ConnectionId, token: Option<nat>, advertise: bool,
                      path: Option<nat>, retireIfNeeded: bool)
    requires SourceInv(s)
    ensures var t := NewScid(s, cid, token, advertise, path, retireIfNeeded).0;
            SourceInv(t) && NoFurther(s, t) && s.retirePriorTo <= t.retirePriorTo
  {
    var room := MakeRoom(s, retireIfNeeded);
    if room.Ok? {
      var r, e := room.value, Entry(cid, room.value.next, token, path);
      RoomForOne(s, retireIfNeeded);
      hide NewScid, MakeRoom, Nums, Usable;
      IssueShape(s, r, e, advertise, retireIfNeeded);
      var t := NewScid(s, cid, token, advertise, path, retireIfNeeded).0;
      if t != r {
        AppendKeeps(r, e);
      }
    }
  }

  /** Nothing is stored, or the new entry is appended. */
  lemma IssueShape(s: Source, r: Source, e: Entry, advertise: bool, retireIfNeeded: bool)
    requires MakeRoom(s, retireIfNeeded) == Ok(r) && e.num == r.next
    requires forall i :: 0 <= i < |r.scids| ==> r.scids[i].num < r.next
    ensures var t := NewScid(s, e.cid, e.token, advertise, e.path, retireIfNeeded).0;
            || t == r
            || (&& t == r.(scids := r.scids + [e], next := r.next + 1, advertise := t.advertise)
                && !HasCid(r.scids, e.cid) && |r.scids| < r.capacity)
  {
    assert IndexOf(r.scids, r.next) == |r.scids|;
    hide MakeRoom, MarkAdvertise, HasCid, FindCid, IndexOf;
  }

  /** After the limit check there is room for one more usable ID. */
  lemma RoomForOne(s: Source, retireIfNeeded: bool)
    requires SourceInv(s) && MakeRoom(s, retireIfNeeded).Ok?
    ensures var r := MakeRoom(s, retireIfNeeded).value;
            && r == s.(retirePriorTo := r.retirePriorTo)
            && s.retirePriorTo <= r.retirePriorTo <= s.next
            && |Usable(r.scids, r.retirePriorTo)| < Larger(s.limit, |Usable(s.scids, s.retirePriorTo)|)
  {
    if |s.scids| < s.limit {
      NumsSize(s.scids);
      SubsetSize(Usable(s.scids, s.retirePriorTo), Nums(s.scids));
    } else {
      var lowest := LowestUsable(s.scids, s.retirePriorTo).value;
      assert lowest in Usable(s.scids, s.retirePriorTo);
      assert Usable(s.scids, lowest + 1) == Usable(s.scids, s.retirePriorTo) - {lowest};
    }
  }

  lemma AppendKeeps(r: Source, e: Entry)
    requires Increasing(r.scids) && DistinctCids(r.scids) && !HasCid(r.scids, e.cid)
    requires forall i :: 0 <= i < |r.scids| ==> r.scids[i].num < e.num
    requires r.retirePriorTo <= e.num
    ensures Increasing(r.scids + [e]) && DistinctCids(r.scids + [e])
    ensures |Usable(r.scids + [e], r.retirePriorTo)| == |Usable(r.scids, r.retirePriorTo)| + 1
  {
    AppendOrder(r.scids, e);
    AppendNums(r.scids, e);
    assert e.num !in Nums(r.scids);
    assert Usable(r.scids + [e], r.retirePriorTo) == Usable(r.scids, r.retirePriorTo) + {e.num};
  }

  lemma RetireKeepsInv(s: Source, num: nat, pktDcid: ConnectionId)
    requires SourceInv(s)
    ensures var t := RetireScid(s, num, pktDcid).0;
            SourceInv(t) && NoFurther(s, t) && s.retirePriorTo <= t.retirePriorTo
  {
    if num < s.next && 1 < |s.scids| {
      QueueRemoveKeeps(s.scids, num);
      var rest := QueueRemove(s.scids, num).value.1;
      LowestIsIssued(rest, s.retirePriorTo);
      RetireEffect(s, num, pktDcid);
      var t := RetireScid(s, num, pktDcid).0;
      hide RetireScid, SourceInv, QueueRemove;
      if t != s {
        FewerScids(s, t, rest);
      }
    }
  }

  lemma RetireEffect(s: Source, num: nat, pktDcid: ConnectionId)
    requires QueueRemove(s.scids, num).Ok?
    ensures var t := RetireScid(s, num, pktDcid).0;
            var rest := QueueRemove(s.scids, num).value.1;
            || t == s
            || (&& t == s.(scids := rest, retired := t.retired, retirePriorTo := t.retirePriorTo)
                && (t.retirePriorTo == s.retirePriorTo
                    || Some(t.retirePriorTo) == LowestUsable(rest, s.retirePriorTo)))
  {
    hide QueueRemove;
  }

  lemma FewerScids(s: Source, t: Source, rest: seq<Entry>)
    requires SourceInv(s)
    requires rest != [] && |rest| <= |s.scids| && Increasing(rest) && DistinctCids(rest) && Nums(rest) <= Nums(s.scids)
    requires t == s.(scids := rest, retired := t.retired, retirePriorTo := t.retirePriorTo)
    requires t.retirePriorTo == s.retirePriorTo || t.retirePriorTo in Usable(rest, s.retirePriorTo)
    ensures SourceInv(t) && NoFurther(s, t) && s.retirePriorTo <= t.retirePriorTo
  {
    SubsetSize(Usable(rest, t.retirePriorTo), Usable(s.scids, s.retirePriorTo));
    assert forall n :: n in Nums(s.scids) ==> n < s.next;
    assert forall i :: 0 <= i < |rest| ==> rest[i].num in Nums(rest);
  }

  lemma LowestIsIssued(es: seq<Entry>, retirePriorTo: nat)
    ensures LowestUsable(es, retirePriorTo).Some? ==> LowestUsable(es, retirePriorTo).value in Nums(es)
  {
  }

  lemma LinkKeepsInv(s: Source, num: nat, path: nat)
    requires SourceInv(s)
    ensures SourceInv(LinkScid(s, num, path)) && NoFurther(s, LinkScid(s, num, path))
  {
    var t := LinkScid(s, num, path);
    assert forall i :: 0 <= i < |s.scids| ==> t.scids[i].num == s.scids[i].num && t.scids[i].cid == s.scids[i].cid;
    assert Nums(t.scids) == Nums(s.scids);
  }

  /** Every call, successful or not, keeps the invariant; `retirePriorTo` never goes back; and
      only a new limit can put the usable IDs over the limit. */
  lemma StepKeepsInv(s: Source, c: Call)
    requires SourceInv(s)
    ensures SourceInv(Step(s, c)) && s.retirePriorTo <= Step(s, c).retirePriorTo
    ensures !c.SetSourceLimit? ==> NoFurther(s, Step(s, c))
  {
    hide NewScid, RetireScid, MarkAdvertise;
    match c
    case SetSourceLimit(_) =>
    case Issue(cid, token, advertise, path, retire) => IssueKeepsInv(s, cid, token, advertise, path, retire);
    case Retire(num, pktDcid) => RetireKeepsInv(s, num, pktDcid);
    case Mark(_, _) =>
    case LinkPath(num, path) => LinkKeepsInv(s, num, path);
    case PopRetired =>
  }

  lemma {:induction false} RunKeepsInv(s: Source, calls: seq<Call>)
    requires SourceInv(s)
    ensures SourceInv(Run(s, calls)) && s.retirePriorTo <= Run(s, calls).retirePriorTo
    decreases |calls|
  {
    if calls != [] {
      StepKeepsInv(s, calls[0]);
      RunKeepsInv(Step(s, calls[0]), calls[1..]);
    }
  }

  /** The largest limit that was ever in force. */
  function LargestLimit(limit: nat, calls: seq<Call>): nat
    decreases |calls|
  {
    if calls == [] then limit
    else if calls[0].SetSourceLimit? then LargestLimit(Larger(limit, calls[0].limit), calls[1..])
    else LargestLimit(limit, calls[1..])
  }

  /** The capacity follows the largest limit. */
  lemma {:induction false} CapacityFollows(s: Source, largest: nat, calls: seq<Call>)
    requires SourceInv(s) && 2 <= largest && s.capacity == 2 * largest - 1
    ensures Run(s, calls).capacity == 2 * LargestLimit(largest, calls) - 1
    decreases |calls|
  {
    if calls != [] {
      StepKeepsInv(s, calls[0]);
      var next := if calls[0].SetSourceLimit? then Larger(largest, calls[0].limit) else largest;
      CapacityFollows(Step(s, calls[0]), next, calls[1..]);
    }
  }

  /** The main result, over any run of calls on a new endpoint: the source IDs stay ordered and
      distinct, at least one is left, no more are usable than the largest limit ever in force,
      and at most twice that less one are kept. */
  lemma SourceRuns(cid: ConnectionId, path: nat, token: Option<nat>, calls: seq<Call>)
    ensures var t := Run(NewSource(cid, path, token), calls);
            var largest := LargestLimit(2, calls);
            && SourceInv(t)
            && |Usable(t.scids, t.retirePriorTo)| <= largest
            && 1 <= |t.scids| <= 2 * largest - 1
  {
    StartOfRun(cid, path, token);
    RunKeepsInv(NewSource(cid, path, token), calls);
    CapacityFollows(NewSource(cid, path, token), 2, calls);
  }

  lemma StartOfRun(cid: ConnectionId, path: nat, token: Option<nat>)
    ensures SourceInv(NewSource(cid, path, token)) && WithinLimit(NewSource(cid, path, token))
  {
    var s := NewSource(cid, path, token);
    assert Nums(s.scids) == {0};
    assert Usable(s.scids, 0) == {0};
  }

  // ---------- The current limit ----------

  /** A new limit that is taken over allows the IDs that are usable at that time. */
  ghost predicate LimitFits(s: Source, c: Call) {
    c.SetSourceLimit? ==> c.limit < 2 || |Usable(s.scids, s.retirePriorTo)| <= c.limit
  }

  ghost predicate LimitsFit(s: Source, calls: seq<Call>)
    decreases |calls|
  {
    calls != [] ==> LimitFits(s, calls[0]) && LimitsFit(Step(s, calls[0]), calls[1..])
  }

  /** Every state of the run, the first and the last included, respects its limit. */
  ghost predicate AlwaysWithinLimit(s: Source, calls: seq<Call>)
    decreases |calls|
  {
    WithinLimit(s) && (calls != [] ==> AlwaysWithinLimit(Step(s, calls[0]), calls[1..]))
  }

  /** One call keeps the usable IDs within the limit exactly when it is not a limit below them. */
  lemma StepWithinLimitIff(s: Source, c: Call)
    requires SourceInv(s) && WithinLimit(s)
    ensures WithinLimit(Step(s, c)) <==> LimitFits(s, c)
  {
    StepKeepsInv(s, c);
  }

  /** Over every run: the limit in force is respected at all times exactly when every new limit
      allowed the IDs that were usable when it came.  Harmless lowerings are fine. */
  lemma {:induction false} WithinLimitIff(s: Source, calls: seq<Call>)
    requires SourceInv(s) && WithinLimit(s)
    ensures AlwaysWithinLimit(s, calls) <==> LimitsFit(s, calls)
    decreases |calls|
  {
    if calls != [] {
      StepWithinLimitIff(s, calls[0]);
      StepKeepsInv(s, calls[0]);
      if LimitFits(s, calls[0]) {
        WithinLimitIff(Step(s, calls[0]), calls[1..]);
      }
    }
  }

  /** Issuing below the limit appends an ID. */
  lemma PlainIssue(s: Source, cid: ConnectionId)
    requires !s.zeroLength && |s.scids| < s.limit && |s.scids| < s.capacity && !HasCid(s.scids, cid)
    requires forall i :: 0 <= i < |s.scids| ==> s.scids[i].num != s.next
    ensures Step(s, Issue(cid, Some(0), true, None, false))
         == s.(scids := s.scids + [Entry(cid, s.next, Some(0), None)], next := s.next + 1,
               advertise := s.advertise + [s.next])
  {
    assert IndexOf(s.scids, s.next) == |s.scids|;
  }

  /** A limit lowered from three to two leaves three usable IDs. */
  lemma LoweringTheLimitBreaksIt()
    ensures var calls := [SetSourceLimit(3), Issue([2], Some(0), true, None, false),
                          Issue([3], Some(0), true, None, false), SetSourceLimit(2)];
            var t := Run(NewSource([1], 0, None), calls);
            t.limit == 2 && |Usable(t.scids, t.retirePriorTo)| == 3
  {
    var i1, i2 := Issue([2], Some(0), true, None, false), Issue([3], Some(0), true, None, false);
    var s0 := NewSource([1], 0, None);
    var s1 := Step(s0, SetSourceLimit(3));
    PlainIssue(s1, [2]);
    var s2 := Step(s1, i1);
    PlainIssue(s2, [3]);
    var s3 := Step(s2, i2);
    var s4 := Step(s3, SetSourceLimit(2));
    FourSteps(s0, SetSourceLimit(3), i1, i2, SetSourceLimit(2));
    hide Step, Run;
    ThreeUsable(s4.scids);
  }

  lemma ThreeUsable(es: seq<Entry>)
    requires |es| == 3 && es[0].num == 0 && es[1].num == 1 && es[2].num == 2
    ensures |Usable(es, 0)| == 3
  {
    assert Usable(es, 0) == {0, 1, 2};
  }

  lemma FourSteps(s: Source, a: Call, b: Call, c: Call, d: Call)
    ensures Run(s, [a, b, c, d]) == Step(Step(Step(Step(s, a), b), c), d)
  {
    hide Step;
    assert [a] + [b, c, d] == [a, b, c, d] && [b] + [c, d] == [b, c, d] && [c] + [d] == [c, d] && [d] + [] == [d];
    RunFirst(s, a, [b, c, d]);
    RunFirst(Step(s, a), b, [c, d]);
    RunFirst(Step(Step(s, a), b), c, [d]);
    RunFirst(Step(Step(Step(s, a), b), c), d, []);
  }

  lemma RunFirst(s: Source, c: Call, calls: seq<Call>)
    ensures Run(s, [c] + calls) == Run(Step(s, c), calls)
  {
    assert ([c] + calls)[1..] == calls;
  }
}
