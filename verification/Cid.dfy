/** Issuing and retiring connection IDs: quiche/src/cid.rs.

    The source-ID half and the destination-ID half of an endpoint share no field, so each
    is a value of its own.  The functions here say what every call returns and leaves
    behind, including the calls that fail half way. */
module Cid {
  import opened Basics

  const RETIRED_CONN_ID_LIMIT_MULTIPLIER := 3

  type ConnectionId = seq<nat>

  datatype Entry = Entry(cid: ConnectionId, num: nat, token: Option<nat>, path: Option<nat>)

  // ---------- The bounded queue of entries ----------

  /** The position of the first entry with this sequence number, or the length. */
  function IndexOf(es: seq<Entry>, num: nat): (i: nat)
    ensures i <= |es|
    ensures i < |es| ==> es[i].num == num
    ensures forall j :: 0 <= j < i ==> es[j].num != num
  {
    if es == [] || es[0].num == num then 0 else 1 + IndexOf(es[1..], num)
  }

  /** Replaces the entry with the same number, or appends if there is room. */
  function QueueInsert(es: seq<Entry>, capacity: nat, e: Entry): Result<seq<Entry>> {
    var i := IndexOf(es, e.num);
    if i < |es| then Ok(es[i := e])
    else if |es| >= capacity then Err(IdLimit)
    else Ok(es + [e])
  }

  /** Removes the entry with this number, never the last entry that is left. */
  function QueueRemove(es: seq<Entry>, num: nat): Result<(Option<Entry>, seq<Entry>)> {
    if |es| <= 1 then Err(OutOfIdentifiers)
    else
      var i := IndexOf(es, num);
      if i < |es| then Ok((Some(es[i]), es[..i] + es[i + 1..])) else Ok((None, es))
  }

  predicate HasCid(es: seq<Entry>, cid: ConnectionId) {
    exists i :: 0 <= i < |es| && es[i].cid == cid
  }

  /** The first entry with this connection ID. */
  function FindCid(es: seq<Entry>, cid: ConnectionId): (e: Entry)
    requires HasCid(es, cid)
    ensures e in es && e.cid == cid
  {
    if es[0].cid == cid then es[0] else
      assert HasCid(es[1..], cid) by {
        var i :| 0 <= i < |es| && es[i].cid == cid;
        assert es[1..][i - 1].cid == cid;
      }
      FindCid(es[1..], cid)
  }

  // ---------- Source connection IDs ----------

  datatype Source = Source(
    scids: seq<Entry>,
    capacity: nat,
    advertise: seq<nat>,
    retired: seq<ConnectionId>,
    next: nat,
    retirePriorTo: nat,
    limit: nat,
    zeroLength: bool)

  function NewSource(cid: ConnectionId, path: nat, token: Option<nat>): Source {
    Source([Entry(cid, 0, token, Some(path))], 3, [], [], 1, 0, 2, cid == [])
  }

  const USIZE_MAX: nat := 0xFFFF_FFFF_FFFF_FFFF

  /** The limit that is used instead of one too large for the queue's size. */
  function ClampLimit(limit: nat): nat {
    if limit <= USIZE_MAX / 2 then limit else USIZE_MAX / 2
  }

  function SetLimit(s: Source, v: nat): Source {
    if v >= 2
    then s.(limit := v, capacity := if 2 * v - 1 > s.capacity then 2 * v - 1 else s.capacity)
    else s
  }

  /** The least sequence number whose retirement has not been asked for. */
  function LowestUsable(es: seq<Entry>, retirePriorTo: nat): (r: Option<nat>)
    ensures r.None? <==> forall i :: 0 <= i < |es| ==> es[i].num < retirePriorTo
    ensures r.Some? ==>
              && retirePriorTo <= r.value
              && (exists i :: 0 <= i < |es| && es[i].num == r.value)
              && (forall i :: 0 <= i < |es| && es[i].num >= retirePriorTo ==> r.value <= es[i].num)
  {
    if es == [] then None
    else
      var rest := LowestUsable(es[1..], retirePriorTo);
      var e := es[0].num;
      assert es == [es[0]] + es[1..];
      if e < retirePriorTo then rest
      else if rest.None? || e <= rest.value then Some(e) else rest
  }

  function MarkAdvertise(queue: seq<nat>, num: nat, add: bool): seq<nat> {
    if add then queue + [num]
    else if num in queue then RemoveFirst(queue, num)
    else queue
  }

  function RemoveFirst(queue: seq<nat>, num: nat): seq<nat>
    requires num in queue
  {
    if queue[0] == num then queue[1..] else [queue[0]] + RemoveFirst(queue[1..], num)
  }

  /** The limit check of `new_scid`, which raises `retirePriorTo` before the checks that
      can still fail. */
  function MakeRoom(s: Source, retireIfNeeded: bool): Result<Source> {
    if s.zeroLength then Err(InvalidState)
    else if |s.scids| < s.limit then Ok(s)
    else if !retireIfNeeded then Err(IdLimit)
    else
      match LowestUsable(s.scids, s.retirePriorTo)
      case None => Err(InvalidState)
      case Some(lowest) => Ok(s.(retirePriorTo := lowest + 1))
  }

  function NewScid(s: Source, cid: ConnectionId, token: Option<nat>, advertise: bool,
                   path: Option<nat>, retireIfNeeded: bool): (Source, Result<nat>)
  {
    match MakeRoom(s, retireIfNeeded)
    case Err(e) => (s, Err(e))
    case Ok(r) =>
      if token.None? && r.next != 0 then (r, Err(InvalidState))
      else if HasCid(r.scids, cid) then
        var e := FindCid(r.scids, cid);
        (r, if e.token != token then Err(InvalidState) else Ok(e.num))
      else
        match QueueInsert(r.scids, r.capacity, Entry(cid, r.next, token, path))
        case Err(e) => (r, Err(e))
        case Ok(scids) =>
          (r.(scids := scids, next := r.next + 1, advertise := MarkAdvertise(r.advertise, r.next, advertise)),
           Ok(r.next))
  }

  /** Handles RETIRE_CONNECTION_ID.  The entry is already gone when the check against the
      ID of the carrying packet fails. */
  function RetireScid(s: Source, num: nat, pktDcid: ConnectionId): (Source, Result<Option<nat>>) {
    if num >= s.next then (s, Err(InvalidState))
    else
      match QueueRemove(s.scids, num)
      case Err(e) => (s, Err(e))
      case Ok((None, _)) => (s, Ok(None))
      case Ok((Some(e), rest)) =>
        if e.cid == pktDcid then (s.(scids := rest), Err(InvalidState))
        else
          var t := s.(scids := rest, retired := s.retired + [e.cid]);
          match LowestUsable(rest, s.retirePriorTo)
          case None => (t, Err(InvalidState))
          case Some(lowest) => (t.(retirePriorTo := lowest), Ok(e.path))
  }

  datatype NewConnectionId = NewConnectionId(num: nat, retirePriorTo: nat, cid: ConnectionId, token: nat)

  /** The NEW_CONNECTION_ID frame for a source ID, with the current `retirePriorTo`. */
  function FrameFor(s: Source, num: nat): Result<NewConnectionId> {
    var i := IndexOf(s.scids, num);
    if i == |s.scids| || s.scids[i].token.None? then Err(InvalidState)
    else Ok(NewConnectionId(num, s.retirePriorTo, s.scids[i].cid, s.scids[i].token.value))
  }

  // ---------- Destination connection IDs ----------

  datatype Dest = Dest(
    dcids: seq<Entry>,
    capacity: nat,
    retire: set<nat>,
    retireCapacity: nat,
    peerRetirePriorTo: nat,
    largest: nat,
    zeroLength: bool)

  function NewDest(limit: nat, path: nat): Dest {
    var limit := if limit < 2 then 2 else limit;
    Dest([Entry([], 0, None, Some(path))], limit, {}, limit * RETIRED_CONN_ID_LIMIT_MULTIPLIER, 0, 0, false)
  }

  function SetInitialDcid(d: Dest, cid: ConnectionId, token: Option<nat>, path: Option<nat>): Dest {
    d.(zeroLength := cid == [], dcids := [Entry(cid, 0, token, path)])
  }

  function MarkRetire(d: Dest, num: nat, retire: bool): (Dest, Result<()>) {
    if !retire then (d.(retire := d.retire - {num}), Ok(()))
    else if |d.retire| >= d.retireCapacity then (d, Err(IdLimit))
    else (d.(retire := d.retire + {num}), Ok(()))
  }

  /** What became of the entries drained from the queue: the numbers now waiting to be
      retired, the paths that lost their ID, and whether the retire set overflowed. */
  datatype Drained = Drained(retire: set<nat>, paths: seq<(nat, nat)>, full: bool)

  function PathOf(e: Entry): seq<(nat, nat)> {
    if e.path.Some? then [(e.num, e.path.value)] else []
  }

  function Drain(es: seq<Entry>, d: Drained, capacity: nat): Drained
    decreases |es|
  {
    if es == [] || d.full then d
    else
      var paths := d.paths + PathOf(es[0]);
      if |d.retire| >= capacity then Drained(d.retire, paths, true)
      else Drain(es[1..], Drained(d.retire + {es[0].num}, paths, false), capacity)
  }

  /** The contract of a partition point: right whenever the lower numbers come first, and
      otherwise some position in the queue. */
  ghost predicate IsCut(es: seq<Entry>, bound: nat, cut: nat) {
    && cut <= |es|
    && (Partitioned(es, bound) ==>
          && (forall i :: 0 <= i < cut ==> es[i].num < bound)
          && (forall i :: cut <= i < |es| ==> es[i].num >= bound))
  }

  ghost predicate Partitioned(es: seq<Entry>, bound: nat) {
    forall i, j :: 0 <= i < j < |es| && es[j].num < bound ==> es[i].num < bound
  }

  predicate Clashes(es: seq<Entry>, cid: ConnectionId, num: nat) {
    exists i :: 0 <= i < |es| && (es[i].cid == cid || es[i].num == num)
  }

  /** The first entry with this connection ID or this number. */
  function FirstClash(es: seq<Entry>, cid: ConnectionId, num: nat): (e: Entry)
    requires Clashes(es, cid, num)
    ensures e in es && (e.cid == cid || e.num == num)
  {
    if es[0].cid == cid || es[0].num == num then es[0] else
      assert Clashes(es[1..], cid, num) by {
        var i :| 0 <= i < |es| && (es[i].cid == cid || es[i].num == num);
        assert es[1..][i - 1] == es[i];
      }
      FirstClash(es[1..], cid, num)
  }

  /** Handles NEW_CONNECTION_ID, given where the queue is cut.  The last component lists the
      paths whose destination ID was retired. */
  function NewDcid(d: Dest, f: NewConnectionId, cut: nat): (Dest, Result<()>, seq<(nat, nat)>)
    requires cut <= |d.dcids|
  {
    if d.zeroLength then (d, Err(InvalidState), [])
    else if Clashes(d.dcids, f.cid, f.num) then
      var e := FirstClash(d.dcids, f.cid, f.num);
      (d, if e.cid != f.cid || e.num != f.num || e.token != Some(f.token) then Err(InvalidFrame) else Ok(()), [])
    else if f.retirePriorTo > f.num then (d, Err(InvalidFrame), [])
    else if f.num < d.peerRetirePriorTo then
      var (d', r) := MarkRetire(d, f.num, true);
      (d', r, [])
    else
      var drained :=
        if f.retirePriorTo > d.peerRetirePriorTo
        then Drain(d.dcids[..cut], Drained(d.retire, [], false), d.retireCapacity)
        else Drained(d.retire, [], false);
      var t := Retired(d, f, cut, drained.retire);
      match QueueInsert(t.dcids, t.capacity, Entry(f.cid, f.num, Some(f.token), None))
      case Err(e) => (t, Err(e), drained.paths)
      case Ok(dcids) => (t.(dcids := dcids), if drained.full then Err(IdLimit) else Ok(()), drained.paths)
  }

  /** The destination half after the queue has been drained and before the new entry. */
  function Retired(d: Dest, f: NewConnectionId, cut: nat, retire: set<nat>): Dest
    requires cut <= |d.dcids|
  {
    var t := d.(largest := if f.num > d.largest then f.num else d.largest);
    if f.retirePriorTo > d.peerRetirePriorTo
    then t.(dcids := d.dcids[cut..], retire := retire, peerRetirePriorTo := f.retirePriorTo)
    else t
  }

  function RetireDcid(d: Dest, num: nat): (Dest, Result<Option<nat>>) {
    if d.zeroLength then (d, Err(InvalidState))
    else
      match QueueRemove(d.dcids, num)
      case Err(e) => (d, Err(e))
      case Ok((None, _)) => (d, Err(InvalidState))
      case Ok((Some(e), rest)) =>
        var (t, r) := MarkRetire(d.(dcids := rest), num, true);
        (t, if r.Err? then Err(r.error) else Ok(e.path))
  }

  // ---------- Queues ordered by sequence number ----------

  ghost predicate Increasing(es: seq<Entry>) {
    forall i, j :: 0 <= i < j < |es| ==> es[i].num < es[j].num
  }

  ghost predicate DistinctNums(es: seq<Entry>) {
    forall i, j :: 0 <= i < j < |es| ==> es[i].num != es[j].num
  }

  ghost predicate DistinctCids(es: seq<Entry>) {
    forall i, j :: 0 <= i < j < |es| ==> es[i].cid != es[j].cid
  }

  ghost function Nums(es: seq<Entry>): set<nat> {
    set i | 0 <= i < |es| :: es[i].num
  }

  lemma {:induction false} NumsSize(es: seq<Entry>)
    requires Increasing(es)
    ensures |Nums(es)| == |es|
    decreases |es|
  {
    if es != [] {
      NumsSize(es[1..]);
      NumsCons(es);
      FirstIsLeast(es);
      hide Nums;
    }
  }

  lemma FirstIsLeast(es: seq<Entry>)
    requires Increasing(es) && es != []
    ensures es[0].num !in Nums(es[1..])
  {
    forall j | 0 <= j < |es[1..]| ensures es[1..][j].num != es[0].num {
      assert es[1..][j] == es[j + 1];
    }
  }

  lemma NumsCons(es: seq<Entry>)
    requires es != []
    ensures Nums(es) == {es[0].num} + Nums(es[1..])
  {
    NumsConcat([es[0]], es[1..]);
    assert es == [es[0]] + es[1..] && Nums([es[0]]) == {[es[0]][0].num};
  }

  /** A prefix can hold exactly the numbers below the bound only if these come first. */
  lemma CutExistsIff(es: seq<Entry>, bound: nat)
    ensures Partitioned(es, bound) <==>
              exists cut :: 0 <= cut <= |es| && IsExactCut(es, bound, cut)
  {
    if Partitioned(es, bound) {
      var cut := 0;
      while cut < |es| && es[cut].num < bound
        invariant 0 <= cut <= |es| && forall i :: 0 <= i < cut ==> es[i].num < bound
      {
        cut := cut + 1;
      }
      assert IsExactCut(es, bound, cut);
    }
  }

  ghost predicate IsExactCut(es: seq<Entry>, bound: nat, cut: nat)
    requires cut <= |es|
  {
    && (forall i :: 0 <= i < cut ==> es[i].num < bound)
    && (forall i :: cut <= i < |es| ==> es[i].num >= bound)
  }

  lemma IncreasingIsPartitioned(es: seq<Entry>, bound: nat)
    requires Increasing(es)
    ensures Partitioned(es, bound)
  {
  }

  function Without(es: seq<Entry>, i: nat): seq<Entry>
    requires i < |es|
  {
    es[..i] + es[i + 1..]
  }

  lemma WithoutOrder(es: seq<Entry>, i: nat)
    requires i < |es|
    ensures Increasing(es) ==> Increasing(Without(es, i))
    ensures DistinctCids(es) ==> DistinctCids(Without(es, i))
    ensures forall k :: 0 <= k < |es| - 1 ==> Without(es, i)[k] == es[if k < i then k else k + 1]
  {
  }

  lemma IncreasingIsDistinct(es: seq<Entry>)
    requires Increasing(es)
    ensures DistinctNums(es)
  {
  }

  lemma WithoutNums(es: seq<Entry>, i: nat)
    requires DistinctNums(es) && i < |es|
    ensures Nums(Without(es, i)) == Nums(es) - {es[i].num}
  {
    var rest := Without(es, i);
    WithoutOrder(es, i);
    forall n | n in Nums(es) && n != es[i].num ensures n in Nums(rest) {
      var k :| 0 <= k < |es| && es[k].num == n;
      assert rest[if k < i then k else k - 1].num == n;
    }
    forall n | n in Nums(rest) ensures n in Nums(es) && n != es[i].num {
      var k :| 0 <= k < |rest| && rest[k].num == n;
    }
  }

  /** Removal from a queue of at least two entries takes out the named number only. */
  lemma QueueRemoveKeeps(es: seq<Entry>, num: nat)
    requires DistinctNums(es) && 1 < |es|
    ensures var r := QueueRemove(es, num);
            && r.Ok? && DistinctNums(r.value.1) && (Increasing(es) ==> Increasing(r.value.1))
            && (DistinctCids(es) ==> DistinctCids(r.value.1))
            && r.value.1 != [] && |r.value.1| <= |es|
            && Nums(r.value.1) == Nums(es) - {num}
            && (r.value.0.Some? <==> num in Nums(es))
            && (r.value.0.Some? ==> r.value.0.value in es && r.value.0.value.num == num)
  {
    var i := IndexOf(es, num);
    if i < |es| {
      WithoutOrder(es, i);
      WithoutNums(es, i);
      assert QueueRemove(es, num) == Ok((Some(es[i]), Without(es, i)));
    } else {
      assert num !in Nums(es);
    }
  }

  lemma QueueRemoveMembers(es: seq<Entry>, num: nat)
    requires 1 < |es|
    ensures forall k :: 0 <= k < |QueueRemove(es, num).value.1| ==> QueueRemove(es, num).value.1[k] in es
  {
    var i := IndexOf(es, num);
    if i < |es| {
      WithoutOrder(es, i);
      assert QueueRemove(es, num) == Ok((Some(es[i]), Without(es, i)));
    }
  }

  /** Draining retires every drained number while the retire set has room for all. */
  lemma {:induction false} DrainAll(es: seq<Entry>, d: Drained, capacity: nat)
    requires !d.full && |d.retire + Nums(es)| < capacity
    ensures Drain(es, d, capacity).retire == d.retire + Nums(es) && !Drain(es, d, capacity).full
    decreases |es|
  {
    if es == [] {
      assert d.retire + Nums(es) == d.retire;
    } else {
      NumsCons(es);
      hide Nums;
      var all := d.retire + Nums(es);
      assert all == d.retire + (all - d.retire);
      assert |d.retire| <= |all|;
      var e := Drained(d.retire + {es[0].num}, d.paths + PathOf(es[0]), false);
      assert all == e.retire + Nums(es[1..]);
      DrainAll(es[1..], e, capacity);
    }
  }

  lemma CutNums(es: seq<Entry>, cut: nat)
    requires Increasing(es) && cut <= |es|
    ensures Nums(es[cut..]) == Nums(es) - Nums(es[..cut]) && Nums(es[..cut]) <= Nums(es)
    ensures Increasing(es[cut..])
  {
    NumsConcat(es[..cut], es[cut..]);
    assert es == es[..cut] + es[cut..];
    assert forall n :: n in Nums(es[..cut]) ==> n !in Nums(es[cut..]);
  }

  lemma NumsConcat(es: seq<Entry>, fs: seq<Entry>)
    ensures Nums(es + fs) == Nums(es) + Nums(fs)
  {
    var all := es + fs;
    forall n | n in Nums(es) ensures n in Nums(all) {
      var i :| 0 <= i < |es| && es[i].num == n;
      assert all[i].num == n;
    }
    forall n | n in Nums(fs) ensures n in Nums(all) {
      var i :| 0 <= i < |fs| && fs[i].num == n;
      assert all[|es| + i].num == n;
    }
  }

  lemma AppendNums(es: seq<Entry>, e: Entry)
    ensures Nums(es + [e]) == Nums(es) + {e.num}
  {
    NumsConcat(es, [e]);
    assert Nums([e]) == {[e][0].num};
  }

  lemma AppendOrder(es: seq<Entry>, e: Entry)
    requires forall i :: 0 <= i < |es| ==> es[i].num < e.num
    ensures Increasing(es) ==> Increasing(es + [e])
    ensures DistinctCids(es) && !HasCid(es, e.cid) ==> DistinctCids(es + [e])
  {
  }
}
