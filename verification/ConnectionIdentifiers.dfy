/** The object of quiche/src/cid.rs, whose methods update its queues and counters in place.
    Each method is proved against the function of the same name on its half of the state. */
module CidObject {
  import opened Basics
  import opened Cid
  import CidSourceRuns

  /** Position of a sequence number in a queue. */
  method Position(es: seq<Entry>, num: nat) returns (i: nat)
    ensures i == IndexOf(es, num)
  {
    i := 0;
    while i < |es| && es[i].num != num
      invariant 0 <= i <= |es| && forall j :: 0 <= j < i ==> es[j].num != num
    {
      i := i + 1;
    }
    IndexOfUnique(es, num, i);
  }

  lemma {:induction false} IndexOfUnique(es: seq<Entry>, num: nat, i: nat)
    requires i <= |es| && (forall j :: 0 <= j < i ==> es[j].num != num) && (i < |es| ==> es[i].num == num)
    ensures i == IndexOf(es, num)
  {
  }

  /** Inserts into a bounded queue, replacing an entry with the same number. */
  method InsertEntry(es: seq<Entry>, capacity: nat, e: Entry) returns (r: Result<seq<Entry>>)
    ensures r == QueueInsert(es, capacity, e)
  {
    var i := Position(es, e.num);
    if i < |es| {
      return Ok(es[i := e]);
    }
    if |es| >= capacity {
      return Err(IdLimit);
    }
    r := Ok(es + [e]);
  }

  /** Removes an entry by number, unless it is the only one left. */
  method RemoveEntry(es: seq<Entry>, num: nat) returns (r: Result<(Option<Entry>, seq<Entry>)>)
    ensures r == QueueRemove(es, num)
  {
    if |es| <= 1 {
      return Err(OutOfIdentifiers);
    }
    var i := Position(es, num);
    r := if i < |es| then Ok((Some(es[i]), es[..i] + es[i + 1..])) else Ok((None, es));
  }

  /** The first entry with this connection ID. */
  method Lookup(es: seq<Entry>, cid: ConnectionId) returns (r: Option<Entry>)
    ensures r == if HasCid(es, cid) then Some(FindCid(es, cid)) else None
  {
    for i := 0 to |es|
      invariant HasCid(es, cid) <==> HasCid(es[i..], cid)
      invariant HasCid(es, cid) ==> FindCid(es, cid) == FindCid(es[i..], cid)
    {
      assert es[i..][0] == es[i] && es[i..][1..] == es[i + 1..];
      if es[i].cid == cid {
        return Some(es[i]);
      }
      HasCidTail(es[i..], cid);
    }
    return None;
  }

  lemma HasCidTail(es: seq<Entry>, cid: ConnectionId)
    requires es != [] && es[0].cid != cid
    ensures HasCid(es, cid) <==> HasCid(es[1..], cid)
  {
    if HasCid(es, cid) {
      var i :| 0 <= i < |es| && es[i].cid == cid;
      assert es[1..][i - 1] == es[i];
    }
  }

  /** The first entry with this connection ID or this sequence number. */
  method LookupClash(es: seq<Entry>, cid: ConnectionId, num: nat) returns (r: Option<Entry>)
    ensures r == if Clashes(es, cid, num) then Some(FirstClash(es, cid, num)) else None
  {
    for i := 0 to |es|
      invariant Clashes(es, cid, num) <==> Clashes(es[i..], cid, num)
      invariant Clashes(es, cid, num) ==> FirstClash(es, cid, num) == FirstClash(es[i..], cid, num)
    {
      assert es[i..][0] == es[i] && es[i..][1..] == es[i + 1..];
      if es[i].cid == cid || es[i].num == num {
        return Some(es[i]);
      }
      ClashesTail(es[i..], cid, num);
    }
    return None;
  }

  lemma ClashesTail(es: seq<Entry>, cid: ConnectionId, num: nat)
    requires es != [] && es[0].cid != cid && es[0].num != num
    ensures Clashes(es, cid, num) <==> Clashes(es[1..], cid, num)
  {
    if Clashes(es, cid, num) {
      var i :| 0 <= i < |es| && (es[i].cid == cid || es[i].num == num);
      assert es[1..][i - 1] == es[i];
    }
  }

  /** Binary search for the end of the entries below a bound. */
  method PartitionPoint(es: seq<Entry>, bound: nat) returns (cut: nat)
    ensures IsCut(es, bound, cut)
  {
    var low, high := 0, |es|;
    while low < high
      invariant 0 <= low <= high <= |es|
      invariant Partitioned(es, bound) ==> forall i :: 0 <= i < low ==> es[i].num < bound
      invariant Partitioned(es, bound) ==> forall i :: high <= i < |es| ==> es[i].num >= bound
    {
      var mid := (low + high) / 2;
      if es[mid].num < bound {
        low := mid + 1;
      } else {
        high := mid;
      }
    }
    cut := low;
  }

  method RemoveAnnouncement(queue: seq<nat>, num: nat) returns (q: seq<nat>)
    ensures q == MarkAdvertise(queue, num, false)
  {
    for i := 0 to |queue|
      invariant num !in queue[..i]
    {
      if queue[i] == num {
        RemoveFirstAt(queue, num, i);
        return queue[..i] + queue[i + 1..];
      }
    }
    assert queue[..|queue|] == queue;
    return queue;
  }

  lemma {:induction false} RemoveFirstAt(queue: seq<nat>, num: nat, i: nat)
    requires i < |queue| && queue[i] == num && num !in queue[..i]
    ensures num in queue && RemoveFirst(queue, num) == queue[..i] + queue[i + 1..]
  {
    if i > 0 {
      assert queue[0] == queue[..i][0];
      assert queue[1..][..i - 1] == queue[..i][1..];
      RemoveFirstAt(queue[1..], num, i - 1);
      assert queue[..i] + queue[i + 1..] == [queue[0]] + (queue[1..][..i - 1] + queue[1..][i..]);
    }
  }

  class ConnectionIdentifiers {
    var dcids: seq<Entry>
    var dcidCapacity: nat
    var scids: seq<Entry>
    var scidCapacity: nat
    var advertiseNewScids: seq<nat>
    var retireDcids: set<nat>
    var retireCapacity: nat
    var retiredScids: seq<ConnectionId>
    var largestPeerRetirePriorTo: nat
    var largestDestinationSeq: nat
    var nextScidSeq: nat
    var retirePriorTo: nat
    var sourceConnIdLimit: nat
    var zeroLengthScid: bool
    var zeroLengthDcid: bool

    ghost function Src(): Source
      reads this
    {
      Source(scids, scidCapacity, advertiseNewScids, retiredScids, nextScidSeq, retirePriorTo,
             sourceConnIdLimit, zeroLengthScid)
    }

    ghost function Dst(): Dest
      reads this
    {
      Dest(dcids, dcidCapacity, retireDcids, retireCapacity, largestPeerRetirePriorTo,
           largestDestinationSeq, zeroLengthDcid)
    }

    constructor (destinationConnIdLimit: nat, initialScid: ConnectionId, initialPath: nat, token: Option<nat>)
      ensures Src() == NewSource(initialScid, initialPath, token)
      ensures Dst() == NewDest(destinationConnIdLimit, initialPath)
    {
      var limit := if destinationConnIdLimit < 2 then 2 else destinationConnIdLimit;
      sourceConnIdLimit := 2;
      zeroLengthScid := initialScid == [];
      scids, scidCapacity := [Entry(initialScid, 0, token, Some(initialPath))], 2 * 2 - 1;
      dcids, dcidCapacity := [Entry([], 0, None, Some(initialPath))], limit;
      retireDcids, retireCapacity := {}, limit * RETIRED_CONN_ID_LIMIT_MULTIPLIER;
      nextScidSeq := 1;
      advertiseNewScids, retiredScids := [], [];
      largestPeerRetirePriorTo, largestDestinationSeq, retirePriorTo := 0, 0, 0;
      zeroLengthDcid := false;
    }

    /** The clamp keeps the capacity within the machine word. */
    method SetSourceConnIdLimit(limit: nat)
      modifies this`sourceConnIdLimit, this`scidCapacity
      ensures Src() == SetLimit(old(Src()), ClampLimit(limit))
      ensures scidCapacity <= USIZE_MAX || scidCapacity == old(scidCapacity)
    {
      var v := if limit <= USIZE_MAX / 2 then limit else USIZE_MAX / 2;
      if v >= 2 {
        sourceConnIdLimit := v;
        if 2 * v - 1 > scidCapacity {
          scidCapacity := 2 * v - 1;
        }
      }
    }

    method LowestUsableScidSeq() returns (r: Result<nat>)
      ensures r == match LowestUsable(scids, retirePriorTo) case None => Err(InvalidState) case Some(n) => Ok(n)
    {
      var best: Option<nat> := None;
      for i := 0 to |scids|
        invariant best.None? <==> forall j :: 0 <= j < i ==> scids[j].num < retirePriorTo
        invariant best.Some? ==> retirePriorTo <= best.value && exists j :: 0 <= j < i && scids[j].num == best.value
        invariant best.Some? ==> forall j :: 0 <= j < i && scids[j].num >= retirePriorTo ==> best.value <= scids[j].num
      {
        if scids[i].num >= retirePriorTo && (best.None? || scids[i].num < best.value) {
          best := Some(scids[i].num);
        }
      }
      r := if best.None? then Err(InvalidState) else Ok(best.value);
    }

    method MarkAdvertiseNewScidSeq(num: nat, advertise: bool)
      modifies this`advertiseNewScids
      ensures Src() == old(Src()).(advertise := MarkAdvertise(old(advertiseNewScids), num, advertise))
    {
      if advertise {
        advertiseNewScids := advertiseNewScids + [num];
      } else {
        advertiseNewScids := RemoveAnnouncement(advertiseNewScids, num);
      }
    }

    /** The checks at the start of `new_scid`. */
    method CheckLimit(retireIfNeeded: bool) returns (r: Result<()>)
      modifies this`retirePriorTo
      ensures match MakeRoom(old(Src()), retireIfNeeded)
              case Err(e) => r == Err(e) && Src() == old(Src())
              case Ok(s) => r == Ok(()) && Src() == s
    {
      if zeroLengthScid {
        return Err(InvalidState);
      }
      if |scids| >= sourceConnIdLimit {
        if !retireIfNeeded {
          return Err(IdLimit);
        }
        var lowest :- LowestUsableScidSeq();
        retirePriorTo := lowest + 1;
      }
      r := Ok(());
    }

    method NewScid(cid: ConnectionId, token: Option<nat>, advertise: bool, path: Option<nat>, retireIfNeeded: bool)
      returns (r: Result<nat>)
      modifies this`scids, this`advertiseNewScids, this`nextScidSeq, this`retirePriorTo
      ensures (Src(), r) == Cid.NewScid(old(Src()), cid, token, advertise, path, retireIfNeeded)
    {
      hide Cid.MakeRoom, QueueInsert, MarkAdvertise, FindCid, HasCid;
      var _ :- CheckLimit(retireIfNeeded);
      var seq_ := nextScidSeq;
      if token.None? && seq_ != 0 {
        return Err(InvalidState);
      }
      var known := Lookup(scids, cid);
      if known.Some? {
        return if known.value.token != token then Err(InvalidState) else Ok(known.value.num);
      }
      scids :- InsertEntry(scids, scidCapacity, Entry(cid, seq_, token, path));
      nextScidSeq := nextScidSeq + 1;
      MarkAdvertiseNewScidSeq(seq_, advertise);
      r := Ok(seq_);
    }

    method SetInitialDcid(cid: ConnectionId, token: Option<nat>, path: Option<nat>)
      modifies this`dcids, this`zeroLengthDcid
      ensures Dst() == Cid.SetInitialDcid(old(Dst()), cid, token, path)
    {
      zeroLengthDcid := cid == [];
      dcids := [Entry(cid, 0, token, path)];
    }

    method MarkRetireDcidSeq(num: nat, retire: bool) returns (r: Result<()>)
      modifies this`retireDcids
      ensures (Dst(), r) == MarkRetire(old(Dst()), num, retire)
    {
      if retire {
        if |retireDcids| >= retireCapacity {
          return Err(IdLimit);
        }
        retireDcids := retireDcids + {num};
      } else {
        retireDcids := retireDcids - {num};
      }
      r := Ok(());
    }

    /** The drain loop of `new_dcid`: every entry before the cut leaves the queue, even when
        the retire set overflows on the way. */
    method DrainDcids(cut: nat) returns (paths: seq<(nat, nat)>, full: bool)
      requires cut <= |dcids|
      modifies this`dcids, this`retireDcids
      ensures dcids == old(dcids)[cut..]
      ensures Drained(retireDcids, paths, full)
           == Drain(old(dcids)[..cut], Drained(old(retireDcids), [], false), retireCapacity)
    {
      var drained := dcids[..cut];
      dcids := dcids[cut..];
      paths, full := [], false;
      var i := 0;
      while i < |drained|
        invariant 0 <= i <= |drained| && !full && dcids == old(dcids)[cut..]
        invariant Drain(drained, Drained(old(retireDcids), [], false), retireCapacity)
               == Drain(drained[i..], Drained(retireDcids, paths, false), retireCapacity)
      {
        assert drained[i..][0] == drained[i] && drained[i..][1..] == drained[i + 1..];
        paths := paths + PathOf(drained[i]);
        if |retireDcids| >= retireCapacity {
          full := true;
          break;
        }
        retireDcids := retireDcids + {drained[i].num};
        i := i + 1;
      }
    }

    method NewDcid(f: NewConnectionId) returns (r: Result<()>, paths: seq<(nat, nat)>, ghost cut: nat)
      modifies this`dcids, this`retireDcids, this`largestPeerRetirePriorTo, this`largestDestinationSeq
      ensures IsCut(old(dcids), f.retirePriorTo, cut)
      ensures (Dst(), r, paths) == Cid.NewDcid(old(Dst()), f, cut)
    {
      paths := [];
      var index := PartitionPoint(dcids, f.retirePriorTo);
      cut := index;
      if zeroLengthDcid {
        return Err(InvalidState), paths, cut;
      }
      var known := LookupClash(dcids, f.cid, f.num);
      if known.Some? {
        var same := known.value.cid == f.cid && known.value.num == f.num && known.value.token == Some(f.token);
        return if same then Ok(()) else Err(InvalidFrame), paths, cut;
      }
      if f.retirePriorTo > f.num {
        return Err(InvalidFrame), paths, cut;
      }
      if f.num < largestPeerRetirePriorTo {
        r := MarkRetireDcidSeq(f.num, true);
        return;
      }
      if f.num > largestDestinationSeq {
        largestDestinationSeq := f.num;
      }
      var full := false;
      if f.retirePriorTo > largestPeerRetirePriorTo {
        paths, full := DrainDcids(index);
        largestPeerRetirePriorTo := f.retirePriorTo;
      }
      var entry := Entry(f.cid, f.num, Some(f.token), None);
      var inserted := InsertEntry(dcids, dcidCapacity, entry);
      if inserted.Err? {
        return Err(inserted.error), paths, cut;
      }
      dcids := inserted.value;
      r := if full then Err(IdLimit) else Ok(());
    }

    method RetireScid(num: nat, pktDcid: ConnectionId) returns (r: Result<Option<nat>>)
      modifies this`scids, this`retiredScids, this`retirePriorTo
      ensures (Src(), r) == Cid.RetireScid(old(Src()), num, pktDcid)
    {
      if num >= nextScidSeq {
        return Err(InvalidState);
      }
      var removed :- RemoveEntry(scids, num);
      var found, rest := removed.0, removed.1;
      if found.None? {
        return Ok(None);
      }
      var e := found.value;
      scids := rest;
      if e.cid == pktDcid {
        return Err(InvalidState);
      }
      retiredScids := retiredScids + [e.cid];
      var lowest :- LowestUsableScidSeq();
      retirePriorTo := lowest;
      r := Ok(e.path);
    }

    method RetireDcid(num: nat) returns (r: Result<Option<nat>>)
      modifies this`dcids, this`retireDcids
      ensures (Dst(), r) == Cid.RetireDcid(old(Dst()), num)
    {
      if zeroLengthDcid {
        return Err(InvalidState);
      }
      var removed :- RemoveEntry(dcids, num);
      var found, rest := removed.0, removed.1;
      if found.None? {
        return Err(InvalidState);
      }
      dcids := rest;
      var _ :- MarkRetireDcidSeq(num, true);
      r := Ok(found.value.path);
    }

    method GetNewConnectionIdFrameFor(num: nat) returns (r: Result<NewConnectionId>)
      ensures r == FrameFor(Src(), num)
    {
      var i := Position(scids, num);
      if i == |scids| || scids[i].token.None? {
        return Err(InvalidState);
      }
      r := Ok(NewConnectionId(num, retirePriorTo, scids[i].cid, scids[i].token.value));
    }

    method LinkScidToPathId(num: nat, path: nat) returns (r: Result<()>)
      modifies this`scids
      ensures Src() == CidSourceRuns.LinkScid(old(Src()), num, path)
      ensures r.Ok? <==> num in Nums(scids)
    {
      var i := Position(scids, num);
      if i == |scids| {
        return Err(InvalidState);
      }
      scids := scids[i := scids[i].(path := Some(path))];
      r := Ok(());
      assert scids[i].num == num;
    }
  }
}
