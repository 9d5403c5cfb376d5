/** Two endpoints: the issuer of connection IDs and the peer that uses them, joined by
    NEW_CONNECTION_ID frames delivered in order and RETIRE_CONNECTION_ID frames delivered
    whenever the network likes (sections 5.1.1, 5.1.2, 19.15 and 19.16 of RFC 9000). */
module CidLink {
  import opened Basics
  import opened Cid
  import opened CidSourceRuns

  /** `issued` records the connection ID given to every sequence number so far.  A frame
      that retires a number is kept with the ID of the packet that carries it. */
  datatype Link = Link(
    src: Source,
    dst: Dest,
    flight: seq<NewConnectionId>,
    retiring: map<nat, ConnectionId>,
    issued: seq<ConnectionId>)
  {
    /** Numbers below this one have had their frame built. */
    function Announced(): int { src.next - |src.advertise| }

    /** Numbers below this one have been delivered to the peer. */
    function Delivered(): int { Announced() - |flight| }
  }

  /** Both endpoints after the handshake, with the peer's limit known to the issuer. */
  function Start(limit: nat, cid: ConnectionId, path: nat, token: Option<nat>): Link {
    Link(SetLimit(NewSource(cid, path, token), limit),
         SetInitialDcid(NewDest(limit, path), cid, None, Some(path)), [], map[], [cid])
  }

  datatype Step =
    | IssueId(cid: ConnectionId, token: nat, path: Option<nat>, retireIfNeeded: bool)
    | Announce
    | DeliverNew(cut: nat)
    | RetireOne(num: nat)
    | SendRetire(num: nat, pktDcid: ConnectionId)
    | DeliverRetire(num: nat)
    | Lose

  /** A forced retirement is only asked for while the queue has room and when the ID to be
      retired has been announced. */
  ghost predicate ForcedIsSafe(s: Source) {
    && |s.scids| < s.capacity
    && (LowestUsable(s.scids, s.retirePriorTo).Some? ==>
          LowestUsable(s.scids, s.retirePriorTo).value !in s.advertise)
  }

  ghost predicate Enabled(l: Link, s: Step) {
    match s
    case IssueId(cid, _, _, retire) =>
      cid !in l.issued && (|l.src.scids| >= l.src.limit && retire ==> ForcedIsSafe(l.src))
    case Announce => l.src.advertise != []
    case DeliverNew(cut) => l.flight != [] && IsCut(l.dst.dcids, l.flight[0].retirePriorTo, cut)
    case RetireOne(_) => true
    case SendRetire(num, pktDcid) => num in l.dst.retire && HasCid(l.dst.dcids, pktDcid)
    case DeliverRetire(num) => num in l.retiring
    case Lose => l.flight != [] && LossIsSafe(l.src, l.flight[|l.flight| - 1].num)
  }

  /** A lost frame is announced again at the end of the queue, with the current Retire Prior To.
      That keeps the order if nothing else waits, and the frame acceptable if its ID is not to be
      retired by now. */
  ghost predicate LossIsSafe(s: Source, num: nat) {
    s.advertise == [] && s.retirePriorTo <= num
  }

  ghost function Next(l: Link, s: Step): Link
    requires Enabled(l, s)
  {
    match s
    case IssueId(cid, token, path, retire) =>
      var src := NewScid(l.src, cid, Some(token), true, path, retire).0;
      l.(src := src, issued := if src.next > l.src.next then l.issued + [cid] else l.issued)
    case Announce =>
      var num := l.src.advertise[0];
      var frame := FrameFor(l.src, num);
      if frame.Err? then l
      else l.(src := l.src.(advertise := MarkAdvertise(l.src.advertise, num, false)),
              flight := l.flight + [frame.value])
    case DeliverNew(cut) =>
      l.(dst := NewDcid(l.dst, l.flight[0], cut).0, flight := l.flight[1..])
    case RetireOne(num) =>
      l.(dst := RetireDcid(l.dst, num).0)
    case SendRetire(num, pktDcid) =>
      l.(dst := MarkRetire(l.dst, num, false).0, retiring := l.retiring[num := pktDcid])
    case DeliverRetire(num) =>
      l.(src := RetireScid(l.src, num, l.retiring[num]).0, retiring := l.retiring - {num})
    case Lose =>
      var last := |l.flight| - 1;
      l.(src := l.src.(advertise := MarkAdvertise(l.src.advertise, l.flight[last].num, true)),
         flight := l.flight[..last])
  }

  /** The calls that the two endpoints make on each other's behalf return Ok. */
  ghost predicate Succeeds(l: Link, s: Step)
    requires Enabled(l, s)
  {
    match s
    case IssueId(cid, token, path, retire) =>
      |l.src.scids| < l.src.limit || retire ==>
        NewScid(l.src, cid, Some(token), true, path, retire).1 == Ok(l.src.next)
    case Announce => FrameFor(l.src, l.src.advertise[0]).Ok?
    case DeliverNew(cut) => NewDcid(l.dst, l.flight[0], cut).1.Ok?
    case RetireOne(_) => true
    case SendRetire(_, _) => true
    case DeliverRetire(num) => RetireScid(l.src, num, l.retiring[num]).1.Ok?
    case Lose => true
  }

  // ---------- The invariant ----------

  ghost predicate Sized(l: Link) {
    && 2 <= l.src.limit && l.src.capacity == 2 * l.src.limit - 1 && !l.src.zeroLength
    && l.dst.capacity == l.src.limit && l.dst.retireCapacity == 3 * l.src.limit && !l.dst.zeroLength
  }

  ghost predicate Fresh(issued: seq<ConnectionId>) {
    forall i, j :: 0 <= i < j < |issued| ==> issued[i] != issued[j]
  }

  ghost predicate Matches(es: seq<Entry>, issued: seq<ConnectionId>) {
    forall i :: 0 <= i < |es| ==> es[i].num < |issued| && es[i].cid == issued[es[i].num]
  }

  ghost predicate SourceOk(l: Link) {
    && l.src.next == |l.issued| && Fresh(l.issued)
    && Increasing(l.src.scids) && Matches(l.src.scids, l.issued)
    && (forall i :: 0 <= i < |l.src.scids| && l.src.scids[i].num > 0 ==> l.src.scids[i].token.Some?)
    && |l.src.scids| <= l.src.capacity
    && l.src.retirePriorTo <= l.src.next
  }

  /** Undelivered numbers are consecutive, and no frame asks for its own retirement. */
  ghost predicate QueuesOk(l: Link) {
    && 1 <= l.Delivered()
    && (forall i :: 0 <= i < |l.src.advertise| ==> l.src.advertise[i] == l.Announced() + i)
    && (l.src.advertise != [] ==> l.src.retirePriorTo <= l.Announced())
    && (forall i :: 0 <= i < |l.flight| ==>
          && l.flight[i].num == l.Delivered() + i
          && l.flight[i].num < |l.issued|
          && l.flight[i].cid == l.issued[l.flight[i].num]
          && l.flight[i].retirePriorTo <= l.flight[i].num)
  }

  ghost predicate DestOk(l: Link) {
    && 1 <= |l.dst.dcids| <= l.dst.capacity && Increasing(l.dst.dcids) && Matches(l.dst.dcids, l.issued)
    && l.dst.peerRetirePriorTo < l.Delivered()
    && (forall i :: 0 <= i < |l.dst.dcids| ==> l.dst.peerRetirePriorTo <= l.dst.dcids[i].num < l.Delivered())
  }

  ghost predicate Undelivered(l: Link, n: nat) {
    l.Delivered() <= n < l.src.next
  }

  /** Conservation: the issuer's IDs are exactly the peer's IDs, those it waits to retire,
      those whose retirement is on the way, and those not delivered yet, and no ID is in
      two of these places. */
  ghost predicate Conserved(l: Link) {
    && (forall n: nat :: n in Nums(l.src.scids) <==>
          n in Nums(l.dst.dcids) || n in l.dst.retire || n in l.retiring || Undelivered(l, n))
    && Nums(l.dst.dcids) !! l.dst.retire
    && Nums(l.dst.dcids) !! l.retiring.Keys
    && l.dst.retire !! l.retiring.Keys
    && (forall n :: n in l.dst.retire || n in l.retiring ==> n < l.Delivered() && n < |l.issued|)
    && (forall n :: n in l.retiring ==> n < |l.issued| && l.retiring[n] != l.issued[n])
  }

  ghost function Between(es: seq<Entry>, low: nat, high: nat): set<nat> {
    set n | n in Nums(es) && low <= n <= high
  }

  /** Obeying a frame's request leaves the peer with no more IDs than it allows. */
  ghost predicate Limited(l: Link) {
    && |Usable(l.src.scids, l.src.retirePriorTo)| <= l.src.limit
    && (forall i :: 0 <= i < |l.flight| ==>
          |Between(l.src.scids, l.flight[i].retirePriorTo, l.flight[i].num)| <= l.src.limit)
  }

  /** Some ID that the peer holds or will be given stays usable. */
  ghost predicate UsableAhead(l: Link) {
    && (l.Delivered() < l.src.next ==> l.src.retirePriorTo < l.src.next)
    && (l.src.advertise == [] && l.flight != [] ==>
          forall n :: n in Nums(l.src.scids) && l.flight[|l.flight| - 1].retirePriorTo <= n ==>
                        l.src.retirePriorTo <= n)
    && (l.Delivered() == l.src.next ==> forall n :: n in Nums(l.dst.dcids) ==> l.src.retirePriorTo <= n)
  }

  ghost predicate Inv(l: Link) {
    && Sized(l) && SourceOk(l) && QueuesOk(l) && DestOk(l) && Conserved(l) && Limited(l) && UsableAhead(l)
  }

  lemma OneNum(es: seq<Entry>)
    requires |es| == 1
    ensures Nums(es) == {es[0].num}
  {
  }

  lemma StartInv(limit: nat, cid: ConnectionId, path: nat, token: Option<nat>)
    requires 2 <= limit && cid != []
    ensures Inv(Start(limit, cid, path, token))
  {
    var l := Start(limit, cid, path, token);
    OneNum(l.src.scids);
    OneNum(l.dst.dcids);
    assert Usable(l.src.scids, 0) == {0};
  }

  // ---------- Issuing ----------

  lemma UsableExists(l: Link)
    requires Inv(l)
    ensures Usable(l.src.scids, l.src.retirePriorTo) != {}
    ensures LowestUsable(l.src.scids, l.src.retirePriorTo).Some?
  {
    var n: nat;
    if l.Delivered() < l.src.next {
      n := l.src.next - 1;
      assert Undelivered(l, n);
    } else {
      n := l.dst.dcids[0].num;
      assert n in Nums(l.dst.dcids);
    }
    assert n in Usable(l.src.scids, l.src.retirePriorTo);
    var i :| 0 <= i < |l.src.scids| && l.src.scids[i].num == n;
  }

  lemma IssueEffect(l: Link, cid: ConnectionId, token: nat, path: Option<nat>, retire: bool)
    requires Inv(l) && Enabled(l, IssueId(cid, token, path, retire))
    ensures var (src, r) := NewScid(l.src, cid, Some(token), true, path, retire);
            if |l.src.scids| < l.src.limit || retire
            then r == Ok(l.src.next)
                 && src == l.src.(scids := l.src.scids + [Entry(cid, l.src.next, Some(token), path)],
                                  next := l.src.next + 1,
                                  advertise := l.src.advertise + [l.src.next],
                                  retirePriorTo := src.retirePriorTo)
                 && src.retirePriorTo <= l.src.next
                 && |Usable(l.src.scids, src.retirePriorTo)| < l.src.limit
                 && (l.src.advertise != [] ==> src.retirePriorTo <= l.Announced())
                 && (|l.src.scids| < l.src.limit ==> src.retirePriorTo == l.src.retirePriorTo)
            else src == l.src
  {
    if |l.src.scids| < l.src.limit || retire {
      assert !HasCid(l.src.scids, cid);
      assert IndexOf(l.src.scids, l.src.next) == |l.src.scids|;
      hide Inv, LowestUsable;
      RoomAhead(l, retire);
      Appends(l.src, cid, token, path, retire);
      hide NewScid, MakeRoom;
    }
  }

  /** With room made, the new ID is appended and queued. */
  lemma Appends(s: Source, cid: ConnectionId, token: nat, path: Option<nat>, retire: bool)
    requires MakeRoom(s, retire).Ok? && |s.scids| < s.capacity && !HasCid(s.scids, cid)
    requires IndexOf(s.scids, s.next) == |s.scids|
    ensures var (src, r) := NewScid(s, cid, Some(token), true, path, retire);
            var rpt := MakeRoom(s, retire).value.retirePriorTo;
            && r == Ok(s.next)
            && src == s.(scids := s.scids + [Entry(cid, s.next, Some(token), path)], next := s.next + 1,
                         advertise := s.advertise + [s.next], retirePriorTo := rpt)
            && (|s.scids| < s.limit ==> rpt == s.retirePriorTo)
  {
    hide LowestUsable, HasCid, FindCid, IndexOf;
  }

  lemma RoomAhead(l: Link, retire: bool)
    requires Inv(l) && (|l.src.scids| < l.src.limit || retire)
    requires |l.src.scids| >= l.src.limit && retire ==> ForcedIsSafe(l.src)
    ensures var room := MakeRoom(l.src, retire);
            && room.Ok? && room.value == l.src.(retirePriorTo := room.value.retirePriorTo)
            && room.value.retirePriorTo <= l.src.next
            && |Usable(l.src.scids, room.value.retirePriorTo)| < l.src.limit
            && |l.src.scids| < l.src.capacity
            && (l.src.advertise != [] ==> room.value.retirePriorTo <= l.Announced())
  {
    if |l.src.scids| < l.src.limit {
      UsableFewer(l.src);
    } else {
      RoomForced(l);
    }
  }

  lemma RoomForced(l: Link)
    requires Inv(l) && l.src.limit <= |l.src.scids| && ForcedIsSafe(l.src)
    ensures var room := MakeRoom(l.src, true);
            && room.Ok? && room.value == l.src.(retirePriorTo := room.value.retirePriorTo)
            && room.value.retirePriorTo <= l.src.next
            && |Usable(l.src.scids, room.value.retirePriorTo)| < l.src.limit
            && (l.src.advertise != [] ==> room.value.retirePriorTo <= l.Announced())
  {
    hide Inv, Usable, LowestUsable, ForcedIsSafe, MakeRoom, Conserved, QueuesOk;
    SourceFacts(l);
    UsableExists(l);
    if l.src.advertise != [] {
      LowestIsAnnounced(l);
    }
    LowestDropped(l.src);
    MadeRoom(l.src);
  }

  lemma MadeRoom(s: Source)
    requires !s.zeroLength && s.limit <= |s.scids| && LowestUsable(s.scids, s.retirePriorTo).Some?
    ensures MakeRoom(s, true) == Ok(s.(retirePriorTo := LowestUsable(s.scids, s.retirePriorTo).value + 1))
  {
    hide LowestUsable;
  }

  lemma SourceFacts(l: Link)
    requires Inv(l)
    ensures !l.src.zeroLength && |Usable(l.src.scids, l.src.retirePriorTo)| <= l.src.limit
    ensures forall i :: 0 <= i < |l.src.scids| ==> l.src.scids[i].num < l.src.next
    ensures Conserved(l) && QueuesOk(l)
  {
    hide Usable, Conserved, QueuesOk;
  }

  lemma UsableFewer(s: Source)
    requires Increasing(s.scids)
    ensures |Usable(s.scids, s.retirePriorTo)| <= |s.scids|
  {
    NumsSize(s.scids);
    SubsetSize(Usable(s.scids, s.retirePriorTo), Nums(s.scids));
  }

  lemma LowestIsAnnounced(l: Link)
    requires Conserved(l) && QueuesOk(l) && ForcedIsSafe(l.src) && l.src.advertise != []
    ensures LowestUsable(l.src.scids, l.src.retirePriorTo).Some?
    ensures LowestUsable(l.src.scids, l.src.retirePriorTo).value < l.Announced()
  {
    assert Undelivered(l, l.src.advertise[0]);
    LowestIsLeast(l.src, l.src.advertise[0]);
  }

  lemma LowestDropped(s: Source)
    requires LowestUsable(s.scids, s.retirePriorTo).Some?
    requires |Usable(s.scids, s.retirePriorTo)| <= s.limit
    requires forall i :: 0 <= i < |s.scids| ==> s.scids[i].num < s.next
    ensures var lowest := LowestUsable(s.scids, s.retirePriorTo).value;
            lowest < s.next && |Usable(s.scids, lowest + 1)| < s.limit
  {
    var lowest := LowestUsable(s.scids, s.retirePriorTo).value;
    LowestIsIssued(s.scids, s.retirePriorTo);
    assert lowest in Usable(s.scids, s.retirePriorTo);
    assert Usable(s.scids, lowest + 1) == Usable(s.scids, s.retirePriorTo) - {lowest};
  }

  lemma LowestIsLeast(s: Source, n: nat)
    requires n in Nums(s.scids) && n >= s.retirePriorTo
    ensures LowestUsable(s.scids, s.retirePriorTo).Some?
    ensures LowestUsable(s.scids, s.retirePriorTo).value <= n
  {
    var i :| 0 <= i < |s.scids| && s.scids[i].num == n;
  }

  lemma IssueKeepsInv(l: Link, cid: ConnectionId, token: nat, path: Option<nat>, retire: bool)
    requires Inv(l) && Enabled(l, IssueId(cid, token, path, retire))
    ensures Succeeds(l, IssueId(cid, token, path, retire))
    ensures Inv(Next(l, IssueId(cid, token, path, retire)))
  {
    IssueEffect(l, cid, token, path, retire);
    if |l.src.scids| < l.src.limit || retire {
      var t := Next(l, IssueId(cid, token, path, retire));
      var e := Entry(cid, l.src.next, Some(token), path);
      RoomAhead(l, retire);
      AppendNums(l.src.scids, e);
      AppendOrder(l.src.scids, e);
      IssueSource(l, t, e);
      IssueOthers(l, t, e);
      IssueLimited(l, t, e);
    }
  }

  lemma IssueSource(l: Link, t: Link, e: Entry)
    requires Inv(l) && e.num == l.src.next && e.token.Some? && e.cid !in l.issued
    requires |l.src.scids| < l.src.capacity && t.src.retirePriorTo <= l.src.next
    requires t.issued == l.issued + [e.cid] && Increasing(l.src.scids + [e])
    requires t.src == l.src.(scids := l.src.scids + [e], next := l.src.next + 1,
                             advertise := l.src.advertise + [l.src.next], retirePriorTo := t.src.retirePriorTo)
    requires t.dst == l.dst && t.flight == l.flight && t.retiring == l.retiring
    requires l.src.advertise != [] ==> t.src.retirePriorTo <= l.Announced()
    ensures Sized(t) && SourceOk(t) && QueuesOk(t) && DestOk(t)
  {
    assert t.Announced() == l.Announced() && t.Delivered() == l.Delivered();
  }

  lemma IssueOthers(l: Link, t: Link, e: Entry)
    requires Inv(l) && e.num == l.src.next && t.src.retirePriorTo <= l.src.next
    requires t.issued == l.issued + [e.cid] && Nums(t.src.scids) == Nums(l.src.scids) + {e.num}
    requires t.src.next == l.src.next + 1 && t.src.advertise == l.src.advertise + [l.src.next]
    requires t.dst == l.dst && t.flight == l.flight && t.retiring == l.retiring
    ensures Conserved(t) && UsableAhead(t)
  {
    assert t.Delivered() == l.Delivered();
    assert forall n: nat :: Undelivered(t, n) <==> Undelivered(l, n) || n == e.num;
  }

  lemma IssueLimited(l: Link, t: Link, e: Entry)
    requires Limited(l) && QueuesOk(l) && e.num == l.src.next == |l.issued|
    requires Nums(t.src.scids) == Nums(l.src.scids) + {e.num} && t.flight == l.flight && t.src.limit == l.src.limit
    requires |Usable(l.src.scids, t.src.retirePriorTo)| < l.src.limit
    ensures Limited(t)
  {
    SubsetOfUnion(Usable(t.src.scids, t.src.retirePriorTo), Usable(l.src.scids, t.src.retirePriorTo), e.num);
    forall i | 0 <= i < |t.flight|
      ensures |Between(t.src.scids, t.flight[i].retirePriorTo, t.flight[i].num)| <= t.src.limit
    {
      SubsetSize(Between(t.src.scids, t.flight[i].retirePriorTo, t.flight[i].num),
                 Between(l.src.scids, l.flight[i].retirePriorTo, l.flight[i].num));
    }
  }

  lemma SubsetOfUnion(a: set<nat>, b: set<nat>, n: nat)
    requires a <= b + {n}
    ensures |a| <= |b| + 1
  {
    SubsetSize(a, b + {n});
  }

  // ---------- Announcing ----------

  lemma AnnounceKeepsInv(l: Link)
    requires Inv(l) && Enabled(l, Announce)
    ensures Succeeds(l, Announce) && Inv(Next(l, Announce))
  {
    var num := l.src.advertise[0];
    assert Undelivered(l, num);
    assert num in Nums(l.src.scids);
    var i := IndexOf(l.src.scids, num);
    assert i < |l.src.scids|;
    var frame := FrameFor(l.src, num).value;
    var t := Next(l, Announce);
    assert t.src == l.src.(advertise := l.src.advertise[1..]);
    assert t.Announced() == l.Announced() + 1 && t.Delivered() == l.Delivered();
    assert forall n: nat :: Undelivered(t, n) <==> Undelivered(l, n);
    AnnounceQueues(l, t, frame);
    AnnounceLimited(l, t, frame);
    AnnounceOthers(l, t);
    hide SourceOk, QueuesOk, DestOk, Conserved, Limited, UsableAhead;
  }

  lemma AnnounceOthers(l: Link, t: Link)
    requires Inv(l) && t == l.(src := l.src.(advertise := t.src.advertise), flight := t.flight)
    requires t.flight != [] && t.flight[|t.flight| - 1].retirePriorTo == l.src.retirePriorTo
    requires t.Delivered() == l.Delivered() && forall n: nat :: Undelivered(t, n) <==> Undelivered(l, n)
    ensures Sized(t) && SourceOk(t) && DestOk(t) && Conserved(t) && UsableAhead(t)
  {
  }

  lemma AnnounceQueues(l: Link, t: Link, frame: NewConnectionId)
    requires QueuesOk(l) && l.src.advertise != [] && l.src.next == |l.issued|
    requires frame.num == l.src.advertise[0] && frame.cid == l.issued[frame.num]
    requires frame.retirePriorTo == l.src.retirePriorTo
    requires t == l.(src := l.src.(advertise := l.src.advertise[1..]), flight := l.flight + [frame])
    ensures QueuesOk(t)
  {
    assert t.Announced() == l.Announced() + 1 && t.Delivered() == l.Delivered();
  }

  lemma AnnounceLimited(l: Link, t: Link, frame: NewConnectionId)
    requires Limited(l) && frame.retirePriorTo == l.src.retirePriorTo
    requires t.src == l.src.(advertise := t.src.advertise) && t.flight == l.flight + [frame]
    ensures Limited(t)
  {
    SubsetSize(Between(l.src.scids, frame.retirePriorTo, frame.num), Usable(l.src.scids, l.src.retirePriorTo));
  }

  // ---------- Losing an announcement ----------

  lemma LoseKeepsInv(l: Link)
    requires Inv(l) && Enabled(l, Lose)
    ensures Inv(Next(l, Lose))
  {
    var t, last := Next(l, Lose), |l.flight| - 1;
    var num := l.flight[last].num;
    assert t == l.(src := l.src.(advertise := [num]), flight := l.flight[..last]);
    assert t.Announced() == l.Announced() - 1 && t.Delivered() == l.Delivered();
    assert forall n: nat :: Undelivered(t, n) <==> Undelivered(l, n);
    LoseQueues(l, t);
    LoseOthers(l, t);
  }

  lemma LoseQueues(l: Link, t: Link)
    requires QueuesOk(l) && Limited(l) && l.flight != [] && l.src.advertise == []
    requires l.src.retirePriorTo <= l.flight[|l.flight| - 1].num
    requires t == l.(src := l.src.(advertise := [l.flight[|l.flight| - 1].num]), flight := l.flight[..|l.flight| - 1])
    ensures QueuesOk(t) && Limited(t)
  {
    assert t.Announced() == l.Announced() - 1 && t.Delivered() == l.Delivered();
  }

  lemma LoseOthers(l: Link, t: Link)
    requires Inv(l) && l.flight != [] && l.src.advertise == []
    requires t == l.(src := l.src.(advertise := [l.flight[|l.flight| - 1].num]), flight := l.flight[..|l.flight| - 1])
    requires forall n: nat :: Undelivered(t, n) <==> Undelivered(l, n)
    ensures Sized(t) && SourceOk(t) && DestOk(t) && Conserved(t) && UsableAhead(t)
  {
    assert t.Delivered() == l.Delivered();
  }

  // ---------- Retiring, at the peer ----------

  lemma SendRetireKeepsInv(l: Link, num: nat, pktDcid: ConnectionId)
    requires Inv(l) && Enabled(l, SendRetire(num, pktDcid))
    ensures Inv(Next(l, SendRetire(num, pktDcid)))
  {
    hide Inv;
    SentOnAnother(l, num, pktDcid);
    RetireSent(l, Next(l, SendRetire(num, pktDcid)), num, pktDcid);
  }

  lemma RetireSent(l: Link, t: Link, num: nat, pktDcid: ConnectionId)
    requires Inv(l) && num in l.dst.retire && num < |l.issued| && pktDcid != l.issued[num]
    requires t == l.(dst := l.dst.(retire := l.dst.retire - {num}), retiring := l.retiring[num := pktDcid])
    ensures Inv(t)
  {
    SendRetireConserved(l, t, num, pktDcid);
    SameQueues(l, t);
    hide Conserved, SourceOk, QueuesOk, DestOk, Limited, UsableAhead;
  }

  /** The retire set and the retirements on the way matter only to the conservation. */
  lemma SameQueues(l: Link, t: Link)
    requires t == l.(dst := l.dst.(retire := t.dst.retire), retiring := t.retiring)
    ensures SourceOk(l) ==> SourceOk(t)
    ensures QueuesOk(l) ==> QueuesOk(t)
    ensures DestOk(l) ==> DestOk(t)
    ensures Limited(l) ==> Limited(t)
    ensures UsableAhead(l) ==> UsableAhead(t)
  {
    assert t.Delivered() == l.Delivered() && t.Announced() == l.Announced();
  }

  /** The packet goes to another ID than the one that it retires. */
  lemma SentOnAnother(l: Link, num: nat, pktDcid: ConnectionId)
    requires Inv(l) && Enabled(l, SendRetire(num, pktDcid))
    ensures num in l.dst.retire && num < |l.issued| && pktDcid != l.issued[num]
  {
    var i :| 0 <= i < |l.dst.dcids| && l.dst.dcids[i].cid == pktDcid;
    assert l.dst.dcids[i].num in Nums(l.dst.dcids);
    assert l.dst.dcids[i].num != num;
  }

  lemma SendRetireConserved(l: Link, t: Link, num: nat, pktDcid: ConnectionId)
    requires Conserved(l) && num in l.dst.retire && num < |l.issued| && pktDcid != l.issued[num]
    requires t == l.(dst := l.dst.(retire := l.dst.retire - {num}), retiring := l.retiring[num := pktDcid])
    ensures Conserved(t)
  {
    assert t.retiring.Keys == l.retiring.Keys + {num};
    assert forall n: nat :: Undelivered(t, n) <==> Undelivered(l, n);
  }

  /** The retire set never fills up: it is part of the issuer's IDs. */
  lemma RetireSetFits(l: Link, extra: set<nat>)
    requires Inv(l) && extra <= Nums(l.dst.dcids)
    ensures |l.dst.retire + extra| < l.dst.retireCapacity
  {
    assert l.dst.retire + extra <= Nums(l.src.scids);
    SubsetSize(l.dst.retire + extra, Nums(l.src.scids));
    NumsSize(l.src.scids);
  }

  lemma RetireOneKeepsInv(l: Link, num: nat)
    requires Inv(l)
    ensures Inv(Next(l, RetireOne(num)))
  {
    hide Inv, RetireDcid;
    if 1 < |l.dst.dcids| && num in Nums(l.dst.dcids) {
      RetireOneEffect(l, num);
      RetiredOne(l, Next(l, RetireOne(num)), num);
    } else {
      NothingRetired(l, num);
    }
  }

  lemma RetiredOne(l: Link, t: Link, num: nat)
    requires Inv(l) && num in Nums(l.dst.dcids)
    requires t == l.(dst := l.dst.(dcids := t.dst.dcids, retire := l.dst.retire + {num}))
    requires 1 <= |t.dst.dcids| <= |l.dst.dcids| && Increasing(t.dst.dcids)
    requires Nums(t.dst.dcids) == Nums(l.dst.dcids) - {num}
    requires forall k :: 0 <= k < |t.dst.dcids| ==> t.dst.dcids[k] in l.dst.dcids
    ensures Inv(t)
  {
    FewerDcids(l, t);
    MovedConserved(l, t, {num}, {});
    hide Conserved, DestOk, QueuesOk, SourceOk, Limited, UsableAhead;
  }

  lemma NothingRetired(l: Link, num: nat)
    requires Inv(l) && (|l.dst.dcids| <= 1 || num !in Nums(l.dst.dcids))
    ensures Next(l, RetireOne(num)) == l
  {
    if 1 < |l.dst.dcids| {
      QueueRemoveKeeps(l.dst.dcids, num);
    }
  }

  lemma RetireOneEffect(l: Link, num: nat)
    requires Inv(l) && 1 < |l.dst.dcids| && num in Nums(l.dst.dcids)
    ensures var d := RetireDcid(l.dst, num).0;
            && d == l.dst.(dcids := d.dcids, retire := l.dst.retire + {num})
            && 1 <= |d.dcids| <= |l.dst.dcids| && Increasing(d.dcids) && Nums(d.dcids) == Nums(l.dst.dcids) - {num}
            && forall k :: 0 <= k < |d.dcids| ==> d.dcids[k] in l.dst.dcids
  {
    RetireSetFits(l, {});
    assert l.dst.retire + {} == l.dst.retire;
    assert Increasing(l.dst.dcids) && !l.dst.zeroLength;
    hide Inv;
    OneRetired(l.dst, num);
  }

  lemma OneRetired(d: Dest, num: nat)
    requires !d.zeroLength && Increasing(d.dcids) && 1 < |d.dcids| && num in Nums(d.dcids)
    requires |d.retire| < d.retireCapacity
    ensures var t := RetireDcid(d, num).0;
            && t == d.(dcids := t.dcids, retire := d.retire + {num})
            && 1 <= |t.dcids| <= |d.dcids| && Increasing(t.dcids) && Nums(t.dcids) == Nums(d.dcids) - {num}
            && forall k :: 0 <= k < |t.dcids| ==> t.dcids[k] in d.dcids
  {
    hide QueueRemove, Increasing, Nums;
    IncreasingIsDistinct(d.dcids);
    QueueRemoveKeeps(d.dcids, num);
    QueueRemoveMembers(d.dcids, num);
  }

  lemma FewerDcids(l: Link, t: Link)
    requires Inv(l)
    requires t == l.(dst := l.dst.(dcids := t.dst.dcids, retire := t.dst.retire))
    requires 1 <= |t.dst.dcids| <= |l.dst.dcids| && Increasing(t.dst.dcids)
    requires forall k :: 0 <= k < |t.dst.dcids| ==> t.dst.dcids[k] in l.dst.dcids
    ensures Sized(t) && SourceOk(t) && QueuesOk(t) && DestOk(t) && Limited(t) && UsableAhead(t)
  {
    forall n | n in Nums(t.dst.dcids) ensures n in Nums(l.dst.dcids) {
      var k :| 0 <= k < |t.dst.dcids| && t.dst.dcids[k].num == n;
      var i :| 0 <= i < |l.dst.dcids| && l.dst.dcids[i] == t.dst.dcids[k];
    }
  }

  /** IDs that move from the peer's queue to its retire set, or from the network to its
      queue, are still accounted for. */
  lemma MovedConserved(l: Link, t: Link, gone: set<nat>, arrived: set<nat>)
    requires Conserved(l) && gone <= Nums(l.dst.dcids) && l.Delivered() <= t.Delivered()
    requires forall n :: n in Nums(l.dst.dcids) ==> n < l.Delivered() && n < |l.issued|
    requires forall n :: n in arrived ==> l.Delivered() <= n
    requires Nums(t.dst.dcids) == (Nums(l.dst.dcids) - gone) + arrived
    requires t.dst.retire == l.dst.retire + gone && t.retiring == l.retiring && t.issued == l.issued
    requires t.src.scids == l.src.scids
    requires forall n: nat :: Undelivered(l, n) <==> Undelivered(t, n) || n in arrived
    ensures Conserved(t)
  {
  }

  // ---------- Delivery of NEW_CONNECTION_ID ----------

  /** The entries that the peer keeps when it obeys a frame. */
  function Kept(d: Dest, f: NewConnectionId, cut: nat): seq<Entry>
    requires cut <= |d.dcids|
  {
    if f.retirePriorTo > d.peerRetirePriorTo then d.dcids[cut..] else d.dcids
  }

  lemma KeptBounds(l: Link, cut: nat)
    requires DestOk(l) && QueuesOk(l) && Enabled(l, DeliverNew(cut))
    ensures var f := l.flight[0]; var kept := Kept(l.dst, f, cut);
            && Increasing(kept) && Matches(kept, l.issued) && Nums(kept) <= Nums(l.dst.dcids)
            && (forall i :: 0 <= i < |kept| ==> f.retirePriorTo <= kept[i].num < f.num)
            && (forall i :: 0 <= i < |kept| ==> l.dst.peerRetirePriorTo <= kept[i].num)
  {
    IncreasingIsPartitioned(l.dst.dcids, l.flight[0].retirePriorTo);
    CutNums(l.dst.dcids, cut);
  }

  /** There is room for the new entry, because the issuer counted the same IDs. */
  lemma KeptFits(l: Link, cut: nat)
    requires Inv(l) && Enabled(l, DeliverNew(cut))
    ensures |Kept(l.dst, l.flight[0], cut)| < l.dst.capacity
  {
    var f := l.flight[0];
    var kept := Kept(l.dst, f, cut);
    KeptBounds(l, cut);
    NumsSize(kept);
    assert Undelivered(l, f.num);
    KeptCounted(l.src.scids, kept, f.retirePriorTo, f.num);
  }

  lemma KeptCounted(scids: seq<Entry>, kept: seq<Entry>, low: nat, high: nat)
    requires forall n :: n in Nums(kept) ==> n in Nums(scids)
    requires forall i :: 0 <= i < |kept| ==> low <= kept[i].num < high
    requires low <= high && high in Nums(scids)
    ensures |Nums(kept)| < |Between(scids, low, high)|
  {
    assert high !in Nums(kept);
    SubsetSize(Nums(kept) + {high}, Between(scids, low, high));
    assert |Nums(kept) + {high}| == |Nums(kept)| + 1;
  }

  lemma DeliverEffect(l: Link, cut: nat)
    requires Inv(l) && Enabled(l, DeliverNew(cut))
    ensures var f := l.flight[0]; var (d, r, _) := NewDcid(l.dst, f, cut);
            var gone := Nums(l.dst.dcids) - Nums(Kept(l.dst, f, cut));
            && r == Ok(())
            && d == l.dst.(dcids := Kept(l.dst, f, cut) + [Entry(f.cid, f.num, Some(f.token), None)],
                           retire := l.dst.retire + gone,
                           peerRetirePriorTo := if f.retirePriorTo > l.dst.peerRetirePriorTo
                                                then f.retirePriorTo else l.dst.peerRetirePriorTo,
                           largest := d.largest)
  {
    var f := l.flight[0];
    KeptBounds(l, cut);
    KeptFits(l, cut);
    NoClash(l);
    CutNums(l.dst.dcids, cut);
    RetireSetFits(l, Nums(l.dst.dcids[..cut]));
    hide Inv, NewDcid;
    FrameObeyed(l.dst, f, cut);
  }

  /** A frame that is new, in order and fits is obeyed. */
  lemma FrameObeyed(d: Dest, f: NewConnectionId, cut: nat)
    requires cut <= |d.dcids| && !d.zeroLength && !Clashes(d.dcids, f.cid, f.num)
    requires d.peerRetirePriorTo <= f.num && f.retirePriorTo <= f.num && Increasing(d.dcids)
    requires |Kept(d, f, cut)| < d.capacity && |d.retire + Nums(d.dcids[..cut])| < d.retireCapacity
    requires forall i :: 0 <= i < |Kept(d, f, cut)| ==> Kept(d, f, cut)[i].num < f.num
    ensures var (t, r, _) := NewDcid(d, f, cut);
            && r == Ok(())
            && t == d.(dcids := Kept(d, f, cut) + [Entry(f.cid, f.num, Some(f.token), None)],
                       retire := d.retire + (Nums(d.dcids) - Nums(Kept(d, f, cut))),
                       peerRetirePriorTo := if f.retirePriorTo > d.peerRetirePriorTo
                                            then f.retirePriorTo else d.peerRetirePriorTo,
                       largest := t.largest)
  {
    CutNums(d.dcids, cut);
    var kept, e := Kept(d, f, cut), Entry(f.cid, f.num, Some(f.token), None);
    assert IndexOf(kept, f.num) == |kept|;
    hide Increasing, Nums, IndexOf, NewDcid;
    if f.retirePriorTo > d.peerRetirePriorTo {
      DrainAll(d.dcids[..cut], Drained(d.retire, [], false), d.retireCapacity);
      assert Nums(d.dcids) - Nums(kept) == Nums(d.dcids[..cut]);
    } else {
      assert d.retire + (Nums(d.dcids) - Nums(kept)) == d.retire;
    }
    hide Drain;
    ObeyedShape(d, f, cut, e);
  }

  /** What `new_dcid` leaves when it gets to the new entry and that is appended. */
  lemma ObeyedShape(d: Dest, f: NewConnectionId, cut: nat, e: Entry)
    requires cut <= |d.dcids| && !d.zeroLength && !Clashes(d.dcids, f.cid, f.num)
    requires d.peerRetirePriorTo <= f.num && f.retirePriorTo <= f.num && e == Entry(f.cid, f.num, Some(f.token), None)
    requires |Kept(d, f, cut)| < d.capacity && IndexOf(Kept(d, f, cut), f.num) == |Kept(d, f, cut)|
    ensures var (t, r, _) := NewDcid(d, f, cut);
            var drained := Drain(d.dcids[..cut], Drained(d.retire, [], false), d.retireCapacity);
            if f.retirePriorTo > d.peerRetirePriorTo
            then (drained.full <==> r.Err?)
                 && t == d.(dcids := Kept(d, f, cut) + [e], retire := drained.retire,
                            peerRetirePriorTo := f.retirePriorTo, largest := t.largest)
            else r == Ok(()) && t == d.(dcids := Kept(d, f, cut) + [e], largest := t.largest)
  {
    hide Drain, Clashes, IndexOf;
  }

  lemma NoClash(l: Link)
    requires Inv(l) && l.flight != []
    ensures !Clashes(l.dst.dcids, l.flight[0].cid, l.flight[0].num)
    ensures l.dst.peerRetirePriorTo <= l.flight[0].num
  {
    var f := l.flight[0];
    forall i | 0 <= i < |l.dst.dcids| ensures l.dst.dcids[i].cid != f.cid && l.dst.dcids[i].num != f.num {
      assert l.dst.dcids[i].num < f.num;
    }
  }

  lemma DeliverNewKeepsInv(l: Link, cut: nat)
    requires Inv(l) && Enabled(l, DeliverNew(cut))
    ensures Succeeds(l, DeliverNew(cut)) && Inv(Next(l, DeliverNew(cut)))
  {
    DeliverEffect(l, cut);
    KeptBounds(l, cut);
    KeptFits(l, cut);
    var f := l.flight[0];
    var kept := Kept(l.dst, f, cut);
    var e := Entry(f.cid, f.num, Some(f.token), None);
    var t := Next(l, DeliverNew(cut));
    DeliverDest(l, t, kept, e);
    DeliverQueues(l, t);
    DeliverConserved(l, t, kept, e);
    DeliverAhead(l, t, kept + [e]);
  }

  lemma DeliverDest(l: Link, t: Link, kept: seq<Entry>, e: Entry)
    requires DestOk(l) && QueuesOk(l) && l.flight != [] && e.num == l.flight[0].num && e.cid == l.flight[0].cid
    requires Increasing(kept) && Matches(kept, l.issued) && |kept| < l.dst.capacity == t.dst.capacity
    requires forall i :: 0 <= i < |kept| ==> l.flight[0].retirePriorTo <= kept[i].num < e.num
    requires forall i :: 0 <= i < |kept| ==> l.dst.peerRetirePriorTo <= kept[i].num
    requires t == l.(dst := t.dst, flight := l.flight[1..]) && t.dst.dcids == kept + [e]
    requires t.dst.peerRetirePriorTo == l.dst.peerRetirePriorTo || t.dst.peerRetirePriorTo == l.flight[0].retirePriorTo
    ensures DestOk(t)
  {
    AppendOrder(kept, e);
    assert t.Delivered() == l.Delivered() + 1;
  }

  lemma DeliverConserved(l: Link, t: Link, kept: seq<Entry>, e: Entry)
    requires Conserved(l) && DestOk(l) && QueuesOk(l) && l.flight != [] && e.num == l.flight[0].num
    requires Nums(kept) <= Nums(l.dst.dcids)
    requires t == l.(dst := t.dst, flight := l.flight[1..]) && t.dst.dcids == kept + [e]
    requires t.dst.retire == l.dst.retire + (Nums(l.dst.dcids) - Nums(kept))
    ensures Conserved(t)
    ensures forall n :: n in Nums(kept + [e]) ==> n in Nums(l.src.scids)
  {
    AppendNums(kept, e);
    assert t.Delivered() == l.Delivered() + 1;
    assert Undelivered(l, e.num);
    MovedConserved(l, t, Nums(l.dst.dcids) - Nums(kept), {e.num});
  }

  lemma DeliverQueues(l: Link, t: Link)
    requires QueuesOk(l) && Limited(l) && l.flight != []
    requires t == l.(dst := t.dst, flight := l.flight[1..])
    ensures QueuesOk(t) && Limited(t)
  {
    assert t.Delivered() == l.Delivered() + 1;
  }

  lemma DeliverAhead(l: Link, t: Link, es: seq<Entry>)
    requires Inv(l) && l.flight != [] && t == l.(dst := t.dst, flight := l.flight[1..]) && t.dst.dcids == es
    requires forall i :: 0 <= i < |es| ==> l.flight[0].retirePriorTo <= es[i].num
    requires forall n :: n in Nums(es) ==> n in Nums(l.src.scids)
    ensures UsableAhead(t)
  {
  }

  // ---------- Delivery of RETIRE_CONNECTION_ID ----------

  lemma DeliverRetireEffect(l: Link, num: nat)
    requires Inv(l) && Enabled(l, DeliverRetire(num))
    ensures var (s, r) := RetireScid(l.src, num, l.retiring[num]);
            && r.Ok?
            && s == l.src.(scids := s.scids, retired := s.retired, retirePriorTo := s.retirePriorTo)
            && s.scids != [] && Increasing(s.scids) && |s.scids| <= |l.src.scids|
            && Nums(s.scids) == Nums(l.src.scids) - {num}
            && (forall k :: 0 <= k < |s.scids| ==> s.scids[k] in l.src.scids)
            && l.src.retirePriorTo <= s.retirePriorTo
            && s.retirePriorTo in Nums(s.scids)
            && (forall n :: n in Nums(s.scids) && l.src.retirePriorTo <= n ==> s.retirePriorTo <= n)
  {
    AnotherScid(l, num);
    assert Matches(l.src.scids, l.issued) && Increasing(l.src.scids) && l.src.next == |l.issued|
        && l.retiring[num] != l.issued[num];
    hide Inv;
    ScidRetired(l.src, num, l.retiring[num], l.issued);
  }

  lemma ScidRetired(s: Source, num: nat, pktDcid: ConnectionId, issued: seq<ConnectionId>)
    requires Increasing(s.scids) && Matches(s.scids, issued) && 1 < |s.scids|
    requires num in Nums(s.scids) && num < |issued| == s.next && pktDcid != issued[num]
    requires exists n :: n in Nums(s.scids) - {num} && s.retirePriorTo <= n
    ensures var (t, r) := RetireScid(s, num, pktDcid);
            && r.Ok?
            && t == s.(scids := t.scids, retired := t.retired, retirePriorTo := t.retirePriorTo)
            && t.scids != [] && Increasing(t.scids) && |t.scids| <= |s.scids|
            && Nums(t.scids) == Nums(s.scids) - {num}
            && (forall k :: 0 <= k < |t.scids| ==> t.scids[k] in s.scids)
            && s.retirePriorTo <= t.retirePriorTo
            && t.retirePriorTo in Nums(t.scids)
            && (forall n :: n in Nums(t.scids) && s.retirePriorTo <= n ==> t.retirePriorTo <= n)
  {
    hide QueueRemove, LowestUsable, Nums, Increasing;
    IncreasingIsDistinct(s.scids);
    QueueRemoveKeeps(s.scids, num);
    QueueRemoveMembers(s.scids, num);
    var (e, rest) := QueueRemove(s.scids, num).value;
    assert e.value.cid == issued[num];
    LowestAmong(rest, s.retirePriorTo);
  }

  lemma LowestAmong(es: seq<Entry>, bound: nat)
    requires exists n :: n in Nums(es) && bound <= n
    ensures LowestUsable(es, bound).Some?
    ensures var low := LowestUsable(es, bound).value;
            bound <= low && low in Nums(es) && forall n :: n in Nums(es) && bound <= n ==> low <= n
  {
    var n :| n in Nums(es) && bound <= n;
    var i :| 0 <= i < |es| && es[i].num == n;
    LowestIsIssued(es, bound);
    forall m | m in Nums(es) && bound <= m ensures LowestUsable(es, bound).value <= m {
      var k :| 0 <= k < |es| && es[k].num == m;
    }
  }

  /** A number on its way to be retired is not the last usable one. */
  lemma AnotherScid(l: Link, num: nat)
    requires Inv(l) && num in l.retiring
    ensures num in Nums(l.src.scids) && 1 < |l.src.scids|
    ensures exists n :: n in Nums(l.src.scids) - {num} && l.src.retirePriorTo <= n
  {
    var n: nat;
    if l.Delivered() < l.src.next {
      n := l.src.next - 1;
      assert Undelivered(l, n);
    } else {
      n := l.dst.dcids[0].num;
      assert n in Nums(l.dst.dcids);
    }
    assert n in Nums(l.src.scids) - {num} && l.src.retirePriorTo <= n;
    NumsSize(l.src.scids);
    SubsetSize({n, num}, Nums(l.src.scids));
  }

  lemma DeliverRetireKeepsInv(l: Link, num: nat)
    requires Inv(l) && Enabled(l, DeliverRetire(num))
    ensures Succeeds(l, DeliverRetire(num)) && Inv(Next(l, DeliverRetire(num)))
  {
    DeliverRetireEffect(l, num);
    var t := Next(l, DeliverRetire(num));
    assert t.Announced() == l.Announced() && t.Delivered() == l.Delivered();
    RetiredSource(l, t, num);
    RetiredAhead(l, t, num);
    RetiredConserved(l, t, num);
    RetiredLimited(l, t);
  }

  lemma RetiredSource(l: Link, t: Link, num: nat)
    requires Inv(l) && num in l.retiring
    requires t == l.(src := l.src.(scids := t.src.scids, retired := t.src.retired,
                                   retirePriorTo := t.src.retirePriorTo),
                     retiring := t.retiring)
    requires Increasing(t.src.scids) && |t.src.scids| <= |l.src.scids| && Nums(t.src.scids) == Nums(l.src.scids) - {num}
    requires forall k :: 0 <= k < |t.src.scids| ==> t.src.scids[k] in l.src.scids
    requires t.src.retirePriorTo in Nums(t.src.scids)
    requires forall n :: n in Nums(t.src.scids) && l.src.retirePriorTo <= n ==> t.src.retirePriorTo <= n
    ensures Sized(t) && SourceOk(t) && QueuesOk(t) && DestOk(t)
  {
    if l.src.advertise != [] {
      assert Undelivered(l, l.src.advertise[0]);
      assert l.src.advertise[0] in Nums(t.src.scids);
    }
    assert t.src.retirePriorTo in Nums(l.src.scids);
  }

  lemma RetiredAhead(l: Link, t: Link, num: nat)
    requires Conserved(l) && UsableAhead(l) && num in l.retiring
    requires t == l.(src := l.src.(scids := t.src.scids, retired := t.src.retired,
                                   retirePriorTo := t.src.retirePriorTo),
                     retiring := t.retiring)
    requires Nums(t.src.scids) == Nums(l.src.scids) - {num}
    requires forall n :: n in Nums(t.src.scids) && l.src.retirePriorTo <= n ==> t.src.retirePriorTo <= n
    ensures UsableAhead(t)
  {
    if l.Delivered() < l.src.next {
      assert Undelivered(l, l.src.next - 1);
      assert l.src.next - 1 in Nums(t.src.scids);
    }
    assert forall n :: n in Nums(l.dst.dcids) ==> n in Nums(t.src.scids);
  }

  lemma RetiredConserved(l: Link, t: Link, num: nat)
    requires Conserved(l) && num in l.retiring
    requires t == l.(src := t.src, retiring := l.retiring - {num})
    requires t.src.next == l.src.next && t.src.advertise == l.src.advertise
    requires Nums(t.src.scids) == Nums(l.src.scids) - {num}
    ensures Conserved(t)
  {
    assert forall n: nat :: Undelivered(t, n) <==> Undelivered(l, n);
    assert t.retiring.Keys == l.retiring.Keys - {num};
  }

  lemma RetiredLimited(l: Link, t: Link)
    requires Limited(l) && t.flight == l.flight && t.src.limit == l.src.limit
    requires Nums(t.src.scids) <= Nums(l.src.scids) && l.src.retirePriorTo <= t.src.retirePriorTo
    ensures Limited(t)
  {
    SubsetSize(Usable(t.src.scids, t.src.retirePriorTo), Usable(l.src.scids, l.src.retirePriorTo));
    forall i | 0 <= i < |t.flight|
      ensures |Between(t.src.scids, t.flight[i].retirePriorTo, t.flight[i].num)| <= t.src.limit
    {
      SubsetSize(Between(t.src.scids, t.flight[i].retirePriorTo, t.flight[i].num),
                 Between(l.src.scids, l.flight[i].retirePriorTo, l.flight[i].num));
    }
  }

  // ---------- Runs ----------

  lemma StepKeepsInv(l: Link, s: Step)
    requires Inv(l) && Enabled(l, s)
    ensures Succeeds(l, s) && Inv(Next(l, s)) && Next(l, s).src.limit == l.src.limit
  {
    match s
    case IssueId(cid, token, path, retire) => IssueKeepsInv(l, cid, token, path, retire);
    case Announce => AnnounceKeepsInv(l);
    case DeliverNew(cut) => DeliverNewKeepsInv(l, cut);
    case RetireOne(num) => RetireOneKeepsInv(l, num);
    case SendRetire(num, pktDcid) => SendRetireKeepsInv(l, num, pktDcid);
    case DeliverRetire(num) => DeliverRetireKeepsInv(l, num);
    case Lose => LoseKeepsInv(l);
  }

  /** Every step of the run is enabled where it is taken. */
  ghost predicate IsRun(l: Link, steps: seq<Step>)
    decreases |steps|
  {
    steps != [] ==> Enabled(l, steps[0]) && IsRun(Next(l, steps[0]), steps[1..])
  }

  ghost function After(l: Link, steps: seq<Step>): Link
    requires IsRun(l, steps)
    decreases |steps|
  {
    if steps == [] then l else After(Next(l, steps[0]), steps[1..])
  }

  ghost predicate AllSucceed(l: Link, steps: seq<Step>)
    requires IsRun(l, steps)
    decreases |steps|
  {
    steps != [] ==> Succeeds(l, steps[0]) && AllSucceed(Next(l, steps[0]), steps[1..])
  }

  lemma {:induction false} RunKeepsInv(l: Link, steps: seq<Step>)
    requires Inv(l) && IsRun(l, steps)
    ensures AllSucceed(l, steps) && Inv(After(l, steps)) && After(l, steps).src.limit == l.src.limit
    decreases |steps|
  {
    if steps != [] {
      StepKeepsInv(l, steps[0]);
      RunKeepsInv(Next(l, steps[0]), steps[1..]);
    }
  }

  /** The main result, over every run of the two endpoints: no frame is rejected, no call
      made for the other side fails, every ID is in exactly one place, and the peer always
      holds an ID and never more than it allows. */
  lemma TwoEndpoints(limit: nat, cid: ConnectionId, path: nat, token: Option<nat>, steps: seq<Step>)
    requires 2 <= limit && cid != [] && IsRun(Start(limit, cid, path, token), steps)
    ensures AllSucceed(Start(limit, cid, path, token), steps)
    ensures var l := After(Start(limit, cid, path, token), steps);
            && Conserved(l)
            && 1 <= |l.dst.dcids| <= limit
            && |l.src.scids| <= 2 * limit - 1
  {
    var start := Start(limit, cid, path, token);
    StartInv(limit, cid, path, token);
    RunKeepsInv(start, steps);
  }

  // ---------- Why a forced retirement must wait for the announcement ----------

  /** No queued frame asks the peer to retire the very ID that it carries. */
  ghost predicate FramesAcceptable(s: Source) {
    forall n :: n in s.advertise ==> FrameFor(s, n).Ok? && FrameFor(s, n).value.retirePriorTo <= n
  }

  /** The comment on `new_scid` promises an error when the ID to retire is still
      unannounced.  The code returns Ok, and then the queued frames stay acceptable exactly
      when that ID had been announced. */
  lemma ForcedRetirement(l: Link, cid: ConnectionId, token: nat, path: Option<nat>)
    requires Inv(l) && cid !in l.issued && l.src.limit <= |l.src.scids| < l.src.capacity
    ensures var (s, r) := NewScid(l.src, cid, Some(token), true, path, true);
            var lowest := LowestUsable(l.src.scids, l.src.retirePriorTo);
            && r == Ok(l.src.next) && lowest.Some?
            && (FramesAcceptable(s) <==> lowest.value !in l.src.advertise)
  {
    UsableExists(l);
    var lowest := LowestUsable(l.src.scids, l.src.retirePriorTo).value;
    assert !HasCid(l.src.scids, cid);
    assert IndexOf(l.src.scids, l.src.next) == |l.src.scids|;
    var s := NewScid(l.src, cid, Some(token), true, path, true).0;
    var e := Entry(cid, l.src.next, Some(token), path);
    assert s.scids == l.src.scids + [e] && s.retirePriorTo == lowest + 1;
    if lowest in l.src.advertise {
      assert lowest in s.advertise;
    } else {
      forall n | n in s.advertise ensures FrameFor(s, n).Ok? && FrameFor(s, n).value.retirePriorTo <= n {
        QueuedFrame(l, s, e, n, lowest);
      }
    }
  }

  lemma QueuedFrame(l: Link, s: Source, e: Entry, n: nat, lowest: nat)
    requires Inv(l) && e.num == l.src.next && e.token.Some?
    requires s.scids == l.src.scids + [e] && s.advertise == l.src.advertise + [e.num] && n in s.advertise
    requires LowestUsable(l.src.scids, l.src.retirePriorTo) == Some(lowest) && lowest !in l.src.advertise
    requires s.retirePriorTo == lowest + 1
    ensures FrameFor(s, n).Ok? && FrameFor(s, n).value.retirePriorTo <= n
  {
    if n in l.src.advertise {
      QueuedIsLater(l, n, lowest);
    } else {
      LowestIsIssued(l.src.scids, l.src.retirePriorTo);
    }
    hide LowestUsable;
    FrameIsThere(l.src.scids, e, s, n);
  }

  lemma FrameIsThere(es: seq<Entry>, e: Entry, s: Source, n: nat)
    requires s.scids == es + [e] && (n in Nums(es) || n == e.num) && n > 0 && e.token.Some?
    requires forall i :: 0 <= i < |es| && es[i].num > 0 ==> es[i].token.Some?
    ensures FrameFor(s, n).Ok? && FrameFor(s, n).value.retirePriorTo == s.retirePriorTo
  {
    AppendNums(es, e);
    assert n in Nums(s.scids);
    var i := IndexOf(s.scids, n);
    assert i < |s.scids|;
  }

  /** A queued number is usable, and it is not the lowest. */
  lemma QueuedIsLater(l: Link, n: nat, lowest: nat)
    requires Inv(l) && n in l.src.advertise
    requires LowestUsable(l.src.scids, l.src.retirePriorTo) == Some(lowest) && lowest !in l.src.advertise
    ensures n in Nums(l.src.scids) && lowest < n
  {
    assert Undelivered(l, n);
    assert n in Nums(l.src.scids) && l.src.retirePriorTo <= n;
    LowestIsLeast(l.src, n);
  }

  /** A peer that does not know the ID yet rejects a frame that asks for its retirement. */
  lemma RejectedFrame(d: Dest, f: NewConnectionId, cut: nat)
    requires !d.zeroLength && cut <= |d.dcids| && !Clashes(d.dcids, f.cid, f.num)
    ensures NewDcid(d, f, cut).1 == Err(InvalidFrame) <==> f.retirePriorTo > f.num
  {
  }

  ghost predicate RetiresUnannounced(s: Source) {
    && s.limit <= |s.scids| < s.capacity
    && LowestUsable(s.scids, s.retirePriorTo).Some?
    && LowestUsable(s.scids, s.retirePriorTo).value in s.advertise
  }

  lemma IssueOne(l: Link, cid: ConnectionId) returns (t: Link)
    requires Inv(l) && cid !in l.issued && |l.src.scids| < l.src.limit
    ensures Enabled(l, IssueId(cid, 0, None, false)) && t == Next(l, IssueId(cid, 0, None, false))
    ensures Inv(t) && t.issued == l.issued + [cid]
    ensures t.src == l.src.(scids := l.src.scids + [Entry(cid, l.src.next, Some(0), None)],
                            next := l.src.next + 1, advertise := l.src.advertise + [l.src.next])
  {
    assert Enabled(l, IssueId(cid, 0, None, false));
    hide Inv, NewScid;
    IssueEffect(l, cid, 0, None, false);
    IssueKeepsInv(l, cid, 0, None, false);
    t := Next(l, IssueId(cid, 0, None, false));
  }
}
