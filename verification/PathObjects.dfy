/** `Path` and `PathMap` of quiche/src/path.rs as objects that are changed in place, each method
    proved against the functions on values of the modules Paths and PathTable. */
module PathObjects {
  import opened Basics
  import P = Paths
  import T = PathTable

  // ---------- The two `retain` loops ----------

  lemma {:induction false} NotLostSnoc(cs: seq<P.Challenge>, c: P.Challenge, now: nat)
    ensures P.NotLost(cs + [c], now) == P.NotLost(cs, now) + if c.sentAt <= now then [] else [c]
    ensures P.FirstLost(cs + [c], now)
         == if P.FirstLost(cs, now).None? && c.sentAt <= now then Some(c.sentAt) else P.FirstLost(cs, now)
  {
    if cs != [] {
      assert (cs + [c])[1..] == cs[1..] + [c];
      NotLostSnoc(cs[1..], c, now);
    }
  }

  /** Drops the challenges that a response answers; returns the size of the last one. */
  method RetainUnanswered(cs: seq<P.Challenge>, data: P.Data) returns (kept: seq<P.Challenge>, size: nat)
    ensures kept == P.Unanswered(cs, data) && size == P.AnsweredSize(cs, data)
  {
    kept, size := [], 0;
    for i := 0 to |cs|
      invariant kept == P.Unanswered(cs[..i], data) && size == P.AnsweredSize(cs[..i], data)
    {
      assert cs[..i + 1] == cs[..i] + [cs[i]];
      P.UnansweredSnoc(cs[..i], cs[i], data);
      if cs[i].data == data {
        size := cs[i].size;
      } else {
        kept := kept + [cs[i]];
      }
    }
    assert cs[..|cs|] == cs;
  }

  /** Drops the challenges sent by `now`; returns when the first of them was sent. */
  method RetainNotLost(cs: seq<P.Challenge>, now: nat) returns (kept: seq<P.Challenge>, lost: Option<nat>)
    ensures kept == P.NotLost(cs, now) && lost == P.FirstLost(cs, now)
  {
    kept, lost := [], None;
    for i := 0 to |cs|
      invariant kept == P.NotLost(cs[..i], now) && lost == P.FirstLost(cs[..i], now)
    {
      assert cs[..i + 1] == cs[..i] + [cs[i]];
      NotLostSnoc(cs[..i], cs[i], now);
      if cs[i].sentAt <= now {
        if lost.None? {
          lost := Some(cs[i].sentAt);
        }
      } else {
        kept := kept + [cs[i]];
      }
    }
    assert cs[..|cs|] == cs;
  }

  // ---------- One path ----------

  class Path {
    const local: P.Addr
    const peer: P.Addr
    var dcidSeq: Option<nat>
    var state: P.PathState
    var active: bool
    var inFlight: seq<P.Challenge>
    var maxChallengeSize: nat
    var probingLost: nat
    var lastProbeLost: Option<nat>
    var received: seq<P.Data>
    const receivedMax: nat
    var maxSendBytes: nat
    var verifiedPeerAddress: bool
    var peerVerifiedLocalAddress: bool
    var challengeRequested: bool
    var failureNotified: bool
    var migrating: bool

    function View(): P.Path
      reads this
    {
      P.Path(local, peer, dcidSeq, state, active, inFlight, maxChallengeSize, probingLost, lastProbeLost, received,
             receivedMax, maxSendBytes, verifiedPeerAddress, peerVerifiedLocalAddress, challengeRequested,
             failureNotified, migrating)
    }

    constructor (local: P.Addr, peer: P.Addr, receivedMax: nat, isInitial: bool)
      ensures View() == P.NewPath(local, peer, receivedMax, isInitial)
    {
      this.local, this.peer, this.receivedMax := local, peer, receivedMax;
      dcidSeq := if isInitial then Some(0) else None;
      state := if isInitial then P.Validated else P.Unknown;
      active, inFlight, maxChallengeSize, probingLost, lastProbeLost := false, [], 0, 0, None;
      received, maxSendBytes := [], 0;
      verifiedPeerAddress, peerVerifiedLocalAddress := false, false;
      challengeRequested, failureNotified, migrating := false, false, false;
    }

    method PromoteTo(s: P.PathState)
      modifies this`state
      ensures View() == old(View()).PromoteTo(s)
    {
      if state.Rank() < s.Rank() {
        state := s;
      }
    }

    method AddChallengeSent(data: P.Data, size: nat, now: nat)
      modifies this
      ensures View() == P.AddChallengeSent(old(View()), data, size, now)
    {
      PromoteTo(P.Validating);
      challengeRequested := false;
      inFlight := inFlight + [P.Challenge(data, size, now)];
    }

    method OnChallengeReceived(data: P.Data)
      modifies this
      ensures View() == P.OnChallengeReceived(old(View()), data)
    {
      if |received| == receivedMax {
        return;
      }
      received := received + [data];
      peerVerifiedLocalAddress := true;
    }

    method OnResponseReceived(data: P.Data) returns (validated: bool)
      modifies this
      ensures (View(), validated) == P.OnResponseReceived(old(View()), data)
    {
      hide P.Answered, P.Concluded;
      RecordAnswer(data);
      validated := Conclude();
    }

    method RecordAnswer(data: P.Data)
      modifies this
      ensures View() == P.Answered(old(View()), data)
    {
      hide P.Unanswered, P.AnsweredSize;
      var size := DropAnswered(data);
      PromoteTo(P.ValidatingMTU);
      maxChallengeSize := if size > maxChallengeSize then size else maxChallengeSize;
    }

    method DropAnswered(data: P.Data) returns (size: nat)
      modifies this`verifiedPeerAddress, this`probingLost, this`inFlight
      ensures var p := old(View());
              && size == P.AnsweredSize(p.inFlight, data)
              && View() == p.(verifiedPeerAddress := true, probingLost := 0, inFlight := P.Unanswered(p.inFlight, data))
    {
      hide P.Unanswered, P.AnsweredSize;
      verifiedPeerAddress := true;
      probingLost := 0;
      var kept: seq<P.Challenge>;
      kept, size := RetainUnanswered(inFlight, data);
      inFlight := kept;
    }

    /** Returns whether the path is now validated. */
    method Conclude() returns (validated: bool)
      modifies this`state, this`challengeRequested
      ensures (View(), validated) == P.Concluded(old(View()))
    {
      if state.ValidatingMTU? {
        if maxChallengeSize >= P.MIN_CLIENT_INITIAL_LEN {
          PromoteTo(P.Validated);
          return true;
        }
        challengeRequested := true;
      }
      return false;
    }

    /** Takes the response in; once the path is validated it no longer waits to migrate. */
    method Respond(data: P.Data) returns (validated: bool, wasMigrating: bool)
      modifies this
      ensures var (q, v) := P.OnResponseReceived(old(View()), data);
              && validated == v && wasMigrating == q.migrating && T.AddrsOf(q) == (local, peer)
              && View() == T.AfterResponse(q, v)
    {
      hide P.OnResponseReceived;
      validated := OnResponseReceived(data);
      wasMigrating := migrating;
      if validated {
        migrating := false;
      }
    }

    /** Becomes the active path; a server's path that is not validated waits to migrate. */
    method Activate(isServer: bool)
      modifies this
      ensures View() == T.Activated(old(View()), isServer)
    {
      active := true;
      if isServer && !state.Validated? {
        migrating := true;
        if !state.Validating? && !state.ValidatingMTU? {
          challengeRequested := true;
        }
      }
    }

    method CountLoss(lost: nat, rtt: nat)
      modifies this`probingLost, this`lastProbeLost
      ensures View() == P.CountLoss(old(View()), lost, rtt)
    {
      if lastProbeLost.Some? {
        var last := lastProbeLost.value;
        if (if lost >= last then lost - last else 0) >= rtt {
          probingLost := probingLost + 1;
          lastProbeLost := Some(lost);
        }
      } else {
        probingLost := probingLost + 1;
        lastProbeLost := Some(lost);
      }
    }

    method FailOrRetry(isServer: bool)
      modifies this`state, this`active, this`challengeRequested
      ensures View() == P.FailOrRetry(old(View()), isServer)
    {
      if probingLost >= P.MAX_PROBING_TIMEOUTS || (isServer && maxSendBytes < P.MIN_PROBING_SIZE) {
        state := P.Failed;
        active := false;
      } else {
        challengeRequested := true;
      }
    }

    /** `lost` is what loss recovery counted: the lost packets and bytes. */
    method OnLossDetectionTimeout(now: nat, rtt: nat, isServer: bool, lost: (nat, nat)) returns (counts: (nat, nat))
      modifies this
      ensures counts == lost
      ensures View() == P.OnLossDetectionTimeout(old(View()), now, rtt, isServer)
    {
      var kept, lostAt := RetainNotLost(inFlight, now);
      inFlight := kept;
      if lostAt.Some? {
        CountLoss(lostAt.value, rtt);
        FailOrRetry(isServer);
      }
      counts := lost;
    }
  }

  // ---------- The table ----------

  ghost function Views(paths: map<nat, Path>): map<nat, P.Path>
    reads paths.Values
  {
    map pid | pid in paths :: paths[pid].View()
  }

  /** No path object is stored twice. */
  ghost predicate Separate(paths: map<nat, Path>) {
    forall a, b :: a in paths && b in paths && a != b ==> paths[a] != paths[b]
  }

  /** The slab keeps its entries at `0 .. slots` and reuses the entry vacated last. */
  class PathMap {
    var paths: map<nat, Path>
    var slots: nat
    var vacant: seq<nat>
    const maxPaths: nat
    var addrs: map<T.AddrPair, nat>
    var events: seq<T.Event>
    const isServer: bool

    ghost predicate Valid()
      reads this
    {
      && Separate(paths)
      && (forall pid :: pid in paths ==> pid < slots)
      && (forall i :: 0 <= i < |vacant| ==> vacant[i] < slots && vacant[i] !in paths)
      && (forall i, j :: 0 <= i < j < |vacant| ==> vacant[i] != vacant[j])
    }

    ghost function View(): T.Table
      reads this, paths.Values
    {
      T.Table(Views(paths), maxPaths, addrs, events, isServer)
    }

    constructor (initial: Path, maxPaths: nat, isServer: bool)
      modifies initial`active
      ensures Valid() && fresh(this) && paths == map[0 := initial]
      ensures View() == T.NewTable(old(initial.View()), 0, maxPaths, isServer)
    {
      initial.active := true;
      paths, slots, vacant := map[0 := initial], 1, [];
      this.maxPaths, this.isServer := maxPaths, isServer;
      addrs := map[(initial.local, initial.peer) := 0];
      events := [];
    }

    /** The first path in the order of the slab that satisfies the condition. */
    method Find(ok: P.Path -> bool) returns (r: Option<nat>)
      requires Valid()
      ensures r == T.First(Views(paths), ok)
      ensures r.Some? ==> r.value in paths
    {
      var i := 0;
      while i < slots
        invariant i <= slots
        invariant forall pid :: pid in paths && pid < i ==> !ok(paths[pid].View())
      {
        if i in paths && ok(paths[i].View()) {
          assert T.IsFirst(Views(paths), ok, i);
          return Some(i);
        }
        i := i + 1;
      }
      assert T.NoneOk(Views(paths), ok);
      return None;
    }

    method MakeRoomForNewPath() returns (r: Result<()>)
      requires Valid()
      modifies this
      ensures Valid()
      ensures var m := T.MakeRoom(old(View()));
              if m.Ok? then r == Ok(()) && View() == m.value
              else r == Err(m.error) && View() == old(View())
      ensures forall pid :: pid in paths ==> pid in old(paths) && paths[pid] == old(paths)[pid]
    {
      assert |Views(paths)| == |paths| by { assert Views(paths).Keys == paths.Keys; }
      if |paths| < maxPaths {
        return Ok(());
      }
      var pid :- FindOrDone((p: P.Path) => p.Unused());
      Remove(pid);
      return Ok(());
    }

    method Remove(pid: nat)
      requires Valid() && pid in paths
      modifies this
      ensures Valid() && paths == old(paths) - {pid}
      ensures var t := old(View());
              var a := T.AddrsOf(t.paths[pid]);
              View() == t.(paths := t.paths - {pid}, addrs := t.addrs - {a}, events := t.events + [T.Closed(a)])
    {
      var path := paths[pid];
      paths, vacant := paths - {pid}, vacant + [pid];
      addrs := addrs - {(path.local, path.peer)};
      events := events + [T.Closed((path.local, path.peer))];
      assert Views(paths) == old(Views(paths)) - {pid};
    }

    method FindOrDone(ok: P.Path -> bool) returns (r: Result<nat>)
      requires Valid()
      ensures r == (match T.First(Views(paths), ok) case None => Err(Done) case Some(pid) => Ok(pid))
      ensures r.Ok? ==> r.value in paths
    {
      var pid := Find(ok);
      return if pid.Some? then Ok(pid.value) else Err(Done);
    }

    /** The new path takes the entry vacated last, or a new entry. */
    method InsertPath(path: Path, isServer: bool) returns (r: Result<nat>)
      requires Valid() && path !in paths.Values
      modifies this
      ensures Valid()
      ensures exists pid ::
                && (T.MakeRoom(old(View())).Ok? ==> pid !in T.MakeRoom(old(View())).value.paths)
                && (View(), r) == T.InsertPath(old(View()), old(path.View()), pid, isServer)
    {
      hide T.MakeRoom;
      ghost var before := View();
      var room := MakeRoomForNewPath();
      if room.Err? {
        assert (View(), Err(room.error)) == T.InsertPath(before, path.View(), 0, isServer);
        return Err(room.error);
      }
      var pid := Add(path);
      if isServer {
        events := events + [T.New((path.local, path.peer))];
      }
      assert (View(), Ok(pid)) == T.InsertPath(before, path.View(), pid, isServer);
      return Ok(pid);
    }

    method Add(path: Path) returns (pid: nat)
      requires Valid() && path !in paths.Values
      modifies this
      ensures Valid() && pid !in old(View()).paths && paths == old(paths)[pid := path]
      ensures var t := old(View());
              var p := old(path.View());
              View() == t.(paths := t.paths[pid := p], addrs := t.addrs[T.AddrsOf(p) := pid])
    {
      pid := TakeEntry();
      Store(pid, path);
      addrs := addrs[(path.local, path.peer) := pid];
    }

    method Store(pid: nat, path: Path)
      requires Valid() && path !in paths.Values && pid !in paths && pid < slots
      requires forall i :: 0 <= i < |vacant| ==> vacant[i] != pid
      modifies this`paths
      ensures Valid() && paths == old(paths)[pid := path]
      ensures View() == old(View()).(paths := old(View()).paths[pid := path.View()])
    {
      paths := paths[pid := path];
      assert Views(paths) == old(Views(paths))[pid := path.View()];
    }

    /** The entry vacated last, or a new one. */
    method TakeEntry() returns (pid: nat)
      requires Valid()
      modifies this`slots, this`vacant
      ensures Valid() && pid !in paths && pid < slots && forall i :: 0 <= i < |vacant| ==> vacant[i] != pid
      ensures View() == old(View())
    {
      if vacant == [] {
        pid := slots;
        slots := slots + 1;
      } else {
        pid := vacant[|vacant| - 1];
        vacant := vacant[..|vacant| - 1];
      }
    }

    method NotifyFailedValidations()
      requires Valid()
      modifies this`events, paths.Values
      ensures Valid()
      ensures View() == T.NotifyFailed(old(View()), slots)
    {
      for i := 0 to slots
        invariant Valid() && View() == T.NotifyFailed(old(View()), i)
      {
        NotifyFailure(i);
      }
    }

    method NotifyFailure(pid: nat)
      requires Valid()
      modifies this`events, paths.Values
      ensures Valid()
      ensures View() == T.NotifyOne(old(View()), pid)
    {
      if pid in paths && paths[pid].state.Failed? && !paths[pid].failureNotified {
        var p := paths[pid];
        events := events + [T.FailedValidation((p.local, p.peer))];
        p.failureNotified := true;
        assert Views(paths) == old(Views(paths))[pid := paths[pid].View()];
      }
    }

    method OnResponseReceived(data: P.Data) returns (r: Result<()>)
      requires Valid()
      modifies this`events, paths.Values
      ensures Valid()
      ensures (View(), r) == T.OnResponse(old(View()), data)
    {
      hide P.OnResponseReceived;
      var active := Find((p: P.Path) => p.Active());
      if active.None? {
        return Err(InvalidState);
      }
      var pending := Find((p: P.Path) => p.HasPending(data));
      if pending.Some? {
        Respond(pending.value, pending == active, data);
      }
      return Ok(());
    }

    /** Passes the response to the path and announces what follows from it. */
    method Respond(pid: nat, isActive: bool, data: P.Data)
      requires Valid() && pid in paths
      modifies this`events, paths.Values
      ensures Valid()
      ensures var t := old(View());
              var (q, validated) := P.OnResponseReceived(t.paths[pid], data);
              View() == t.(paths := t.paths[pid := T.AfterResponse(q, validated)],
                           events := t.events + T.ResponseEvents(q, validated, isActive))
    {
      hide P.OnResponseReceived, T.AfterResponse, T.ResponseEvents;
      ghost var q := P.OnResponseReceived(paths[pid].View(), data).0;
      var validated, wasMigrating := PassOn(pid, data);
      Announce(paths[pid], q, validated, wasMigrating, isActive);
    }

    method PassOn(pid: nat, data: P.Data) returns (validated: bool, wasMigrating: bool)
      requires Valid() && pid in paths
      modifies paths.Values
      ensures Valid()
      ensures var (q, v) := P.OnResponseReceived(old(paths[pid].View()), data);
              && validated == v && wasMigrating == q.migrating && T.AddrsOf(q) == (paths[pid].local, paths[pid].peer)
              && Views(paths) == old(Views(paths))[pid := T.AfterResponse(q, v)]
    {
      hide P.OnResponseReceived, T.AfterResponse;
      validated, wasMigrating := paths[pid].Respond(data);
    }

    method Announce(p: Path, ghost q: P.Path, validated: bool, wasMigrating: bool, isActive: bool)
      requires T.AddrsOf(q) == (p.local, p.peer) && q.migrating == wasMigrating
      modifies this`events
      ensures events == old(events) + T.ResponseEvents(q, validated, isActive)
    {
      if validated {
        events := events + [T.ValidatedPath((p.local, p.peer))];
        if isActive && wasMigrating {
          events := events + [T.PeerMigrated((p.local, p.peer))];
        }
      }
    }

    method StepDown()
      requires Valid()
      modifies paths.Values
      ensures View() == T.StepDown(old(View()))
    {
      var current := Find((p: P.Path) => p.Active());
      if current.Some? {
        Unflag(current.value);
      }
    }

    method Unflag(pid: nat)
      requires Valid() && pid in paths
      modifies paths.Values
      ensures View() == old(View()).(paths := old(View()).paths[pid := old(View()).paths[pid].(active := false)])
    {
      paths[pid].active := false;
      assert Views(paths) == old(Views(paths))[pid := paths[pid].View()];
    }

    method SetActivePath(pid: nat) returns (r: Result<()>)
      requires Valid()
      modifies this`events, paths.Values
      ensures Valid()
      ensures (View(), r) == T.SetActive(old(View()), pid)
    {
      hide T.StepDown, T.Activated;
      StepDown();
      if pid !in paths {
        return Err(InvalidState);
      }
      Activate(pid);
      return Ok(());
    }

    method Activate(pid: nat)
      requires Valid() && pid in paths
      modifies this`events, paths.Values
      ensures Valid()
      ensures var t := old(View());
              var p := T.Activated(t.paths[pid], isServer);
              View() == t.(paths := t.paths[pid := p],
                           events := if isServer && p.state.Validated? then t.events + [T.PeerMigrated(T.AddrsOf(p))]
                                     else t.events)
    {
      hide T.Activated;
      var p := paths[pid];
      Flag(pid);
      if isServer && p.state.Validated? {
        events := events + [T.PeerMigrated((p.local, p.peer))];
      }
    }

    method Flag(pid: nat)
      requires Valid() && pid in paths
      modifies paths.Values
      ensures Valid()
      ensures var t := old(View()); View() == t.(paths := t.paths[pid := T.Activated(t.paths[pid], isServer)])
      ensures paths[pid].View() == T.Activated(old(paths[pid].View()), isServer)
    {
      hide T.Activated;
      paths[pid].Activate(isServer);
      assert Views(paths) == old(Views(paths))[pid := paths[pid].View()];
    }
  }
}
