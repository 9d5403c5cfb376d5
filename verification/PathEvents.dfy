/** The exact effect of every operation on the path table: which paths change and which events are
    queued, in terms of the states before and after (section 9 of RFC 9000). */
module PathEvents {
  import opened Basics
  import opened Paths
  import opened PathTable

  /** The path becomes validated. */
  ghost predicate Becomes(p: Path, r: Path) {
    !p.state.Validated? && r.state.Validated?
  }

  /** The path that a search finds. */
  ghost predicate LowestPending(t: Table, data: Data, pid: nat) {
    && pid in t.paths && t.paths[pid].HasPending(data)
    && forall a :: a in t.paths && t.paths[a].HasPending(data) ==> pid <= a
  }

  // ---------- The start ----------

  /** A new table holds the initial path alone, which is active, and has nothing to announce. */
  lemma StartExact(local: Addr, peer: Addr, receivedMax: nat, pid: nat, maxPaths: nat, isServer: bool)
    ensures var p := NewPath(local, peer, receivedMax, true);
            var t := NewTable(p, pid, maxPaths, isServer);
            && t.paths.Keys == {pid} && t.paths[pid] == p.(active := true) && t.paths[pid].Active()
            && t.addrs == map[(local, peer) := pid] && t.events == []
            && t.maxPaths == maxPaths && t.isServer == isServer
  {
  }

  /** Which paths the searches look for, by the fields of the path. */
  lemma SoughtPaths(p: Path)
    ensures p.Active() <==> p.active && p.state != Failed && p.dcidSeq != None
    ensures p.Unused() <==> p.dcidSeq == None
  {
  }

  // ---------- Responses ----------

  /** Without an active path a response is an error, and without a pending challenge it is ignored. */
  lemma IgnoredResponse(t: Table, data: Data)
    ensures (forall a :: a in t.paths ==> !t.paths[a].Active()) ==> OnResponse(t, data) == (t, Err(InvalidState))
    ensures (exists a :: a in t.paths && t.paths[a].Active()) ==>
              (forall a :: a in t.paths ==> !t.paths[a].HasPending(data)) ==>
                OnResponse(t, data) == (t, Ok(()))
  {
    var active, pending := (p: Path) => p.Active(), (p: Path) => p.HasPending(data);
    hide OnResponseReceived;
    if forall a :: a in t.paths ==> !t.paths[a].Active() {
      assert NoneOk(t.paths, active);
    } else {
      var a :| a in t.paths && t.paths[a].Active();
      assert !NoneOk(t.paths, active) by { assert active(t.paths[a]); }
    }
    if forall a :: a in t.paths ==> !t.paths[a].HasPending(data) {
      assert NoneOk(t.paths, pending);
    }
  }

  /** Otherwise the lowest path with that challenge takes the response.  Its validation is announced
      if and only if it was not validated before and is now, and after that its migration if and only
      if it is the active path and was waiting for this. */
  lemma ResponseExact(t: Table, data: Data, pid: nat)
    requires TableInv(t) && LowestPending(t, data, pid) && exists a :: a in t.paths && t.paths[a].Active()
    ensures var (u, result) := OnResponse(t, data);
            && result == Ok(()) && pid in u.paths
            && var p, r := t.paths[pid], u.paths[pid];
               var a := (p.local, p.peer);
               && u == t.(paths := t.paths[pid := r], events := u.events)
               && r == OnResponseReceived(p, data).0.(migrating := p.migrating && !Becomes(p, r))
               && u.events == t.events + (if !Becomes(p, r) then []
                                          else [ValidatedPath(a)]
                                               + if p.active && p.migrating then [PeerMigrated(a)] else [])
  {
    hide OnResponseReceived, TableInv;
    ResponseChosen(t, data, pid);
    var p := t.paths[pid];
    ValidatedNow(p, data);
    FlagFacts(t, pid);
    var (q, validated) := OnResponseReceived(p, data);
    SameAfter(q, validated);
  }

  lemma SameAfter(q: Path, validated: bool)
    ensures AfterResponse(q, validated) == q.(migrating := q.migrating && !validated)
  {
  }

  /** The search finds this path, and the only active path. */
  lemma ResponseChosen(t: Table, data: Data, pid: nat)
    requires TableInv(t) && LowestPending(t, data, pid) && exists a :: a in t.paths && t.paths[a].Active()
    ensures var (q, validated) := OnResponseReceived(t.paths[pid], data);
            OnResponse(t, data)
            == (t.(paths := t.paths[pid := AfterResponse(q, validated)],
                   events := t.events + ResponseEvents(q, validated, t.paths[pid].active)), Ok(()))
  {
    hide OnResponseReceived, AfterResponse, ResponseEvents;
    var active, pending := (p: Path) => p.Active(), (p: Path) => p.HasPending(data);
    var a :| a in t.paths && t.paths[a].Active();
    assert active(t.paths[a]);
    assert IsFirst(t.paths, active, a) by { OnlyActive(t, a); }
    assert pending(t.paths[pid]);
    assert IsFirst(t.paths, pending, pid);
    assert t.paths[pid].active <==> pid == a by { OnlyActive(t, a); }
    hide TableInv;
    FirstIs(t.paths, active, a);
    FirstIs(t.paths, pending, pid);
  }

  lemma OnlyActive(t: Table, a: nat)
    requires TableInv(t) && a in t.paths && t.paths[a].active
    ensures forall b :: b in t.paths && t.paths[b].active ==> b == a
    ensures forall b :: b in t.paths && t.paths[b].Active() ==> b == a
  {
  }

  lemma FirstIs(paths: map<nat, Path>, ok: Path -> bool, pid: nat)
    requires IsFirst(paths, ok, pid)
    ensures First(paths, ok) == Some(pid)
  {
  }

  lemma ValidatedNow(p: Path, data: Data)
    ensures var (q, validated) := OnResponseReceived(p, data);
            && (validated <==> Becomes(p, q)) && q.local == p.local && q.peer == p.peer && q.migrating == p.migrating
  {
    hide Answered, Concluded;
    AnsweredFields(p, data);
    ConcludedFields(Answered(p, data));
  }

  // ---------- Activation ----------

  /** The target is flagged and every other path loses its flag.  A server announces the migration to
      a validated path at once, and lets any other path wait for its validation, which it requests
      unless that is under way.  A missing target is an error, after the old path has stepped down. */
  lemma ActivationExact(t: Table, pid: nat)
    requires TableInv(t)
    ensures var (u, result) := SetActive(t, pid);
            && u == t.(paths := u.paths, events := u.events) && u.paths.Keys == t.paths.Keys
            && (forall a :: a in t.paths && a != pid ==> u.paths[a] == t.paths[a].(active := false))
            && (pid !in t.paths ==> result == Err(InvalidState) && u.events == t.events)
            && (pid in t.paths ==>
                  var p := t.paths[pid];
                  var waits := t.isServer && !p.state.Validated?;
                  && result == Ok(())
                  && u.paths[pid] == p.(active := true, migrating := p.migrating || waits,
                                        challengeRequested := p.challengeRequested
                                          || (waits && !p.state.Validating? && !p.state.ValidatingMTU?))
                  && u.events == t.events + if t.isServer && p.state.Validated?
                                            then [PeerMigrated((p.local, p.peer))] else [])
  {
    hide StepDown, TableInv;
    StepDownKeepsInv(t);
    var s := StepDown(t);
    if pid in t.paths {
      hide Activated;
      ActivatedIs(t.paths[pid], t.isServer);
      Reflagged(t.paths[pid], t.isServer);
      assert t.events + [] == t.events;
    }
  }

  lemma ActivatedIs(p: Path, isServer: bool)
    ensures var waits := isServer && !p.state.Validated?;
            Activated(p, isServer) == p.(active := true, migrating := p.migrating || waits,
                                         challengeRequested := p.challengeRequested
                                           || (waits && !p.state.Validating? && !p.state.ValidatingMTU?))
  {
  }

  lemma Reflagged(p: Path, isServer: bool)
    ensures Activated(p.(active := false), isServer) == Activated(p, isServer)
  {
  }

  // ---------- Insertion ----------

  ghost predicate LowestUnused(t: Table, pid: nat) {
    && pid in t.paths && !t.paths[pid].Active() && t.paths[pid].dcidSeq.None?
    && forall a :: a in t.paths && !t.paths[a].Active() && t.paths[a].dcidSeq.None? ==> pid <= a
  }

  /** With room, the path is added under the free identifier and announced if asked for. */
  lemma InsertionWithRoom(t: Table, p: Path, pid: nat, notify: bool)
    requires |t.paths| < t.maxPaths
    ensures var a := (p.local, p.peer);
            InsertPath(t, p, pid, notify)
            == (t.(paths := t.paths[pid := p], addrs := t.addrs[a := pid],
                   events := t.events + if notify then [New(a)] else []), Ok(pid))
  {
    assert t.events + [] == t.events;
  }

  /** A full table first closes its lowest path without a destination ID. */
  lemma InsertionWithEviction(t: Table, p: Path, pid: nat, notify: bool, out: nat)
    requires t.maxPaths <= |t.paths| && LowestUnused(t, out)
    ensures var a, b := (p.local, p.peer), (t.paths[out].local, t.paths[out].peer);
            InsertPath(t, p, pid, notify)
            == (t.(paths := (t.paths - {out})[pid := p], addrs := (t.addrs - {b})[a := pid],
                   events := t.events + [Closed(b)] + if notify then [New(a)] else []), Ok(pid))
  {
    var unused := (q: Path) => q.Unused();
    assert unused(t.paths[out]);
    assert IsFirst(t.paths, unused, out);
    FirstIs(t.paths, unused, out);
    var closed := t.events + [Closed((t.paths[out].local, t.paths[out].peer))];
    assert closed + [] == closed;
  }

  /** A full table without such a path refuses. */
  lemma InsertionRefused(t: Table, p: Path, pid: nat, notify: bool)
    requires t.maxPaths <= |t.paths| && forall a :: a in t.paths ==> t.paths[a].Active() || t.paths[a].dcidSeq.Some?
    ensures InsertPath(t, p, pid, notify) == (t, Err(Done))
  {
    var unused := (q: Path) => q.Unused();
    assert NoneOk(t.paths, unused);
  }

  // ---------- Failures ----------

  ghost predicate Due(t: Table, n: nat, pid: nat) {
    pid in t.paths && pid < n && t.paths[pid].state.Failed? && !t.paths[pid].failureNotified
  }

  ghost function FailuresOf(t: Table, pids: seq<nat>): seq<Event>
    requires forall i :: 0 <= i < |pids| ==> pids[i] in t.paths
  {
    seq(|pids|, i requires 0 <= i < |pids| => FailedValidation((t.paths[pids[i]].local, t.paths[pids[i]].peer)))
  }

  /** Each failed path that was not announced yet is announced exactly once, in the order of the
      identifiers. */
  lemma {:induction false} FailuresExact(t: Table, n: nat) returns (pids: seq<nat>)
    ensures forall pid :: pid in pids <==> Due(t, n, pid)
    ensures forall i, j :: 0 <= i < j < |pids| ==> pids[i] < pids[j]
    ensures forall i :: 0 <= i < |pids| ==> pids[i] in t.paths
    ensures NotifyFailed(t, n).events == t.events + FailuresOf(t, pids)
  {
    hide NotifyFailed, FailuresOf;
    NotifyMeaning(t, n);
    pids := FailureList(t, n);
  }

  lemma {:induction false} FailureList(t: Table, n: nat) returns (pids: seq<nat>)
    ensures forall pid :: pid in pids <==> Due(t, n, pid)
    ensures forall i, j :: 0 <= i < j < |pids| ==> pids[i] < pids[j]
    ensures forall i :: 0 <= i < |pids| ==> pids[i] in t.paths
    ensures Failures(t, n) == FailuresOf(t, pids)
  {
    if n == 0 {
      pids := [];
    } else {
      var front := FailureList(t, n - 1);
      var due := Due(t, n, n - 1);
      pids := if due then front + [n - 1] else front;
      DueStep(t, n, n - 1);
      FailuresSnoc(t, front, n - 1);
      assert Failures(t, n) == Failures(t, n - 1) + if due then [FailedValidation(AddrsOf(t.paths[n - 1]))] else [];
      hide Due, Failures, FailuresOf;
      assert FailuresOf(t, front) + [] == FailuresOf(t, front);
    }
  }

  lemma DueStep(t: Table, n: nat, m: nat)
    requires n == m + 1
    ensures forall pid: nat :: Due(t, n, pid) <==> Due(t, m, pid) || (pid == m && Due(t, n, m))
    ensures forall pid: nat | Due(t, m, pid) :: pid < m && pid in t.paths
    ensures Due(t, n, m) ==> m in t.paths
  {
    forall pid: nat | Due(t, m, pid) ensures pid < m && pid in t.paths {
    }
  }

  lemma FailuresSnoc(t: Table, front: seq<nat>, pid: nat)
    requires forall i :: 0 <= i < |front| ==> front[i] in t.paths
    ensures pid in t.paths ==>
              FailuresOf(t, front + [pid]) == FailuresOf(t, front) + [FailedValidation(AddrsOf(t.paths[pid]))]
  {
    if pid in t.paths {
      var all := front + [pid];
      assert forall i :: 0 <= i < |front| ==> all[i] == front[i];
    }
  }

  // ---------- One migration, one announcement ----------

  /** The path at `pid` waits to migrate and has not been announced since, or the wait is over. */
  ghost predicate Waiting(t: Table, start: nat, pid: nat, a: AddrPair) {
    pid in t.paths && t.paths[pid].active ==>
      && AddrsOf(t.paths[pid]) == a
      && (t.paths[pid].state.Validated?
          || (t.paths[pid].migrating && start <= |t.events| && PeerMigrated(a) !in t.events[start..]))
  }

  lemma WaitingStep(t: Table, op: Op, start: nat, pid: nat, a: AddrPair)
    requires TableInv(t) && Enabled(t, op) && !op.Activate? && Waiting(t, start, pid, a)
    ensures Waiting(Apply(t, op), start, pid, a)
  {
    hide TableInv;
    match op
    case Insert(p, id, notify) => WaitingInsert(t, p, id, notify, start, pid, a);
    case Respond(data) => WaitingRespond(t, data, start, pid, a);
    case Notify(n) =>
      NotifyMeaning(t, n);
      NotifyKeepsInv(t, n);
      hide NotifyFailed, Failures;
      WaitingSame(t, NotifyFailed(t, n), start, pid, a);
    case OnPath(id, call) =>
      WaitingCall(t, id, call, start, pid, a);
  }

  /** Only other events, and a path that keeps what matters. */
  lemma WaitingSame(t: Table, u: Table, start: nat, pid: nat, a: AddrPair)
    requires Waiting(t, start, pid, a) && t.events <= u.events
    requires forall i :: |t.events| <= i < |u.events| ==> u.events[i] != PeerMigrated(a)
    requires pid in u.paths && u.paths[pid].active ==>
               && pid in t.paths && t.paths[pid].active && AddrsOf(u.paths[pid]) == AddrsOf(t.paths[pid])
               && (t.paths[pid].state.Validated? ==> u.paths[pid].state.Validated?)
               && (t.paths[pid].migrating ==> u.paths[pid].migrating || u.paths[pid].state.Validated?)
    ensures Waiting(u, start, pid, a)
  {
    if start <= |t.events| {
      var more := u.events[|t.events|..];
      assert u.events[start..] == t.events[start..] + more;
      assert PeerMigrated(a) !in more;
    }
  }

  lemma WaitingInsert(t: Table, p: Path, id: nat, notify: bool, start: nat, pid: nat, a: AddrPair)
    requires Enabled(t, Insert(p, id, notify)) && Waiting(t, start, pid, a)
    ensures Waiting(InsertPath(t, p, id, notify).0, start, pid, a)
  {
    var u := InsertPath(t, p, id, notify).0;
    if MakeRoom(t).Ok? {
      RoomKeeps(t);
      hide MakeRoom, Waiting;
      var r := MakeRoom(t).value;
      assert forall i :: |t.events| <= i < |u.events| ==> u.events[i].Closed? || u.events[i].New?;
      WaitingSame(t, u, start, pid, a);
    }
  }

  lemma RoomKeeps(t: Table)
    requires MakeRoom(t).Ok?
    ensures var r := MakeRoom(t).value;
            && (forall b :: b in r.paths ==> b in t.paths && r.paths[b] == t.paths[b])
            && t.events <= r.events && forall i :: |t.events| <= i < |r.events| ==> r.events[i].Closed?
  {
  }

  lemma WaitingCall(t: Table, id: nat, call: Call, start: nat, pid: nat, a: AddrPair)
    requires TableInv(t) && Enabled(t, OnPath(id, call)) && Waiting(t, start, pid, a)
    ensures Waiting(Apply(t, OnPath(id, call)), start, pid, a)
  {
    FlagFacts(t, id);
    PathFrame(t.paths[id], call);
    StaysValidated(t.paths[id], call);
    hide Step, TableInv, Waiting;
    WaitingSame(t, Apply(t, OnPath(id, call)), start, pid, a);
  }

  /** A validated path stays validated as long as it stays active. */
  lemma StaysValidated(p: Path, call: Call)
    requires !call.Response?
    ensures p.state.Validated? ==> Step(p, call).state.Validated? || !Step(p, call).active
  {
    hide OnLossDetectionTimeout, OnResponseReceived;
    if call.LossTimeout? {
      TimeoutFields(p, call.now, call.rtt, call.isServer);
    }
  }

  lemma WaitingRespond(t: Table, data: Data, start: nat, pid: nat, a: AddrPair)
    requires TableInv(t) && Waiting(t, start, pid, a)
    ensures Waiting(OnResponse(t, data).0, start, pid, a)
  {
    hide TableInv, OnResponse, OnResponseReceived, Waiting;
    IgnoredResponse(t, data);
    if (exists b :: b in t.paths && t.paths[b].Active()) && exists b :: b in t.paths && t.paths[b].HasPending(data) {
      var id := PendingExists(t, data);
      ResponseExact(t, data, id);
      WaitingResponse(t, data, id, OnResponse(t, data).0, start, pid, a);
    }
  }

  lemma PendingExists(t: Table, data: Data) returns (pid: nat)
    requires exists b :: b in t.paths && t.paths[b].HasPending(data)
    ensures LowestPending(t, data, pid)
  {
    var pending := (p: Path) => p.HasPending(data);
    var b :| b in t.paths && t.paths[b].HasPending(data);
    assert pending(t.paths[b]);
    FirstExists(t.paths, pending, b);
    pid :| IsFirst(t.paths, pending, pid);
    assert forall c :: c in t.paths && t.paths[c].HasPending(data) ==> pending(t.paths[c]);
  }

  /** The effect of a response on one path, as `ResponseExact` gives it. */
  ghost predicate Responded(t: Table, data: Data, id: nat, u: Table) {
    && id in t.paths && id in u.paths
    && var p, r := t.paths[id], u.paths[id];
       var b := (p.local, p.peer);
       && u == t.(paths := t.paths[id := r], events := u.events)
       && r == OnResponseReceived(p, data).0.(migrating := p.migrating && !Becomes(p, r))
       && u.events == t.events + (if !Becomes(p, r) then []
                                  else [ValidatedPath(b)] + if p.active && p.migrating then [PeerMigrated(b)] else [])
  }

  lemma WaitingResponse(t: Table, data: Data, id: nat, u: Table, start: nat, pid: nat, a: AddrPair)
    requires TableInv(t) && Waiting(t, start, pid, a) && Responded(t, data, id, u)
    ensures Waiting(u, start, pid, a)
  {
    ResponseFields(t.paths[id], data);
    KeepsValidated(t.paths[id], data);
    hide OnResponseReceived;
    if pid in u.paths && u.paths[pid].active {
      OnlyActive(t, pid);
      hide TableInv;
      if id == pid && Becomes(t.paths[id], u.paths[id]) {
        assert u.paths[pid].state.Validated?;
      } else {
        assert PeerMigrated(a) !in u.events[|t.events|..];
        WaitingSame(t, u, start, pid, a);
      }
    }
  }

  lemma KeepsValidated(p: Path, data: Data)
    ensures p.state.Validated? ==> OnResponseReceived(p, data).0.state.Validated?
  {
    hide Answered, Concluded;
    AnsweredFields(p, data);
    ConcludedFields(Answered(p, data));
  }

  ghost predicate NoActivation(ops: seq<Op>) {
    forall i :: 0 <= i < |ops| ==> !ops[i].Activate?
  }

  lemma {:induction false} WaitingRun(t: Table, ops: seq<Op>, start: nat, pid: nat, a: AddrPair)
    requires TableInv(t) && IsTableRun(t, ops) && NoActivation(ops) && Waiting(t, start, pid, a)
    ensures Waiting(AfterOps(t, ops), start, pid, a) && TableInv(AfterOps(t, ops))
    decreases |ops|
  {
    hide TableInv, Waiting, Apply, Enabled, EventsJustified;
    if ops != [] {
      WaitingStep(t, ops[0], start, pid, a);
      PathTable.StepKeepsInv(t, ops[0]);
      WaitingRun(Apply(t, ops[0]), ops[1..], start, pid, a);
    }
  }

  /** The main result on migrations: a server activates a path that is not validated yet; anything
      may follow except another activation; the path is still active and not validated, and then a
      response validates it.  From the activation on, its migration is announced exactly once, and
      that is the last event of all. */
  lemma MigrationAnnouncedOnce(t: Table, pid: nat, ops: seq<Op>, data: Data)
    requires TableInv(t) && t.isServer && pid in t.paths && !t.paths[pid].state.Validated?
    requires Enabled(t, Activate(pid)) && IsTableRun(SetActive(t, pid).0, ops) && NoActivation(ops)
    requires var v := AfterOps(SetActive(t, pid).0, ops);
             && pid in v.paths && v.paths[pid].active && !v.paths[pid].state.Validated?
             && LowestPending(v, data, pid) && OnResponse(v, data).0.paths[pid].state.Validated?
    ensures var a := (t.paths[pid].local, t.paths[pid].peer);
            var events := OnResponse(AfterOps(SetActive(t, pid).0, ops), data).0.events;
            && |t.events| < |events|
            && events[|events| - 1] == PeerMigrated(a)
            && PeerMigrated(a) !in events[|t.events|..|events| - 1]
  {
    hide OnResponse, OnResponseReceived, SetActive, TableInv, Waiting, AfterOps, IsTableRun, LowestPending;
    var s, a := SetActive(t, pid).0, (t.paths[pid].local, t.paths[pid].peer);
    ActivationExact(t, pid);
    ActivateKeepsInv(t, pid);
    StartsWaiting(t, s, pid, a);
    WaitingRun(s, ops, |t.events|, pid, a);
    var v := AfterOps(s, ops);
    FlagFacts(v, pid);
    ResponseExact(v, data, pid);
    LastEvent(v, OnResponse(v, data).0, data, |t.events|, pid, a);
  }

  lemma StartsWaiting(t: Table, s: Table, pid: nat, a: AddrPair)
    requires pid in s.paths && s.events == t.events && s.paths[pid].migrating && AddrsOf(s.paths[pid]) == a
    ensures Waiting(s, |t.events|, pid, a)
  {
    assert s.events[|t.events|..] == [];
  }

  lemma LastEvent(v: Table, u: Table, data: Data, start: nat, pid: nat, a: AddrPair)
    requires Waiting(v, start, pid, a) && Responded(v, data, pid, u)
    requires v.paths[pid].active && Becomes(v.paths[pid], u.paths[pid])
    ensures start < |u.events| && u.events[|u.events| - 1] == PeerMigrated(a)
    ensures PeerMigrated(a) !in u.events[start..|u.events| - 1]
  {
    hide OnResponseReceived;
    assert u.events == v.events + [ValidatedPath(a), PeerMigrated(a)];
    assert u.events[start..|u.events| - 1] == v.events[start..] + [ValidatedPath(a)];
  }
}
