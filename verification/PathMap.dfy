/** The path table: `PathMap` of quiche/src/path.rs and section 9 of RFC 9000.  The slab is a
    map from identifiers to paths, searched from the lowest identifier; which free
    identifier a new path gets is up to the slab. */
module PathTable {
  import opened Basics
  import opened Paths

  type AddrPair = (Addr, Addr)

  datatype Event =
    | New(addrs: AddrPair)
    | ValidatedPath(addrs: AddrPair)
    | FailedValidation(addrs: AddrPair)
    | Closed(addrs: AddrPair)
    | PeerMigrated(addrs: AddrPair)

  datatype Table = Table(
    paths: map<nat, Path>,
    maxPaths: nat,
    addrs: map<AddrPair, nat>,
    events: seq<Event>,
    isServer: bool)

  function AddrsOf(p: Path): AddrPair { (p.local, p.peer) }

  function NewTable(p: Path, pid: nat, maxPaths: nat, isServer: bool): Table {
    Table(map[pid := p.(active := true)], maxPaths, map[AddrsOf(p) := pid], [], isServer)
  }

  // ---------- Searching ----------

  ghost predicate IsFirst(paths: map<nat, Path>, ok: Path -> bool, pid: nat) {
    pid in paths && ok(paths[pid]) && forall q :: q in paths && ok(paths[q]) ==> pid <= q
  }

  ghost predicate NoneOk(paths: map<nat, Path>, ok: Path -> bool) {
    forall q :: q in paths ==> !ok(paths[q])
  }

  lemma {:induction false} FirstExists(paths: map<nat, Path>, ok: Path -> bool, bound: nat)
    requires bound in paths && ok(paths[bound])
    ensures exists pid :: IsFirst(paths, ok, pid)
    decreases bound
  {
    if q :| q in paths && ok(paths[q]) && q < bound {
      FirstExists(paths, ok, q);
    } else {
      assert IsFirst(paths, ok, bound);
    }
  }

  /** The path with the lowest identifier that satisfies the condition. */
  ghost function First(paths: map<nat, Path>, ok: Path -> bool): (r: Option<nat>)
    ensures r.None? <==> NoneOk(paths, ok)
    ensures r.Some? ==> IsFirst(paths, ok, r.value)
  {
    if NoneOk(paths, ok) then None
    else
      var bound :| bound in paths && ok(paths[bound]);
      FirstExists(paths, ok, bound);
      var pid :| IsFirst(paths, ok, pid);
      Some(pid)
  }

  // ---------- Operations ----------

  /** Drops the first unused path when the table is full. */
  ghost function MakeRoom(t: Table): Result<Table> {
    if |t.paths| < t.maxPaths then Ok(t)
    else
      match First(t.paths, (p: Path) => p.Unused())
      case None => Err(Done)
      case Some(pid) =>
        var a := AddrsOf(t.paths[pid]);
        Ok(t.(paths := t.paths - {pid}, addrs := t.addrs - {a}, events := t.events + [Closed(a)]))
  }

  /** `pid` is the identifier that the slab hands out. */
  ghost function InsertPath(t: Table, p: Path, pid: nat, isServer: bool): (Table, Result<nat>) {
    match MakeRoom(t)
    case Err(e) => (t, Err(e))
    case Ok(r) =>
      (r.(paths := r.paths[pid := p], addrs := r.addrs[AddrsOf(p) := pid],
          events := if isServer then r.events + [New(AddrsOf(p))] else r.events), Ok(pid))
  }

  ghost function OnResponse(t: Table, data: Data): (Table, Result<()>) {
    match First(t.paths, (p: Path) => p.Active())
    case None => (t, Err(InvalidState))
    case Some(activePid) =>
      match First(t.paths, (p: Path) => p.HasPending(data))
      case None => (t, Ok(()))
      case Some(pid) =>
        var (q, validated) := OnResponseReceived(t.paths[pid], data);
        (t.(paths := t.paths[pid := AfterResponse(q, validated)],
            events := t.events + ResponseEvents(q, validated, pid == activePid)), Ok(()))
  }

  /** A validated path no longer waits to migrate. */
  function AfterResponse(q: Path, validated: bool): Path {
    if validated then q.(migrating := false) else q
  }

  /** The validation is announced, and the migration if the active path was waiting for it. */
  function ResponseEvents(q: Path, validated: bool, isActive: bool): seq<Event> {
    if !validated then []
    else [ValidatedPath(AddrsOf(q))] + if isActive && q.migrating then [PeerMigrated(AddrsOf(q))] else []
  }

  /** The current active path steps down before the new one is looked up. */
  ghost function StepDown(t: Table): Table {
    match First(t.paths, (p: Path) => p.Active())
    case None => t
    case Some(current) => t.(paths := t.paths[current := t.paths[current].(active := false)])
  }

  /** The new active path.  A server has it validated before the migration is announced. */
  function Activated(p: Path, isServer: bool): Path {
    if isServer && !p.state.Validated?
    then p.(active := true, migrating := true,
            challengeRequested := p.challengeRequested || !p.UnderValidation())
    else p.(active := true)
  }

  ghost function SetActive(t: Table, pid: nat): (Table, Result<()>) {
    var s := StepDown(t);
    if pid !in s.paths then (s, Err(InvalidState))
    else
      var p := Activated(s.paths[pid], t.isServer);
      (s.(paths := s.paths[pid := p],
          events := if t.isServer && p.state.Validated? then s.events + [PeerMigrated(AddrsOf(p))] else s.events),
       Ok(()))
  }

  /** Announces the failure of one path, unless that has been done. */
  function NotifyOne(t: Table, pid: nat): Table {
    if pid in t.paths && t.paths[pid].state.Failed? && !t.paths[pid].failureNotified
    then t.(paths := t.paths[pid := t.paths[pid].(failureNotified := true)],
            events := t.events + [FailedValidation(AddrsOf(t.paths[pid]))])
    else t
  }

  /** Announces the failed paths with identifiers below `n`. */
  function NotifyFailed(t: Table, n: nat): Table {
    if n == 0 then t else NotifyOne(NotifyFailed(t, n - 1), n - 1)
  }

  // ---------- Runs ----------

  datatype Op =
    | Insert(path: Path, pid: nat, notify: bool)
    | Respond(data: Data)
    | Activate(pid: nat)
    | Notify(n: nat)
    | OnPath(pid: nat, call: Call)

  /** Hypotheses on the connection that drives the table: it inserts fresh inactive paths with new
      addresses (the slab hands out an identifier that is free once room is made), activates working
      paths that have a destination ID, and takes the destination ID away only from paths that are
      not active.  Responses go through the table. */
  ghost predicate Enabled(t: Table, op: Op) {
    match op
    case Insert(p, pid, _) =>
      && (MakeRoom(t).Ok? ==> pid !in MakeRoom(t).value.paths) && AddrsOf(p) !in t.addrs
      && !p.active && !p.migrating
    case Respond(_) => true
    case Activate(pid) => pid in t.paths ==> t.paths[pid].Working() && t.paths[pid].dcidSeq.Some?
    case Notify(_) => true
    case OnPath(pid, call) =>
      && pid in t.paths && !call.Response?
      && (call.SetDcid? && call.dcid.None? ==> !t.paths[pid].active)
  }

  ghost function Apply(t: Table, op: Op): Table {
    match op
    case Insert(p, pid, notify) => InsertPath(t, p, pid, notify).0
    case Respond(data) => OnResponse(t, data).0
    case Activate(pid) => SetActive(t, pid).0
    case Notify(n) => NotifyFailed(t, n)
    case OnPath(pid, call) => if pid in t.paths then t.(paths := t.paths[pid := Step(t.paths[pid], call)]) else t
  }

  // ---------- The invariant ----------

  /** The address index is the exact inverse of the paths' addresses. */
  ghost predicate Inverse(t: Table) {
    && (forall pid :: pid in t.paths ==> AddrsOf(t.paths[pid]) in t.addrs && t.addrs[AddrsOf(t.paths[pid])] == pid)
    && (forall a :: a in t.addrs ==> t.addrs[a] in t.paths && AddrsOf(t.paths[t.addrs[a]]) == a)
  }

  ghost predicate OneActive(paths: map<nat, Path>) {
    && (forall a, b :: a in paths && b in paths && paths[a].active && paths[b].active ==> a == b)
    && (forall a :: a in paths && paths[a].active ==> paths[a].Active())
  }

  ghost predicate TableInv(t: Table) {
    && Inverse(t)
    && |t.paths| <= (if t.maxPaths == 0 then 1 else t.maxPaths)
    && OneActive(t.paths)
    && (forall a :: a in t.paths && t.paths[a].migrating ==> t.isServer)
  }

  /** Every event added by a step is justified: a migration is only announced by a server and
      for a validated path. */
  ghost predicate EventsJustified(t: Table, u: Table) {
    && t.events <= u.events
    && forall i :: |t.events| <= i < |u.events| && u.events[i].PeerMigrated? ==>
         t.isServer && ValidatedAt(u, u.events[i].addrs)
  }

  ghost predicate ValidatedAt(t: Table, a: AddrPair) {
    a in t.addrs && t.addrs[a] in t.paths && t.paths[t.addrs[a]].state.Validated?
  }

  // ---------- Every step keeps it ----------

  /** Replacing a path by one with the same addresses. */
  lemma UpdateKeepsIndex(t: Table, pid: nat, q: Path)
    requires Inverse(t) && pid in t.paths && AddrsOf(q) == AddrsOf(t.paths[pid])
    ensures Inverse(t.(paths := t.paths[pid := q])) && |t.paths[pid := q]| == |t.paths|
  {
    assert t.paths[pid := q].Keys == t.paths.Keys;
  }

  lemma EvictionKeepsInv(t: Table)
    requires TableInv(t) && MakeRoom(t).Ok?
    ensures var r := MakeRoom(t).value;
            && TableInv(r) && (|r.paths| < r.maxPaths || r.paths == map[])
            && r.maxPaths == t.maxPaths && r.isServer == t.isServer && t.events <= r.events
            && (forall i :: |t.events| <= i < |r.events| ==> r.events[i].Closed?)
            && (forall a :: a in t.paths && t.paths[a].active ==> a in r.paths && r.paths[a] == t.paths[a])
            && r.paths.Keys <= t.paths.Keys && r.addrs.Keys <= t.addrs.Keys
  {
    if |t.paths| >= t.maxPaths {
      var ok := (p: Path) => p.Unused();
      var pid := First(t.paths, ok).value;
      assert IsFirst(t.paths, ok, pid) && ok(t.paths[pid]);
      Evicted(t, pid, MakeRoom(t).value);
    }
  }

  lemma Evicted(t: Table, pid: nat, r: Table)
    requires TableInv(t) && pid in t.paths && t.paths[pid].Unused()
    requires r == t.(paths := t.paths - {pid}, addrs := t.addrs - {AddrsOf(t.paths[pid])}, events := r.events)
    ensures TableInv(r) && (|r.paths| < r.maxPaths || r.paths == map[])
    ensures forall a :: a in t.paths && t.paths[a].active ==> a in r.paths && r.paths[a] == t.paths[a]
  {
    hide Inverse, OneActive;
    ReallyActive(t.paths, pid);
    Removed(t, pid, r);
    RemovedFlags(t.paths, pid);
    NoPaths(r.paths);
    assert forall a :: a in r.paths ==> a in t.paths && r.paths[a] == t.paths[a];
  }

  lemma NoPaths(paths: map<nat, Path>)
    ensures |paths| == 0 ==> paths == map[]
  {
  }

  lemma ReallyActive(paths: map<nat, Path>, pid: nat)
    requires OneActive(paths) && pid in paths
    ensures paths[pid].active ==> paths[pid].Active()
  {
  }

  lemma RemovedFlags(paths: map<nat, Path>, pid: nat)
    requires OneActive(paths)
    ensures OneActive(paths - {pid})
  {
  }

  lemma Removed(t: Table, pid: nat, r: Table)
    requires Inverse(t) && pid in t.paths
    requires r.paths == t.paths - {pid} && r.addrs == t.addrs - {AddrsOf(t.paths[pid])}
    ensures Inverse(r) && |r.paths| == |t.paths| - 1
  {
    assert r.paths.Keys == t.paths.Keys - {pid};
  }

  /** Eviction never removes the active path, and insertion keeps the bound. */
  lemma InsertKeepsInv(t: Table, p: Path, pid: nat, notify: bool)
    requires TableInv(t) && Enabled(t, Insert(p, pid, notify))
    ensures var u := InsertPath(t, p, pid, notify).0;
            && TableInv(u) && EventsJustified(t, u)
            && (forall a :: a in t.paths && t.paths[a].active ==> a in u.paths && u.paths[a] == t.paths[a])
  {
    if MakeRoom(t).Ok? {
      EvictionKeepsInv(t);
      hide MakeRoom, TableInv;
      InsertedAt(t, MakeRoom(t).value, p, pid, InsertPath(t, p, pid, notify).0);
    }
  }

  lemma InsertedAt(t: Table, r: Table, p: Path, pid: nat, u: Table)
    requires TableInv(r) && t.events <= r.events && forall i :: |t.events| <= i < |r.events| ==> r.events[i].Closed?
    requires |r.paths| < r.maxPaths || r.paths == map[]
    requires forall a :: a in t.paths && t.paths[a].active ==> a in r.paths && r.paths[a] == t.paths[a]
    requires pid !in r.paths && AddrsOf(p) !in r.addrs && !p.active && !p.migrating
    requires u == r.(paths := r.paths[pid := p], addrs := r.addrs[AddrsOf(p) := pid], events := u.events)
    requires u.events == r.events || u.events == r.events + [New(AddrsOf(p))]
    ensures TableInv(u) && EventsJustified(t, u)
    ensures forall a :: a in t.paths && t.paths[a].active ==> a in u.paths && u.paths[a] == t.paths[a]
  {
    hide TableInv, ValidatedAt;
    Added(r, p, pid, u);
  }

  lemma Added(r: Table, p: Path, pid: nat, u: Table)
    requires TableInv(r) && pid !in r.paths && AddrsOf(p) !in r.addrs && !p.active && !p.migrating
    requires |r.paths| < r.maxPaths || r.paths == map[]
    requires u == r.(paths := r.paths[pid := p], addrs := r.addrs[AddrsOf(p) := pid], events := u.events)
    ensures TableInv(u)
  {
    hide Inverse, OneActive;
    AddedIndex(r, p, pid, u);
    AddedInactive(r.paths, p, pid);
    AddedSize(r.paths, p, pid);
    assert forall a :: a in u.paths && u.paths[a].migrating ==> a in r.paths && r.paths[a].migrating;
  }

  lemma AddedSize(paths: map<nat, Path>, p: Path, pid: nat)
    requires pid !in paths
    ensures |paths[pid := p]| == |paths| + 1
  {
    assert paths[pid := p].Keys == paths.Keys + {pid};
  }

  lemma AddedInactive(paths: map<nat, Path>, p: Path, pid: nat)
    requires OneActive(paths) && pid !in paths && !p.active
    ensures OneActive(paths[pid := p])
  {
  }

  lemma AddedIndex(r: Table, p: Path, pid: nat, u: Table)
    requires Inverse(r) && pid !in r.paths && AddrsOf(p) !in r.addrs
    requires u.paths == r.paths[pid := p] && u.addrs == r.addrs[AddrsOf(p) := pid]
    ensures Inverse(u)
  {
  }

  /** Replacing a path keeps the invariant if its addresses stay, no other path is active when
      it is, and only servers migrate. */
  lemma UpdateKeepsInv(t: Table, pid: nat, q: Path, u: Table)
    requires TableInv(t) && pid in t.paths && AddrsOf(q) == AddrsOf(t.paths[pid])
    requires q.active ==> q.Active() && forall a :: a in t.paths && a != pid ==> !t.paths[a].active
    requires q.migrating ==> t.isServer
    requires u == t.(paths := t.paths[pid := q], events := u.events)
    ensures TableInv(u)
  {
    UpdateKeepsIndex(t, pid, q);
    SameIndex(t.(paths := t.paths[pid := q]), u);
    UpdateOneActive(t.paths, pid, q);
    hide Inverse, OneActive;
  }

  lemma UpdateOneActive(paths: map<nat, Path>, pid: nat, q: Path)
    requires OneActive(paths) && pid in paths
    requires q.active ==> q.Active() && forall a :: a in paths && a != pid ==> !paths[a].active
    ensures OneActive(paths[pid := q])
  {
  }

  lemma SameIndex(t: Table, u: Table)
    requires Inverse(t) && u.paths == t.paths && u.addrs == t.addrs
    ensures Inverse(u)
  {
  }

  lemma OnPathKeepsInv(t: Table, pid: nat, call: Call)
    requires TableInv(t) && Enabled(t, OnPath(pid, call))
    ensures var u := Apply(t, OnPath(pid, call)); TableInv(u) && EventsJustified(t, u)
  {
    hide Step, TableInv;
    FlagFacts(t, pid);
    PathFrame(t.paths[pid], call);
    UpdateKeepsInv(t, pid, Step(t.paths[pid], call), Apply(t, OnPath(pid, call)));
  }

  /** What the table guarantees of one path. */
  lemma FlagFacts(t: Table, pid: nat)
    requires TableInv(t) && pid in t.paths
    ensures t.paths[pid].active ==> t.paths[pid].Active() && forall a :: a in t.paths && a != pid ==> !t.paths[a].active
    ensures t.paths[pid].migrating ==> t.isServer
    ensures AddrsOf(t.paths[pid]) in t.addrs && t.addrs[AddrsOf(t.paths[pid])] == pid
  {
  }

  /** What a call on one path can do to the fields that the table relies on. */
  lemma PathFrame(p: Path, call: Call)
    requires p.active ==> p.Active()
    requires call.SetDcid? && call.dcid.None? ==> !p.active
    ensures var q := Step(p, call);
            && AddrsOf(q) == AddrsOf(p) && q.migrating == p.migrating
            && (q.active ==> p.active && q.Active())
  {
    hide OnResponseReceived, OnLossDetectionTimeout;
    match call {
      case Response(data) => ResponseFields(p, data);
      case LossTimeout(now, rtt, isServer) => TimeoutFields(p, now, rtt, isServer);
      case _ =>
    }
  }

  lemma RespondKeepsInv(t: Table, data: Data)
    requires TableInv(t)
    ensures var u := OnResponse(t, data).0; TableInv(u) && EventsJustified(t, u)
  {
    hide TableInv, OnResponseReceived, ResponseEvents, AfterResponse;
    var active, pending := First(t.paths, (p: Path) => p.Active()), First(t.paths, (p: Path) => p.HasPending(data));
    if active.Some? && pending.Some? {
      var pid := pending.value;
      assert pid in t.paths;
      RespondAt(t, data, pid, pid == active.value, OnResponse(t, data).0);
    }
  }

  lemma RespondAt(t: Table, data: Data, pid: nat, isActive: bool, u: Table)
    requires TableInv(t) && pid in t.paths
    requires var (q, validated) := OnResponseReceived(t.paths[pid], data);
             u == t.(paths := t.paths[pid := AfterResponse(q, validated)],
                     events := t.events + ResponseEvents(q, validated, isActive))
    ensures TableInv(u) && EventsJustified(t, u)
  {
    hide TableInv, OnResponseReceived;
    FlagFacts(t, pid);
    ResponseFields(t.paths[pid], data);
    var (q, validated) := OnResponseReceived(t.paths[pid], data);
    UpdateKeepsInv(t, pid, AfterResponse(q, validated), u);
    FlagFacts(u, pid);
  }

  lemma StepDownKeepsInv(t: Table)
    requires TableInv(t)
    ensures var s := StepDown(t);
            && TableInv(s) && s == t.(paths := s.paths) && s.paths.Keys == t.paths.Keys
            && (forall a :: a in s.paths ==> !s.paths[a].active && s.paths[a] == t.paths[a].(active := false))
  {
    var ok := (p: Path) => p.Active();
    var current := First(t.paths, ok);
    if current.Some? {
      assert IsFirst(t.paths, ok, current.value) && ok(t.paths[current.value]);
      SteppedDown(t, current.value, StepDown(t));
    } else {
      assert NoneOk(t.paths, ok);
      NoFlags(t.paths);
      assert t.(paths := t.paths) == t;
    }
  }

  lemma NoFlags(paths: map<nat, Path>)
    requires OneActive(paths) && NoneOk(paths, (p: Path) => p.Active())
    ensures forall a :: a in paths ==> !paths[a].active && paths[a] == paths[a].(active := false)
  {
    var ok := (p: Path) => p.Active();
    forall a | a in paths ensures !paths[a].active {
      assert !ok(paths[a]);
    }
  }

  lemma SteppedDown(t: Table, current: nat, s: Table)
    requires TableInv(t) && current in t.paths && t.paths[current].Active()
    requires s == t.(paths := t.paths[current := t.paths[current].(active := false)])
    ensures TableInv(s) && s.paths.Keys == t.paths.Keys
    ensures forall a :: a in s.paths ==> !s.paths[a].active && s.paths[a] == t.paths[a].(active := false)
  {
    hide TableInv;
    FlagFacts(t, current);
    UpdateKeepsInv(t, current, t.paths[current].(active := false), s);
    forall a | a in s.paths ensures !s.paths[a].active && s.paths[a] == t.paths[a].(active := false) {
      SameWithout(t.paths[a]);
    }
  }

  lemma SameWithout(p: Path)
    ensures !p.active ==> p.(active := false) == p
  {
  }

  lemma ActivateKeepsInv(t: Table, pid: nat)
    requires TableInv(t) && Enabled(t, Activate(pid))
    ensures var u := SetActive(t, pid).0; TableInv(u) && EventsJustified(t, u)
  {
    hide StepDown, TableInv;
    StepDownKeepsInv(t);
    var s := StepDown(t);
    if pid in s.paths {
      ActivateAt(t, s, pid, SetActive(t, pid).0);
    }
  }

  /** Activation flags its target and touches no other path once the active one stepped down. */
  lemma ActivatedFields(t: Table, pid: nat)
    requires pid in StepDown(t).paths
    ensures var s, u := StepDown(t).paths, SetActive(t, pid).0.paths;
            && u == s[pid := u[pid]]
            && u[pid].active && u[pid].state == s[pid].state && u[pid].dcidSeq == s[pid].dcidSeq
  {
    hide StepDown;
  }

  lemma StepDownIdle(t: Table)
    requires forall a :: a in t.paths ==> !t.paths[a].Active()
    ensures StepDown(t) == t
  {
  }

  lemma ActivateAt(t: Table, s: Table, pid: nat, u: Table)
    requires TableInv(s) && s == t.(paths := s.paths) && pid in s.paths
    requires s.paths[pid].Working() && s.paths[pid].dcidSeq.Some?
    requires forall a :: a in s.paths ==> !s.paths[a].active
    requires s == StepDown(t) && u == SetActive(t, pid).0
    ensures TableInv(u) && EventsJustified(t, u)
  {
    hide StepDown, TableInv;
    assert u == s.(paths := s.paths[pid := u.paths[pid]], events := u.events);
    FlagFacts(s, pid);
    UpdateKeepsInv(s, pid, u.paths[pid], u);
    FlagFacts(u, pid);
  }

  lemma {:induction false} NotifyKeepsInv(t: Table, n: nat)
    requires TableInv(t)
    ensures TableInv(NotifyFailed(t, n)) && OnlyFailures(t, NotifyFailed(t, n))
  {
    hide TableInv, NotifyOne;
    if n > 0 {
      NotifyKeepsInv(t, n - 1);
      NotifyOneKeepsInv(NotifyFailed(t, n - 1), n - 1);
    }
  }

  ghost predicate OnlyFailures(t: Table, u: Table) {
    t.events <= u.events && forall i :: |t.events| <= i < |u.events| ==> u.events[i].FailedValidation?
  }

  lemma NotifyOneKeepsInv(t: Table, pid: nat)
    requires TableInv(t)
    ensures TableInv(NotifyOne(t, pid)) && OnlyFailures(t, NotifyOne(t, pid))
  {
    var u := NotifyOne(t, pid);
    if u != t {
      assert !t.paths[pid].active && (t.paths[pid].migrating ==> t.isServer);
      var q := t.paths[pid].(failureNotified := true);
      assert u == t.(paths := t.paths[pid := q], events := u.events);
      hide TableInv, NotifyOne;
      UpdateKeepsInv(t, pid, q, u);
    }
  }

  /** Exactly the failed paths whose failure was not announced yet are announced, in the order of
      their identifiers; nothing else changes. */
  lemma {:induction false} NotifyMeaning(t: Table, n: nat)
    ensures var u := NotifyFailed(t, n);
            && u == t.(paths := u.paths, events := t.events + Failures(t, n))
            && u.paths == MarkNotified(t.paths, n)
  {
    if n > 0 {
      NotifyMeaning(t, n - 1);
      var s := NotifyFailed(t, n - 1);
      assert s.events + Failures(t, n)[|Failures(t, n - 1)|..] == t.events + Failures(t, n);
      if (n - 1) in t.paths {
        assert s.paths[n - 1] == t.paths[n - 1];
      }
      MarkOne(t.paths, n);
    } else {
      assert MarkNotified(t.paths, 0) == t.paths;
    }
  }

  /** Every failed path with an identifier below `n` is marked as announced. */
  function MarkNotified(paths: map<nat, Path>, n: nat): map<nat, Path> {
    map pid | pid in paths ::
      if pid < n && paths[pid].state.Failed? then paths[pid].(failureNotified := true) else paths[pid]
  }

  lemma MarkOne(paths: map<nat, Path>, n: nat)
    requires n > 0
    ensures var before := MarkNotified(paths, n - 1);
            MarkNotified(paths, n) ==
            if (n - 1) in paths && paths[n - 1].state.Failed? && !paths[n - 1].failureNotified
            then before[n - 1 := paths[n - 1].(failureNotified := true)] else before
  {
    var before := MarkNotified(paths, n - 1);
    var r := if (n - 1) in paths && paths[n - 1].state.Failed? && !paths[n - 1].failureNotified
             then before[n - 1 := paths[n - 1].(failureNotified := true)] else before;
    assert MarkNotified(paths, n).Keys == r.Keys;
    forall pid | pid in paths
      ensures MarkNotified(paths, n)[pid] == r[pid]
    {
    }
  }

  /** The announcements due for identifiers below `n`. */
  function Failures(t: Table, n: nat): seq<Event> {
    if n == 0 then []
    else
      var due := (n - 1) in t.paths && t.paths[n - 1].state.Failed? && !t.paths[n - 1].failureNotified;
      Failures(t, n - 1) + if due then [FailedValidation(AddrsOf(t.paths[n - 1]))] else []
  }

  lemma StepKeepsInv(t: Table, op: Op)
    requires TableInv(t) && Enabled(t, op)
    ensures TableInv(Apply(t, op)) && EventsJustified(t, Apply(t, op))
  {
    if op.Notify? {
      NotifyKeepsInv(t, op.n);
    }
    hide InsertPath, OnResponse, SetActive, TableInv, NotifyFailed;
    assert op.Notify? ==> EventsJustified(t, Apply(t, op));
    hide EventsJustified;
    match op
    case Insert(p, pid, notify) => InsertKeepsInv(t, p, pid, notify);
    case Respond(data) => RespondKeepsInv(t, data);
    case Activate(pid) => ActivateKeepsInv(t, pid);
    case Notify(_) =>
    case OnPath(pid, call) => OnPathKeepsInv(t, pid, call);
  }

  ghost predicate IsTableRun(t: Table, ops: seq<Op>)
    decreases |ops|
  {
    ops != [] ==> Enabled(t, ops[0]) && IsTableRun(Apply(t, ops[0]), ops[1..])
  }

  ghost function AfterOps(t: Table, ops: seq<Op>): Table
    decreases |ops|
  {
    if ops == [] then t else AfterOps(Apply(t, ops[0]), ops[1..])
  }

  ghost predicate AllEventsJustified(t: Table, ops: seq<Op>)
    decreases |ops|
  {
    ops != [] ==> EventsJustified(t, Apply(t, ops[0])) && AllEventsJustified(Apply(t, ops[0]), ops[1..])
  }

  lemma {:induction false} RunKeepsTableInv(t: Table, ops: seq<Op>)
    requires TableInv(t) && IsTableRun(t, ops)
    ensures TableInv(AfterOps(t, ops)) && AllEventsJustified(t, ops)
    decreases |ops|
  {
    hide TableInv, EventsJustified, Apply;
    if ops != [] {
      StepKeepsInv(t, ops[0]);
      RunKeepsTableInv(Apply(t, ops[0]), ops[1..]);
    }
  }

  /** The main result: over every run, the address index is the exact inverse of the table,
      the table never grows beyond its limit, at most one path is active, and every
      PeerMigrated event comes from a server and names a path validated at that moment. */
  lemma TableRuns(local: Addr, peer: Addr, receivedMax: nat, pid: nat, maxPaths: nat, isServer: bool, ops: seq<Op>)
    requires IsTableRun(NewTable(NewPath(local, peer, receivedMax, true), pid, maxPaths, isServer), ops)
    ensures var t := NewTable(NewPath(local, peer, receivedMax, true), pid, maxPaths, isServer);
            TableInv(AfterOps(t, ops)) && AllEventsJustified(t, ops)
  {
    var t := NewTable(NewPath(local, peer, receivedMax, true), pid, maxPaths, isServer);
    assert t.paths.Keys == {pid} && |t.paths| == 1;
    assert t.addrs.Keys == {(local, peer)};
    RunKeepsTableInv(t, ops);
  }

  // ---------- Activating a path that does not work ----------

  ghost predicate TwoActive(paths: map<nat, Path>) {
    exists a, b :: a in paths && b in paths && a != b && paths[a].Active() && paths[b].Active()
  }

  /** Some further run, with no other careless activation, ends with two active paths. */
  ghost predicate CanReachTwoActive(t: Table) {
    exists ops :: IsTableRun(t, ops) && TwoActive(AfterOps(t, ops).paths)
  }

  lemma ReachBack(t: Table, op: Op)
    requires Enabled(t, op) && CanReachTwoActive(Apply(t, op))
    ensures CanReachTwoActive(t)
  {
    hide Enabled, Apply, TwoActive;
    var ops :| IsTableRun(Apply(t, op), ops) && TwoActive(AfterOps(Apply(t, op), ops).paths);
    var all := [op] + ops;
    assert all[0] == op && all[1..] == ops;
    assert IsTableRun(t, all) && TwoActive(AfterOps(t, all).paths);
  }

  lemma ReachHere(t: Table, a: nat, b: nat)
    requires a in t.paths && b in t.paths && a != b && t.paths[a].Active() && t.paths[b].Active()
    ensures CanReachTwoActive(t)
  {
    assert IsTableRun(t, []) && AfterOps(t, []) == t;
  }

  /** A challenge and a destination ID make any path work. */
  function Revived(p: Path): Path {
    Step(Step(p, ChallengeSent(0, 0, 0)), SetDcid(Some(0)))
  }

  lemma RevivedFields(p: Path)
    ensures Revived(p).Working() && Revived(p).dcidSeq == Some(0) && Revived(p).active == p.active
  {
  }

  lemma ReviveBack(t: Table, pid: nat)
    requires pid in t.paths && CanReachTwoActive(t.(paths := t.paths[pid := Revived(t.paths[pid])]))
    ensures CanReachTwoActive(t)
  {
    hide Step, CanReachTwoActive;
    var p := t.paths[pid];
    var q := Step(p, ChallengeSent(0, 0, 0));
    var s := t.(paths := t.paths[pid := q]);
    assert s.paths[pid := Revived(p)] == t.paths[pid := Revived(p)];
    assert Apply(s, OnPath(pid, SetDcid(Some(0)))) == t.(paths := t.paths[pid := Revived(p)]);
    ReachBack(s, OnPath(pid, SetDcid(Some(0))));
    assert Apply(t, OnPath(pid, ChallengeSent(0, 0, 0))) == s;
    ReachBack(t, OnPath(pid, ChallengeSent(0, 0, 0)));
  }

  /** A path is flagged although it is not active. */
  ghost predicate FlaggedInVain(t: Table, pid: nat) {
    && pid in t.paths && t.paths[pid].active
    && (forall a :: a in t.paths ==> !t.paths[a].Active() && (a != pid ==> !t.paths[a].active))
  }

  /** With any other path in the table, the other one is revived and activated, which leaves the
      flag alone, and then the flagged path is revived. */
  lemma TwoActivePaths(t: Table, pid: nat, other: nat)
    requires FlaggedInVain(t, pid) && other in t.paths && other != pid
    ensures CanReachTwoActive(t)
  {
    hide Revived, CanReachTwoActive;
    RevivedFields(t.paths[other]);
    var s := t.(paths := t.paths[other := Revived(t.paths[other])]);
    StepDownIdle(s);
    ActivatedFields(s, other);
    hide StepDown, SetActive;
    var u := SetActive(s, other).0;
    RevivedFields(u.paths[pid]);
    var w := u.(paths := u.paths[pid := Revived(u.paths[pid])]);
    ReachHere(w, pid, other);
    ReviveBack(u, pid);
    ReachBack(s, Activate(other));
    ReviveBack(t, other);
  }

  /** Without another path, one is inserted first. */
  lemma InsertThenTwo(t: Table, pid: nat)
    requires FlaggedInVain(t, pid) && t.paths.Keys == {pid} && t.maxPaths >= 2 && Inverse(t)
    ensures CanReachTwoActive(t)
  {
    var p := NewPath(t.paths[pid].local + 1, t.paths[pid].peer, 0, false);
    assert |t.paths| == |t.paths.Keys| == 1;
    assert AddrsOf(p) !in t.addrs;
    var u := Apply(t, Insert(p, pid + 1, false));
    assert u.paths == t.paths[pid + 1 := p];
    hide CanReachTwoActive, Inverse;
    TwoActivePaths(u, pid, pid + 1);
    ReachBack(t, Insert(p, pid + 1, false));
  }

  lemma CarelessActivation(t: Table, pid: nat)
    requires TableInv(t) && pid in t.paths && t.maxPaths >= 2
    requires !(t.paths[pid].Working() && t.paths[pid].dcidSeq.Some?)
    ensures CanReachTwoActive(SetActive(t, pid).0)
  {
    hide StepDown, SetActive, TableInv, CanReachTwoActive, Inverse, FlaggedInVain;
    CarelessIndex(t, pid);
    var u := SetActive(t, pid).0;
    FlaggedNow(t, pid);
    if other :| other in u.paths && other != pid {
      TwoActivePaths(u, pid, other);
    } else {
      assert u.paths.Keys == {pid};
      InsertThenTwo(u, pid);
    }
  }

  lemma FlaggedNow(t: Table, pid: nat)
    requires TableInv(t) && pid in t.paths
    requires !(t.paths[pid].Working() && t.paths[pid].dcidSeq.Some?)
    ensures FlaggedInVain(SetActive(t, pid).0, pid)
  {
    hide StepDown, SetActive, TableInv;
    StepDownKeepsInv(t);
    ActivatedFields(t, pid);
  }

  /** Whatever its target, activation keeps the index and the limit. */
  lemma CarelessIndex(t: Table, pid: nat)
    requires TableInv(t) && pid in t.paths
    ensures var u := SetActive(t, pid).0; Inverse(u) && u.maxPaths == t.maxPaths && |u.paths| == |t.paths|
  {
    hide StepDown, TableInv, Inverse;
    StepDownKeepsInv(t);
    var s, u := StepDown(t), SetActive(t, pid).0;
    assert |s.paths| == |s.paths.Keys| == |t.paths.Keys| == |t.paths|;
    assert u == s.(paths := s.paths[pid := u.paths[pid]], events := u.events);
    assert AddrsOf(u.paths[pid]) == AddrsOf(s.paths[pid]);
    hide SetActive;
    SoundIndex(s);
    UpdateKeepsIndex(s, pid, u.paths[pid]);
    SameIndex(s.(paths := s.paths[pid := u.paths[pid]]), u);
  }

  lemma SoundIndex(t: Table)
    requires TableInv(t)
    ensures Inverse(t)
  {
  }

  lemma SizeKept(t: Table, op: Op)
    requires Enabled(t, op) && t.maxPaths < 2 && |t.paths| <= 1
    ensures var u := Apply(t, op); u.maxPaths == t.maxPaths && |u.paths| <= 1
  {
    if op.Insert? {
      InsertSize(t, op.path, op.pid, op.notify);
    } else {
      SamePaths(t, op);
      hide Apply;
      var u := Apply(t, op);
      assert |u.paths| == |u.paths.Keys| == |t.paths.Keys| == |t.paths|;
    }
  }

  /** Only an insertion changes which paths there are. */
  lemma SamePaths(t: Table, op: Op)
    requires !op.Insert?
    ensures var u := Apply(t, op); u.maxPaths == t.maxPaths && u.paths.Keys == t.paths.Keys
  {
    hide OnResponseReceived, Activated, Step;
    if op.Notify? {
      NotifyMeaning(t, op.n);
      hide NotifyFailed;
    }
  }

  lemma InsertSize(t: Table, p: Path, pid: nat, notify: bool)
    requires Enabled(t, Insert(p, pid, notify)) && t.maxPaths < 2 && |t.paths| <= 1
    ensures var u := InsertPath(t, p, pid, notify).0; u.maxPaths == t.maxPaths && |u.paths| <= 1
  {
    if MakeRoom(t).Ok? {
      RoomSize(t);
      hide MakeRoom;
      AddedSize(MakeRoom(t).value.paths, p, pid);
    }
  }

  lemma RoomSize(t: Table)
    requires t.maxPaths < 2 && |t.paths| <= 1 && MakeRoom(t).Ok?
    ensures |MakeRoom(t).value.paths| == 0 && MakeRoom(t).value.maxPaths == t.maxPaths
  {
    if |t.paths| >= t.maxPaths {
      var pid := First(t.paths, (p: Path) => p.Unused()).value;
      assert pid in t.paths;
      assert (t.paths - {pid}).Keys == t.paths.Keys - {pid};
    }
  }

  lemma {:induction false} SizeKeptOverRuns(t: Table, ops: seq<Op>)
    requires IsTableRun(t, ops) && t.maxPaths < 2 && |t.paths| <= 1
    ensures |AfterOps(t, ops).paths| <= 1
    decreases |ops|
  {
    if ops != [] {
      SizeKept(t, ops[0]);
      hide Apply, Enabled;
      SizeKeptOverRuns(Apply(t, ops[0]), ops[1..]);
    }
  }

  lemma OneIsNotTwo(paths: map<nat, Path>)
    requires |paths| <= 1
    ensures !TwoActive(paths)
  {
    forall a, b | a in paths && b in paths ensures a == b {
      assert |paths.Keys - {a}| == |paths.Keys| - 1;
      assert paths.Keys - {a} == {};
    }
  }

  /** `set_active_path` promises one active path and does not look at its target.  From a sound
      state, two paths can later be active at once if and only if the table may hold two paths and
      the target had failed or had no destination ID. */
  lemma ActivationExactIff(t: Table, pid: nat)
    requires TableInv(t) && pid in t.paths
    ensures CanReachTwoActive(SetActive(t, pid).0)
       <==> t.maxPaths >= 2 && !(t.paths[pid].Working() && t.paths[pid].dcidSeq.Some?)
  {
    var u := SetActive(t, pid).0;
    if t.maxPaths >= 2 && !(t.paths[pid].Working() && t.paths[pid].dcidSeq.Some?) {
      hide CanReachTwoActive, SetActive;
      CarelessActivation(t, pid);
    } else {
      CarelessIndex(t, pid);
      forall ops | IsTableRun(u, ops) ensures !TwoActive(AfterOps(u, ops).paths) {
        NeverTwo(t, pid, ops);
      }
    }
  }

  lemma NeverTwo(t: Table, pid: nat, ops: seq<Op>)
    requires TableInv(t) && pid in t.paths && IsTableRun(SetActive(t, pid).0, ops)
    requires t.maxPaths < 2 || (t.paths[pid].Working() && t.paths[pid].dcidSeq.Some?)
    ensures !TwoActive(AfterOps(SetActive(t, pid).0, ops).paths)
  {
    var u := SetActive(t, pid).0;
    if t.maxPaths < 2 {
      CarelessIndex(t, pid);
      SizeKeptOverRuns(u, ops);
      OneIsNotTwo(AfterOps(u, ops).paths);
    } else {
      ActivateKeepsInv(t, pid);
      RunKeepsTableInv(u, ops);
    }
  }
}
