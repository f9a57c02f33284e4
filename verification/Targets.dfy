/**
 What targets hold over runs.  A backend is addressed by its connection and the interface's
 name, so what an interface leaves behind is found again by a later interface of the same
 name on the same connection.
 */
module Targets {
  import opened BackendTypes
  import opened Convergence
  import opened FailingSyncs
  import opened Frames
  import opened Reconcile
  import opened ReconcileRuns
  import opened Sequences
  import opened Store
  import opened StoreFacts
  import opened SyncFrames
  import opened Wrappers

  // ---- What a target is ----

  /** `base` is the URL without the slashes that end it. */
  ghost predicate BaseOf(url: string, base: string) {
    && |base| <= |url| && base == url[..|base|]
    && (forall k :: |base| <= k < |url| ==> url[k] == '/')
    && (base != "" ==> base[|base| - 1] != '/')
  }

  lemma {:induction false} SlashesTrimmed(url: string)
    ensures BaseOf(url, TrimSlashes(url))
  {
    if url != "" && url[|url| - 1] == '/' {
      SlashesTrimmed(url[..|url| - 1]);
    }
  }

  lemma OneBase(url: string, base: string)
    requires BaseOf(url, base)
    ensures base == TrimSlashes(url)
  {
    SlashesTrimmed(url);
    var t := TrimSlashes(url);
    assert forall k :: 0 <= k < |t| ==> url[k] == t[k];
    assert forall k :: 0 <= k < |base| ==> url[k] == base[k];
  }

  /** The same local tool, or a router or a node under the same URL but for slashes at its end. */
  ghost predicate SameConnection(a: Backend, b: Backend) {
    match (a, b)
    case (Mikrotik(u, _, _, _), Mikrotik(v, _, _, _)) => exists t :: BaseOf(u, t) && BaseOf(v, t)
    case (Node(u, _), Node(v, _)) => exists t :: BaseOf(u, t) && BaseOf(v, t)
    case _ => a == b && !a.Mikrotik? && !a.Node?
  }

  /** Two interfaces address the same thing exactly when their names and their connections are the same. */
  lemma SameTargetIff(a: Interface, b: Interface)
    ensures TargetOf(a) == TargetOf(b) <==> a.name == b.name && SameConnection(a.backend, b.backend)
  {
    match (a.backend, b.backend)
    case (Mikrotik(u, _, _, _), Mikrotik(v, _, _, _)) => SameBaseIff(u, v);
    case (Node(u, _), Node(v, _)) => SameBaseIff(u, v);
    case _ =>
  }

  lemma SameBaseIff(u: string, v: string)
    ensures TrimSlashes(u) == TrimSlashes(v) <==> exists t :: BaseOf(u, t) && BaseOf(v, t)
  {
    SlashesTrimmed(u);
    SlashesTrimmed(v);
    if t :| BaseOf(u, t) && BaseOf(v, t) {
      OneBase(u, t);
      OneBase(v, t);
    }
  }

  // ---- One step ----

  /** The handler synced the interface that uses `t`, or removed it, and the backend could be built. */
  ghost predicate Reaches(env: Env, s: State, op: Op, w: Weather, t: Target) {
    Mutate(env, s.db, op).Ok? && exists i :: ReachesBy(env, s, op, w, t, i)
  }

  ghost predicate ReachesBy(env: Env, s: State, op: Op, w: Weather, t: Target, i: Id)
    requires Mutate(env, s.db, op).Ok?
  {
    var m := Written(s, Mutate(env, s.db, op).value, op);
    && !OutcomeOf(w, i).BuildFails?
    && (|| PlanOf(s.db, op) == TearDown(i, t)
        || (i in Syncs(m, PlanOf(s.db, op), w) && i in m.db.interfaces && TargetOf(m.db.interfaces[i]) == t))
  }

  /** What the call that reached the target made of it: the active devices, nothing, or what remained. */
  function Made(op: Op, db: Db, outcome: Outcome, i: Id): Option<Desired>
  {
    match outcome
    case ApplyFails(remains, _) => remains
    case _ => if op.DeleteInterface? || i !in db.interfaces then None else Some(DesiredFor(db, i))
  }

  /** A sync of the interface, if there is one, does not reach the target. */
  predicate Misses(db: Db, i: Id, w: Weather, t: Target) {
    i in db.interfaces ==> OutcomeOf(w, i).BuildFails? || TargetOf(db.interfaces[i]) != t
  }

  lemma OneMisses(db: Db, m: State, i: Id, w: Weather, t: Target)
    requires SameButErrors(db, m.db) && Misses(db, i, w, t)
    ensures At(SyncOne(m, i, w).0.pushed, t) == At(m.pushed, t)
  {
  }

  /** Syncing in turn leaves a target alone that none of the interfaces uses. */
  lemma {:induction false} SyncEachMisses(s: State, ids: seq<Id>, w: Weather, t: Target)
    requires forall i :: i in ids ==> Misses(s.db, i, w, t)
    ensures At(SyncEach(s, ids, w).pushed, t) == At(s.pushed, t)
  {
    if ids != [] {
      var init, last := ids[..|ids| - 1], ids[|ids| - 1];
      assert last in ids;
      SyncEachMisses(s, init, w, t);
      SyncEachErrors(s, init, w);
      OneMisses(s.db, SyncEach(s, init, w), last, w, t);
    }
  }

  lemma {:induction false} SyncUntilFailureMisses(s: State, ids: seq<Id>, w: Weather, t: Target)
    requires Elems(ids) <= s.db.interfaces.Keys
    requires forall i :: i in Started(ids, SyncUntilFailure(s, ids, w).1) ==> Misses(s.db, i, w, t)
    ensures At(SyncUntilFailure(s, ids, w).0.pushed, t) == At(s.pushed, t)
  {
    if ids != [] {
      var init, last := ids[..|ids| - 1], ids[|ids| - 1];
      var (m, failed) := SyncUntilFailure(s, init, w);
      IdsAppend(ids);
      AbortPoint(s, init, w);
      StartedNext(ids, failed, SyncOne(m, last, w).1);
      SyncUntilFailureMisses(s, init, w, t);
      SyncUntilFailureErrors(s, init, w);
      if failed.None? {
        OneMisses(s.db, m, last, w, t);
      }
    }
  }

  lemma PerformMisses(s: State, plan: Plan, w: Weather, t: Target)
    requires ForeignKeys(s.db)
    requires forall i :: i in Syncs(s, plan, w) ==> Misses(s.db, i, w, t)
    requires plan.TearDown? && plan.target == t ==> OutcomeOf(w, plan.i).BuildFails?
    ensures At(Perform(s, plan, w).0.pushed, t) == At(s.pushed, t)
  {
    match plan
    case Nothing =>
    case TearDown(_, _) =>
    case One(i) => assert i in Syncs(s, plan, w);
    case Each(ids) => SyncEachMisses(s, ids, w, t);
    case All => SyncUntilFailureMisses(s, s.db.order, w, t);
  }

  /** Nothing but a sync or removal that reaches it changes what a target holds. */
  lemma UnreachedKeeps(env: Env, s: State, op: Op, w: Weather, t: Target)
    requires Inv(s) && !Reaches(env, s, op, w, t)
    ensures At(Step(env, s, op, w).0.pushed, t) == At(s.pushed, t)
  {
    if Mutate(env, s.db, op).Ok? {
      var m := Written(s, Mutate(env, s.db, op).value, op);
      MutateKeepsValid(env, s.db, op);
      forall i | i in Syncs(m, PlanOf(s.db, op), w) ensures Misses(m.db, i, w, t) {
        assert !ReachesBy(env, s, op, w, t, i);
      }
      if PlanOf(s.db, op).TearDown? {
        assert !ReachesBy(env, s, op, w, t, PlanOf(s.db, op).i);
      }
      PerformMisses(m, PlanOf(s.db, op), w, t);
    }
  }

  /** And what one that reaches it makes of it does not depend on what it held. */
  lemma ReachedHolds(env: Env, s: State, op: Op, w: Weather, t: Target, i: Id)
    requires Inv(s) && Mutate(env, s.db, op).Ok? && ReachesBy(env, s, op, w, t, i)
    ensures At(Step(env, s, op, w).0.pushed, t) == Made(op, Mutate(env, s.db, op).value, OutcomeOf(w, i), i)
  {
    var db' := Mutate(env, s.db, op).value;
    if PlanOf(s.db, op) != TearDown(i, t) {
      SyncedHolds(env, s, op, w, i);
    }
  }

  lemma SyncedHolds(env: Env, s: State, op: Op, w: Weather, i: Id)
    requires Inv(s) && Mutate(env, s.db, op).Ok? && i in Mutate(env, s.db, op).value.interfaces
    requires i in Syncs(Written(s, Mutate(env, s.db, op).value, op), PlanOf(s.db, op), w)
    requires !OutcomeOf(w, i).BuildFails?
    ensures var db' := Mutate(env, s.db, op).value;
            var held := At(Step(env, s, op, w).0.pushed, TargetOf(db'.interfaces[i]));
            && (OutcomeOf(w, i) == Applied ==> held == Some(DesiredFor(db', i)))
            && (OutcomeOf(w, i).ApplyFails? ==> held == OutcomeOf(w, i).remains)
  {
    StepResult(env, s, op, w, i);
    StepErrors(env, s, op, w);
  }

  lemma NoDevicesYet(db: Db, db': Db, i: Id)
    requires ForeignKeys(db) && i !in db.interfaces && i in db'.interfaces && db'.peers == db.peers
    ensures DesiredFor(db', i).peers == []
  {
    FilterNone(db'.peers, ActiveOn(db', i));
  }

  /** A new interface has no devices, so creating it clears whatever its target held. */
  lemma CreationClears(env: Env, s: State, op: Op, w: Weather)
    requires Inv(s) && op.CreateInterface? && Mutate(env, s.db, op).Ok? && OutcomeOf(w, op.id) == Applied
    ensures var t := Target(ConnectionOf(op.fields.backend), op.fields.name);
            var pushed := Step(env, s, op, w).0.pushed;
            t in pushed && pushed[t].peers == []
  {
    var db' := Mutate(env, s.db, op).value;
    NoDevicesYet(s.db, db', op.id);
    SyncedHolds(env, s, op, w, op.id);
  }

  // ---- Who uses a target ----

  /** The connection an accepted update leaves the interface with. */
  function NewConnection(cur: Interface, c: Change): Connection {
    ConnectionOf(Or(c.backend, cur.backend))
  }

  lemma UpdatedTarget(env: Env, cur: Interface, c: Change, nonce: nat)
    requires Updated(env, cur, c, nonce).Some?
    ensures TargetOf(Updated(env, cur, c, nonce).value) == Target(NewConnection(cur, c), cur.name)
  {
  }

  /** Accepted, and from now on an interface uses `t` that did not use it before. */
  predicate Takes(env: Env, db: Db, op: Op, t: Target) {
    && Mutate(env, db, op).Ok?
    && match op
       case CreateInterface(_, f, _) => Target(ConnectionOf(f.backend), f.name) == t
       case UpdateInterface(i, c, _) =>
         && i in db.interfaces && TargetOf(db.interfaces[i]) != t
         && Target(NewConnection(db.interfaces[i], c), db.interfaces[i].name) == t
       case _ => false
  }

  /** Accepted, and from now on the interface that used `t` does not: it is deleted, or its connection is changed. */
  predicate Vacates(env: Env, db: Db, op: Op, t: Target) {
    && Mutate(env, db, op).Ok?
    && match op
       case DeleteInterface(i) => i in db.interfaces && TargetOf(db.interfaces[i]) == t
       case UpdateInterface(i, c, _) =>
         i in db.interfaces && TargetOf(db.interfaces[i]) == t && NewConnection(db.interfaces[i], c) != t.connection
       case _ => false
  }

  /** Who uses `t` after the write. */
  ghost predicate UsersChanged(env: Env, db: Db, op: Op, t: Target) {
    Mutate(env, db, op).Ok? ==>
      (Unowned(Mutate(env, db, op).value, t)
       <==> Vacates(env, db, op, t) || (Unowned(db, t) && !Takes(env, db, op, t)))
  }

  lemma UpdateChangesUsers(env: Env, db: Db, i: Id, c: Change, nonce: nat, t: Target)
    requires NamesUnique(db)
    ensures UsersChanged(env, db, UpdateInterface(i, c, nonce), t)
  {
    if i in db.interfaces && Updated(env, db.interfaces[i], c, nonce).Some? {
      UpdatedTarget(env, db.interfaces[i], c, nonce);
      UsersAfterSet(db, Mutate(env, db, UpdateInterface(i, c, nonce)).value, i, t);
    }
  }

  lemma CreationChangesUsers(env: Env, db: Db, op: Op, t: Target)
    requires NamesUnique(db) && op.CreateInterface?
    ensures UsersChanged(env, db, op, t)
  {
    if Mutate(env, db, op).Ok? {
      UsersAfterSet(db, Mutate(env, db, op).value, op.id, t);
    }
  }

  lemma UsersChange(env: Env, db: Db, op: Op, t: Target)
    requires NamesUnique(db)
    ensures UsersChanged(env, db, op, t)
  {
    if op.UpdateInterface? {
      UpdateChangesUsers(env, db, op.id, op.change, op.nonce, t);
    } else if op.CreateInterface? {
      CreationChangesUsers(env, db, op, t);
    } else if op.DeleteInterface? {
      DeletionChangesUsers(env, db, op, t);
    } else {
      OthersKeepUsers(env, db, op, t);
    }
  }

  lemma DeletionChangesUsers(env: Env, db: Db, op: Op, t: Target)
    requires NamesUnique(db) && op.DeleteInterface?
    ensures UsersChanged(env, db, op, t)
  {
    if op.id in db.interfaces {
      UsersAfterDeletion(db, Mutate(env, db, op).value, op.id, t);
    }
  }

  lemma OthersKeepUsers(env: Env, db: Db, op: Op, t: Target)
    requires !op.CreateInterface? && !op.UpdateInterface? && !op.DeleteInterface?
    ensures UsersChanged(env, db, op, t)
  {
    assert Mutate(env, db, op).Ok? ==> Mutate(env, db, op).value.interfaces == db.interfaces;
  }

  lemma UsersAfterSet(db: Db, db': Db, i: Id, t: Target)
    requires NamesUnique(db) && i in db'.interfaces && db'.interfaces == db.interfaces[i := db'.interfaces[i]]
    requires i in db.interfaces ==> db'.interfaces[i].name == db.interfaces[i].name
    ensures Unowned(db', t)
       <==> TargetOf(db'.interfaces[i]) != t
            && (Unowned(db, t) || (i in db.interfaces && TargetOf(db.interfaces[i]) == t))
  {
    assert forall j :: j in db.interfaces && j != i ==> j in db'.interfaces && db'.interfaces[j] == db.interfaces[j];
  }

  lemma UsersAfterDeletion(db: Db, db': Db, i: Id, t: Target)
    requires NamesUnique(db) && i in db.interfaces && db'.interfaces == db.interfaces - {i}
    ensures Unowned(db', t) <==> Unowned(db, t) || TargetOf(db.interfaces[i]) == t
  {
    assert forall j :: j in db.interfaces && j != i ==> j in db'.interfaces && db'.interfaces[j] == db.interfaces[j];
  }

  lemma ErrorsKeepUsers(db: Db, db': Db, t: Target)
    requires SameButErrors(db, db')
    ensures Unowned(db', t) <==> Unowned(db, t)
  {
    assert forall i :: i in db.interfaces ==> TargetOf(db'.interfaces[i]) == TargetOf(db.interfaces[i]);
  }

  // ---- What is left behind ----

  /** The target holds something although no interface uses it. */
  ghost predicate Orphan(s: State, t: Target) {
    t in s.pushed && Unowned(s.db, t)
  }

  /** What the target holds once its interface is gone. */
  function LeftBehind(s: State, op: Op, w: Weather, t: Target): Option<Desired> {
    if op.DeleteInterface? then AfterRemoval(At(s.pushed, t), OutcomeOf(w, op.id)) else At(s.pushed, t)
  }

  /** A deletion whose removal did not clear the target, or a change of connection. */
  predicate Leaves(env: Env, s: State, op: Op, w: Weather, t: Target) {
    Vacates(env, s.db, op, t) && LeftBehind(s, op, w, t).Some?
  }

  lemma UnusedIsUnreached(env: Env, s: State, op: Op, w: Weather, t: Target)
    requires Inv(s) && Mutate(env, s.db, op).Ok? && Unowned(Mutate(env, s.db, op).value, t)
    requires !(op.DeleteInterface? && Vacates(env, s.db, op, t))
    ensures !Reaches(env, s, op, w, t)
  {
  }

  lemma VacatedHolds(env: Env, s: State, op: Op, w: Weather, t: Target)
    requires Inv(s) && Vacates(env, s.db, op, t)
    ensures At(Step(env, s, op, w).0.pushed, t) == LeftBehind(s, op, w, t)
  {
    if op.UpdateInterface? {
      UsersChange(env, s.db, op, t);
      UnusedIsUnreached(env, s, op, w, t);
      UnreachedKeeps(env, s, op, w, t);
    }
  }

  lemma UsersAfterStep(env: Env, s: State, op: Op, w: Weather, t: Target)
    requires Inv(s) && Mutate(env, s.db, op).Ok?
    ensures Unowned(Step(env, s, op, w).0.db, t) <==> Unowned(Mutate(env, s.db, op).value, t)
    ensures Unowned(Step(env, s, op, w).0.db, t)
       <==> Vacates(env, s.db, op, t) || (Unowned(s.db, t) && !Takes(env, s.db, op, t))
    ensures Vacates(env, s.db, op, t) ==> !Unowned(s.db, t)
  {
    StepErrors(env, s, op, w);
    ErrorsKeepUsers(Mutate(env, s.db, op).value, Step(env, s, op, w).0.db, t);
    UsersChange(env, s.db, op, t);
  }

  lemma UnownedNext(env: Env, s: State, op: Op, w: Weather, t: Target)
    requires Inv(s) && Unowned(s.db, t) && !Takes(env, s.db, op, t)
    ensures var s' := Step(env, s, op, w).0;
            Unowned(s'.db, t) && At(s'.pushed, t) == At(s.pushed, t) && !Reaches(env, s, op, w, t)
  {
    if Mutate(env, s.db, op).Ok? {
      UsersAfterStep(env, s, op, w, t);
      UnusedIsUnreached(env, s, op, w, t);
      UnreachedKeeps(env, s, op, w, t);
    }
  }

  lemma VacatedNext(env: Env, s: State, op: Op, w: Weather, t: Target)
    requires Inv(s) && Vacates(env, s.db, op, t)
    ensures var s' := Step(env, s, op, w).0;
            Unowned(s'.db, t) && !Unowned(s.db, t) && At(s'.pushed, t) == LeftBehind(s, op, w, t)
  {
    UsersAfterStep(env, s, op, w, t);
    VacatedHolds(env, s, op, w, t);
  }

  lemma OwnedNext(env: Env, s: State, op: Op, w: Weather, t: Target)
    requires Inv(s) && !Vacates(env, s.db, op, t) && (!Unowned(s.db, t) || Takes(env, s.db, op, t))
    ensures !Unowned(Step(env, s, op, w).0.db, t)
  {
    if Mutate(env, s.db, op).Ok? {
      UsersAfterStep(env, s, op, w, t);
    }
  }

  /** One step: an orphan is left by exactly these events, and stays as it is until an interface takes its target. */
  lemma OrphanStep(env: Env, s: State, op: Op, w: Weather, t: Target)
    requires Inv(s)
    ensures var s' := Step(env, s, op, w).0;
            && (Orphan(s', t) <==> Leaves(env, s, op, w, t) || (Orphan(s, t) && !Takes(env, s.db, op, t)))
            && (Orphan(s', t) ==>
                 At(s'.pushed, t) == if Leaves(env, s, op, w, t) then LeftBehind(s, op, w, t) else At(s.pushed, t))
  {
    if Vacates(env, s.db, op, t) {
      VacatedNext(env, s, op, w, t);
    } else if Unowned(s.db, t) && !Takes(env, s.db, op, t) {
      UnownedNext(env, s, op, w, t);
    } else {
      OwnedNext(env, s, op, w, t);
    }
  }

  // ---- Runs ----

  /** The event that left something at `t`, if no interface has taken `t` since. */
  function LeftBy(env: Env, events: seq<Event>, t: Target): (k: Option<nat>)
    ensures k.Some? ==> k.value < |events|
  {
    if events == [] then None
    else
      var init, last := events[..|events| - 1], events[|events| - 1];
      var s := Run(env, INITIAL, init);
      if Leaves(env, s, last.op, last.weather, t) then Some(|init|)
      else if Takes(env, s.db, last.op, t) then None
      else LeftBy(env, init, t)
  }

  /**
   Over runs: something is left where no interface uses it exactly when an interface's
   removal did not clear its target, or its connection was changed, and no interface has
   taken the target since; and then it is what that event left.
   */
  lemma {:induction false} OrphansIff(env: Env, events: seq<Event>, t: Target)
    requires FreshRun(env, INITIAL, events)
    ensures var s, k := Run(env, INITIAL, events), LeftBy(env, events, t);
            && (Orphan(s, t) <==> k.Some?)
            && (k.Some? ==>
                 var e := events[k.value];
                 At(s.pushed, t) == LeftBehind(Run(env, INITIAL, events[..k.value]), e.op, e.weather, t))
  {
    if events != [] {
      var init, last := events[..|events| - 1], events[|events| - 1];
      FreshRunPrefix(env, INITIAL, events);
      PushedIsPermittedAsOfLastSync(env, init);
      OrphansIff(env, init, t);
      OrphanStep(env, Run(env, INITIAL, init), last.op, last.weather, t);
      var k := LeftBy(env, init, t);
      assert k.Some? ==> init[..k.value] == events[..k.value];
    }
  }

  /**
   With answering backends only a change of connection leaves anything: what is pushed is
   what the interfaces' rows address, and what changes of connection left.
   */
  lemma CalmOrphansWereMoved(env: Env, events: seq<Event>, t: Target)
    requires FreshRun(env, INITIAL, events) && CalmRun(events)
    ensures var s, k := Run(env, INITIAL, events), LeftBy(env, events, t);
            && (t in s.pushed <==> !Unowned(s.db, t) || k.Some?)
            && (k.Some? ==> events[k.value].op.UpdateInterface?)
  {
    OrphansIff(env, events, t);
    CalmRunsSettle(env, events);
    var s := Run(env, INITIAL, events);
    if !Unowned(s.db, t) {
      var i :| i in s.db.interfaces && TargetOf(s.db.interfaces[i]) == t;
      assert SettledRight(s, i);
    }
    CalmLeftByMove(env, events, t);
  }

  lemma CalmLeavesByMove(env: Env, s: State, op: Op, w: Weather, t: Target)
    requires Calm(w) && Leaves(env, s, op, w, t)
    ensures op.UpdateInterface?
  {
  }

  lemma {:induction false} CalmLeftByMove(env: Env, events: seq<Event>, t: Target)
    requires CalmRun(events)
    ensures var k := LeftBy(env, events, t); k.Some? ==> events[k.value].op.UpdateInterface?
  {
    if events != [] {
      var init, last := events[..|events| - 1], events[|events| - 1];
      CalmLeftByMove(env, init, t);
      if Leaves(env, Run(env, INITIAL, init), last.op, last.weather, t) {
        CalmLeavesByMove(env, Run(env, INITIAL, init), last.op, last.weather, t);
      }
    }
  }

  // ---- How long it stays ----

  /** No call of the run reaches the target. */
  ghost predicate Unreached(env: Env, s: State, events: seq<Event>, t: Target) {
    events == []
    || var init, last := events[..|events| - 1], events[|events| - 1];
       Unreached(env, s, init, t) && !Reaches(env, Run(env, s, init), last.op, last.weather, t)
  }

  /** No interface takes the target in the run. */
  predicate Untaken(env: Env, s: State, events: seq<Event>, t: Target) {
    events == []
    || var init, last := events[..|events| - 1], events[|events| - 1];
       Untaken(env, s, init, t) && !Takes(env, Run(env, s, init).db, last.op, t)
  }

  /** While no call reaches a target it holds what it held. */
  lemma {:induction false} UnreachedStays(env: Env, s: State, events: seq<Event>, t: Target)
    requires Inv(s) && FreshRun(env, s, events) && Unreached(env, s, events, t)
    ensures At(Run(env, s, events).pushed, t) == At(s.pushed, t)
  {
    if events != [] {
      var init, last := events[..|events| - 1], events[|events| - 1];
      FreshRunPrefix(env, s, events);
      RunKeepsInv(env, s, init);
      UnreachedStays(env, s, init, t);
      UnreachedKeeps(env, Run(env, s, init), last.op, last.weather, t);
    }
  }

  /** Some interface that uses the target should have the peer on it. */
  ghost predicate Wanted(db: Db, t: Target, x: PeerSpec) {
    exists i :: i in db.interfaces && TargetOf(db.interfaces[i]) == t && x in DesiredFor(db, i).peers
  }

  predicate Holds(pushed: map<Target, Desired>, t: Target, x: PeerSpec) {
    t in pushed && x in pushed[t].peers
  }

  /** Every call either goes through or does not get to the backend at all. */
  ghost predicate Clean(w: Weather) {
    forall i :: i in w ==> !w[i].ApplyFails?
  }

  /** The peer is not wanted after any event of the run, and no backend stops halfway. */
  ghost predicate Unwanted(env: Env, s: State, events: seq<Event>, t: Target, x: PeerSpec) {
    events == []
    || var init, last := events[..|events| - 1], events[|events| - 1];
       Unwanted(env, s, init, t, x) && Clean(last.weather) && !Wanted(Run(env, s, events).db, t, x)
  }

  /** A call that goes through takes away whatever is not wanted, wherever it came from. */
  lemma ReachedDropsUnwanted(env: Env, s: State, op: Op, w: Weather, t: Target, x: PeerSpec)
    requires Inv(s) && Clean(w) && Reaches(env, s, op, w, t)
    requires !Wanted(Step(env, s, op, w).0.db, t, x)
    ensures !Holds(Step(env, s, op, w).0.pushed, t, x)
  {
    var i :| ReachesBy(env, s, op, w, t, i);
    ReachedHolds(env, s, op, w, t, i);
    StepErrors(env, s, op, w);
    ErrorsKeepWanted(Mutate(env, s.db, op).value, Step(env, s, op, w).0.db, t, x);
  }

  lemma ErrorsKeepWanted(db: Db, db': Db, t: Target, x: PeerSpec)
    requires SameButErrors(db, db')
    ensures Wanted(db', t, x) <==> Wanted(db, t, x)
  {
    forall i | i in db.interfaces
      ensures TargetOf(db'.interfaces[i]) == TargetOf(db.interfaces[i]) && DesiredFor(db', i) == DesiredFor(db, i)
    {
      SameDesired(db, db', i);
    }
  }

  lemma UnwantedNext(env: Env, s: State, op: Op, w: Weather, t: Target, x: PeerSpec)
    requires Inv(s) && Clean(w) && !Wanted(Step(env, s, op, w).0.db, t, x)
    ensures Holds(Step(env, s, op, w).0.pushed, t, x) <==> Holds(s.pushed, t, x) && !Reaches(env, s, op, w, t)
  {
    if Reaches(env, s, op, w, t) {
      ReachedDropsUnwanted(env, s, op, w, t, x);
    } else {
      UnreachedKeeps(env, s, op, w, t);
    }
  }

  /**
   How long an unwanted peer stays on a target, in use or not: a peer that no interface
   using the target wants from now on is there as long as no sync and no removal reaches
   the target, and not longer.
   */
  lemma {:induction false} UnwantedStaysIff(env: Env, s: State, events: seq<Event>, t: Target, x: PeerSpec)
    requires Inv(s) && FreshRun(env, s, events)
    requires Holds(s.pushed, t, x) && Unwanted(env, s, events, t, x)
    ensures Holds(Run(env, s, events).pushed, t, x) <==> Unreached(env, s, events, t)
  {
    if events != [] {
      var init, last := events[..|events| - 1], events[|events| - 1];
      FreshRunPrefix(env, s, events);
      RunKeepsInv(env, s, init);
      UnwantedStaysIff(env, s, init, t, x);
      UnwantedNext(env, Run(env, s, init), last.op, last.weather, t, x);
    }
  }

  /**
   What an interface leaves behind, nothing reaches before another interface takes the
   target: one of the same name on the same connection.
   */
  lemma {:induction false} UntakenIsUnreached(env: Env, s: State, events: seq<Event>, t: Target)
    requires Inv(s) && FreshRun(env, s, events) && Unowned(s.db, t) && Untaken(env, s, events, t)
    ensures Unowned(Run(env, s, events).db, t) && Unreached(env, s, events, t)
    ensures At(Run(env, s, events).pushed, t) == At(s.pushed, t)
  {
    if events != [] {
      var init, last := events[..|events| - 1], events[|events| - 1];
      FreshRunPrefix(env, s, events);
      RunKeepsInv(env, s, init);
      UntakenIsUnreached(env, s, init, t);
      UnownedNext(env, Run(env, s, init), last.op, last.weather, t);
    }
  }
}
