/** Pushed equals permitted, over whole runs. */
module ReconcileRuns {
  import opened Frames
  import opened Reconcile
  import opened Sequences
  import opened Store
  import opened StoreFacts
  import opened Wrappers

  // ---- One write ----

  /** The write leaves the interface's desired state, judged by the facts `f`, as it was. */
  ghost predicate Undisturbed(db: Db, db': Db, i: Id, f: Facts) {
    && i in db.interfaces && i in db'.interfaces
    && TargetOf(db'.interfaces[i]) == TargetOf(db.interfaces[i])
    && DesiredFor(AsOf(db', f), i) == DesiredFor(AsOf(db, f), i)
    && OwnersKnown(db', i, f)
  }

  ghost predicate Elsewhere(env: Env, db: Db, op: Op, i: Id, f: Facts) {
    && ValidDb(db) && FreshIds(db, op)
    && Mutate(env, db, op).Ok?
    && i in db.interfaces && i in Mutate(env, db, op).value.interfaces
    && !Planned(db, op, i)
    && OwnersKnown(db, i, f)
  }

  lemma InterfaceWritesElsewhere(env: Env, db: Db, op: Op, i: Id, f: Facts)
    requires Elsewhere(env, db, op, i, f)
    requires op.CreateInterface? || op.UpdateInterface? || op.DeleteInterface? || op.Resync? || op.Restart?
    ensures Undisturbed(db, Mutate(env, db, op).value, i, f)
  {
    var db' := Mutate(env, db, op).value;
    if op.CreateInterface? || op.UpdateInterface? {
      InterfaceFrame(AsOf(db, f), op.id, db'.interfaces[op.id], db'.order, i);
      assert AsOf(db', f) == AsOf(db, f).(interfaces := db.interfaces[op.id := db'.interfaces[op.id]],
          order := db'.order);
    } else if op.DeleteInterface? {
      DeleteInterfaceFrame(AsOf(db, f), op.id, i, db'.order);
      KeptRowsKnown(db, NotOn(op.id), i, f);
    }
  }

  lemma KeptRowsKnown(db: Db, keep: Peer -> bool, i: Id, f: Facts)
    requires OwnersKnown(db, i, f)
    ensures OwnersKnown(db.(peers := Filter(db.peers, keep)), i, f)
  {
    FilterMembers(db.peers, keep);
  }

  lemma DeviceInsertsElsewhere(env: Env, db: Db, op: Op, i: Id, f: Facts)
    requires Elsewhere(env, db, op, i, f)
    requires op.CreatePeer? || op.CreateUnconfigured?
    ensures Undisturbed(db, Mutate(env, db, op).value, i, f)
  {
    var db' := Mutate(env, db, op).value;
    AppendFrame(AsOf(db, f), db'.peers[|db.peers|], i);
    assert AsOf(db', f) == AsOf(db, f).(peers := db.peers + [db'.peers[|db.peers|]]);
  }

  lemma DeviceChangesElsewhere(env: Env, db: Db, op: Op, i: Id, f: Facts)
    requires Elsewhere(env, db, op, i, f)
    requires op.RenamePeer? || op.RegeneratePeer?
    ensures Undisturbed(db, Mutate(env, db, op).value, i, f)
  {
    var db' := Mutate(env, db, op).value;
    var k := First(db.peers, WithId(op.id)).value;
    RevisionFrame(AsOf(db, f), op.id, k, db'.peers[k], i);
    assert db'.peers == Revised(db.peers, op.id, db'.peers[k]);
    assert AsOf(db', f) == AsOf(db, f).(peers := db'.peers);
    RevisedOwnersKnown(db, op.id, k, db'.peers[k], i, f);
  }

  lemma RevisedOwnersKnown(db: Db, id: Id, k: nat, p': Peer, i: Id, f: Facts)
    requires OwnersKnown(db, i, f) && PeersUnique(db.peers) && k < |db.peers| && db.peers[k].id == id
    requires p'.interfaceId == db.peers[k].interfaceId && p'.userId == db.peers[k].userId
    requires p'.interfaceId != i || p'.publicKey == db.peers[k].publicKey
    ensures OwnersKnown(db.(peers := Revised(db.peers, id, p')), i, f)
  {
    forall j | 0 <= j < |db.peers| && j != k ensures db.peers[j].id != id {
      assert PeersApart(db.peers[if j < k then j else k], db.peers[if j < k then k else j]);
    }
  }

  lemma DeviceDeletionElsewhere(env: Env, db: Db, op: Op, i: Id, f: Facts)
    requires Elsewhere(env, db, op, i, f)
    requires op.DeletePeer?
    ensures Undisturbed(db, Mutate(env, db, op).value, i, f)
  {
    var k := First(db.peers, WithId(op.id)).value;
    forall j | 0 <= j < |db.peers| && db.peers[j].interfaceId == i ensures WithoutId(op.id)(db.peers[j]) {
      if j != k {
        assert PeersApart(db.peers[if j < k then j else k], db.peers[if j < k then k else j]);
      }
    }
    RemovalFrame(AsOf(db, f), WithoutId(op.id), i);
    KeptRowsKnown(db, WithoutId(op.id), i, f);
  }

  lemma GroupWritesElsewhere(env: Env, db: Db, op: Op, i: Id, f: Facts)
    requires Elsewhere(env, db, op, i, f)
    requires op.CreateGroup? || op.UpdateGroup? || op.DeleteGroup?
    ensures Undisturbed(db, Mutate(env, db, op).value, i, f)
  {
    if !op.CreateGroup? {
      UnplannedDoesNotList(db, op, i);
    }
    GroupWriteIs(env, db, op);
    GroupChangeUndisturbing(db, op.id, Mutate(env, db, op).value.groups, i, f);
  }

  lemma GroupWriteIs(env: Env, db: Db, op: Op)
    requires Mutate(env, db, op).Ok? && (op.CreateGroup? || op.UpdateGroup? || op.DeleteGroup?)
    ensures var db' := Mutate(env, db, op).value;
            db' == db.(groups := db'.groups) && db.groups - {op.id} == db'.groups - {op.id}
  {
  }

  /** Every interface that lists the group is planned. */
  lemma UnplannedDoesNotList(db: Db, op: Op, i: Id)
    requires op.UpdateGroup? || op.DeleteGroup?
    requires i in db.interfaces && i in db.order && !Planned(db, op, i)
    ensures op.id !in db.interfaces[i].groupIds
  {
    InFilter(db.order, Lists(db, op.id), i);
  }

  lemma GroupChangeUndisturbing(db: Db, g: Id, groups': map<Id, Group>, i: Id, f: Facts)
    requires i in db.interfaces && OwnersKnown(db, i, f) && g !in db.interfaces[i].groupIds
    requires db.groups - {g} == groups' - {g}
    ensures Undisturbed(db, db.(groups := groups'), i, f)
  {
    GroupFrame(AsOf(db, f), g, groups', i);
    assert AsOf(db.(groups := groups'), f) == AsOf(db, f).(groups := groups');
  }

  lemma NewUserElsewhere(env: Env, db: Db, op: Op, i: Id, f: Facts)
    requires Elsewhere(env, db, op, i, f) && op.UpsertUser?
    ensures Undisturbed(db, Mutate(env, db, op).value, i, f)
  {
    var db' := Mutate(env, db, op).value;
    if db' != db {
      NewUserFrame(db, op.id, db'.users[op.id], f, i);
    }
  }

  lemma LoginElsewhere(env: Env, db: Db, op: Op, i: Id, f: Facts)
    requires Elsewhere(env, db, op, i, f) && op.Login?
    ensures Undisturbed(db, Mutate(env, db, op).value, i, f)
  {
    var db' := Mutate(env, db, op).value;
    LoginFrame(db, op.id, db'.users[op.id].liveUntil, db'.claims, db.clock, f, i);
  }

  lemma TickElsewhere(env: Env, db: Db, op: Op, i: Id, f: Facts)
    requires Elsewhere(env, db, op, i, f) && op.Tick?
    ensures Undisturbed(db, Mutate(env, db, op).value, i, f)
  {
    assert AsOf(Mutate(env, db, op).value, f) == AsOf(db, f);
  }

  /** Whatever the handler, interfaces it does not plan to sync are left undisturbed by its write. */
  lemma WriteUndisturbing(env: Env, db: Db, op: Op, i: Id, f: Facts)
    requires Elsewhere(env, db, op, i, f)
    ensures Undisturbed(db, Mutate(env, db, op).value, i, f)
  {
    if op.CreateInterface? || op.UpdateInterface? || op.DeleteInterface? || op.Resync? || op.Restart? {
      InterfaceWritesElsewhere(env, db, op, i, f);
    } else if op.CreatePeer? || op.CreateUnconfigured? {
      DeviceInsertsElsewhere(env, db, op, i, f);
    } else if op.RenamePeer? || op.RegeneratePeer? {
      DeviceChangesElsewhere(env, db, op, i, f);
    } else if op.DeletePeer? {
      DeviceDeletionElsewhere(env, db, op, i, f);
    } else if op.CreateGroup? || op.UpdateGroup? || op.DeleteGroup? {
      GroupWritesElsewhere(env, db, op, i, f);
    } else if op.UpsertUser? {
      NewUserElsewhere(env, db, op, i, f);
    } else if op.Login? {
      LoginElsewhere(env, db, op, i, f);
    } else if op.Tick? {
      TickElsewhere(env, db, op, i, f);
    }
  }

  // ---- The invariant ----

  /** The backend holds what is permitted, judged by the login facts of the interface's last sync. */
  ghost predicate SettledRight(s: State, i: Id) {
    && i in s.db.interfaces && i in s.settled
    && At(s.pushed, TargetOf(s.db.interfaces[i])) == Some(DesiredFor(AsOf(s.db, s.settled[i]), i))
    && OwnersKnown(s.db, i, s.settled[i])
  }

  ghost predicate Inv(s: State) {
    && ValidDb(s.db)
    && forall i :: i in s.settled ==> SettledRight(s, i)
  }

  lemma ErrorFrame(db: Db, i: Id, e: Option<string>, f: Facts, j: Id)
    requires i in db.interfaces && j in db.interfaces
    ensures DesiredFor(AsOf(RecordError(db, i, e), f), j) == DesiredFor(AsOf(db, f), j)
    ensures OwnersKnown(RecordError(db, i, e), j, f) <==> OwnersKnown(db, j, f)
  {
    SameDesired(AsOf(db, f), AsOf(RecordError(db, i, e), f), j);
  }

  lemma AsOfNow(db: Db)
    ensures AsOf(db, FactsOf(db)) == db
  {
    assert AsOf(db, FactsOf(db)).users == db.users;
  }

  lemma SyncOneKeepsInv(s: State, i: Id, w: Weather)
    requires Inv(s)
    ensures Inv(SyncOne(s, i, w).0)
  {
    var s' := SyncOne(s, i, w).0;
    if i in s.db.interfaces && !OutcomeOf(w, i).BuildFails? {
      RecordKeepsValid(s.db, i, s'.db.interfaces[i].lastError);
      forall j | j in s'.settled ensures SettledRight(s', j) {
        if j != i {
          OtherStaysRight(s, i, w, j);
        } else {
          SyncedIsRight(s, i, w);
        }
      }
    }
  }

  lemma RecordKeepsValid(db: Db, i: Id, e: Option<string>)
    requires ValidDb(db) && i in db.interfaces
    ensures ValidDb(RecordError(db, i, e))
  {
  }

  lemma SyncedIsRight(s: State, i: Id, w: Weather)
    requires ValidDb(s.db) && i in s.db.interfaces && OutcomeOf(w, i) == Applied
    ensures SettledRight(SyncOne(s, i, w).0, i)
  {
    ErrorFrame(s.db, i, None, FactsOf(s.db), i);
    AsOfNow(s.db);
  }

  lemma OtherStaysRight(s: State, i: Id, w: Weather, j: Id)
    requires i in s.db.interfaces && j in s.settled && SettledRight(s, j) && i != j && NamesUnique(s.db)
    requires !OutcomeOf(w, i).BuildFails?
    ensures SettledRight(SyncOne(s, i, w).0, j)
  {
    ErrorFrame(s.db, i, SyncOne(s, i, w).0.db.interfaces[i].lastError, s.settled[j], j);
  }

  lemma {:induction false} SyncEachKeepsInv(s: State, ids: seq<Id>, w: Weather)
    requires Inv(s)
    ensures Inv(SyncEach(s, ids, w))
  {
    if ids != [] {
      SyncEachKeepsInv(s, ids[..|ids| - 1], w);
      SyncOneKeepsInv(SyncEach(s, ids[..|ids| - 1], w), ids[|ids| - 1], w);
    }
  }

  lemma {:induction false} SyncUntilFailureKeepsInv(s: State, ids: seq<Id>, w: Weather)
    requires Inv(s)
    ensures Inv(SyncUntilFailure(s, ids, w).0)
  {
    if ids != [] {
      SyncUntilFailureKeepsInv(s, ids[..|ids| - 1], w);
      SyncOneKeepsInv(SyncUntilFailure(s, ids[..|ids| - 1], w).0, ids[|ids| - 1], w);
    }
  }

  /** No interface uses the target. */
  ghost predicate Unowned(db: Db, t: Target) {
    forall i :: i in db.interfaces ==> TargetOf(db.interfaces[i]) != t
  }

  /** Names are unique, so no other interface uses the target of a deleted one. */
  lemma TornDownIsUnowned(env: Env, db: Db, op: Op)
    requires NamesUnique(db) && Mutate(env, db, op).Ok? && PlanOf(db, op).TearDown?
    ensures Unowned(Mutate(env, db, op).value, PlanOf(db, op).target)
  {
  }

  lemma PerformKeepsInv(s: State, plan: Plan, w: Weather)
    requires Inv(s) && (plan.TearDown? ==> Unowned(s.db, plan.target))
    ensures Inv(Perform(s, plan, w).0)
  {
    match plan
    case Nothing =>
    case One(i) => SyncOneKeepsInv(s, i, w);
    case Each(ids) => SyncEachKeepsInv(s, ids, w);
    case All => SyncUntilFailureKeepsInv(s, s.db.order, w);
    case TearDown(_, _) =>
      forall j | j in s.settled ensures SettledRight(Perform(s, plan, w).0, j) {
        assert SettledRight(s, j);
      }
  }

  /** Only a deletion takes an interface away. */
  lemma InterfacesStay(env: Env, db: Db, op: Op)
    requires Mutate(env, db, op).Ok?
    ensures db.interfaces.Keys - (if op.DeleteInterface? then {op.id} else {})
         <= Mutate(env, db, op).value.interfaces.Keys
  {
  }

  lemma WrittenKeepsRight(env: Env, s: State, op: Op, i: Id)
    requires Inv(s) && FreshIds(s.db, op) && Mutate(env, s.db, op).Ok?
    requires i in Written(s, Mutate(env, s.db, op).value, op).settled
    ensures SettledRight(Written(s, Mutate(env, s.db, op).value, op), i)
  {
    assert SettledRight(s, i);
    WriteUndisturbing(env, s.db, op, i, s.settled[i]);
    InterfacesStay(env, s.db, op);
  }

  lemma WrittenKeepsInv(env: Env, s: State, op: Op)
    requires Inv(s) && FreshIds(s.db, op) && Mutate(env, s.db, op).Ok?
    ensures Inv(Written(s, Mutate(env, s.db, op).value, op))
  {
    MutateKeepsValid(env, s.db, op);
    InterfacesStay(env, s.db, op);
    forall i | i in Written(s, Mutate(env, s.db, op).value, op).settled
      ensures SettledRight(Written(s, Mutate(env, s.db, op).value, op), i)
    {
      WrittenKeepsRight(env, s, op, i);
    }
  }

  lemma StepKeepsInv(env: Env, s: State, op: Op, w: Weather)
    requires Inv(s) && FreshIds(s.db, op)
    ensures Inv(Step(env, s, op, w).0)
  {
    if Mutate(env, s.db, op).Ok? {
      WrittenKeepsInv(env, s, op);
      if PlanOf(s.db, op).TearDown? {
        TornDownIsUnowned(env, s.db, op);
      }
      PerformKeepsInv(Written(s, Mutate(env, s.db, op).value, op), PlanOf(s.db, op), w);
    }
  }

  lemma FreshRunPrefix(env: Env, s: State, events: seq<Event>)
    requires FreshRun(env, s, events) && events != []
    ensures FreshRun(env, s, events[..|events| - 1])
    ensures FreshIds(Run(env, s, events[..|events| - 1]).db, events[|events| - 1].op)
  {
    var init := events[..|events| - 1];
    forall k | 0 <= k < |init| ensures FreshIds(Run(env, s, init[..k]).db, init[k].op) {
      assert init[..k] == events[..k];
    }
  }

  lemma {:induction false} RunKeepsInv(env: Env, s: State, events: seq<Event>)
    requires Inv(s) && FreshRun(env, s, events)
    ensures Inv(Run(env, s, events))
  {
    if events != [] {
      FreshRunPrefix(env, s, events);
      RunKeepsInv(env, s, events[..|events| - 1]);
      var last := events[|events| - 1];
      StepKeepsInv(env, Run(env, s, events[..|events| - 1]), last.op, last.weather);
    }
  }

  /**
   In every state of every run, whatever logins, time steps and backend failures it has:
   each interface whose latest planned sync went through holds exactly what is permitted
   now, judged by the login facts that sync saw.
   */
  lemma PushedIsPermittedAsOfLastSync(env: Env, events: seq<Event>)
    requires FreshRun(env, INITIAL, events)
    ensures Inv(Run(env, INITIAL, events))
  {
    RunKeepsInv(env, INITIAL, events);
  }
}
