/** Syncing writes nothing to the database but the recorded error of each interface. */
module SyncFrames {
  import opened Reconcile
  import opened Store

  ghost predicate SameButErrors(db: Db, db': Db) {
    && db' == db.(interfaces := db'.interfaces)
    && db'.interfaces.Keys == db.interfaces.Keys
    && forall i :: i in db.interfaces ==>
         db'.interfaces[i] == db.interfaces[i].(lastError := db'.interfaces[i].lastError)
  }

  lemma SyncOneErrors(s: State, i: Id, w: Weather)
    ensures SameButErrors(s.db, SyncOne(s, i, w).0.db)
  {
    var db' := SyncOne(s, i, w).0.db;
    if i in s.db.interfaces {
      assert s.db.interfaces.Keys + {i} == s.db.interfaces.Keys;
    }
  }

  lemma {:induction false} SyncEachErrors(s: State, ids: seq<Id>, w: Weather)
    ensures SameButErrors(s.db, SyncEach(s, ids, w).db)
  {
    if ids != [] {
      SyncEachErrors(s, ids[..|ids| - 1], w);
      SyncOneErrors(SyncEach(s, ids[..|ids| - 1], w), ids[|ids| - 1], w);
    }
  }

  lemma {:induction false} SyncUntilFailureErrors(s: State, ids: seq<Id>, w: Weather)
    ensures SameButErrors(s.db, SyncUntilFailure(s, ids, w).0.db)
  {
    if ids != [] {
      SyncUntilFailureErrors(s, ids[..|ids| - 1], w);
      SyncOneErrors(SyncUntilFailure(s, ids[..|ids| - 1], w).0, ids[|ids| - 1], w);
    }
  }

  /** A step is its write followed by nothing but error records. */
  lemma StepErrors(env: Env, s: State, op: Op, w: Weather)
    ensures match Mutate(env, s.db, op)
            case Ok(db') => SameButErrors(db', Step(env, s, op, w).0.db)
            case Err(_) => Step(env, s, op, w).0 == s
  {
    if Mutate(env, s.db, op).Ok? {
      var s' := Written(s, Mutate(env, s.db, op).value, op);
      match PlanOf(s.db, op)
      case Nothing =>
      case One(i) => SyncOneErrors(s', i, w);
      case Each(ids) => SyncEachErrors(s', ids, w);
      case All => SyncUntilFailureErrors(s', s'.db.order, w);
      case TearDown(_, _) =>
    }
  }
}
