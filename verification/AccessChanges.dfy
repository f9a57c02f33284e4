/** When a change of access takes hold on the backends, whatever becomes of the syncs. */
module AccessChanges {
  import opened Convergence
  import opened FailingSyncs
  import opened Reconcile
  import opened ReconcileRuns
  import opened Sequences
  import opened Store
  import opened StoreFacts
  import opened Wrappers

  // ---- Groups ----

  /** The write changes whether some device is active on the interface. */
  ghost predicate ActivityMoves(db: Db, db': Db, j: Id)
    requires j in db.interfaces && j in db'.interfaces
  {
    exists k :: 0 <= k < |db.peers| && ActiveOn(db, j)(db.peers[k]) != ActiveOn(db', j)(db.peers[k])
  }

  /**
   Group edits report success whatever the syncs do.  What one does on each interface that
   was converged: its fate depends on its own sync only, and where that one cannot be built
   the edit takes hold exactly when it changes no device's standing there; an interface
   that does not list the group stays converged.
   */
  lemma GroupEditTakesHold(env: Env, s: State, op: Op, w: Weather, j: Id)
    requires Inv(s) && (op.UpdateGroup? || op.DeleteGroup?) && Mutate(env, s.db, op).Ok? && Converged(s, j)
    ensures var m := Written(s, Mutate(env, s.db, op).value, op);
            var (s', ok) := Step(env, s, op, w);
            && ok && j in m.db.interfaces
            && Fate(s, m, s', j in Listing(s.db, op.id), w, j)
            && (SameWish(s.db, m.db, j) <==> !ActivityMoves(s.db, m.db, j))
            && (j !in Listing(s.db, op.id) ==> Converged(s', j))
  {
    GroupFate(env, s, op, w, j);
    GroupWish(env, s.db, op, j);
    GroupEditSucceeds(env, s, op, w);
    UnlistedStays(env, s, op, w, j);
  }

  lemma GroupWish(env: Env, db: Db, op: Op, j: Id)
    requires ValidDb(db) && (op.UpdateGroup? || op.DeleteGroup?) && Mutate(env, db, op).Ok? && j in db.interfaces
    ensures var db' := Mutate(env, db, op).value;
            j in db'.interfaces && (SameWish(db, db', j) <==> !ActivityMoves(db, db', j))
  {
    GroupWriteIs(env, db, op);
    DesiredDiffersIff(db, Mutate(env, db, op).value, j);
  }

  lemma GroupEditSucceeds(env: Env, s: State, op: Op, w: Weather)
    requires (op.UpdateGroup? || op.DeleteGroup?) && Mutate(env, s.db, op).Ok?
    ensures Step(env, s, op, w).1
  {
  }

  lemma UnlistedStays(env: Env, s: State, op: Op, w: Weather, j: Id)
    requires Inv(s) && (op.UpdateGroup? || op.DeleteGroup?) && Mutate(env, s.db, op).Ok? && Converged(s, j)
    ensures j !in Listing(s.db, op.id) ==> Converged(Step(env, s, op, w).0, j)
  {
    GroupHandler(env, s, op, w);
  }

  lemma GroupFate(env: Env, s: State, op: Op, w: Weather, j: Id)
    requires Inv(s) && (op.UpdateGroup? || op.DeleteGroup?) && Mutate(env, s.db, op).Ok? && Converged(s, j)
    ensures var m := Written(s, Mutate(env, s.db, op).value, op);
            j in m.db.interfaces && Fate(s, m, Step(env, s, op, w).0, j in Listing(s.db, op.id), w, j)
  {
    GroupWriteIs(env, s.db, op);
    GroupSyncs(s, Written(s, Mutate(env, s.db, op).value, op), op, w, j);
    StepFate(env, s, op, w, j);
  }

  lemma GroupSyncs(s: State, m: State, op: Op, w: Weather, j: Id)
    requires ForeignKeys(s.db) && (op.UpdateGroup? || op.DeleteGroup?)
    ensures j in Syncs(m, PlanOf(s.db, op), w) <==> j in Listing(s.db, op.id)
  {
    ListingIs(s.db, op.id);
    assert j in Filter(s.db.order, Lists(s.db, op.id)) <==> j in Elems(Filter(s.db.order, Lists(s.db, op.id)));
  }

  // ---- Bans, revocations, deletions of users ----

  /** The handlers that change one user and then sync every interface, up to a failure. */
  predicate UserLevel(op: Op) {
    op.SetBanned? || op.SetRevoked? || op.DeleteUser?
  }

  /** They take something away from the user. */
  predicate Drops(op: Op) {
    (op.SetBanned? && op.flag) || (op.SetRevoked? && op.flag) || op.DeleteUser?
  }

  /** The user has a device that `i` should hold. */
  ghost predicate HasActive(db: Db, user: Id, i: Id)
    requires i in db.interfaces
  {
    exists k :: 0 <= k < |db.peers| && db.peers[k].userId == Some(user) && ActiveOn(db, i)(db.peers[k])
  }

  /** A device is judged differently only if it is the user's, and all of the user's devices lose or gain alike. */
  lemma FlagJudgement(env: Env, db: Db, op: Op, i: Id, k: nat)
    requires ForeignKeys(db) && (op.SetBanned? || op.SetRevoked?) && i in db.interfaces && k < |db.peers|
    ensures var db' := Mutate(env, db, op).value;
            var now, was, own := ActiveOn(db', i)(db.peers[k]), ActiveOn(db, i)(db.peers[k]),
                db.peers[k].userId == Some(op.id);
            && (now != was ==> own)
            && (own && now && !was ==> !HasActive(db, op.id, i))
            && (own && was && !now ==> !HasActive(db', op.id, i))
  {
  }

  lemma FlagMatters(env: Env, db: Db, op: Op, i: Id)
    requires ValidDb(db) && (op.SetBanned? || op.SetRevoked?) && i in db.interfaces
    ensures var db' := Mutate(env, db, op).value;
            SameWish(db, db', i) <==> HasActive(db, op.id, i) == HasActive(db', op.id, i)
  {
    var db' := Mutate(env, db, op).value;
    DesiredDiffersIff(db, db', i);
    forall k | 0 <= k < |db.peers|
      ensures ActiveOn(db', i)(db.peers[k]) != ActiveOn(db, i)(db.peers[k])
          ==> HasActive(db, op.id, i) != HasActive(db', op.id, i)
    {
      FlagJudgement(env, db, op, i, k);
    }
  }

  /** Active on `i` and not the user's. */
  function ActiveOfOthers(db: Db, user: Id, i: Id): Peer -> bool
    requires i in db.interfaces
  {
    (p: Peer) => NotOwnedBy(user)(p) && ActiveOn(db, i)(p)
  }

  function WithoutUser(db: Db, user: Id): Db {
    db.(users := db.users - {user}, claims := map k | k in db.claims && k.0 != user :: db.claims[k],
        peers := Filter(db.peers, NotOwnedBy(user)))
  }

  lemma OthersKeepClaims(db: Db, user: Id, other: Id)
    requires other != user
    ensures ClaimGroups(WithoutUser(db, user).claims, other) == ClaimGroups(db.claims, other)
  {
    forall g ensures g in ClaimGroups(WithoutUser(db, user).claims, other) <==> g in ClaimGroups(db.claims, other) {
      if g in ClaimGroups(db.claims, other) {
        var c, n :| c in db.claims && c.0 == other && 0 <= n < |db.claims[c]| && db.claims[c][n] == g;
        assert c in WithoutUser(db, user).claims;
      }
    }
  }

  lemma OthersAreKept(db: Db, user: Id, i: Id)
    requires i in db.interfaces
    ensures Filter(WithoutUser(db, user).peers, ActiveOn(WithoutUser(db, user), i))
         == Filter(db.peers, ActiveOfOthers(db, user, i))
  {
    var db' := WithoutUser(db, user);
    forall k | 0 <= k < |db.peers|
      ensures ActiveOfOthers(db, user, i)(db.peers[k])
         <==> NotOwnedBy(user)(db.peers[k]) && ActiveOn(db', i)(db.peers[k])
    {
      if db.peers[k].userId.Some? && db.peers[k].userId != Some(user) {
        OthersKeepClaims(db, user, db.peers[k].userId.value);
      }
    }
    KeptTwice(db.peers, NotOwnedBy(user), ActiveOn(db', i), ActiveOfOthers(db, user, i));
  }

  lemma KeptTwice(rows: seq<Peer>, first: Peer -> bool, second: Peer -> bool, both: Peer -> bool)
    requires forall k :: 0 <= k < |rows| ==> both(rows[k]) == (first(rows[k]) && second(rows[k]))
    ensures Filter(Filter(rows, first), second) == Filter(rows, both)
  {
    FilterTwice(rows, first, both);
    FilterMembers(rows, first);
    FilterAgree(Filter(rows, first), second, both);
  }

  lemma DeletionMatters(db: Db, user: Id, i: Id)
    requires i in db.interfaces
    ensures !HasActive(WithoutUser(db, user), user, i)
    ensures SameWish(db, WithoutUser(db, user), i) <==> !HasActive(db, user, i)
  {
    FilterMembers(db.peers, NotOwnedBy(user));
    OthersAreKept(db, user, i);
    if HasActive(db, user, i) {
      StrictlyFewer(db.peers, ActiveOfOthers(db, user, i), ActiveOn(db, i));
    } else {
      FilterAgree(db.peers, ActiveOfOthers(db, user, i), ActiveOn(db, i));
    }
  }

  /**
   A change of one user changes what an interface should hold exactly when it changes
   whether the user has an active device there.
   */
  lemma UserChangeMatters(env: Env, db: Db, op: Op, i: Id)
    requires ValidDb(db) && UserLevel(op) && i in db.interfaces
    ensures var db' := Mutate(env, db, op).value;
            && i in db'.interfaces
            && (SameWish(db, db', i) <==> HasActive(db, op.id, i) == HasActive(db', op.id, i))
            && (Drops(op) ==> !HasActive(db', op.id, i))
  {
    if op.DeleteUser? {
      DeletionMatters(db, op.id, i);
    } else {
      FlagMatters(env, db, op, i);
    }
  }

  lemma StartedIffReached(db: Db, w: Weather, failed: Option<nat>, m: nat)
    requires ForeignKeys(db) && m < |db.order| && FirstFailure(db.order, w, failed)
    ensures db.order[m] in Started(db.order, failed) <==> Reached(db.order, w, m)
  {
    var started := Started(db.order, failed);
    if Reached(db.order, w, m) {
      assert started[m] == db.order[m];
    } else {
      assert failed.Some? && failed.value < m;
      forall k | 0 <= k < |started| ensures started[k] != db.order[m] {
        assert db.order[k] != db.order[m];
      }
    }
  }

  lemma ReachedAreStarted(written: State, order: seq<Id>, w: Weather, m: nat)
    requires ForeignKeys(written.db) && written.db.order == order && m < |order|
    ensures order[m] in Syncs(written, All, w) <==> Reached(order, w, m)
  {
    AbortPoint(written, order, w);
    StartedIffReached(written.db, w, SyncUntilFailure(written, order, w).1, m);
  }

  /**
   Bans, revocations, deletions of users and their reversals: what each does on every
   interface that was converged, and when the handler reports success.  Where the
   aborting sync does not get, or the backend cannot be built, the change takes hold
   exactly when it does not change whether the user has an active device there.
   */
  lemma UserChangeTakesHold(env: Env, s: State, op: Op, w: Weather, m: nat)
    requires Inv(s) && UserLevel(op) && m < |s.db.order| && Converged(s, s.db.order[m])
    ensures var written, j := Written(s, Mutate(env, s.db, op).value, op), s.db.order[m];
            var (s', ok) := Step(env, s, op, w);
            && (ok <==> Reached(s.db.order, w, |s.db.order|))
            && j in written.db.interfaces && Fate(s, written, s', Reached(s.db.order, w, m), w, j)
            && (SameWish(s.db, written.db, j) <==> HasActive(s.db, op.id, j) == HasActive(written.db, op.id, j))
  {
    var j := s.db.order[m];
    var written := Written(s, Mutate(env, s.db, op).value, op);
    UserChangeMatters(env, s.db, op, j);
    StepFate(env, s, op, w, j);
    StepSyncsAll(env, s, op, w);
    MutateKeepsValid(env, s.db, op);
    ReachedAreStarted(written, s.db.order, w, m);
  }

  /**
   In short, for a ban, a revocation or a deletion and an interface whose own backend
   applies or cannot be built: it takes hold exactly when every sync up to and including
   the interface's own went through, or the user had no active device there.
   */
  lemma DropTakesHoldIff(env: Env, s: State, op: Op, w: Weather, m: nat)
    requires Inv(s) && Drops(op) && m < |s.db.order| && Converged(s, s.db.order[m])
    requires !OutcomeOf(w, s.db.order[m]).ApplyFails?
    ensures Converged(Step(env, s, op, w).0, s.db.order[m])
       <==> Reached(s.db.order, w, m + 1) || !HasActive(s.db, op.id, s.db.order[m])
  {
    UserChangeTakesHold(env, s, op, w, m);
    UserChangeMatters(env, s.db, op, s.db.order[m]);
  }
}
