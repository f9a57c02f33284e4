/** Syncs that fail: which interfaces a handler brings to what they should hold, and which it leaves alone. */
module FailingSyncs {
  import opened Convergence
  import opened Frames
  import opened Reconcile
  import opened ReconcileRuns
  import opened Sequences
  import opened Store
  import opened StoreFacts
  import opened SyncFrames
  import opened Wrappers

  /** Neither the backend nor the interface row (with its recorded error) was touched. */
  ghost predicate LeftAlone(s: State, s': State, i: Id) {
    && i in s.db.interfaces && i in s'.db.interfaces
    && s'.db.interfaces[i] == s.db.interfaces[i]
    && At(s'.pushed, TargetOf(s.db.interfaces[i])) == At(s.pushed, TargetOf(s.db.interfaces[i]))
  }

  lemma SyncKeepsDesired(s: State, i: Id, w: Weather, j: Id)
    requires j in s.db.interfaces
    ensures j in SyncOne(s, i, w).0.db.interfaces
    ensures DesiredFor(SyncOne(s, i, w).0.db, j) == DesiredFor(s.db, j)
  {
    var s' := SyncOne(s, i, w).0;
    SameDesired(s.db, s'.db, j);
  }

  /** The backend was left with what remained of a failed apply, and the failure is recorded. */
  ghost predicate HoldsRemains(s: State, i: Id, remains: Option<Desired>, message: string) {
    && i in s.db.interfaces && s.db.interfaces[i].lastError == Some(message)
    && At(s.pushed, TargetOf(s.db.interfaces[i])) == remains
  }

  /** What syncs that were started on `done` have made of interface `j`. */
  ghost predicate Result(s: State, s': State, done: seq<Id>, w: Weather, j: Id) {
    && j in s.db.interfaces && j in s'.db.interfaces
    && DesiredFor(s'.db, j) == DesiredFor(s.db, j)
    && (if j !in done then LeftAlone(s, s', j)
        else match OutcomeOf(w, j)
          case Applied => Converged(s', j) && s'.db.interfaces[j].lastError == None
          case BuildFails => LeftAlone(s, s', j)
          case ApplyFails(remains, message) => HoldsRemains(s', j, remains, message))
  }

  /** Names are unique, so the sync of one interface does not reach the target of another. */
  lemma SyncLeavesOthersAlone(s: State, i: Id, w: Weather, j: Id)
    requires NamesUnique(s.db) && i != j && j in s.db.interfaces
    ensures LeftAlone(s, SyncOne(s, i, w).0, j)
  {
    if i in s.db.interfaces {
      assert TargetOf(s.db.interfaces[i]) != TargetOf(s.db.interfaces[j]);
    }
  }

  lemma LeftAloneStays(s: State, s': State, i: Id)
    requires LeftAlone(s, s', i) && DesiredFor(s'.db, i) == DesiredFor(s.db, i)
    ensures Converged(s', i) <==> Converged(s, i)
    ensures forall remains, message :: HoldsRemains(s', i, remains, message) <==> HoldsRemains(s, i, remains, message)
  {
  }

  lemma ResultOfAnother(s: State, m: State, done: seq<Id>, i: Id, w: Weather, j: Id)
    requires Result(s, m, done, w, j) && i != j && NamesUnique(m.db)
    ensures Result(s, SyncOne(m, i, w).0, done + [i], w, j)
  {
    SyncLeavesOthersAlone(m, i, w, j);
    SyncKeepsDesired(m, i, w, j);
    LeftAloneStays(m, SyncOne(m, i, w).0, j);
    assert j in done + [i] <==> j in done;
  }

  lemma ResultOfOwn(s: State, m: State, done: seq<Id>, w: Weather, j: Id)
    requires Result(s, m, done, w, j)
    ensures Result(s, SyncOne(m, j, w).0, done + [j], w, j)
  {
    SyncKeepsDesired(m, j, w, j);
  }

  lemma ResultAppend(s: State, m: State, done: seq<Id>, i: Id, w: Weather, j: Id)
    requires Result(s, m, done, w, j) && NamesUnique(m.db)
    ensures Result(s, SyncOne(m, i, w).0, done + [i], w, j)
  {
    if i == j {
      ResultOfOwn(s, m, done, w, j);
    } else {
      ResultOfAnother(s, m, done, i, w, j);
    }
  }

  /**
   Best effort: what becomes of an interface depends on its own sync only, whatever
   happens to the others, and one that is not listed is left alone.
   */
  lemma {:induction false} BestEffort(s: State, ids: seq<Id>, w: Weather, j: Id)
    requires NamesUnique(s.db) && j in s.db.interfaces
    ensures Result(s, SyncEach(s, ids, w), ids, w, j)
  {
    if ids != [] {
      var init, last := ids[..|ids| - 1], ids[|ids| - 1];
      BestEffort(s, init, w, j);
      SyncEachErrors(s, init, w);
      ResultAppend(s, SyncEach(s, init, w), init, last, w, j);
      assert ids == init + [last];
    }
  }

  /** The interfaces an aborting sync starts on: all, or up to and including the one that fails. */
  function Started(ids: seq<Id>, failed: Option<nat>): seq<Id> {
    if failed.Some? && failed.value < |ids| then ids[..failed.value + 1] else ids
  }

  /** `failed` is the first of `ids` that does not go through, if any. */
  ghost predicate FirstFailure(ids: seq<Id>, w: Weather, failed: Option<nat>) {
    match failed
    case Some(n) => n < |ids| && OutcomeOf(w, ids[n]) != Applied && forall k :: 0 <= k < n ==>
        OutcomeOf(w, ids[k]) == Applied
    case None => forall k :: 0 <= k < |ids| ==> OutcomeOf(w, ids[k]) == Applied
  }

  lemma FailureCarriesOver(ids: seq<Id>, w: Weather, failed: Option<nat>)
    requires ids != [] && FirstFailure(ids[..|ids| - 1], w, failed)
    ensures FirstFailure(ids, w,
              if failed.Some? then failed
              else if OutcomeOf(w, ids[|ids| - 1]) == Applied then None
              else Some(|ids| - 1))
  {
  }

  /** The sync stops at the first interface that does not go through. */
  lemma {:induction false} AbortPoint(s: State, ids: seq<Id>, w: Weather)
    requires Elems(ids) <= s.db.interfaces.Keys
    ensures SyncUntilFailure(s, ids, w).0.db.interfaces.Keys == s.db.interfaces.Keys
    ensures FirstFailure(ids, w, SyncUntilFailure(s, ids, w).1)
  {
    if ids != [] {
      var init, last := ids[..|ids| - 1], ids[|ids| - 1];
      IdsAppend(ids);
      assert last in Elems(ids);
      AbortPoint(s, init, w);
      var (before, failed) := SyncUntilFailure(s, init, w);
      SyncOneKeys(before, last, w);
      FailureCarriesOver(ids, w, failed);
      SucceedsIfApplied(before, last, w);
    }
  }

  lemma SucceedsIfApplied(s: State, i: Id, w: Weather)
    requires i in s.db.interfaces
    ensures SyncOne(s, i, w).1 <==> OutcomeOf(w, i) == Applied
  {
  }

  /**
   Aborting: the interfaces before the failing one are converged, the ones after it keep
   what they had.
   */
  lemma {:induction false} AbortingSync(s: State, ids: seq<Id>, w: Weather, j: Id)
    requires Elems(ids) <= s.db.interfaces.Keys
    requires NamesUnique(s.db) && j in s.db.interfaces
    ensures var (s', failed) := SyncUntilFailure(s, ids, w);
            Result(s, s', Started(ids, failed), w, j)
  {
    if ids != [] {
      var init, last := ids[..|ids| - 1], ids[|ids| - 1];
      IdsAppend(ids);
      AbortingSync(s, init, w, j);
      AbortPoint(s, init, w);
      SyncUntilFailureErrors(s, init, w);
      var (m, failed) := SyncUntilFailure(s, init, w);
      StartedNext(ids, failed, SyncOne(m, last, w).1);
      if failed.None? {
        ResultAppend(s, m, init, last, w, j);
      }
    }
  }

  lemma StartedNext(ids: seq<Id>, failed: Option<nat>, ok: bool)
    requires ids != [] && (failed.Some? ==> failed.value < |ids| - 1)
    ensures failed.Some? ==> Started(ids, failed) == Started(ids[..|ids| - 1], failed)
    ensures failed.None? ==>
      Started(ids, if ok then None else Some(|ids| - 1)) == Started(ids[..|ids| - 1], failed) + [ids[|ids| - 1]]
  {
  }

  /** Every sync before the m-th interface went through. */
  predicate Reached(order: seq<Id>, w: Weather, m: nat)
    requires m <= |order|
  {
    forall k :: 0 <= k < m ==> OutcomeOf(w, order[k]) == Applied
  }

  // ---- Whole handlers ----

  /** The interfaces whose sync a handler's plan starts. */
  function Syncs(s: State, plan: Plan, w: Weather): seq<Id> {
    match plan
    case Nothing => []
    case TearDown(_, _) => []
    case One(i) => [i]
    case Each(ids) => ids
    case All => Started(s.db.order, SyncUntilFailure(s, s.db.order, w).1)
  }

  lemma PerformResult(s: State, plan: Plan, w: Weather, j: Id)
    requires ForeignKeys(s.db) && NamesUnique(s.db) && j in s.db.interfaces
    requires plan.TearDown? ==> Unowned(s.db, plan.target)
    ensures Result(s, Perform(s, plan, w).0, Syncs(s, plan, w), w, j)
  {
    match plan
    case Nothing =>
    case TearDown(_, _) =>
    case One(i) =>
      assert SyncEach(s, [i][..0], w) == s;
      BestEffort(s, [i], w, j);
    case Each(ids) => BestEffort(s, ids, w, j);
    case All =>
      AbortingSync(s, s.db.order, w, j);
  }

  /** A write that plans no sync of `j`, login or time step leaves what `j` should hold as it was. */
  lemma UnplannedDesired(env: Env, db: Db, op: Op, j: Id)
    requires ValidDb(db) && FreshIds(db, op) && Mutate(env, db, op).Ok? && !op.Login? && !op.Tick?
    requires j in db.interfaces && j in Mutate(env, db, op).value.interfaces && !Planned(db, op, j)
    ensures DesiredFor(Mutate(env, db, op).value, j) == DesiredFor(db, j)
  {
    var f := FactsOf(db);
    AsOfNow(db);
    WriteUndisturbing(env, db, op, j, f);
    FactsStay(env, db, op, j);
    SameFactsAsOf(db, Mutate(env, db, op).value);
  }

  /** Clock, claims and deadlines are as they were. */
  ghost predicate SameFacts(db: Db, db': Db) {
    && db'.clock == db.clock && db'.claims == db.claims
    && forall u :: u in db.users && u in db'.users ==> db'.users[u].liveUntil == db.users[u].liveUntil
  }

  lemma FactsStay(env: Env, db: Db, op: Op, j: Id)
    requires ForeignKeys(db) && Mutate(env, db, op).Ok? && !op.Login? && !op.Tick?
    requires j in db.interfaces && !Planned(db, op, j)
    ensures SameFacts(db, Mutate(env, db, op).value)
  {
  }

  lemma SameFactsAsOf(db: Db, db': Db)
    requires SameFacts(db, db')
    ensures AsOf(db', FactsOf(db)) == db'
  {
    assert AsOf(db', FactsOf(db)).users == db'.users;
  }

  /** Converged interfaces outside `touched` are still converged. */
  ghost predicate OthersConverged(s: State, s': State, touched: set<Id>) {
    forall j :: j !in touched && Converged(s, j) ==> Converged(s', j)
  }

  ghost predicate AllConverged(s: State) {
    forall j :: j in s.db.interfaces ==> Converged(s, j)
  }

  function Touched(db: Db, op: Op): set<Id> {
    PlanIds(PlanOf(db, op), db.order) + (if PlanOf(db, op).TearDown? then {op.id} else {})
  }

  lemma StepResult(env: Env, s: State, op: Op, w: Weather, j: Id)
    requires Inv(s) && Mutate(env, s.db, op).Ok? && j in Mutate(env, s.db, op).value.interfaces
    ensures var m := Written(s, Mutate(env, s.db, op).value, op);
            Result(m, Step(env, s, op, w).0, Syncs(m, PlanOf(s.db, op), w), w, j)
  {
    MutateKeepsValid(env, s.db, op);
    if PlanOf(s.db, op).TearDown? {
      TornDownIsUnowned(env, s.db, op);
    }
    PerformResult(Written(s, Mutate(env, s.db, op).value, op), PlanOf(s.db, op), w, j);
  }

  /** What an interface should hold is the same before and after a handler's write. */
  predicate SameWish(db: Db, db': Db, j: Id) {
    j in db.interfaces && j in db'.interfaces && DesiredFor(db', j) == DesiredFor(db, j)
  }

  /**
   What becomes of an interface that was converged when a handler writes (giving `m`) and
   syncs (giving `s'`).  If its sync was started and applied: it is converged and no error
   is recorded.  If it was not started, or the backend could not be built: neither target
   nor recorded error is touched, and it is converged exactly when the write did not change
   what it should hold.  If applying failed: the error is recorded, and it is converged
   exactly when what remains happens to be what it should hold now.
   */
  ghost predicate Fate(s: State, m: State, s': State, started: bool, w: Weather, j: Id)
    requires j in m.db.interfaces
  {
    if !started || OutcomeOf(w, j).BuildFails?
    then LeftAlone(m, s', j) && (Converged(s', j) <==> SameWish(s.db, m.db, j))
    else match OutcomeOf(w, j)
      case Applied => Converged(s', j) && s'.db.interfaces[j].lastError == None
      case ApplyFails(remains, message) =>
        && j in s'.db.interfaces && s'.db.interfaces[j].lastError == Some(message)
        && (Converged(s', j) <==> remains == Some(DesiredFor(m.db, j)))
  }

  lemma FateIs(s: State, m: State, s': State, done: seq<Id>, w: Weather, j: Id)
    requires Converged(s, j) && j in m.db.interfaces && m.pushed == s.pushed
    requires TargetOf(m.db.interfaces[j]) == TargetOf(s.db.interfaces[j])
    requires Result(m, s', done, w, j)
    ensures Fate(s, m, s', j in done, w, j)
  {
  }

  /** Every handler, every outcome of every sync: which converged interfaces are converged afterwards. */
  lemma StepFate(env: Env, s: State, op: Op, w: Weather, j: Id)
    requires Inv(s) && Mutate(env, s.db, op).Ok? && Converged(s, j) && j in Mutate(env, s.db, op).value.interfaces
    requires TargetOf(Mutate(env, s.db, op).value.interfaces[j]) == TargetOf(s.db.interfaces[j])
    ensures var m := Written(s, Mutate(env, s.db, op).value, op);
            Fate(s, m, Step(env, s, op, w).0, j in Syncs(m, PlanOf(s.db, op), w), w, j)
  {
    StepResult(env, s, op, w, j);
    var m := Written(s, Mutate(env, s.db, op).value, op);
    FateIs(s, m, Step(env, s, op, w).0, Syncs(m, PlanOf(s.db, op), w), w, j);
  }

  /** What a handler does not sync it does not need to sync: a converged interface stays converged. */
  lemma StepKeepsOthersConverged(env: Env, s: State, op: Op, w: Weather)
    requires Inv(s) && FreshIds(s.db, op) && !op.Login? && !op.Tick?
    ensures OthersConverged(s, Step(env, s, op, w).0, Touched(s.db, op))
  {
    if Mutate(env, s.db, op).Ok? {
      forall j | j !in Touched(s.db, op) && Converged(s, j) ensures Converged(Step(env, s, op, w).0, j) {
        OtherStaysConverged(env, s, op, w, j);
      }
    }
  }

  lemma OtherStaysConverged(env: Env, s: State, op: Op, w: Weather, j: Id)
    requires Inv(s) && FreshIds(s.db, op) && !op.Login? && !op.Tick? && Mutate(env, s.db, op).Ok?
    requires j !in Touched(s.db, op) && Converged(s, j)
    ensures Converged(Step(env, s, op, w).0, j)
  {
    var db' := Mutate(env, s.db, op).value;
    InterfacesStay(env, s.db, op);
    PlannedAre(s.db, op, j);
    UnplannedDesired(env, s.db, op, j);
    RowStays(env, s.db, op, j);
    StepFate(env, s, op, w, j);
    UnplannedIsNotStarted(Written(s, db', op), PlanOf(s.db, op), w, s.db.order, j);
  }

  /** Only an update of the interface itself changes its row. */
  lemma RowStays(env: Env, db: Db, op: Op, j: Id)
    requires Mutate(env, db, op).Ok? && j in db.interfaces && j in Mutate(env, db, op).value.interfaces
    requires !(op.UpdateInterface? && op.id == j)
    ensures Mutate(env, db, op).value.interfaces[j] == db.interfaces[j]
  {
  }

  lemma UnplannedIsNotStarted(m: State, plan: Plan, w: Weather, order: seq<Id>, j: Id)
    requires plan.All? ==> m.db.order == order
    requires j !in PlanIds(plan, order)
    ensures j !in Syncs(m, plan, w)
  {
  }

  /** A handler that syncs one interface reports success exactly when that sync went through. */
  lemma StepSyncsOne(env: Env, s: State, op: Op, w: Weather, i: Id)
    requires Inv(s) && Mutate(env, s.db, op).Ok? && PlanOf(s.db, op) == One(i)
    ensures var (s', ok) := Step(env, s, op, w);
            && (ok <==> OutcomeOf(w, i) == Applied)
            && (ok ==> Converged(s', i))
  {
    PlannedExist(env, s.db, op);
    assert i in PlanIds(One(i), s.db.order);
    StepResult(env, s, op, w, i);
    SucceedsIfApplied(Written(s, Mutate(env, s.db, op).value, op), i, w);
  }

  lemma AllSynced(m: State, w: Weather)
    requires ForeignKeys(m.db) && NamesUnique(m.db)
    ensures var (s', ok) := Perform(m, All, w);
            && (ok <==> Reached(m.db.order, w, |m.db.order|))
            && (ok ==> AllConverged(s'))
  {
    AbortPoint(m, m.db.order, w);
    var (s', ok) := Perform(m, All, w);
    if ok {
      forall j | j in s'.db.interfaces ensures Converged(s', j) {
        AllStarted(m, w, j);
        PerformResult(m, All, w, j);
      }
    }
  }

  /** A handler that syncs every interface reports success exactly when every sync went through. */
  lemma StepSyncsAll(env: Env, s: State, op: Op, w: Weather)
    requires Inv(s) && Mutate(env, s.db, op).Ok? && PlanOf(s.db, op) == All
    ensures var (s', ok) := Step(env, s, op, w);
            && (ok <==> Reached(s.db.order, w, |s.db.order|))
            && (ok ==> AllConverged(s'))
  {
    MutateKeepsValid(env, s.db, op);
    PlannedExist(env, s.db, op);
    AllSynced(Written(s, Mutate(env, s.db, op).value, op), w);
  }

  lemma AllStarted(m: State, w: Weather, j: Id)
    requires ForeignKeys(m.db) && SyncUntilFailure(m, m.db.order, w).1.None?
    requires j in SyncUntilFailure(m, m.db.order, w).0.db.interfaces
    ensures j in m.db.interfaces && j in m.db.order && OutcomeOf(w, j) == Applied
    ensures Syncs(m, All, w) == m.db.order
  {
    AbortPoint(m, m.db.order, w);
    assert j in Elems(m.db.order);
  }

  /** A handler that syncs a list of interfaces brings each whose own sync goes through to what it should hold. */
  lemma StepSyncsEach(env: Env, s: State, op: Op, w: Weather, j: Id)
    requires Inv(s) && Mutate(env, s.db, op).Ok? && PlanOf(s.db, op).Each?
    requires j in PlanOf(s.db, op).ids && OutcomeOf(w, j) == Applied
    ensures Converged(Step(env, s, op, w).0, j) && Step(env, s, op, w).1
  {
    PlannedExist(env, s.db, op);
    assert j in PlanIds(PlanOf(s.db, op), s.db.order);
    StepResult(env, s, op, w, j);
  }

  // ---- What each kind of handler achieves, accepted or refused ----

  predicate Quiet(op: Op) {
    !op.Login? && !op.Tick?
  }

  lemma OneHandler(env: Env, s: State, op: Op, w: Weather, i: Id)
    requires Inv(s) && FreshIds(s.db, op) && Quiet(op) && PlanOf(s.db, op) == One(i)
    ensures var (s', ok) := Step(env, s, op, w);
            && Inv(s')
            && (ok ==> Converged(s', i))
            && OthersConverged(s, s', {i})
  {
    StepKeepsInv(env, s, op, w);
    StepKeepsOthersConverged(env, s, op, w);
    if Mutate(env, s.db, op).Ok? {
      StepSyncsOne(env, s, op, w, i);
    }
  }

  lemma AllHandler(env: Env, s: State, op: Op, w: Weather)
    requires Inv(s) && FreshIds(s.db, op) && Mutate(env, s.db, op).Ok? && PlanOf(s.db, op) == All
    ensures var (s', ok) := Step(env, s, op, w);
            && Inv(s')
            && (ok <==> Reached(s.db.order, w, |s.db.order|))
            && (ok ==> AllConverged(s'))
  {
    StepKeepsInv(env, s, op, w);
    StepSyncsAll(env, s, op, w);
  }

  lemma EachHandler(env: Env, s: State, op: Op, w: Weather, ids: seq<Id>)
    requires Inv(s) && FreshIds(s.db, op) && Quiet(op) && PlanOf(s.db, op) == Each(ids)
    ensures var (s', ok) := Step(env, s, op, w);
            && Inv(s')
            && (ok ==> forall j :: j in ids && OutcomeOf(w, j) == Applied ==> Converged(s', j))
            && OthersConverged(s, s', Elems(ids))
  {
    StepKeepsInv(env, s, op, w);
    if Mutate(env, s.db, op).Ok? {
      forall j | j in ids && OutcomeOf(w, j) == Applied ensures Converged(Step(env, s, op, w).0, j) {
        StepSyncsEach(env, s, op, w, j);
      }
      StepKeepsOthersConverged(env, s, op, w);
      assert Touched(s.db, op) == Elems(ids);
    }
  }

  /** The interfaces that list the group. */
  function Listing(db: Db, g: Id): set<Id> {
    set i | i in db.interfaces && g in db.interfaces[i].groupIds
  }

  lemma ListingIs(db: Db, g: Id)
    requires ForeignKeys(db)
    ensures Elems(Filter(db.order, Lists(db, g))) == Listing(db, g)
  {
    var ids := Filter(db.order, Lists(db, g));
    forall i ensures i in ids <==> i in Listing(db, g) {
      InFilter(db.order, Lists(db, g), i);
    }
  }

  lemma GroupHandler(env: Env, s: State, op: Op, w: Weather)
    requires Inv(s) && (op.UpdateGroup? || op.DeleteGroup?)
    ensures var (s', ok) := Step(env, s, op, w);
            && Inv(s')
            && (ok ==> forall j :: j in Listing(s.db, op.id) && OutcomeOf(w, j) == Applied ==> Converged(s', j))
            && OthersConverged(s, s', Listing(s.db, op.id))
  {
    var ids := Filter(s.db.order, Lists(s.db, op.id));
    EachHandler(env, s, op, w, ids);
    ListingIs(s.db, op.id);
    assert forall j :: j in Elems(ids) ==> j in ids;
  }

  lemma BootHandler(env: Env, s: State, w: Weather)
    requires Inv(s)
    ensures var s' := Step(env, s, Restart, w).0;
            Inv(s') && forall j :: j in s.db.interfaces && OutcomeOf(w, j) == Applied ==> Converged(s', j)
  {
    EachHandler(env, s, Restart, w, s.db.order);
  }

  lemma SilentHandler(env: Env, s: State, op: Op, w: Weather)
    requires Inv(s) && FreshIds(s.db, op) && Quiet(op) && PlanOf(s.db, op) == Nothing
    ensures Inv(Step(env, s, op, w).0) && OthersConverged(s, Step(env, s, op, w).0, {})
  {
    StepKeepsInv(env, s, op, w);
    StepKeepsOthersConverged(env, s, op, w);
    assert Touched(s.db, op) == {};
  }

  lemma DeletionHandler(env: Env, s: State, id: Id, w: Weather)
    requires Inv(s)
    ensures Inv(Step(env, s, DeleteInterface(id), w).0)
    ensures OthersConverged(s, Step(env, s, DeleteInterface(id), w).0, {id})
  {
    var op := DeleteInterface(id);
    StepKeepsInv(env, s, op, w);
    StepKeepsOthersConverged(env, s, op, w);
    assert Touched(s.db, op) <= {id};
  }
}
