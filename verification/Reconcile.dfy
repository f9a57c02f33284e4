/**
 Handlers as steps: write the database, then sync the interfaces the handler names.

 `pushed` is what each target (a connection and an interface name) was last made to hold,
 with or without an interface row that still uses it.  `settled` is a
 history variable the program does not have: it lists the interfaces whose latest
 planned sync went through, with the login facts (clock, deadlines, claim groups) that
 sync saw.
 */
module Reconcile {
  import opened Glob
  import opened Sequences
  import opened Store
  import opened Wrappers

  /** The part of the database that logins and the passing of time change. */
  datatype Facts = Facts(clock: nat, live: map<Id, Option<nat>>, claims: map<(Id, Text), seq<Text>>)

  function FactsOf(db: Db): Facts {
    Facts(db.clock, map u | u in db.users :: db.users[u].liveUntil, db.claims)
  }

  /** The database as it would be had no login or time passed since `f` was seen. */
  function AsOf(db: Db, f: Facts): Db {
    db.(clock := f.clock, claims := f.claims,
        users := map u | u in db.users :: if u in f.live then db.users[u].(liveUntil := f.live[u]) else db.users[u])
  }

  datatype State = State(db: Db, pushed: map<Target, Desired>, settled: map<Id, Facts>)

  const INITIAL := State(EMPTY_DB, map[], map[])

  /**
   What becomes of one call to a backend, be it a sync or a removal: it goes through; or
   the backend cannot even be built; or it fails, leaving the backend with whatever `remains`.
   */
  datatype Outcome =
    | Applied
    | BuildFails
    | ApplyFails(remains: Option<Desired>, message: string)

  function At(pushed: map<Target, Desired>, t: Target): Option<Desired> {
    if t in pushed then Some(pushed[t]) else None
  }

  function Put(pushed: map<Target, Desired>, t: Target, contents: Option<Desired>): map<Target, Desired> {
    if contents.Some? then pushed[t := contents.value] else pushed - {t}
  }

  /** What the interface's row addresses holds the interface's active devices. */
  ghost predicate Converged(s: State, i: Id) {
    i in s.db.interfaces && At(s.pushed, TargetOf(s.db.interfaces[i])) == Some(DesiredFor(s.db, i))
  }

  type Weather = map<Id, Outcome>

  function OutcomeOf(w: Weather, i: Id): Outcome {
    if i in w then w[i] else Applied
  }

  predicate Calm(w: Weather) {
    forall i :: i in w ==> w[i] == Applied
  }

  // ---- Syncing ----

  function RecordError(db: Db, i: Id, e: Option<string>): Db
    requires i in db.interfaces
  {
    db.(interfaces := db.interfaces[i := db.interfaces[i].(lastError := e)])
  }

  /** Reconcile one interface; true means success. */
  function SyncOne(s: State, i: Id, w: Weather): (State, bool) {
    if i !in s.db.interfaces then (s, false)
    else
      var t := TargetOf(s.db.interfaces[i]);
      match OutcomeOf(w, i)
      case BuildFails => (s, false)
      case Applied =>
        (State(RecordError(s.db, i, None), s.pushed[t := DesiredFor(s.db, i)], s.settled[i := FactsOf(s.db)]), true)
      case ApplyFails(remains, message) =>
        (State(RecordError(s.db, i, Some(message)), Put(s.pushed, t, remains), s.settled - {i}), false)
  }

  /** Sync each in turn, whatever happens to the others. */
  function SyncEach(s: State, ids: seq<Id>, w: Weather): State {
    if ids == [] then s
    else SyncOne(SyncEach(s, ids[..|ids| - 1], w), ids[|ids| - 1], w).0
  }

  /** Sync in turn up to the first failure; None means that all went through. */
  function SyncUntilFailure(s: State, ids: seq<Id>, w: Weather): (State, Option<nat>) {
    if ids == [] then (s, None)
    else
      var (before, failed) := SyncUntilFailure(s, ids[..|ids| - 1], w);
      if failed.Some? then (before, failed)
      else
        var (after, ok) := SyncOne(before, ids[|ids| - 1], w);
        (after, if ok then None else Some(|ids| - 1))
  }

  // ---- Steps ----

  datatype Plan =
    | Nothing
    | One(i: Id)
    | All
    | Each(ids: seq<Id>)
    | TearDown(i: Id, target: Target)

  function Lists(db: Db, g: Id): Id -> bool {
    (i: Id) => i in db.interfaces && g in db.interfaces[i].groupIds
  }

  /** Which interfaces the handler syncs, or removes, once its write to `db` went through. */
  function PlanOf(db: Db, op: Op): Plan {
    match op
    case CreateInterface(id, _, _) => One(id)
    case UpdateInterface(id, _, _) => One(id)
    case DeleteInterface(id) => if id in db.interfaces then TearDown(id, TargetOf(db.interfaces[id])) else Nothing
    case Resync(id) => One(id)
    case CreatePeer(_, i, _, _, _, _, _, _, _) => One(i)
    case RegeneratePeer(id, _, _, _) => (match FindPeer(db, id) case Some(p) => One(p.interfaceId) case None => Nothing)
    case DeletePeer(id) => (match FindPeer(db, id) case Some(p) => One(p.interfaceId) case None => Nothing)
    case SetBanned(_, _) => All
    case SetRevoked(_, _) => All
    case DeleteUser(_) => All
    case UpdateGroup(g, _) => Each(Filter(db.order, Lists(db, g)))
    case DeleteGroup(g) => Each(Filter(db.order, Lists(db, g)))
    case Restart => Each(db.order)
    case _ => Nothing
  }

  /** The interfaces to be synced. */
  predicate Planned(db: Db, op: Op, i: Id) {
    match PlanOf(db, op)
    case Nothing => false
    case One(j) => i == j
    case All => i in db.order
    case Each(ids) => i in ids
    case TearDown(_, _) => false
  }

  /** A failed removal is not noticed: the interface row goes, and the target keeps what it had or what remains. */
  function AfterRemoval(contents: Option<Desired>, outcome: Outcome): Option<Desired> {
    match outcome
    case Applied => None
    case BuildFails => contents
    case ApplyFails(remains, _) => remains
  }

  function Perform(s: State, plan: Plan, w: Weather): (State, bool) {
    match plan
    case Nothing => (s, true)
    case One(i) => SyncOne(s, i, w)
    case Each(ids) => (SyncEach(s, ids, w), true)
    case All =>
      var (after, failed) := SyncUntilFailure(s, s.db.order, w);
      (after, failed.None?)
    case TearDown(i, t) => (s.(pushed := Put(s.pushed, t, AfterRemoval(At(s.pushed, t), OutcomeOf(w, i)))), true)
  }

  /** The state between the handler's write and its syncs: planned interfaces are unsettled. */
  function Written(s: State, db': Db, op: Op): State {
    State(db', s.pushed,
          map i | i in s.settled && !Planned(s.db, op, i) && i in db'.interfaces :: s.settled[i])
  }

  function Step(env: Env, s: State, op: Op, w: Weather): (State, bool) {
    match Mutate(env, s.db, op)
    case Err(_) => (s, false)
    case Ok(db') => Perform(Written(s, db', op), PlanOf(s.db, op), w)
  }

  datatype Event = Event(op: Op, weather: Weather)

  function Run(env: Env, s: State, events: seq<Event>): State {
    if events == [] then s
    else
      var last := events[|events| - 1];
      Step(env, Run(env, s, events[..|events| - 1]), last.op, last.weather).0
  }

  ghost predicate FreshRun(env: Env, s: State, events: seq<Event>) {
    forall k :: 0 <= k < |events| ==> FreshIds(Run(env, s, events[..k]).db, events[k].op)
  }
}
