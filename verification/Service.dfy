/**
 The handlers as they run: each writes the tables and then syncs.  `settled` is the
 history variable of `Reconcile`; it steers nothing.

 What the backends will answer is passed in as `w`.
 */
module Service {
  import opened FailingSyncs
  import opened Glob
  import opened Reconcile
  import opened ReconcileRuns
  import opened Sequences
  import opened Store
  import opened StoreFacts
  import opened Wrappers

  class Server {
    const env: Env
    var db: Db
    var pushed: map<Target, Desired>
    ghost var settled: map<Id, Facts>

    constructor (e: Env)
      ensures env == e && Now() == INITIAL && Valid()
    {
      env := e;
      db, pushed, settled := EMPTY_DB, map[], map[];
    }

    ghost function Now(): State
      reads this
    {
      State(db, pushed, settled)
    }

    /** The database constraints hold, and every settled backend holds what was permitted at its last sync. */
    ghost predicate Valid()
      reads this
    {
      Inv(Now())
    }

    // ---- Queries ----

    /** None: no such interface. */
    method ListActivePeers(i: Id) returns (r: Option<seq<Peer>>)
      ensures r == if i in db.interfaces then Some(ActivePeers(db, i)) else None
    {
      if i !in db.interfaces {
        return None;
      }
      var groupIds := db.interfaces[i].groupIds;
      var listed := ListPeers(db, i);
      var out: seq<Peer> := [];
      for n := 0 to |listed|
        invariant out == Filter(listed[..n], ActiveOn(db, i))
      {
        var p := listed[n];
        FilterNext(listed, n, ActiveOn(db, i));
        ListedOn(db, i, n);
        if p.publicKey == "" {
          continue;
        }
        match p.userId {
          case None => out := out + [p];
          case Some(u) =>
            if u in db.users {
              var user := db.users[u];
              var claimGroups := ClaimGroups(db.claims, u);
              if !user.banned && !user.revoked && IsLive(user, db.clock)
                && AccessGranted(db.groups, groupIds, user.email, claimGroups) {
                out := out + [p];
              }
            }
        }
      }
      assert listed[..|listed|] == listed;
      ActiveFromListed(db, i);
      return Some(out);
    }

    method InterfacesForUser(user: Id, email: Text) returns (r: seq<Id>)
      ensures r == Store.InterfacesForUser(db, user, email)
    {
      if !UserIsLive(db, user) {
        return [];
      }
      var claimGroups := ClaimGroups(db.claims, user);
      r := [];
      ghost var admits := Admits(db, email, claimGroups);
      for n := 0 to |db.order|
        invariant r == Filter(db.order[..n], admits)
      {
        var i := db.order[n];
        FilterNext(db.order, n, admits);
        if i in db.interfaces && AccessGranted(db.groups, db.interfaces[i].groupIds, email, claimGroups) {
          r := r + [i];
        }
      }
      assert db.order[..|db.order|] == db.order;
    }

    // ---- Syncing ----

    method SyncInterface(i: Id, w: Weather) returns (ok: bool)
      modifies this
      ensures (Now(), ok) == SyncOne(old(Now()), i, w)
    {
      var peers := ListActivePeers(i);
      if peers.None? {
        return false;
      }
      if OutcomeOf(w, i) == BuildFails {
        return false;
      }
      var t, spec, pspecs := TargetOf(db.interfaces[i]), SpecOf(db.interfaces[i]), Wires(peers.value);
      match OutcomeOf(w, i) {
        case Applied =>
          pushed := pushed[t := Desired(spec, pspecs)];
          settled := settled[i := FactsOf(db)];
          db := RecordError(db, i, None);
          return true;
        case ApplyFails(remains, message) =>
          pushed := Put(pushed, t, remains);
          settled := settled - {i};
          db := RecordError(db, i, Some(message));
          return false;
      }
    }

    method SyncAll(w: Weather) returns (ok: bool)
      modifies this
      ensures Now() == SyncUntilFailure(old(Now()), old(db.order), w).0
      ensures ok <==> SyncUntilFailure(old(Now()), old(db.order), w).1.None?
    {
      ghost var s := Now();
      var ids := db.order;
      for n := 0 to |ids|
        invariant (Now(), None) == SyncUntilFailure(s, ids[..n], w)
      {
        SyncOneFurther(s, Now(), ids, n, w);
        ok := SyncInterface(ids[n], w);
        if !ok {
          FailureSticks(s, ids, n + 1, w);
          return false;
        }
      }
      assert ids[..|ids|] == ids;
      return true;
    }

    method SyncListed(ids: seq<Id>, w: Weather)
      modifies this
      ensures Now() == SyncEach(old(Now()), ids, w)
    {
      ghost var s := Now();
      for n := 0 to |ids|
        invariant Now() == SyncEach(s, ids[..n], w)
      {
        assert ids[..n + 1][..n] == ids[..n];
        var _ := SyncInterface(ids[n], w);
      }
      assert ids[..|ids|] == ids;
    }

    /** Boot and background reconcile: one bad backend does not block the rest. */
    method SyncAllBestEffort(w: Weather)
      modifies this
      ensures Now() == SyncEach(old(Now()), old(db.order), w)
    {
      SyncListed(db.order, w);
    }

    /** Re-sync every interface that references the group, as the interfaces stand at the start. */
    method SyncGroupsInterfaces(g: Id, w: Weather)
      modifies this
      ensures Now() == SyncEach(old(Now()), Filter(old(db.order), Lists(old(db), g)), w)
    {
      ghost var s := Now();
      var ids, interfaces := db.order, db.interfaces;
      for n := 0 to |ids|
        invariant Now() == SyncEach(s, Filter(ids[..n], Lists(s.db, g)), w)
      {
        FilterNext(ids, n, Lists(s.db, g));
        if ids[n] in interfaces && g in interfaces[ids[n]].groupIds {
          var _ := SyncInterface(ids[n], w);
          SyncOneMore(s, Filter(ids[..n], Lists(s.db, g)), ids[n], w);
        }
      }
      assert ids[..|ids|] == ids;
    }

    /** Boot: every stored interface is reconciled, whatever happens to the others. */
    method Restart(w: Weather)
      requires Valid()
      modifies this
      ensures (Now(), true) == Step(env, old(Now()), Op.Restart, w)
      ensures Valid()
      ensures forall j :: j in old(db).interfaces && OutcomeOf(w, j) == Applied ==> Converged(Now(), j)
    {
      BootHandler(env, Now(), w);
      settled := Written(Now(), db, Op.Restart).settled;
      SyncAllBestEffort(w);
    }

    /** The handler's write: the tables change and the interfaces to be synced are unsettled. */
    method Write(newDb: Db, ghost op: Op)
      requires Mutate(env, db, op) == Ok(newDb)
      modifies this
      ensures Now() == Written(old(Now()), newDb, op)
    {
      settled := Written(Now(), newDb, op).settled;
      db := newDb;
    }

    // ---- Handlers: interfaces ----

    method CreateInterface(id: Id, f: NewInterface, nonce: nat, w: Weather) returns (ok: bool)
      requires Valid()
      modifies this
      ensures (Now(), ok) == Step(env, old(Now()), Op.CreateInterface(id, f, nonce), w)
      ensures Valid()
      ensures ok ==> Converged(Now(), id)
      ensures OthersConverged(old(Now()), Now(), {id})
    {
      OneHandler(env, Now(), Op.CreateInterface(id, f, nonce), w, id);
      if id in db.interfaces || (exists j :: j in db.interfaces && db.interfaces[j].name == f.name) {
        return false;
      }
      var backend := Encrypted(env.cipher, f.backend, nonce);
      var address := EnsureIpv6(env, f.address, DEFAULT_V6_ADDR);
      var allowedIps := EnsureIpv6(env, f.allowedIps, DEFAULT_V6_NET);
      var row := Interface(f.name, f.displayName, NonBlank(f.downloadFilename), f.listenPort, address,
        f.privateKey, f.publicKey, f.endpoint, f.dns, allowedIps, f.keepalive, f.deviceLimit, f.groupIds,
        backend, None, 1);
      Write(db.(interfaces := db.interfaces[id := row], order := db.order + [id]), Op.CreateInterface(id, f, nonce));
      ok := SyncInterface(id, w);
    }

    /**
     The new row.  None exactly when the backend's kind would change; otherwise the kind, the
     keys, the name, the port and the address stay, the version goes up by one exactly when
     something that goes into the device files changed, and a blank secret keeps the stored one.
     */
    method RevisedInterface(cur: Interface, c: Change, nonce: nat) returns (r: Option<Interface>)
      ensures r == Updated(env, cur, c, nonce)
      ensures r.None? <==> c.backend.Some? && KindOf(c.backend.value) != KindOf(cur.backend)
      ensures r.Some? ==>
        && KindOf(r.value.backend) == KindOf(cur.backend)
        && r.value.name == cur.name && r.value.listenPort == cur.listenPort && r.value.address == cur.address
        && r.value.privateKey == cur.privateKey && r.value.publicKey == cur.publicKey
           && r.value.lastError == cur.lastError
        && r.value.configVersion == cur.configVersion + (if FileFieldsDiffer(cur, r.value) then 1 else 0)
        && (c.backend.None? ==> r.value.backend == cur.backend)
        && (c.backend.Some? && SecretOf(c.backend.value) == "" ==> SecretOf(r.value.backend) == SecretOf(cur.backend))
    {
      var backend := cur.backend;
      if c.backend.Some? {
        if KindOf(c.backend.value) != KindOf(cur.backend) {
          return None;
        }
        backend := KeepSecretIfBlank(Encrypted(env.cipher, c.backend.value, nonce), cur.backend);
      }
      var endpoint := Or(c.endpoint, cur.endpoint);
      var dns := Or(c.dns, cur.dns);
      var allowedIps := cur.allowedIps;
      if c.allowedIps.Some? {
        allowedIps := EnsureIpv6(env, c.allowedIps.value, DEFAULT_V6_NET);
      }
      var keepalive := Or(c.keepalive, cur.keepalive);
      var version := cur.configVersion;
      if endpoint != cur.endpoint || dns != cur.dns || allowedIps != cur.allowedIps || keepalive != cur.keepalive {
        version := version + 1;
      }
      return Some(cur.(
        displayName := Or(c.displayName, cur.displayName),
        downloadFilename := if c.downloadFilename.Some? then NonBlank(c.downloadFilename.value)
            else cur.downloadFilename,
        endpoint := endpoint, dns := dns, allowedIps := allowedIps, keepalive := keepalive,
        deviceLimit := Or(c.deviceLimit, cur.deviceLimit),
        groupIds := Or(c.groupIds, cur.groupIds),
        backend := backend,
        configVersion := version));
    }

    method UpdateInterface(id: Id, c: Change, nonce: nat, w: Weather) returns (ok: bool)
      requires Valid()
      modifies this
      ensures (Now(), ok) == Step(env, old(Now()), Op.UpdateInterface(id, c, nonce), w)
      ensures Valid()
      ensures ok ==> Converged(Now(), id)
      ensures OthersConverged(old(Now()), Now(), {id})
    {
      OneHandler(env, Now(), Op.UpdateInterface(id, c, nonce), w, id);
      if id !in db.interfaces {
        return false;
      }
      var row := RevisedInterface(db.interfaces[id], c, nonce);
      if row.None? {
        return false;
      }
      Write(db.(interfaces := db.interfaces[id := row.value]), Op.UpdateInterface(id, c, nonce));
      ok := SyncInterface(id, w);
    }

    method DeleteInterface(id: Id, w: Weather) returns (ok: bool)
      requires Valid()
      modifies this
      ensures (Now(), ok) == Step(env, old(Now()), Op.DeleteInterface(id), w)
      ensures Valid()
      ensures ok <==> id in old(db).interfaces
      ensures ok ==>
        var t := TargetOf(old(db).interfaces[id]);
        Unowned(db, t) && At(pushed, t) == AfterRemoval(At(old(pushed), t), OutcomeOf(w, id))
      ensures OthersConverged(old(Now()), Now(), {id})
    {
      DeletionHandler(env, Now(), id, w);
      if id !in db.interfaces {
        return false;
      }
      TornDownIsUnowned(env, db, Op.DeleteInterface(id));
      RemoveFromBackend(TargetOf(db.interfaces[id]), OutcomeOf(w, id));
      Write(db.(interfaces := db.interfaces - {id}, order := Filter(db.order, OtherThan(id)),
          peers := Filter(db.peers, NotOn(id))),
            Op.DeleteInterface(id));
      return true;
    }

    /** Tear the interface down where its row says it is; nobody looks at the result. */
    method RemoveFromBackend(t: Target, outcome: Outcome)
      modifies `pushed
      ensures pushed == Put(old(pushed), t, AfterRemoval(At(old(pushed), t), outcome))
    {
      match outcome {
        case BuildFails =>
          assert pushed == Put(pushed, t, At(pushed, t));
        case Applied =>
          pushed := pushed - {t};
        case ApplyFails(remains, _) =>
          pushed := Put(pushed, t, remains);
      }
    }

    method Resync(id: Id, w: Weather) returns (ok: bool)
      requires Valid()
      modifies this
      ensures (Now(), ok) == Step(env, old(Now()), Op.Resync(id), w)
      ensures Valid()
      ensures ok ==> Converged(Now(), id)
      ensures OthersConverged(old(Now()), Now(), {id})
    {
      OneHandler(env, Now(), Op.Resync(id), w, id);
      if id !in db.interfaces {
        return false;
      }
      Write(db, Op.Resync(id));
      ok := SyncInterface(id, w);
    }

    // ---- Handlers: devices ----

    /** No key yet, so nothing to sync. */
    method CreateUnconfigured(id: Id, i: Id, owner: Option<Id>, name: string, address: string, w: Weather)
        returns (ok: bool)
      requires Valid()
      modifies this
      ensures (Now(), ok) == Step(env, old(Now()), Op.CreateUnconfigured(id, i, owner, name, address), w)
      ensures Valid()
      ensures OthersConverged(old(Now()), Now(), {})
    {
      SilentHandler(env, Now(), Op.CreateUnconfigured(id, i, owner, name, address), w);
      if !PeerFits(db, id, i, owner, "", address) {
        return false;
      }
      ghost var op := Op.CreateUnconfigured(id, i, owner, name, address);
      Write(db.(peers := db.peers
          + [Peer(id, i, owner, name, "", None, address, false, db.interfaces[i].configVersion)]), op);
      return true;
    }

    method CreatePeer(id: Id, i: Id, owner: Option<Id>, name: string, clientKey: string, publicKey: string, psk: string,
                      address: string, userCreated: bool, w: Weather) returns (ok: bool)
      requires Valid()
      modifies this
      ensures (Now(), ok) == Step(env, old(Now()),
          Op.CreatePeer(id, i, owner, name, clientKey, publicKey, psk, address, userCreated), w)
      ensures Valid()
      ensures ok ==> Converged(Now(), i)
      ensures OthersConverged(old(Now()), Now(), {i})
    {
      OneHandler(env, Now(), Op.CreatePeer(id, i, owner, name, clientKey, publicKey, psk, address, userCreated), w, i);
      if !PeerFits(db, id, i, owner, publicKey, address) {
        return false;
      }
      ghost var op := Op.CreatePeer(id, i, owner, name, clientKey, publicKey, psk, address, userCreated);
      var p := Peer(id, i, owner, name, publicKey, Some(psk), address, userCreated, db.interfaces[i].configVersion);
      Write(db.(peers := db.peers + [p]), op);
      ok := SyncInterface(i, w);
    }

    method RegeneratePeer(id: Id, clientKey: string, publicKey: string, psk: string, w: Weather) returns (ok: bool)
      requires Valid()
      modifies this
      ensures (Now(), ok) == Step(env, old(Now()), Op.RegeneratePeer(id, clientKey, publicKey, psk), w)
      ensures Valid()
      ensures ok ==> FindPeer(old(db), id).Some? && Converged(Now(), FindPeer(old(db), id).value.interfaceId)
      ensures FindPeer(old(db), id).Some?
          ==> OthersConverged(old(Now()), Now(), {FindPeer(old(db), id).value.interfaceId})
    {
      var found := FindPeer(db, id);
      if found.None? {
        return false;
      }
      OneHandler(env, Now(), Op.RegeneratePeer(id, clientKey, publicKey, psk), w, found.value.interfaceId);
      var p := found.value;
      if p.interfaceId !in db.interfaces || !KeyFree(db, id, p.interfaceId, publicKey) {
        return false;
      }
      ghost var op := Op.RegeneratePeer(id, clientKey, publicKey, psk);
      var p' := p.(publicKey := publicKey, presharedKey := Some(psk),
          configVersion := db.interfaces[p.interfaceId].configVersion);
      Write(db.(peers := Revised(db.peers, id, p')), op);
      ok := SyncInterface(p.interfaceId, w);
    }

    method DeletePeer(id: Id, w: Weather) returns (ok: bool)
      requires Valid()
      modifies this
      ensures (Now(), ok) == Step(env, old(Now()), Op.DeletePeer(id), w)
      ensures Valid()
      ensures ok ==> FindPeer(old(db), id).Some? && Converged(Now(), FindPeer(old(db), id).value.interfaceId)
      ensures FindPeer(old(db), id).Some?
          ==> OthersConverged(old(Now()), Now(), {FindPeer(old(db), id).value.interfaceId})
    {
      var found := FindPeer(db, id);
      if found.None? {
        return false;
      }
      OneHandler(env, Now(), Op.DeletePeer(id), w, found.value.interfaceId);
      Write(db.(peers := Filter(db.peers, WithoutId(id))), Op.DeletePeer(id));
      ok := SyncInterface(found.value.interfaceId, w);
    }

    /** Cosmetic: no backend change needed. */
    method RenamePeer(id: Id, name: string, w: Weather) returns (ok: bool)
      requires Valid()
      modifies this
      ensures (Now(), ok) == Step(env, old(Now()), Op.RenamePeer(id, name), w)
      ensures Valid()
      ensures OthersConverged(old(Now()), Now(), {})
    {
      SilentHandler(env, Now(), Op.RenamePeer(id, name), w);
      var found := FindPeer(db, id);
      if found.None? {
        return false;
      }
      Write(db.(peers := Revised(db.peers, id, found.value.(name := name))), Op.RenamePeer(id, name));
      return true;
    }

    // ---- Handlers: users ----

    /** A known email keeps its row; otherwise a row is added under the new id. */
    method UpsertUser(id: Id, email: Text, w: Weather) returns (ok: bool)
      requires Valid()
      modifies this
      ensures (Now(), ok) == Step(env, old(Now()), Op.UpsertUser(id, email), w)
      ensures Valid()
      ensures OthersConverged(old(Now()), Now(), {})
    {
      SilentHandler(env, Now(), Op.UpsertUser(id, email), w);
      if !(exists u :: u in db.users && db.users[u].email == email) {
        if id in db.users {
          return false;
        }
        Write(SetUser(db, id, User(email, false, false, None)), Op.UpsertUser(id, email));
      } else {
        Write(db, Op.UpsertUser(id, email));
      }
      return true;
    }

    /** Capture the provider's groups, if it sends any, and push the deadline out. Nothing is synced. */
    method Login(id: Id, provider: Text, groups: Option<seq<Text>>, ttlDays: Option<nat>, w: Weather) returns (ok: bool)
      requires Valid()
      modifies this
      ensures (Now(), ok) == Step(env, old(Now()), Op.Login(id, provider, groups, ttlDays), w)
      ensures Valid()
      ensures pushed == old(pushed)
    {
      StepKeepsInv(env, Now(), Op.Login(id, provider, groups, ttlDays), w);
      if id !in db.users {
        return false;
      }
      var claims := if groups.Some? then db.claims[(id, provider) := groups.value] else db.claims;
      var until := if ttlDays.Some? then Some(db.clock + ttlDays.value * SECONDS_PER_DAY) else None;
      Write(SetUser(db.(claims := claims), id, db.users[id].(liveUntil := until)),
          Op.Login(id, provider, groups, ttlDays));
      return true;
    }

    method SetBanned(id: Id, flag: bool, w: Weather) returns (ok: bool)
      requires Valid()
      modifies this
      ensures (Now(), ok) == Step(env, old(Now()), Op.SetBanned(id, flag), w)
      ensures Valid()
      ensures ok <==> Reached(old(db).order, w, |old(db).order|)
      ensures ok ==> AllConverged(Now())
    {
      AllHandler(env, Now(), Op.SetBanned(id, flag), w);
      Write(if id in db.users then SetUser(db, id, db.users[id].(banned := flag)) else db, Op.SetBanned(id, flag));
      ok := SyncAll(w);
    }

    method SetRevoked(id: Id, flag: bool, w: Weather) returns (ok: bool)
      requires Valid()
      modifies this
      ensures (Now(), ok) == Step(env, old(Now()), Op.SetRevoked(id, flag), w)
      ensures Valid()
      ensures ok <==> Reached(old(db).order, w, |old(db).order|)
      ensures ok ==> AllConverged(Now())
    {
      AllHandler(env, Now(), Op.SetRevoked(id, flag), w);
      Write(if id in db.users then SetUser(db, id, db.users[id].(revoked := flag)) else db, Op.SetRevoked(id, flag));
      ok := SyncAll(w);
    }

    method DeleteUser(id: Id, w: Weather) returns (ok: bool)
      requires Valid()
      modifies this
      ensures (Now(), ok) == Step(env, old(Now()), Op.DeleteUser(id), w)
      ensures Valid()
      ensures ok <==> Reached(old(db).order, w, |old(db).order|)
      ensures ok ==> AllConverged(Now())
    {
      AllHandler(env, Now(), Op.DeleteUser(id), w);
      Write(db.(users := db.users - {id},
                claims := map k | k in db.claims && k.0 != id :: db.claims[k],
                peers := Filter(db.peers, NotOwnedBy(id))), Op.DeleteUser(id));
      ok := SyncAll(w);
    }

    // ---- Handlers: groups ----

    /** No interface lists a new group yet, so nothing to sync. */
    method CreateGroup(id: Id, group: Group, w: Weather) returns (ok: bool)
      requires Valid() && FreshIds(db, Op.CreateGroup(id, group))
      modifies this
      ensures (Now(), ok) == Step(env, old(Now()), Op.CreateGroup(id, group), w)
      ensures Valid()
      ensures OthersConverged(old(Now()), Now(), {})
    {
      SilentHandler(env, Now(), Op.CreateGroup(id, group), w);
      if id in db.groups || GroupNameTaken(db, id, group.name) {
        return false;
      }
      Write(db.(groups := db.groups[id := group]), Op.CreateGroup(id, group));
      return true;
    }

    method UpdateGroup(id: Id, group: Group, w: Weather) returns (ok: bool)
      requires Valid()
      modifies this
      ensures (Now(), ok) == Step(env, old(Now()), Op.UpdateGroup(id, group), w)
      ensures Valid()
      ensures ok ==> forall j :: j in Listing(old(db), id) && OutcomeOf(w, j) == Applied ==> Converged(Now(), j)
      ensures OthersConverged(old(Now()), Now(), Listing(old(db), id))
    {
      GroupHandler(env, Now(), Op.UpdateGroup(id, group), w);
      if id !in db.groups || GroupNameTaken(db, id, group.name) {
        return false;
      }
      ghost var before := db;
      Write(db.(groups := db.groups[id := group]), Op.UpdateGroup(id, group));
      SameListing(before, db, id);
      SyncGroupsInterfaces(id, w);
      return true;
    }

    method DeleteGroup(id: Id, w: Weather) returns (ok: bool)
      requires Valid()
      modifies this
      ensures (Now(), ok) == Step(env, old(Now()), Op.DeleteGroup(id), w)
      ensures Valid()
      ensures ok ==> forall j :: j in Listing(old(db), id) && OutcomeOf(w, j) == Applied ==> Converged(Now(), j)
      ensures OthersConverged(old(Now()), Now(), Listing(old(db), id))
    {
      GroupHandler(env, Now(), Op.DeleteGroup(id), w);
      ghost var before := db;
      Write(db.(groups := db.groups - {id}), Op.DeleteGroup(id));
      SameListing(before, db, id);
      SyncGroupsInterfaces(id, w);
      return true;
    }
  }

  lemma ListedOn(db: Db, i: Id, n: nat)
    requires n < |ListPeers(db, i)|
    ensures ListPeers(db, i)[n].interfaceId == i
  {
    FilterMembers(db.peers, OnInterface(i));
    assert OnInterface(i)(ListPeers(db, i)[n]);
  }

  lemma SameListing(db: Db, db': Db, g: Id)
    requires db'.order == db.order && db'.interfaces == db.interfaces
    ensures Filter(db'.order, Lists(db', g)) == Filter(db.order, Lists(db, g))
  {
    FilterAgree(db.order, Lists(db', g), Lists(db, g));
  }

  lemma SyncOneMore(s: State, ids: seq<Id>, i: Id, w: Weather)
    ensures SyncEach(s, ids + [i], w) == SyncOne(SyncEach(s, ids, w), i, w).0
  {
    var longer := ids + [i];
    assert longer[..|longer| - 1] == ids;
  }

  lemma SyncOneFurther(s: State, m: State, ids: seq<Id>, n: nat, w: Weather)
    requires n < |ids| && SyncUntilFailure(s, ids[..n], w) == (m, None)
    ensures var (after, ok) := SyncOne(m, ids[n], w);
            SyncUntilFailure(s, ids[..n + 1], w) == (after, if ok then None else Some(n))
  {
    assert ids[..n + 1][..n] == ids[..n];
  }

  /** Once a sync has failed, the remaining interfaces are not reached. */
  lemma {:induction false} FailureSticks(s: State, ids: seq<Id>, n: nat, w: Weather)
    requires n <= |ids| && SyncUntilFailure(s, ids[..n], w).1.Some?
    ensures SyncUntilFailure(s, ids, w) == SyncUntilFailure(s, ids[..n], w)
    decreases |ids|
  {
    if n < |ids| {
      var init := ids[..|ids| - 1];
      assert init[..n] == ids[..n];
      FailureSticks(s, init, n, w);
    } else {
      assert ids[..n] == ids;
    }
  }
}
