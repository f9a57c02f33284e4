/** One access rule behind three questions, and the constraints every database state keeps. */
module StoreFacts {
  import opened Glob
  import opened Sequences
  import opened Store
  import opened Wrappers

  // ---- Access ----

  /** "My interfaces" and "may I use this interface" give the same answer. */
  lemma ListingAgreesWithCheck(db: Db, user: Id, email: Text, i: Id)
    requires ForeignKeys(db)
    ensures i in InterfacesForUser(db, user, email) <==> CanAccessInterface(db, user, email, i) == Some(true)
  {
    if UserIsLive(db, user) {
      InFilter(db.order, Admits(db, email, ClaimGroups(db.claims, user)), i);
    }
  }

  /**
   A configured device of a user in good standing is pushed exactly to the interfaces
   that user may use; banned and revoked users' devices are never pushed.
   */
  lemma ActiveAgreesWithCheck(db: Db, i: Id, p: Peer, user: Id)
    requires ForeignKeys(db) && i in db.interfaces
    requires p in ListPeers(db, i) && p.publicKey != "" && p.userId == Some(user) && user in db.users
    ensures p in ActivePeers(db, i) <==>
      && !db.users[user].banned && !db.users[user].revoked
      && CanAccessInterface(db, user, db.users[user].email, i) == Some(true)
  {
    InFilter(db.peers, OnInterface(i), p);
    InFilter(db.peers, ActiveOn(db, i), p);
  }

  /** The active peers are the interface's peers in the same order, some left out. */
  lemma ActiveFromListed(db: Db, i: Id)
    requires i in db.interfaces
    ensures ActivePeers(db, i) == Filter(ListPeers(db, i), ActiveOn(db, i))
  {
    FilterTwice(db.peers, OnInterface(i), ActiveOn(db, i));
  }

  /** A login replaces what its own provider captured; other providers' and other users' groups stay. */
  lemma LoginReplacesOwnProvider(claims: map<(Id, Text), seq<Text>>, user: Id, provider: Text,
      groups: seq<Text>, other: Id)
    ensures ClaimGroups(claims[(user, provider) := groups], user)
         == Elems(groups) + ClaimGroups(claims - {(user, provider)}, user)
    ensures other != user ==> ClaimGroups(claims[(user, provider) := groups], other) == ClaimGroups(claims, other)
  {
    var after := claims[(user, provider) := groups];
    forall g | g in ClaimGroups(after, user)
      ensures g in Elems(groups) + ClaimGroups(claims - {(user, provider)}, user)
    {
      var k, n :| k in after && k.0 == user && 0 <= n < |after[k]| && after[k][n] == g;
      if k != (user, provider) {
        assert k in claims - {(user, provider)} && (claims - {(user, provider)})[k][n] == g;
      }
    }
    forall g | g in Elems(groups) ensures g in ClaimGroups(after, user) {
      var n :| 0 <= n < |groups| && groups[n] == g;
      assert (user, provider) in after && after[(user, provider)][n] == g;
    }
    forall g | g in ClaimGroups(claims - {(user, provider)}, user) ensures g in ClaimGroups(after, user) {
      var k, n :| k in claims - {(user, provider)} && k.0 == user && 0 <= n < |claims[k]| && claims[k][n] == g;
      assert k in after && after[k][n] == g;
    }
    if other != user {
      OtherUsersClaims(claims, user, provider, groups, other);
    }
  }

  lemma OtherUsersClaims(claims: map<(Id, Text), seq<Text>>, user: Id, provider: Text, groups: seq<Text>, other: Id)
    requires other != user
    ensures ClaimGroups(claims[(user, provider) := groups], other) == ClaimGroups(claims, other)
  {
    var after := claims[(user, provider) := groups];
    forall g ensures g in ClaimGroups(after, other) <==> g in ClaimGroups(claims, other) {
      if g in ClaimGroups(after, other) {
        var k, n :| k in after && k.0 == other && 0 <= n < |after[k]| && after[k][n] == g;
        assert k in claims && claims[k][n] == g;
      }
      if g in ClaimGroups(claims, other) {
        var k, n :| k in claims && k.0 == other && 0 <= n < |claims[k]| && claims[k][n] == g;
        assert k in after && after[k][n] == g;
      }
    }
  }

  // ---- Constraints ----

  lemma AppendKeepsUnique(db: Db, p: Peer)
    requires PeersUnique(db.peers)
    requires PeerFits(db, p.id, p.interfaceId, p.userId, p.publicKey, p.address)
    ensures PeersUnique(db.peers + [p])
  {
  }

  lemma ReviseKeepsUnique(db: Db, id: Id, k: nat, p': Peer)
    requires PeersUnique(db.peers) && k < |db.peers| && db.peers[k].id == id
    requires p'.id == id && p'.interfaceId == db.peers[k].interfaceId && p'.address == db.peers[k].address
    requires KeyFree(db, id, p'.interfaceId, p'.publicKey)
    ensures PeersUnique(Revised(db.peers, id, p'))
  {
    var r := Revised(db.peers, id, p');
    assert forall j :: 0 <= j < |r| && j != k ==> r[j] == db.peers[j];
  }

  lemma KeyFreeAsIs(db: Db, k: nat)
    requires PeersUnique(db.peers) && k < |db.peers|
    ensures KeyFree(db, db.peers[k].id, db.peers[k].interfaceId, db.peers[k].publicKey)
  {
    forall j | 0 <= j < |db.peers| && j != k
      ensures PeersApart(db.peers[j], db.peers[k]) || PeersApart(db.peers[k], db.peers[j])
    {
    }
  }

  /** Dropping rows keeps what holds of each remaining row and of each pair. */
  lemma FilterKeepsRows(peers: seq<Peer>, keep: Peer -> bool)
    requires PeersUnique(peers) && forall k :: 0 <= k < |peers| ==> PskKnown(peers[k])
    ensures PeersUnique(Filter(peers, keep))
    ensures forall k :: 0 <= k < |Filter(peers, keep)| ==>
      && PskKnown(Filter(peers, keep)[k]) && keep(Filter(peers, keep)[k])
      && Filter(peers, keep)[k] in peers
  {
    FilterPairwise(peers, keep, PeersApart);
    FilterMembers(peers, keep);
  }

  lemma DeleteInterfaceKeepsValid(env: Env, db: Db, op: Op)
    requires ValidDb(db) && Mutate(env, db, op).Ok? && op.DeleteInterface?
    ensures ValidDb(Mutate(env, db, op).value)
  {
    FilterKeepsRows(db.peers, NotOn(op.id));
    FilterMembers(db.order, OtherThan(op.id));
    FilterPairwise(db.order, OtherThan(op.id), (i: Id, j: Id) => i != j);
  }

  lemma DeleteUserKeepsValid(env: Env, db: Db, op: Op)
    requires ValidDb(db) && op.DeleteUser?
    ensures ValidDb(Mutate(env, db, op).value)
  {
    FilterKeepsRows(db.peers, NotOwnedBy(op.id));
  }

  lemma DeletePeerKeepsValid(env: Env, db: Db, op: Op)
    requires ValidDb(db) && Mutate(env, db, op).Ok? && op.DeletePeer?
    ensures ValidDb(Mutate(env, db, op).value)
  {
    FilterKeepsRows(db.peers, WithoutId(op.id));
  }

  lemma InsertsKeepValid(env: Env, db: Db, op: Op)
    requires ValidDb(db) && Mutate(env, db, op).Ok?
    requires op.CreatePeer? || op.CreateUnconfigured?
    ensures ValidDb(Mutate(env, db, op).value)
  {
    var db' := Mutate(env, db, op).value;
    AppendKeepsUnique(db, db'.peers[|db.peers|]);
  }

  lemma RevisionsKeepValid(env: Env, db: Db, op: Op)
    requires ValidDb(db) && Mutate(env, db, op).Ok?
    requires op.RenamePeer? || op.RegeneratePeer?
    ensures ValidDb(Mutate(env, db, op).value)
  {
    var k := First(db.peers, WithId(op.id)).value;
    var p' := Mutate(env, db, op).value.peers[k];
    KeyFreeAsIs(db, k);
    assert Mutate(env, db, op).value == db.(peers := Revised(db.peers, op.id, p'));
    RevisionKeepsValid(db, op.id, k, p');
  }

  lemma RevisionKeepsValid(db: Db, id: Id, k: nat, p': Peer)
    requires ValidDb(db) && k < |db.peers| && db.peers[k].id == id
    requires p'.id == id && p'.interfaceId == db.peers[k].interfaceId && p'.address == db.peers[k].address
    requires p'.userId == db.peers[k].userId && KeyFree(db, id, p'.interfaceId, p'.publicKey) && PskKnown(p')
    ensures ValidDb(db.(peers := Revised(db.peers, id, p')))
  {
    ReviseKeepsUnique(db, id, k, p');
  }

  /** A new row under a new id and name, or an old row under its name. */
  lemma SetInterfaceKeepsValid(db: Db, id: Id, row: Interface, order': seq<Id>)
    requires ValidDb(db)
    requires order' == if id in db.interfaces then db.order else db.order + [id]
    requires forall j :: j in db.interfaces && j != id ==> db.interfaces[j].name != row.name
    ensures ValidDb(db.(interfaces := db.interfaces[id := row], order := order'))
  {
    var db' := db.(interfaces := db.interfaces[id := row], order := order');
    forall i, j | i in db'.interfaces && j in db'.interfaces && i != j
      ensures db'.interfaces[i].name != db'.interfaces[j].name
    {
      assert i != id ==> i in db.interfaces && db'.interfaces[i] == db.interfaces[i];
      assert j != id ==> j in db.interfaces && db'.interfaces[j] == db.interfaces[j];
    }
    OrderKeepsKeys(db, id, order');
  }

  lemma OrderKeepsKeys(db: Db, id: Id, order': seq<Id>)
    requires ForeignKeys(db) && order' == if id in db.interfaces then db.order else db.order + [id]
    ensures Pairwise(order', (i: Id, j: Id) => i != j)
    ensures forall i :: i in order' <==> i in db.interfaces || i == id
  {
  }

  lemma InterfaceWritesKeepValid(env: Env, db: Db, op: Op)
    requires ValidDb(db) && Mutate(env, db, op).Ok?
    requires op.CreateInterface? || op.UpdateInterface?
    ensures ValidDb(Mutate(env, db, op).value)
  {
    var db' := Mutate(env, db, op).value;
    SetInterfaceKeepsValid(db, op.id, db'.interfaces[op.id], db'.order);
  }

  lemma GroupWritesKeepValid(env: Env, db: Db, op: Op)
    requires ValidDb(db) && Mutate(env, db, op).Ok?
    requires op.CreateGroup? || op.UpdateGroup? || op.DeleteGroup?
    ensures ValidDb(Mutate(env, db, op).value)
  {
  }

  lemma SetUserKeepsValid(db: Db, id: Id, u: User)
    requires ValidDb(db)
    requires forall v :: v in db.users && v != id ==> db.users[v].email != u.email
    ensures ValidDb(SetUser(db, id, u))
  {
  }

  lemma UpsertUserKeepsValid(env: Env, db: Db, op: Op)
    requires ValidDb(db) && Mutate(env, db, op).Ok? && op.UpsertUser?
    ensures ValidDb(Mutate(env, db, op).value)
  {
    if Mutate(env, db, op).value != db {
      SetUserKeepsValid(db, op.id, User(op.email, false, false, None));
    }
  }

  lemma FlagsKeepValid(env: Env, db: Db, op: Op)
    requires ValidDb(db) && Mutate(env, db, op).Ok?
    requires op.SetBanned? || op.SetRevoked?
    ensures ValidDb(Mutate(env, db, op).value)
  {
    if op.id in db.users {
      SetUserKeepsValid(db, op.id, Mutate(env, db, op).value.users[op.id]);
    }
  }

  lemma LoginKeepsValid(env: Env, db: Db, op: Op)
    requires ValidDb(db) && Mutate(env, db, op).Ok? && op.Login?
    ensures ValidDb(Mutate(env, db, op).value)
  {
    var db' := Mutate(env, db, op).value;
    SetUserKeepsValid(db.(claims := db'.claims), op.id, db'.users[op.id]);
  }

  /** Every handler keeps the foreign keys and the unique constraints. */
  lemma MutateKeepsValid(env: Env, db: Db, op: Op)
    requires ValidDb(db) && Mutate(env, db, op).Ok?
    ensures ValidDb(Mutate(env, db, op).value)
  {
    if op.DeleteInterface? {
      DeleteInterfaceKeepsValid(env, db, op);
    } else if op.DeletePeer? {
      DeletePeerKeepsValid(env, db, op);
    } else if op.DeleteUser? {
      DeleteUserKeepsValid(env, db, op);
    } else if op.CreatePeer? || op.CreateUnconfigured? {
      InsertsKeepValid(env, db, op);
    } else if op.RenamePeer? || op.RegeneratePeer? {
      RevisionsKeepValid(env, db, op);
    } else if op.CreateInterface? || op.UpdateInterface? {
      InterfaceWritesKeepValid(env, db, op);
    } else if op.CreateGroup? || op.UpdateGroup? || op.DeleteGroup? {
      GroupWritesKeepValid(env, db, op);
    } else if op.UpsertUser? {
      UpsertUserKeepsValid(env, db, op);
    } else if op.SetBanned? || op.SetRevoked? {
      FlagsKeepValid(env, db, op);
    } else if op.Login? {
      LoginKeepsValid(env, db, op);
    }
  }
}
