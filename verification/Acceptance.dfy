/** Which writes are refused: exactly those that name what is not there or would break a constraint. */
module Acceptance {
  import opened Sequences
  import opened Store
  import opened StoreFacts
  import opened Wrappers

  /** The row an insert would add, with whatever version. */
  function NewRow(op: Op, version: int): Peer
    requires op.CreatePeer? || op.CreateUnconfigured?
  {
    match op
    case CreatePeer(id, i, owner, name, _, key, psk, address, byUser) =>
      Peer(id, i, owner, name, key, Some(psk), address, byUser, version)
    case CreateUnconfigured(id, i, owner, name, address) =>
      Peer(id, i, owner, name, "", None, address, false, version)
  }

  lemma AppendedApart(peers: seq<Peer>, p: Peer)
    requires PeersUnique(peers)
    ensures PeersUnique(peers + [p]) <==> forall k :: 0 <= k < |peers| ==> PeersApart(peers[k], p)
  {
    var rows := peers + [p];
    if PeersUnique(rows) {
      forall k | 0 <= k < |peers| ensures PeersApart(peers[k], p) {
        assert PeersApart(rows[k], rows[|peers|]);
      }
    }
  }

  lemma AppendedKeys(db: Db, p: Peer)
    requires ForeignKeys(db)
    ensures ForeignKeys(db.(peers := db.peers + [p]))
       <==> p.interfaceId in db.interfaces && (p.userId.Some? ==> p.userId.value in db.users)
  {
    var rows := db.peers + [p];
    assert rows[|db.peers|] == p;
  }

  /** A device is inserted exactly when the tables with its row keep every constraint. */
  lemma InsertAccepted(env: Env, db: Db, op: Op, version: int)
    requires ValidDb(db) && (op.CreatePeer? || op.CreateUnconfigured?)
    ensures Mutate(env, db, op).Ok? <==> ValidDb(db.(peers := db.peers + [NewRow(op, version)]))
  {
    var p := NewRow(op, version);
    AppendedApart(db.peers, p);
    AppendedKeys(db, p);
    forall k | 0 <= k < |db.peers|
      ensures PeersApart(db.peers[k], p)
         <==> db.peers[k].id != p.id
              && (db.peers[k].interfaceId == p.interfaceId ==>
                   db.peers[k].address != p.address && (p.publicKey != "" ==> db.peers[k].publicKey != p.publicKey))
    {
    }
    assert forall k :: 0 <= k < |db.peers| ==> (db.peers + [p])[k] == db.peers[k];
    assert PskKnown(p);
  }

  /** New keys are accepted exactly when the device exists and no other device of its interface has the key. */
  lemma RegenerationAccepted(env: Env, db: Db, op: Op)
    requires ValidDb(db) && op.RegeneratePeer?
    ensures Mutate(env, db, op).Ok?
       <==> exists k :: 0 <= k < |db.peers| && db.peers[k].id == op.id
              && PeersUnique(db.peers[k := db.peers[k].(publicKey := op.publicKey, presharedKey := Some(op.psk))])
  {
    var hit := First(db.peers, WithId(op.id));
    if hit.Some? {
      RekeyedApart(db, op.id, hit.value, op.publicKey, op.psk);
    }
    forall k | 0 <= k < |db.peers| && db.peers[k].id == op.id ensures hit == Some(k) {
      OneRowPerId(db.peers, hit.value, k);
    }
  }

  lemma OneRowPerId(peers: seq<Peer>, j: nat, k: nat)
    requires PeersUnique(peers) && j < |peers| && k < |peers| && peers[j].id == peers[k].id
    ensures j == k
  {
    assert j < k ==> PeersApart(peers[j], peers[k]);
    assert k < j ==> PeersApart(peers[k], peers[j]);
  }

  lemma RekeyedApart(db: Db, id: Id, k: nat, key: string, psk: string)
    requires PeersUnique(db.peers) && k < |db.peers| && db.peers[k].id == id
    ensures PeersUnique(db.peers[k := db.peers[k].(publicKey := key, presharedKey := Some(psk))])
       <==> KeyFree(db, id, db.peers[k].interfaceId, key)
  {
    var rows := db.peers[k := db.peers[k].(publicKey := key, presharedKey := Some(psk))];
    if PeersUnique(rows) {
      forall j | 0 <= j < |db.peers| && key != "" && db.peers[j].interfaceId == db.peers[k].interfaceId
          && db.peers[j].id != id
        ensures db.peers[j].publicKey != key
      {
        assert PeersApart(rows[if j < k then j else k], rows[if j < k then k else j]);
      }
    } else {
      var i, j :| 0 <= i < j < |rows| && !PeersApart(rows[i], rows[j]);
      assert PeersApart(db.peers[i], db.peers[j]);
    }
  }

  /** An interface is created exactly when the tables with its row keep every constraint. */
  lemma CreationAccepted(env: Env, db: Db, op: Op, row: Interface)
    requires ValidDb(db) && op.CreateInterface? && row.name == op.fields.name
    ensures Mutate(env, db, op).Ok?
       <==> ValidDb(db.(interfaces := db.interfaces[op.id := row], order := db.order + [op.id]))
  {
    var order := db.order + [op.id];
    if op.id in db.interfaces {
      var k :| 0 <= k < |db.order| && db.order[k] == op.id;
      assert order[k] == order[|db.order|];
    } else if j :| j in db.interfaces && db.interfaces[j].name == op.fields.name {
      var rows := db.interfaces[op.id := row];
      assert j in rows && op.id in rows && j != op.id && rows[j].name == rows[op.id].name;
    } else {
      SetInterfaceKeepsValid(db, op.id, row, order);
    }
  }

  /** A group is added, or replaced, exactly when that keeps group names unique. */
  lemma GroupAccepted(env: Env, db: Db, op: Op)
    requires ValidDb(db) && (op.CreateGroup? || op.UpdateGroup?)
    ensures Mutate(env, db, op).Ok?
       <==> (op.CreateGroup? <==> op.id !in db.groups) && NamesUnique(db.(groups := db.groups[op.id := op.group]))
  {
    var groups := db.groups[op.id := op.group];
    assert forall g :: g in db.groups && g != op.id ==> g in groups && groups[g] == db.groups[g];
    assert op.id in groups && groups[op.id] == op.group;
  }

  /** Backends of one kind. */
  predicate SameKind(a: Backend, b: Backend) {
    && (a.SelfManaged? <==> b.SelfManaged?) && (a.NetworkManager? <==> b.NetworkManager?)
    && (a.SystemdNetworkd? <==> b.SystemdNetworkd?) && (a.Mikrotik? <==> b.Mikrotik?) && (a.Node? <==> b.Node?)
  }

  /** The other handlers are refused exactly when what they name is not there, or a backend's kind would change. */
  lemma OthersAccepted(env: Env, db: Db, op: Op)
    ensures match op
      case UpdateInterface(i, c, _) =>
        Mutate(env, db, op).Ok?
        <==> i in db.interfaces && (c.backend.Some? ==> SameKind(c.backend.value, db.interfaces[i].backend))
      case DeleteInterface(i) => Mutate(env, db, op).Ok? <==> i in db.interfaces
      case Resync(i) => Mutate(env, db, op).Ok? <==> i in db.interfaces
      case RenamePeer(id, _) => Mutate(env, db, op).Ok? <==> exists p :: p in db.peers && p.id == id
      case DeletePeer(id) => Mutate(env, db, op).Ok? <==> exists p :: p in db.peers && p.id == id
      case Login(u, _, _, _) => Mutate(env, db, op).Ok? <==> u in db.users
      case UpsertUser(id, email) =>
        Mutate(env, db, op).Ok? <==> id !in db.users || exists u :: u in db.users && db.users[u].email == email
      case SetBanned(_, _) => Mutate(env, db, op).Ok?
      case SetRevoked(_, _) => Mutate(env, db, op).Ok?
      case DeleteUser(_) => Mutate(env, db, op).Ok?
      case DeleteGroup(_) => Mutate(env, db, op).Ok?
      case Tick(_) => Mutate(env, db, op).Ok?
      case Restart => Mutate(env, db, op).Ok?
      case _ => true
  {
    if op.RenamePeer? || op.DeletePeer? {
      var hit := First(db.peers, WithId(op.id));
      assert hit.Some? ==> db.peers[hit.value] in db.peers;
    }
  }
}
