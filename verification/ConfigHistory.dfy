/**
 "The file you downloaded is still right": a version counter stands in for it.

 The history records, for each device, the file of its last key generation, whether the
 caller received it, and how many updates since then changed something that goes into it.
 */
module ConfigHistory {
  import opened ClientConfig
  import opened Reconcile
  import opened ReconcileRuns
  import opened Sequences
  import opened Store
  import opened StoreFacts
  import opened SyncFrames
  import opened Wrappers

  datatype Issued = Issued(inputs: Inputs, changes: nat, delivered: bool)

  /** The file that belongs to the key pair: rendered and handed out unless the sync in between failed. */
  function IssuedFile(i: Issued): string {
    ConfigText(i.inputs)
  }

  type History = map<Id, Issued>

  // ---- The staleness flag ----

  /** The flag shown with a device. */
  predicate Stale(db: Db, p: Peer) {
    p.publicKey != "" && p.configVersion < (if p.interfaceId in db.interfaces
        then db.interfaces[p.interfaceId].configVersion else 0)
  }

  // ---- History ----

  function Count(h: History, db: Db, i: Id): History {
    map id | id in h :: if OnIt(db, id, i) then h[id].(changes := h[id].changes + 1) else h[id]
  }

  predicate OnIt(db: Db, id: Id, i: Id) {
    FindPeer(db, id).Some? && FindPeer(db, id).value.interfaceId == i
  }

  /** The history after a successful write from `db` to `db'`, when the handler ended with `ok`. */
  function Recorded(db: Db, db': Db, op: Op, h: History, ok: bool): History {
    match op
    case CreatePeer(id, i, owner, name, clientKey, publicKey, psk, address, userCreated) =>
      if i in db'.interfaces && FindPeer(db', id).Some?
      then h[id := Issued(InputsOf(db'.interfaces[i], FindPeer(db', id).value, clientKey), 0, ok)]
      else h
    case RegeneratePeer(id, clientKey, _, _) =>
      if FindPeer(db', id).Some? && FindPeer(db', id).value.interfaceId in db'.interfaces
      then var p := FindPeer(db', id).value;
           h[id := Issued(InputsOf(db'.interfaces[p.interfaceId], p, clientKey), 0, ok)]
      else h
    case UpdateInterface(i, _, _) =>
      if i in db.interfaces && i in db'.interfaces && FileFieldsDiffer(db.interfaces[i], db'.interfaces[i])
      then Count(h, db, i)
      else h
    case _ => map id | id in h && FindPeer(db', id).Some? :: h[id]
  }

  function HistoryOf(env: Env, events: seq<Event>): History {
    if events == [] then map[]
    else
      var init, last := events[..|events| - 1], events[|events| - 1];
      var s := Run(env, INITIAL, init);
      match Mutate(env, s.db, last.op)
      case Ok(db') => Recorded(s.db, db', last.op, HistoryOf(env, init), Step(env, s, last.op, last.weather).1)
      case Err(_) => HistoryOf(env, init)
  }

  // ---- The invariant ----

  /** The counter difference is the number of relevant updates since the last generation. */
  ghost predicate PeerTracked(db: Db, p: Peer, h: History) {
    && p.interfaceId in db.interfaces
    && p.configVersion <= db.interfaces[p.interfaceId].configVersion
    && (p.publicKey != "" ==> p.id in h)
    && (p.id in h ==>
      && db.interfaces[p.interfaceId].configVersion - p.configVersion == h[p.id].changes
      && h[p.id].inputs.address == p.address && h[p.id].inputs.presharedKey == p.presharedKey
      && h[p.id].inputs.serverPublicKey == db.interfaces[p.interfaceId].publicKey
      && (h[p.id].changes == 0 ==>
        h[p.id].inputs == InputsOf(db.interfaces[p.interfaceId], p, h[p.id].inputs.privateKey)))
  }

  ghost predicate Tracked(db: Db, h: History) {
    && (forall k :: 0 <= k < |db.peers| ==> PeerTracked(db, db.peers[k], h))
    && (forall id :: id in h ==> FindPeer(db, id).Some?)
  }

  lemma PeerById(db: Db, k: nat)
    requires PeersUnique(db.peers) && k < |db.peers|
    ensures FindPeer(db, db.peers[k].id) == Some(db.peers[k])
  {
    var j := First(db.peers, WithId(db.peers[k].id)).value;
    assert j < k ==> PeersApart(db.peers[j], db.peers[k]);
  }

  lemma FoundIfThere(db: Db, k: nat)
    requires k < |db.peers|
    ensures FindPeer(db, db.peers[k].id).Some?
  {
  }

  lemma InsertTracked(db: Db, p: Peer, db': Db, h: History, h': History)
    requires Tracked(db, h)
    requires db' == db.(peers := db.peers + [p])
    requires FindPeer(db, p.id).None?
    requires p.id !in h' || h' == h[p.id := h'[p.id]]
    requires p.id in h' || h' == h
    requires PeerTracked(db', p, h')
    ensures Tracked(db', h')
  {
    forall k | 0 <= k < |db.peers| ensures PeerTracked(db', db'.peers[k], h') {
      assert PeerTracked(db, db.peers[k], h);
      FoundIfThere(db, k);
    }
    forall id | id in h' ensures FindPeer(db', id).Some? {
      if id == p.id {
        FoundIfThere(db', |db.peers|);
      } else {
        FoundIfThere(db', First(db.peers, WithId(id)).value);
      }
    }
  }

  lemma ReviseTracked(db: Db, j: nat, p': Peer, db': Db, h: History, h': History)
    requires Tracked(db, h) && PeersUnique(db.peers) && j < |db.peers| && db.peers[j].id == p'.id
    requires db' == db.(peers := Revised(db.peers, p'.id, p'))
    requires h' == h || (p'.id in h' && h' == h[p'.id := h'[p'.id]])
    requires PeerTracked(db', p', h')
    ensures Tracked(db', h')
  {
    forall k | 0 <= k < |db.peers| ensures PeerTracked(db', db'.peers[k], h') {
      assert PeerTracked(db, db.peers[k], h);
      PeerById(db, k);
      PeerById(db, j);
    }
    forall id | id in h' ensures FindPeer(db', id).Some? {
      if id == p'.id {
        FoundIfThere(db', j);
      } else {
        FoundIfThere(db', First(db.peers, WithId(id)).value);
      }
    }
  }

  /** After an update of one interface row, a device's record still tells how far it is behind. */
  lemma UpdateTracksPeer(env: Env, db: Db, i: Id, c: Change, nonce: nat, h: History, ok: bool, k: nat)
    requires ValidDb(db) && k < |db.peers| && PeerTracked(db, db.peers[k], h)
    requires Mutate(env, db, UpdateInterface(i, c, nonce)).Ok?
    ensures var op := UpdateInterface(i, c, nonce);
            PeerTracked(Mutate(env, db, op).value, db.peers[k], Recorded(db, Mutate(env, db, op).value, op, h, ok))
  {
    PeerById(db, k);
  }

  /** A device that is still there, on an interface row that is as it was, keeps its record. */
  lemma KeptTracked(db: Db, db': Db, h: History, h': History, p: Peer)
    requires PeerTracked(db, p, h)
    requires p.interfaceId in db'.interfaces && db'.interfaces[p.interfaceId] == db.interfaces[p.interfaceId]
    requires p.id in h <==> p.id in h'
    requires p.id in h ==> h'[p.id] == h[p.id]
    ensures PeerTracked(db', p, h')
  {
  }

  lemma DeletionTracked(db: Db, db': Db, keep: Peer -> bool, h: History)
    requires ForeignKeys(db') && PeersUnique(db'.peers) && Tracked(db, h)
    requires db'.peers == Filter(db.peers, keep)
    requires forall i :: i in db'.interfaces ==> i in db.interfaces && db'.interfaces[i] == db.interfaces[i]
    ensures Tracked(db', map id | id in h && FindPeer(db', id).Some? :: h[id])
  {
    var h' := map id | id in h && FindPeer(db', id).Some? :: h[id];
    FilterMembers(db.peers, keep);
    forall k | 0 <= k < |db'.peers| ensures PeerTracked(db', db'.peers[k], h') {
      var j :| 0 <= j < |db.peers| && db.peers[j] == db'.peers[k];
      FoundIfThere(db', k);
      KeptTracked(db, db', h, h', db'.peers[k]);
    }
  }

  /** Writes that touch neither devices nor existing interface rows. */
  lemma OtherTracked(db: Db, db': Db, h: History)
    requires Tracked(db, h) && db'.peers == db.peers
    requires forall i :: i in db.interfaces ==> i in db'.interfaces && db'.interfaces[i] == db.interfaces[i]
    ensures Tracked(db', map id | id in h && FindPeer(db', id).Some? :: h[id])
  {
    assert forall id :: FindPeer(db', id) == FindPeer(db, id);
    assert (map id | id in h && FindPeer(db', id).Some? :: h[id]) == h;
    forall k | 0 <= k < |db.peers| ensures PeerTracked(db', db.peers[k], h) {
      KeptTracked(db, db', h, h, db.peers[k]);
    }
  }

  lemma UnusedId(db: Db, op: Op)
    requires op.CreatePeer? || op.CreateUnconfigured?
    requires PeerFits(db, op.id, op.interfaceId, op.owner, if op.CreatePeer? then op.publicKey else "", op.address)
    ensures FindPeer(db, op.id).None?
  {
  }

  lemma InsertWriteTracked(env: Env, db: Db, op: Op, h: History, ok: bool)
    requires ValidDb(db) && Tracked(db, h) && Mutate(env, db, op).Ok?
    requires op.CreatePeer? || op.CreateUnconfigured?
    ensures Tracked(Mutate(env, db, op).value, Recorded(db, Mutate(env, db, op).value, op, h, ok))
  {
    var db' := Mutate(env, db, op).value;
    UnusedId(db, op);
    MutateKeepsValid(env, db, op);
    PeerById(db', |db.peers|);
    if op.CreateUnconfigured? {
      NothingForgotten(db, db', h);
    }
    InsertTracked(db, db'.peers[|db.peers|], db', h, Recorded(db, db', op, h, ok));
  }

  lemma RenameTracked(env: Env, db: Db, op: Op, h: History, ok: bool)
    requires ValidDb(db) && Tracked(db, h) && Mutate(env, db, op).Ok? && op.RenamePeer?
    ensures Tracked(Mutate(env, db, op).value, Recorded(db, Mutate(env, db, op).value, op, h, ok))
  {
    var db' := Mutate(env, db, op).value;
    var j := First(db.peers, WithId(op.id)).value;
    assert PeerTracked(db, db.peers[j], h);
    NothingForgotten(db, db', h);
    ReviseTracked(db, j, db.peers[j].(name := op.name), db', h, h);
  }

  lemma RegenerationTracked(env: Env, db: Db, op: Op, h: History, ok: bool)
    requires ValidDb(db) && Tracked(db, h) && Mutate(env, db, op).Ok? && op.RegeneratePeer?
    ensures Tracked(Mutate(env, db, op).value, Recorded(db, Mutate(env, db, op).value, op, h, ok))
  {
    var db' := Mutate(env, db, op).value;
    var j := First(db.peers, WithId(op.id)).value;
    MutateKeepsValid(env, db, op);
    PeerById(db', j);
    ReviseTracked(db, j, db'.peers[j], db', h, Recorded(db, db', op, h, ok));
  }

  /** No device disappeared, so no record does. */
  lemma NothingForgotten(db: Db, db': Db, h: History)
    requires forall id :: id in h ==> FindPeer(db, id).Some?
    requires |db.peers| <= |db'.peers| && forall k :: 0 <= k < |db.peers| ==> db'.peers[k].id == db.peers[k].id
    ensures (map id | id in h && FindPeer(db', id).Some? :: h[id]) == h
  {
    forall id | id in h ensures FindPeer(db', id).Some? {
      FoundIfThere(db', First(db.peers, WithId(id)).value);
    }
  }

  lemma UpdateTracked(env: Env, db: Db, op: Op, h: History, ok: bool)
    requires ValidDb(db) && Tracked(db, h) && Mutate(env, db, op).Ok? && op.UpdateInterface?
    ensures Tracked(Mutate(env, db, op).value, Recorded(db, Mutate(env, db, op).value, op, h, ok))
  {
    forall k | 0 <= k < |db.peers|
      ensures PeerTracked(Mutate(env, db, op).value, db.peers[k], Recorded(db, Mutate(env, db, op).value, op, h, ok))
    {
      UpdateTracksPeer(env, db, op.id, op.change, op.nonce, h, ok, k);
    }
    assert forall id :: FindPeer(Mutate(env, db, op).value, id) == FindPeer(db, id);
  }

  lemma RemovalWriteTracked(env: Env, db: Db, op: Op, h: History, ok: bool)
    requires ValidDb(db) && Tracked(db, h) && Mutate(env, db, op).Ok?
    requires op.DeleteInterface? || op.DeletePeer? || op.DeleteUser?
    ensures Tracked(Mutate(env, db, op).value, Recorded(db, Mutate(env, db, op).value, op, h, ok))
  {
    var db' := Mutate(env, db, op).value;
    MutateKeepsValid(env, db, op);
    match op
    case DeleteInterface(i) => DeletionTracked(db, db', NotOn(i), h);
    case DeletePeer(id) => DeletionTracked(db, db', WithoutId(id), h);
    case DeleteUser(u) => DeletionTracked(db, db', NotOwnedBy(u), h);
  }

  /** Every successful write keeps the records in step with the counters. */
  lemma WriteTracked(env: Env, db: Db, op: Op, h: History, ok: bool)
    requires ValidDb(db) && Tracked(db, h) && Mutate(env, db, op).Ok?
    ensures Tracked(Mutate(env, db, op).value, Recorded(db, Mutate(env, db, op).value, op, h, ok))
  {
    if op.CreatePeer? || op.CreateUnconfigured? {
      InsertWriteTracked(env, db, op, h, ok);
    } else if op.RenamePeer? {
      RenameTracked(env, db, op, h, ok);
    } else if op.RegeneratePeer? {
      RegenerationTracked(env, db, op, h, ok);
    } else if op.UpdateInterface? {
      UpdateTracked(env, db, op, h, ok);
    } else if op.DeleteInterface? || op.DeletePeer? || op.DeleteUser? {
      RemovalWriteTracked(env, db, op, h, ok);
    } else {
      OtherTracked(db, Mutate(env, db, op).value, h);
    }
  }

  // ---- Whole runs ----

  lemma ErrorsDontMatter(db: Db, db': Db, h: History)
    requires SameButErrors(db, db') && Tracked(db, h)
    ensures Tracked(db', h)
  {
    forall k | 0 <= k < |db'.peers| ensures PeerTracked(db', db'.peers[k], h) {
      assert PeerTracked(db, db.peers[k], h);
    }
  }

  lemma {:induction false} RunsAreTracked(env: Env, events: seq<Event>)
    requires FreshRun(env, INITIAL, events)
    ensures Tracked(Run(env, INITIAL, events).db, HistoryOf(env, events))
  {
    if events != [] {
      var init, last := events[..|events| - 1], events[|events| - 1];
      FreshRunPrefix(env, INITIAL, events);
      RunsAreTracked(env, init);
      PushedIsPermittedAsOfLastSync(env, init);
      var s := Run(env, INITIAL, init);
      StepErrors(env, s, last.op, last.weather);
      if Mutate(env, s.db, last.op).Ok? {
        WriteTracked(env, s.db, last.op, HistoryOf(env, init), Step(env, s, last.op, last.weather).1);
        ErrorsDontMatter(Mutate(env, s.db, last.op).value, Step(env, s, last.op, last.weather).0.db,
            HistoryOf(env, events));
      }
    }
  }

  // ---- What the flag is worth ----

  /**
   In every state of every run, for every configured device: the flag is up exactly when
   some update since the last key generation changed the endpoint, DNS, allowed IPs or
   keepalive; and while it is down, rendering now with the same private key gives the
   issued file byte for byte.
   */
  lemma FlagIsSound(env: Env, events: seq<Event>, k: nat)
    requires FreshRun(env, INITIAL, events)
    requires k < |Run(env, INITIAL, events).db.peers| && Run(env, INITIAL, events).db.peers[k].publicKey != ""
    ensures var db, h := Run(env, INITIAL, events).db, HistoryOf(env, events);
            var p := db.peers[k];
            && p.interfaceId in db.interfaces && p.configVersion <= db.interfaces[p.interfaceId].configVersion
            && p.id in h
            && (Stale(db, p) <==> h[p.id].changes > 0)
            && (!Stale(db, p) ==>
              RenderPeerConfig(db.interfaces[p.interfaceId], p, h[p.id].inputs.privateKey) == IssuedFile(h[p.id]))
  {
    RunsAreTracked(env, events);
    assert PeerTracked(Run(env, INITIAL, events).db, Run(env, INITIAL, events).db.peers[k], HistoryOf(env, events));
  }

  /**
   One update: either it changes what goes into the files and every configured device turns stale,
   or no flag moves.
   */
  lemma UpdateMovesAllFlagsOrNone(env: Env, db: Db, h: History, i: Id, c: Change, nonce: nat, p: Peer)
    requires Mutate(env, db, UpdateInterface(i, c, nonce)).Ok?
    requires PeerTracked(db, p, h)
    ensures var db' := Mutate(env, db, UpdateInterface(i, c, nonce)).value;
            Stale(db', p) <==>
              if p.interfaceId == i && FileFieldsDiffer(db.interfaces[i], db'.interfaces[i])
              then p.publicKey != ""
              else Stale(db, p)
  {
  }
}
