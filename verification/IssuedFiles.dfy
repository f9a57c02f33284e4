/** What the staleness flag does and does not say about the file a user holds. */
module IssuedFiles {
  import opened ClientConfig
  import opened ClientText
  import opened ConfigHistory
  import opened FailingSyncs
  import opened Reconcile
  import opened ReconcileRuns
  import opened Sequences
  import opened Store
  import opened StoreFacts
  import opened SyncFrames
  import opened Wrappers

  // ---- Is the file still right? ----

  /**
   In every state of every run, whatever the flag says: a configured device's file is
   right, byte for byte, when endpoint, DNS, allowed addresses and keepalive as rendered
   are what they were then, and if they are free of line breaks, only then.  No other
   update can make it wrong, and undoing an update makes it right again.
   */
  lemma FileIsRight(env: Env, events: seq<Event>, k: nat)
    requires FreshRun(env, INITIAL, events)
    requires k < |Run(env, INITIAL, events).db.peers| && Run(env, INITIAL, events).db.peers[k].publicKey != ""
    ensures var db, h := Run(env, INITIAL, events).db, HistoryOf(env, events);
            var p := db.peers[k];
            && p.id in h && p.interfaceId in db.interfaces
            && var issued, iface := h[p.id], db.interfaces[p.interfaceId];
               var now := InputsOf(iface, p, issued.inputs.privateKey);
               var right := RenderPeerConfig(iface, p, issued.inputs.privateKey) == IssuedFile(issued);
               && (SameFields(now, issued.inputs) ==> right)
               && (EditableOneLine(now) && EditableOneLine(issued.inputs)
                   ==> (right <==> SameFields(now, issued.inputs)))
  {
    var db, h := Run(env, INITIAL, events).db, HistoryOf(env, events);
    var p := db.peers[k];
    RunsAreTracked(env, events);
    PushedIsPermittedAsOfLastSync(env, events);
    assert PeerTracked(db, p, h);
    SameFileSameFields(InputsOf(db.interfaces[p.interfaceId], p, h[p.id].inputs.privateKey), h[p.id].inputs);
  }

  /**
   What one update of the row `a` to `b` does to a device's file: nothing unless one of the
   four values as rendered changes, and without line breaks in them it changes the file
   exactly then.
   */
  lemma UpdateChangesFile(a: Interface, b: Interface, p: Peer, privateKey: string)
    requires a.publicKey == b.publicKey
    ensures var c, d := InputsOf(a, p, privateKey), InputsOf(b, p, privateKey);
            var differs := RenderPeerConfig(a, p, privateKey) != RenderPeerConfig(b, p, privateKey);
            && (differs ==> !SameFields(c, d) && FileFieldsDiffer(a, b))
            && (EditableOneLine(c) && EditableOneLine(d) ==> (differs <==> !SameFields(c, d)))
  {
    SameFileSameFields(InputsOf(a, p, privateKey), InputsOf(b, p, privateKey));
  }

  function SetEndpoint(endpoint: string): Change {
    Change(None, None, Some(endpoint), None, None, None, None, None, None)
  }

  /** The history after an accepted update. */
  function AfterUpdate(env: Env, db: Db, i: Id, c: Change, h: History): (Db, History)
    requires Mutate(env, db, UpdateInterface(i, c, 0)).Ok?
  {
    var db' := Mutate(env, db, UpdateInterface(i, c, 0)).value;
    (db', Recorded(db, db', UpdateInterface(i, c, 0), h, true))
  }

  /**
   A flag that stays up on a file that is right: change the endpoint of a device's
   interface to anything else and back.
   */
  lemma RevertedUpdateKeepsFlag(env: Env, db: Db, h: History, k: nat, other: string)
    requires ValidDb(db) && k < |db.peers| && db.peers[k].publicKey != ""
    requires PeerTracked(db, db.peers[k], h) && h[db.peers[k].id].changes == 0
    requires other != db.interfaces[db.peers[k].interfaceId].endpoint
    ensures var p := db.peers[k];
            var i, was := p.interfaceId, db.interfaces[p.interfaceId].endpoint;
            && Mutate(env, db, UpdateInterface(i, SetEndpoint(other), 0)).Ok?
            && var (db1, h1) := AfterUpdate(env, db, i, SetEndpoint(other), h);
               Mutate(env, db1, UpdateInterface(i, SetEndpoint(was), 0)).Ok?
               && var (db2, h2) := AfterUpdate(env, db1, i, SetEndpoint(was), h1);
                  && i in db2.interfaces && p.id in h2
                  && Stale(db2, p) && h2[p.id].changes == 2
                  && RenderPeerConfig(db2.interfaces[i], p, h2[p.id].inputs.privateKey) == IssuedFile(h2[p.id])
  {
    var p := db.peers[k];
    var i, was := p.interfaceId, db.interfaces[p.interfaceId].endpoint;
    var (db1, h1) := AfterUpdate(env, db, i, SetEndpoint(other), h);
    PeerById(db, k);
    PeerById(db1, k);
    var (db2, h2) := AfterUpdate(env, db1, i, SetEndpoint(was), h1);
    assert InputsOf(db2.interfaces[i], p, h2[p.id].inputs.privateKey) == h2[p.id].inputs;
  }

  // ---- Did anybody receive it? ----

  /** The operation generates keys for a device and renders a file after its sync. */
  predicate Generation(op: Op) {
    op.CreatePeer? || op.RegeneratePeer?
  }

  predicate Generates(op: Op, id: Id) {
    Generation(op) && op.id == id
  }

  /**
   One generation, by creation or regeneration: the key is stored and no flag is up
   either way, and the file is handed out exactly when the sync applied.
   */
  lemma GenerationDelivers(env: Env, s: State, op: Op, w: Weather)
    requires Inv(s) && Generation(op) && op.publicKey != "" && Mutate(env, s.db, op).Ok?
    ensures var (s', ok) := Step(env, s, op, w);
            && FindPeer(s'.db, op.id).Some?
            && var p := FindPeer(s'.db, op.id).value;
               && p.publicKey == op.publicKey && !Stale(s'.db, p)
               && (ok <==> OutcomeOf(w, p.interfaceId) == Applied)
  {
    var db' := Mutate(env, s.db, op).value;
    GeneratedRow(env, s.db, op);
    StepErrors(env, s, op, w);
    StepSyncsOne(env, s, op, w, FindPeer(db', op.id).value.interfaceId);
  }

  lemma GeneratedRow(env: Env, db: Db, op: Op)
    requires ValidDb(db) && Generation(op) && Mutate(env, db, op).Ok?
    ensures var db' := Mutate(env, db, op).value;
            && FindPeer(db', op.id).Some?
            && var p := FindPeer(db', op.id).value;
               && p.publicKey == op.publicKey && p.interfaceId in db'.interfaces
               && p.configVersion == db'.interfaces[p.interfaceId].configVersion
               && PlanOf(db, op) == One(p.interfaceId)
  {
    var db' := Mutate(env, db, op).value;
    MutateKeepsValid(env, db, op);
    if op.CreatePeer? {
      PeerById(db', |db.peers|);
    } else {
      PeerById(db', First(db.peers, WithId(op.id)).value);
    }
  }

  /** The last accepted generation for the device. */
  function LastGeneration(env: Env, events: seq<Event>, id: Id): (g: Option<nat>)
    ensures g.Some? ==> g.value < |events| && Generates(events[g.value].op, id)
  {
    if events == [] then None
    else
      var init, last := events[..|events| - 1], events[|events| - 1];
      if Generates(last.op, id) && Mutate(env, Run(env, INITIAL, init).db, last.op).Ok? then Some(|init|)
      else LastGeneration(env, init, id)
  }

  /** The record says "delivered" exactly when the sync of the last generation applied. */
  ghost predicate DeliveryKnown(env: Env, events: seq<Event>, db: Db, h: History, id: Id)
    requires id in h
  {
    && FindPeer(db, id).Some?
    && var g := LastGeneration(env, events, id);
       && g.Some?
       && (h[id].delivered <==> OutcomeOf(events[g.value].weather, FindPeer(db, id).value.interfaceId) == Applied)
  }

  /** A device that is there before and after a write is on the same interface. */
  lemma SameInterface(env: Env, db: Db, op: Op, id: Id)
    requires ValidDb(db) && Mutate(env, db, op).Ok?
    requires FindPeer(db, id).Some? && FindPeer(Mutate(env, db, op).value, id).Some?
    ensures FindPeer(Mutate(env, db, op).value, id).value.interfaceId == FindPeer(db, id).value.interfaceId
  {
    var db' := Mutate(env, db, op).value;
    var k' := First(db'.peers, WithId(id)).value;
    var k := RowOrigin(env, db, op, k');
    if k < |db.peers| {
      PeerById(db, k);
    } else {
      UnusedId(db, op);
    }
  }

  /** Where a row comes from: an earlier row of the same device, or the insert. */
  lemma RowOrigin(env: Env, db: Db, op: Op, k': nat) returns (k: nat)
    requires Mutate(env, db, op).Ok? && k' < |Mutate(env, db, op).value.peers|
    ensures k < |db.peers| ==>
      var row := Mutate(env, db, op).value.peers[k'];
      db.peers[k].id == row.id && db.peers[k].interfaceId == row.interfaceId
    ensures k >= |db.peers| ==>
      (op.CreatePeer? || op.CreateUnconfigured?) && Mutate(env, db, op).value.peers[k'].id == op.id
  {
    if op.DeleteInterface? || op.DeletePeer? || op.DeleteUser? {
      k := KeptOrigin(env, db, op, k');
    } else if op.RenamePeer? || op.RegeneratePeer? {
      k := RevisedOrigin(env, db, op, k');
    } else {
      k := k';
    }
  }

  lemma RevisedOrigin(env: Env, db: Db, op: Op, k': nat) returns (k: nat)
    requires Mutate(env, db, op).Ok? && k' < |Mutate(env, db, op).value.peers|
    requires op.RenamePeer? || op.RegeneratePeer?
    ensures k < |db.peers| && db.peers[k].id == Mutate(env, db, op).value.peers[k'].id
    ensures db.peers[k].interfaceId == Mutate(env, db, op).value.peers[k'].interfaceId
  {
    k := if db.peers[k'].id == op.id then First(db.peers, WithId(op.id)).value else k';
  }

  lemma KeptOrigin(env: Env, db: Db, op: Op, k': nat) returns (k: nat)
    requires Mutate(env, db, op).Ok? && k' < |Mutate(env, db, op).value.peers|
    requires op.DeleteInterface? || op.DeletePeer? || op.DeleteUser?
    ensures k < |db.peers| && db.peers[k] == Mutate(env, db, op).value.peers[k']
  {
    var keep := if op.DeleteInterface? then NotOn(op.id) else if op.DeletePeer? then WithoutId(op.id)
        else NotOwnedBy(op.id);
    assert Mutate(env, db, op).value.peers == Filter(db.peers, keep);
    FilterMembers(db.peers, keep);
    k :| 0 <= k < |db.peers| && db.peers[k] == Mutate(env, db, op).value.peers[k'];
  }

  /** Only a generation writes the record's delivery. */
  lemma RecordKept(db: Db, db': Db, op: Op, h: History, ok: bool, id: Id)
    requires id in Recorded(db, db', op, h, ok) && !Generates(op, id)
    ensures id in h && Recorded(db, db', op, h, ok)[id].delivered == h[id].delivered
  {
  }

  lemma RecordMade(env: Env, s: State, op: Op, w: Weather, h: History)
    requires Inv(s) && Generation(op) && Mutate(env, s.db, op).Ok?
    ensures var (s', ok) := Step(env, s, op, w);
            var h' := Recorded(s.db, Mutate(env, s.db, op).value, op, h, ok);
            && op.id in h' && FindPeer(s'.db, op.id).Some?
            && (h'[op.id].delivered <==> OutcomeOf(w, FindPeer(s'.db, op.id).value.interfaceId) == Applied)
  {
    var db' := Mutate(env, s.db, op).value;
    GeneratedRow(env, s.db, op);
    StepErrors(env, s, op, w);
    StepSyncsOne(env, s, op, w, FindPeer(db', op.id).value.interfaceId);
  }

  lemma DeliveryStep(env: Env, init: seq<Event>, last: Event, id: Id)
    requires var s, h, events := Run(env, INITIAL, init), HistoryOf(env, init), init + [last];
             && Inv(s) && Tracked(s.db, h)
             && (forall j :: j in h ==> DeliveryKnown(env, init, s.db, h, j))
             && id in HistoryOf(env, events) && FindPeer(Run(env, INITIAL, events).db, id).Some?
    ensures DeliveryKnown(env, init + [last], Run(env, INITIAL, init + [last]).db, HistoryOf(env, init + [last]), id)
  {
    var s, h, events := Run(env, INITIAL, init), HistoryOf(env, init), init + [last];
    assert events[..|events| - 1] == init && events[|events| - 1] == last;
    StepErrors(env, s, last.op, last.weather);
    if Mutate(env, s.db, last.op).Ok? {
      var db' := Mutate(env, s.db, last.op).value;
      if Generates(last.op, id) {
        RecordMade(env, s, last.op, last.weather, h);
      } else {
        RecordKept(s.db, db', last.op, h, Step(env, s, last.op, last.weather).1, id);
        SameInterface(env, s.db, last.op, id);
      }
    }
  }

  /**
   Over runs: a configured device's last file was handed out exactly when the sync of
   its last generation applied.
   */
  lemma {:induction false} DeliveryIsKnown(env: Env, events: seq<Event>)
    requires FreshRun(env, INITIAL, events)
    ensures var db, h := Run(env, INITIAL, events).db, HistoryOf(env, events);
            && (forall id :: id in h ==> DeliveryKnown(env, events, db, h, id))
            && (forall k :: 0 <= k < |db.peers| && db.peers[k].publicKey != "" ==> db.peers[k].id in h)
  {
    RunsAreTracked(env, events);
    var db, h := Run(env, INITIAL, events).db, HistoryOf(env, events);
    forall k | 0 <= k < |db.peers| && db.peers[k].publicKey != "" ensures db.peers[k].id in h {
      assert PeerTracked(db, db.peers[k], h);
    }
    if events != [] {
      var init, last := events[..|events| - 1], events[|events| - 1];
      FreshRunPrefix(env, INITIAL, events);
      DeliveryIsKnown(env, init);
      RunsAreTracked(env, init);
      PushedIsPermittedAsOfLastSync(env, init);
      assert events == init + [last];
      forall id | id in h ensures DeliveryKnown(env, events, db, h, id) {
        DeliveryStep(env, init, last, id);
      }
    }
  }
}
