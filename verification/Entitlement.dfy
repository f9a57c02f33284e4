/** From what the operations said to what the backends hold: the access rule, spelled out. */
module Entitlement {
  import opened BackendTypes
  import opened Convergence
  import opened Glob
  import opened GlobAgreement
  import opened Ledger
  import opened Reconcile
  import opened Sequences
  import opened Store
  import opened Wrappers

  /** Live: the last login's deadline, if it set one, is still ahead. */
  predicate Live(b: Book, u: Id) {
    u in b.accounts && (b.accounts[u].liveUntil == None || b.now < b.accounts[u].liveUntil.value)
  }

  /** Some group captured from some provider is one of the group's claim values. */
  ghost predicate Claims(b: Book, u: Id, g: Group) {
    exists provider: Text, m: nat, n: nat ::
      && (u, provider) in b.captured && m < |b.captured[(u, provider)]| && n < |g.claimValues|
      && b.captured[(u, provider)][m] == g.claimValues[n]
  }

  /** One of the listed groups that exist lets the user in, by email pattern or by captured group. */
  ghost predicate LetIn(b: Book, ids: seq<Id>, u: Id)
    requires u in b.accounts
  {
    exists g :: g in ids && g in b.groups
      && (EmailMatches(b.groups[g].patterns, b.accounts[u].email) || Claims(b, u, b.groups[g]))
  }

  /** The user's devices may be on the interface. */
  ghost predicate Welcome(b: Book, i: Id, u: Id) {
    && i in b.interfaces && u in b.accounts
    && !b.accounts[u].banned && !b.accounts[u].revoked
    && Live(b, u) && LetIn(b, b.interfaces[i].groupIds, u)
  }

  /** The device has a key, is on the interface, and its owner, if it has one, is welcome there. */
  ghost predicate Entitled(b: Book, i: Id, id: Id) {
    && id in b.devices && b.devices[id].interfaceId == i && b.devices[id].publicKey != ""
    && match b.devices[id].owner
       case None => true
       case Some(u) => Welcome(b, i, u)
  }

  lemma CapturedAre(claims: map<(Id, Text), seq<Text>>, u: Id, v: Text)
    ensures v in ClaimGroups(claims, u)
       <==> exists provider: Text, m: nat ::
              (u, provider) in claims && m < |claims[(u, provider)]| && claims[(u, provider)][m] == v
  {
    if v in ClaimGroups(claims, u) {
      var k, m :| k in claims && k.0 == u && 0 <= m < |claims[k]| && claims[k][m] == v;
      assert k == (u, k.1);
    }
  }

  lemma GrantsIff(db: Db, b: Book, u: Id, g: Group, email: Text)
    requires db.claims == b.captured
    ensures GroupGrants(g, email, ClaimGroups(db.claims, u)) <==> EmailMatches(g.patterns, email) || Claims(b, u, g)
  {
    forall n | 0 <= n < |g.claimValues|
      ensures g.claimValues[n] in ClaimGroups(db.claims, u)
         <==> exists provider: Text, m: nat ::
                (u, provider) in b.captured && m < |b.captured[(u, provider)]|
                && b.captured[(u, provider)][m] == g.claimValues[n]
    {
      CapturedAre(db.claims, u, g.claimValues[n]);
    }
  }

  lemma GrantedIff(db: Db, b: Book, ids: seq<Id>, u: Id)
    requires db.claims == b.captured && db.groups == b.groups && u in b.accounts
    ensures AccessGranted(db.groups, ids, b.accounts[u].email, ClaimGroups(db.claims, u)) <==> LetIn(b, ids, u)
  {
    var email := b.accounts[u].email;
    forall g | g in b.groups
      ensures GroupGrants(b.groups[g], email, ClaimGroups(db.claims, u))
         <==> EmailMatches(b.groups[g].patterns, email) || Claims(b, u, b.groups[g])
    {
      GrantsIff(db, b, u, b.groups[g], email);
    }
  }

  lemma ActiveIffEntitled(env: Env, db: Db, b: Book, i: Id, k: nat)
    requires OnBook(env, db, b) && i in db.interfaces && k < |db.peers|
    ensures ActiveOn(db, i)(db.peers[k]) <==> Entitled(b, i, db.peers[k].id)
  {
    var p := db.peers[k];
    assert SameDevice(p, b.devices[p.id]);
    assert SettingsMatch(env, db.interfaces[i], b.interfaces[i]);
    if p.userId.Some? && p.userId.value in b.accounts {
      assert SameAccount(db.users[p.userId.value], b.accounts[p.userId.value]);
      GrantedIff(db, b, db.interfaces[i].groupIds, p.userId.value);
    }
  }

  /** What a backend is told about a device. */
  function Told(d: Device): PeerSpec {
    PeerSpec(d.publicKey, d.address, d.presharedKey)
  }

  lemma DesiredRow(db: Db, i: Id, x: PeerSpec) returns (k: nat)
    requires i in db.interfaces && x in DesiredFor(db, i).peers
    ensures k < |db.peers| && ActiveOn(db, i)(db.peers[k]) && Wire(db.peers[k]) == x
  {
    var active := ActivePeers(db, i);
    var n :| 0 <= n < |active| && Wires(active)[n] == x;
    InFilter(db.peers, ActiveOn(db, i), active[n]);
    k :| 0 <= k < |db.peers| && db.peers[k] == active[n];
  }

  lemma DesiredIsEntitled(env: Env, db: Db, b: Book, i: Id, x: PeerSpec) returns (id: Id)
    requires OnBook(env, db, b) && i in db.interfaces && x in DesiredFor(db, i).peers
    ensures Entitled(b, i, id) && x == Told(b.devices[id])
  {
    var k := DesiredRow(db, i, x);
    id := db.peers[k].id;
    ActiveIffEntitled(env, db, b, i, k);
    assert SameDevice(db.peers[k], b.devices[id]);
  }

  lemma EntitledIsDesired(env: Env, db: Db, b: Book, i: Id, id: Id)
    requires OnBook(env, db, b) && i in db.interfaces && Entitled(b, i, id)
    ensures Told(b.devices[id]) in DesiredFor(db, i).peers
  {
    var k :| 0 <= k < |db.peers| && db.peers[k].id == id;
    ActiveIffEntitled(env, db, b, i, k);
    assert SameDevice(db.peers[k], b.devices[id]);
    KeptWireIsThere(db.peers, ActiveOn(db, i), k);
  }

  lemma DesiredIffEntitled(env: Env, db: Db, b: Book, i: Id, x: PeerSpec)
    requires OnBook(env, db, b) && i in db.interfaces
    ensures x in DesiredFor(db, i).peers <==> exists id :: Entitled(b, i, id) && x == Told(b.devices[id])
  {
    if x in DesiredFor(db, i).peers {
      var id := DesiredIsEntitled(env, db, b, i, x);
    }
    if id :| Entitled(b, i, id) && x == Told(b.devices[id]) {
      EntitledIsDesired(env, db, b, i, id);
    }
  }

  /**
   In every state of every run: a backend that holds what is permitted holds exactly the
   devices entitled by what the operations said, with the key, address and preshared key
   each was requested with or last regenerated with, under the interface's name and key.
   So a device made for a user is there only while that user is welcome.
   */
  lemma HeldIffEntitled(env: Env, events: seq<Event>, i: Id)
    requires FreshRun(env, INITIAL, events) && Converged(Run(env, INITIAL, events), i)
    ensures var s, b := Run(env, INITIAL, events), BookOf(env, events);
            && i in b.interfaces
            && var held := At(s.pushed, TargetOf(s.db.interfaces[i]));
               && held.Some?
               && held.value.spec.name == b.interfaces[i].name
               && held.value.spec.privateKey == b.interfaces[i].privateKey
               && held.value.spec.listenPort == b.interfaces[i].listenPort % 0x1_0000
               && held.value.spec.address == EnsureIpv6(env, b.interfaces[i].address, "fd00:8::1/64")
               && forall x :: x in held.value.peers <==> exists id :: Entitled(b, i, id) && x == Told(b.devices[id])
  {
    TablesMatchBook(env, events);
    var s, b := Run(env, INITIAL, events), BookOf(env, events);
    assert SettingsMatch(env, s.db.interfaces[i], b.interfaces[i]);
    forall x ensures x in DesiredFor(s.db, i).peers <==> exists id :: Entitled(b, i, id) && x == Told(b.devices[id]) {
      DesiredIffEntitled(env, s.db, b, i, x);
    }
  }

  /** The rows that are told, in order, are the entitled devices in order. */
  lemma ToldInOrder(peers: seq<Peer>, keep: Peer -> bool, entitled: Id -> bool, d: map<Id, Device>)
    requires DevicesMatch(peers, d)
    requires forall k :: 0 <= k < |peers| ==> (keep(peers[k]) <==> entitled(peers[k].id))
    ensures var ids := Filter(DeviceIds(peers), entitled);
            && |Wires(Filter(peers, keep))| == |ids|
            && forall k :: 0 <= k < |ids| ==> ids[k] in d && Wires(Filter(peers, keep))[k] == Told(d[ids[k]])
  {
    KeptIds(peers, keep, entitled);
    var kept, ids := Filter(peers, keep), Filter(DeviceIds(peers), entitled);
    FilterMembers(peers, keep);
    forall k | 0 <= k < |ids| ensures ids[k] in d && Wires(kept)[k] == Told(d[ids[k]]) {
      var j :| 0 <= j < |peers| && peers[j] == kept[k];
      assert ids[k] == kept[k].id && SameDevice(peers[j], d[peers[j].id]);
    }
  }

  /** And in the order in which the devices were created. */
  lemma HeldInCreationOrder(env: Env, events: seq<Event>, i: Id)
    requires FreshRun(env, INITIAL, events) && Converged(Run(env, INITIAL, events), i)
    ensures var s, b := Run(env, INITIAL, events), BookOf(env, events);
            var held, ids := At(s.pushed, TargetOf(s.db.interfaces[i])),
                Filter(b.deviceOrder, (id: Id) => Entitled(b, i, id));
            && held.Some? && |held.value.peers| == |ids|
            && forall k :: 0 <= k < |ids| ==> ids[k] in b.devices && held.value.peers[k] == Told(b.devices[ids[k]])
  {
    TablesMatchBook(env, events);
    var db, b := Run(env, INITIAL, events).db, BookOf(env, events);
    forall k | 0 <= k < |db.peers|
      ensures ActiveOn(db, i)(db.peers[k]) <==> ((id: Id) => Entitled(b, i, id))(db.peers[k].id)
    {
      ActiveIffEntitled(env, db, b, i, k);
    }
    ToldInOrder(db.peers, ActiveOn(db, i), (id: Id) => Entitled(b, i, id), b.devices);
  }

  lemma LiveIff(env: Env, db: Db, b: Book, u: Id)
    requires OnBook(env, db, b)
    ensures UserIsLive(db, u) <==> Live(b, u)
  {
    assert u in db.users ==> SameAccount(db.users[u], b.accounts[u]);
  }

  lemma AdmitsIff(env: Env, db: Db, b: Book, u: Id, i: Id)
    requires OnBook(env, db, b) && u in b.accounts
    ensures Admits(db, b.accounts[u].email, ClaimGroups(db.claims, u))(i)
       <==> i in b.interfaces && LetIn(b, b.interfaces[i].groupIds, u)
  {
    if i in db.interfaces {
      assert SettingsMatch(env, db.interfaces[i], b.interfaces[i]);
      GrantedIff(db, b, db.interfaces[i].groupIds, u);
    }
  }

  /** The access check says no to users who are not live, does not know missing interfaces, and else asks the groups. */
  lemma CheckSaysLetIn(env: Env, events: seq<Event>, u: Id, i: Id)
    requires FreshRun(env, INITIAL, events) && u in BookOf(env, events).accounts
    ensures var db, b := Run(env, INITIAL, events).db, BookOf(env, events);
            match CanAccessInterface(db, u, b.accounts[u].email, i)
            case None => Live(b, u) && i !in b.interfaces
            case Some(yes) => if Live(b, u) then i in b.interfaces && (yes <==> LetIn(b, b.interfaces[i].groupIds, u))
                              else !yes
  {
    TablesMatchBook(env, events);
    var db, b := Run(env, INITIAL, events).db, BookOf(env, events);
    LiveIff(env, db, b, u);
    AdmitsIff(env, db, b, u, i);
  }

  /** A user sees the interfaces that let the user in, in order of creation, and none when not live. */
  lemma ListedIffLetIn(env: Env, events: seq<Event>, u: Id)
    requires FreshRun(env, INITIAL, events) && u in BookOf(env, events).accounts
    ensures var db, b := Run(env, INITIAL, events).db, BookOf(env, events);
            InterfacesForUser(db, u, b.accounts[u].email)
            == if Live(b, u)
               then Filter(b.interfaceOrder, (i: Id) => i in b.interfaces && LetIn(b, b.interfaces[i].groupIds, u))
               else []
  {
    TablesMatchBook(env, events);
    var db, b := Run(env, INITIAL, events).db, BookOf(env, events);
    LiveIff(env, db, b, u);
    var admits, letIn := Admits(db, b.accounts[u].email, ClaimGroups(db.claims, u)),
        (i: Id) => i in b.interfaces && LetIn(b, b.interfaces[i].groupIds, u);
    forall k | 0 <= k < |db.order| ensures admits(db.order[k]) == letIn(db.order[k]) {
      AdmitsIff(env, db, b, u, db.order[k]);
    }
    FilterAgree(db.order, admits, letIn);
  }
}
