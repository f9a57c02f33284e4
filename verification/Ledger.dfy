/**
 What the accepted operations say, entity by entity, and that the tables say the same in
 every state of every run.
 */
module Ledger {
  import opened Glob
  import opened Reconcile
  import opened ReconcileRuns
  import opened Sequences
  import opened Store
  import opened SyncFrames
  import opened Wrappers
  import Strings
  import Tokens

  /** A device as it was requested and as its keys were last made. */
  datatype Device = Device(
    interfaceId: Id,
    owner: Option<Id>,
    name: string,
    publicKey: string,
    presharedKey: Option<string>,
    address: string,
    userCreated: bool)

  /** The settings of an interface as last supplied, before the program completes them. */
  datatype Settings = Settings(
    name: string,
    displayName: string,
    downloadFilename: Option<string>,
    listenPort: int,
    address: string,
    privateKey: string,
    publicKey: string,
    endpoint: string,
    dns: Option<string>,
    allowedIps: string,
    keepalive: int,
    deviceLimit: Option<int>,
    groupIds: seq<Id>)

  datatype Account = Account(email: Text, banned: bool, revoked: bool, liveUntil: Option<nat>)

  datatype Book = Book(
    now: nat,
    devices: map<Id, Device>,
    accounts: map<Id, Account>,
    captured: map<(Id, Text), seq<Text>>,
    groups: map<Id, Group>,
    interfaces: map<Id, Settings>,
    deviceOrder: seq<Id>,
    interfaceOrder: seq<Id>)

  const BLANK := Book(0, map[], map[], map[], map[], map[], [], [])

  function Latest<T>(change: Option<T>, current: T): T {
    match change
    case Some(v) => v
    case None => current
  }

  /** The settings after a change; a field that is not supplied stays. */
  function Changed(s: Settings, c: Change): Settings {
    Settings(s.name, Latest(c.displayName, s.displayName), Latest(c.downloadFilename, s.downloadFilename),
      s.listenPort, s.address, s.privateKey, s.publicKey, Latest(c.endpoint, s.endpoint), Latest(c.dns, s.dns),
      Latest(c.allowedIps, s.allowedIps), Latest(c.keepalive, s.keepalive),
      Latest(c.deviceLimit, s.deviceLimit), Latest(c.groupIds, s.groupIds))
  }

  function DevicesAfter(d: map<Id, Device>, op: Op): map<Id, Device> {
    match op
    case CreatePeer(id, i, owner, name, _, key, psk, address, byUser) =>
      d[id := Device(i, owner, name, key, Some(psk), address, byUser)]
    case CreateUnconfigured(id, i, owner, name, address) =>
      d[id := Device(i, owner, name, "", None, address, false)]
    case RenamePeer(id, name) => if id in d then d[id := d[id].(name := name)] else d
    case RegeneratePeer(id, _, key, psk) =>
      if id in d then d[id := d[id].(publicKey := key, presharedKey := Some(psk))] else d
    case DeletePeer(id) => d - {id}
    case DeleteInterface(i) => map id | id in d && d[id].interfaceId != i :: d[id]
    case DeleteUser(u) => map id | id in d && d[id].owner != Some(u) :: d[id]
    case _ => d
  }

  function AccountsAfter(a: map<Id, Account>, now: nat, op: Op): map<Id, Account> {
    match op
    case UpsertUser(id, email) =>
      if exists u :: u in a && a[u].email == email then a else a[id := Account(email, false, false, None)]
    case SetBanned(id, flag) => if id in a then a[id := a[id].(banned := flag)] else a
    case SetRevoked(id, flag) => if id in a then a[id := a[id].(revoked := flag)] else a
    case DeleteUser(id) => a - {id}
    case Login(id, _, _, days) =>
      if id !in a then a
      else a[id := a[id].(liveUntil := if days.Some? then Some(now + 24 * 60 * 60 * days.value) else None)]
    case _ => a
  }

  function CapturedAfter(c: map<(Id, Text), seq<Text>>, op: Op): map<(Id, Text), seq<Text>> {
    match op
    case Login(id, provider, Some(groups), _) => c[(id, provider) := groups]
    case DeleteUser(id) => map k | k in c && k.0 != id :: c[k]
    case _ => c
  }

  function GroupsAfter(g: map<Id, Group>, op: Op): map<Id, Group> {
    match op
    case CreateGroup(id, group) => g[id := group]
    case UpdateGroup(id, group) => g[id := group]
    case DeleteGroup(id) => g - {id}
    case _ => g
  }

  function InterfacesAfter(m: map<Id, Settings>, op: Op): map<Id, Settings> {
    match op
    case CreateInterface(id, f, _) =>
      m[id := Settings(f.name, f.displayName, f.downloadFilename, f.listenPort, f.address, f.privateKey, f.publicKey,
        f.endpoint, f.dns, f.allowedIps, f.keepalive, f.deviceLimit, f.groupIds)]
    case UpdateInterface(id, c, _) => if id in m then m[id := Changed(m[id], c)] else m
    case DeleteInterface(id) => m - {id}
    case _ => m
  }

  /** Ids in order of creation: a new one goes to the end, and those no longer there are left out. */
  function OrderAfter(order: seq<Id>, arrived: Option<Id>, there: Id -> bool): seq<Id> {
    Filter(order + (match arrived case Some(id) => [id] case None => []), there)
  }

  /** An accepted operation is entered in the book. */
  function Entered(b: Book, op: Op): Book {
    var devices, interfaces := DevicesAfter(b.devices, op), InterfacesAfter(b.interfaces, op);
    Book(if op.Tick? then b.now + op.seconds else b.now, devices,
      AccountsAfter(b.accounts, b.now, op), CapturedAfter(b.captured, op), GroupsAfter(b.groups, op), interfaces,
      OrderAfter(b.deviceOrder, if op.CreatePeer? || op.CreateUnconfigured? then Some(op.id) else None,
        (id: Id) => id in devices),
      OrderAfter(b.interfaceOrder, if op.CreateInterface? then Some(op.id) else None, (id: Id) => id in interfaces))
  }

  function BookOf(env: Env, events: seq<Event>): Book {
    if events == [] then BLANK
    else
      var init, last := events[..|events| - 1], events[|events| - 1];
      var b := BookOf(env, init);
      if Mutate(env, Run(env, INITIAL, init).db, last.op).Ok? then Entered(b, last.op) else b
  }

  // ---- The tables say the same ----

  predicate SameDevice(p: Peer, d: Device) {
    && p.interfaceId == d.interfaceId && p.userId == d.owner && p.name == d.name
    && p.publicKey == d.publicKey && p.presharedKey == d.presharedKey && p.address == d.address
    && p.userCreated == d.userCreated
  }

  /** The rows are the devices in the book, each once. */
  ghost predicate DevicesMatch(peers: seq<Peer>, d: map<Id, Device>) {
    && (forall k :: 0 <= k < |peers| ==> peers[k].id in d && SameDevice(peers[k], d[peers[k].id]))
    && (forall id :: id in d ==> exists k :: 0 <= k < |peers| && peers[k].id == id)
  }

  predicate SameAccount(u: User, a: Account) {
    u.email == a.email && u.banned == a.banned && u.revoked == a.revoked && u.liveUntil == a.liveUntil
  }

  ghost predicate AccountsMatch(users: map<Id, User>, a: map<Id, Account>) {
    && (forall u :: u in users <==> u in a)
    && (forall u :: u in users && u in a ==> SameAccount(users[u], a[u]))
  }

  /** A file name is stored without the white space at its ends, and not at all if nothing is left. */
  ghost predicate StoredName(supplied: Option<string>, stored: Option<string>) {
    match supplied
    case None => stored == None
    case Some(s) =>
      exists t :: Trimmed(s, t, Tokens.BLANKS) && stored == if t == "" then None else Some(t)
  }

  /** Both address lists are completed by a default IPv6 network; everything else is stored as supplied. */
  ghost predicate SettingsMatch(env: Env, r: Interface, s: Settings) {
    && r.name == s.name && r.displayName == s.displayName && StoredName(s.downloadFilename, r.downloadFilename)
    && r.listenPort == s.listenPort && r.address == EnsureIpv6(env, s.address, "fd00:8::1/64")
    && r.privateKey == s.privateKey && r.publicKey == s.publicKey && r.endpoint == s.endpoint && r.dns == s.dns
    && r.allowedIps == EnsureIpv6(env, s.allowedIps, "fd00:8::/64") && r.keepalive == s.keepalive
    && r.deviceLimit == s.deviceLimit && r.groupIds == s.groupIds
  }

  ghost predicate InterfacesMatch(env: Env, rows: map<Id, Interface>, m: map<Id, Settings>) {
    && (forall i :: i in rows <==> i in m)
    && (forall i :: i in rows && i in m ==> SettingsMatch(env, rows[i], m[i]))
  }

  ghost predicate OnBook(env: Env, db: Db, b: Book) {
    && DevicesMatch(db.peers, b.devices)
    && AccountsMatch(db.users, b.accounts)
    && InterfacesMatch(env, db.interfaces, b.interfaces)
    && db.claims == b.captured && db.groups == b.groups && db.clock == b.now
    && DeviceIds(db.peers) == b.deviceOrder && db.order == b.interfaceOrder
  }

  function DeviceIds(peers: seq<Peer>): (ids: seq<Id>)
    ensures |ids| == |peers| && forall k :: 0 <= k < |ids| ==> ids[k] == peers[k].id
  {
    seq(|peers|, k requires 0 <= k < |peers| => peers[k].id)
  }

  lemma StoredNameIs(supplied: Option<string>)
    ensures StoredName(supplied, NonBlank(supplied))
  {
    if supplied.Some? {
      Tokens.TrimIs(supplied.value, Strings.Trim(supplied.value));
    }
  }

  lemma InsertMatches(db: Db, p: Peer, d: map<Id, Device>, x: Device)
    requires DevicesMatch(db.peers, d) && p.id !in d && SameDevice(p, x)
    ensures DevicesMatch(db.peers + [p], d[p.id := x])
  {
    var rows, d' := db.peers + [p], d[p.id := x];
    forall id | id in d' ensures exists k :: 0 <= k < |rows| && rows[k].id == id {
      if id == p.id {
        assert rows[|db.peers|].id == id;
      } else {
        var k :| 0 <= k < |db.peers| && db.peers[k].id == id;
        assert rows[k].id == id;
      }
    }
  }

  lemma UnusedInBook(peers: seq<Peer>, d: map<Id, Device>, id: Id)
    requires DevicesMatch(peers, d) && forall k :: 0 <= k < |peers| ==> peers[k].id != id
    ensures id !in d
  {
  }

  lemma ReviseMatches(db: Db, p: Peer, d: map<Id, Device>, x: Device)
    requires DevicesMatch(db.peers, d) && p.id in d && SameDevice(p, x)
    ensures DevicesMatch(Revised(db.peers, p.id, p), d[p.id := x])
  {
    var rows, d' := Revised(db.peers, p.id, p), d[p.id := x];
    forall id | id in d' ensures exists k :: 0 <= k < |rows| && rows[k].id == id {
      var k :| 0 <= k < |db.peers| && db.peers[k].id == id;
      assert rows[k].id == id;
    }
  }

  lemma RemovalMatches(db: Db, keep: Peer -> bool, d: map<Id, Device>, d': map<Id, Device>)
    requires DevicesMatch(db.peers, d) && PeersUnique(db.peers)
    requires forall id :: id in d' ==> id in d && d'[id] == d[id]
    requires forall k :: 0 <= k < |db.peers| ==> (keep(db.peers[k]) <==> db.peers[k].id in d')
    ensures DevicesMatch(Filter(db.peers, keep), d')
  {
    var rows := Filter(db.peers, keep);
    FilterMembers(db.peers, keep);
    forall k | 0 <= k < |rows| ensures rows[k].id in d' && SameDevice(rows[k], d'[rows[k].id]) {
      var j :| 0 <= j < |db.peers| && db.peers[j] == rows[k];
    }
    forall id | id in d' ensures exists k :: 0 <= k < |rows| && rows[k].id == id {
      var j :| 0 <= j < |db.peers| && db.peers[j].id == id;
      assert db.peers[j] in rows;
    }
  }

  lemma InsertsFollow(env: Env, db: Db, op: Op, d: map<Id, Device>)
    requires DevicesMatch(db.peers, d) && Mutate(env, db, op).Ok? && (op.CreatePeer? || op.CreateUnconfigured?)
    ensures DevicesMatch(Mutate(env, db, op).value.peers, DevicesAfter(d, op))
  {
    UnusedInBook(db.peers, d, op.id);
    InsertMatches(db, Mutate(env, db, op).value.peers[|db.peers|], d, DevicesAfter(d, op)[op.id]);
  }

  lemma RevisionsFollow(env: Env, db: Db, op: Op, d: map<Id, Device>)
    requires DevicesMatch(db.peers, d) && Mutate(env, db, op).Ok? && (op.RenamePeer? || op.RegeneratePeer?)
    ensures DevicesMatch(Mutate(env, db, op).value.peers, DevicesAfter(d, op))
  {
    var k := First(db.peers, WithId(op.id)).value;
    var p := Mutate(env, db, op).value.peers[k];
    assert db.peers[k].id == op.id && op.id in d;
    assert Mutate(env, db, op).value.peers == Revised(db.peers, op.id, p);
    ReviseMatches(db, p, d, DevicesAfter(d, op)[op.id]);
  }

  lemma RemovalsFollow(env: Env, db: Db, op: Op, d: map<Id, Device>)
    requires DevicesMatch(db.peers, d) && PeersUnique(db.peers) && Mutate(env, db, op).Ok?
    requires op.DeletePeer? || op.DeleteInterface? || op.DeleteUser?
    ensures DevicesMatch(Mutate(env, db, op).value.peers, DevicesAfter(d, op))
  {
    match op
    case DeletePeer(id) => RemovalMatches(db, WithoutId(id), d, DevicesAfter(d, op));
    case DeleteInterface(i) => RemovalMatches(db, NotOn(i), d, DevicesAfter(d, op));
    case DeleteUser(u) => RemovalMatches(db, NotOwnedBy(u), d, DevicesAfter(d, op));
  }

  lemma DevicesFollow(env: Env, db: Db, op: Op, d: map<Id, Device>)
    requires DevicesMatch(db.peers, d) && PeersUnique(db.peers) && Mutate(env, db, op).Ok?
    ensures DevicesMatch(Mutate(env, db, op).value.peers, DevicesAfter(d, op))
  {
    if op.CreatePeer? || op.CreateUnconfigured? {
      InsertsFollow(env, db, op, d);
    } else if op.RenamePeer? || op.RegeneratePeer? {
      RevisionsFollow(env, db, op, d);
    } else if op.DeletePeer? || op.DeleteInterface? || op.DeleteUser? {
      RemovalsFollow(env, db, op, d);
    } else {
      PeersUntouched(env, db, op);
    }
  }

  lemma PeersUntouched(env: Env, db: Db, op: Op)
    requires Mutate(env, db, op).Ok?
    requires !op.CreatePeer? && !op.CreateUnconfigured? && !op.RenamePeer? && !op.RegeneratePeer?
    requires !op.DeletePeer? && !op.DeleteInterface? && !op.DeleteUser?
    ensures Mutate(env, db, op).value.peers == db.peers
  {
  }

  lemma FlagsFollow(env: Env, db: Db, op: Op, a: map<Id, Account>)
    requires AccountsMatch(db.users, a) && Mutate(env, db, op).Ok? && (op.SetBanned? || op.SetRevoked?)
    ensures AccountsMatch(Mutate(env, db, op).value.users, AccountsAfter(a, db.clock, op))
  {
  }

  lemma LoginFollows(env: Env, db: Db, op: Op, a: map<Id, Account>)
    requires AccountsMatch(db.users, a) && Mutate(env, db, op).Ok? && op.Login?
    ensures AccountsMatch(Mutate(env, db, op).value.users, AccountsAfter(a, db.clock, op))
  {
  }

  lemma ArrivalFollows(env: Env, db: Db, op: Op, a: map<Id, Account>)
    requires AccountsMatch(db.users, a) && Mutate(env, db, op).Ok? && (op.UpsertUser? || op.DeleteUser?)
    ensures AccountsMatch(Mutate(env, db, op).value.users, AccountsAfter(a, db.clock, op))
  {
    if op.UpsertUser? {
      assert (exists u :: u in a && a[u].email == op.email)
        <==> (exists u :: u in db.users && db.users[u].email == op.email);
    }
  }

  lemma UsersUntouched(env: Env, db: Db, op: Op)
    requires Mutate(env, db, op).Ok?
    requires !op.SetBanned? && !op.SetRevoked? && !op.Login? && !op.UpsertUser? && !op.DeleteUser?
    ensures Mutate(env, db, op).value.users == db.users
  {
  }

  lemma AccountsFollow(env: Env, db: Db, op: Op, a: map<Id, Account>)
    requires AccountsMatch(db.users, a) && Mutate(env, db, op).Ok?
    ensures AccountsMatch(Mutate(env, db, op).value.users, AccountsAfter(a, db.clock, op))
  {
    if op.SetBanned? || op.SetRevoked? {
      FlagsFollow(env, db, op, a);
    } else if op.Login? {
      LoginFollows(env, db, op, a);
    } else if op.UpsertUser? || op.DeleteUser? {
      ArrivalFollows(env, db, op, a);
    } else {
      UsersUntouched(env, db, op);
    }
  }

  lemma CapturedFollow(env: Env, db: Db, op: Op)
    requires Mutate(env, db, op).Ok?
    ensures Mutate(env, db, op).value.claims == CapturedAfter(db.claims, op)
  {
  }

  lemma GroupsFollow(env: Env, db: Db, op: Op)
    requires Mutate(env, db, op).Ok?
    ensures Mutate(env, db, op).value.groups == GroupsAfter(db.groups, op)
    ensures Mutate(env, db, op).value.clock == if op.Tick? then db.clock + op.seconds else db.clock
  {
  }

  lemma ChangeFollows(env: Env, r: Interface, s: Settings, c: Change, nonce: nat)
    requires SettingsMatch(env, r, s) && Updated(env, r, c, nonce).Some?
    ensures SettingsMatch(env, Updated(env, r, c, nonce).value, Changed(s, c))
  {
    if c.downloadFilename.Some? {
      StoredNameIs(c.downloadFilename.value);
    }
  }

  lemma CreationFollows(env: Env, db: Db, op: Op, m: map<Id, Settings>)
    requires InterfacesMatch(env, db.interfaces, m) && Mutate(env, db, op).Ok? && op.CreateInterface?
    ensures InterfacesMatch(env, Mutate(env, db, op).value.interfaces, InterfacesAfter(m, op))
  {
    StoredNameIs(op.fields.downloadFilename);
    assert SettingsMatch(env, Created(env, op.fields, op.nonce), InterfacesAfter(m, op)[op.id]);
  }

  lemma UpdateFollows(env: Env, db: Db, op: Op, m: map<Id, Settings>)
    requires InterfacesMatch(env, db.interfaces, m) && Mutate(env, db, op).Ok? && op.UpdateInterface?
    ensures InterfacesMatch(env, Mutate(env, db, op).value.interfaces, InterfacesAfter(m, op))
  {
    ChangeFollows(env, db.interfaces[op.id], m[op.id], op.change, op.nonce);
  }

  lemma InterfacesFollow(env: Env, db: Db, op: Op, m: map<Id, Settings>)
    requires InterfacesMatch(env, db.interfaces, m) && Mutate(env, db, op).Ok?
    ensures InterfacesMatch(env, Mutate(env, db, op).value.interfaces, InterfacesAfter(m, op))
  {
    if op.CreateInterface? {
      CreationFollows(env, db, op, m);
    } else if op.UpdateInterface? {
      UpdateFollows(env, db, op, m);
    } else if !op.DeleteInterface? {
      RowsUntouched(env, db, op);
    }
  }

  lemma RowsUntouched(env: Env, db: Db, op: Op)
    requires Mutate(env, db, op).Ok? && !op.CreateInterface? && !op.UpdateInterface? && !op.DeleteInterface?
    ensures Mutate(env, db, op).value.interfaces == db.interfaces
  {
  }

  lemma {:induction false} KeptIds(peers: seq<Peer>, keep: Peer -> bool, there: Id -> bool)
    requires forall k :: 0 <= k < |peers| ==> (keep(peers[k]) <==> there(peers[k].id))
    ensures DeviceIds(Filter(peers, keep)) == Filter(DeviceIds(peers), there)
  {
    if peers != [] {
      var init := peers[..|peers| - 1];
      KeptIds(init, keep, there);
      assert DeviceIds(peers)[..|peers| - 1] == DeviceIds(init);
    }
  }

  lemma AllIdsThere(peers: seq<Peer>, d: map<Id, Device>)
    requires DevicesMatch(peers, d)
    ensures Filter(DeviceIds(peers), (id: Id) => id in d) == DeviceIds(peers)
  {
    FilterAll(DeviceIds(peers), (id: Id) => id in d);
  }

  lemma RemovalsKeepOrder(env: Env, db: Db, op: Op, d: map<Id, Device>)
    requires DevicesMatch(db.peers, d) && Mutate(env, db, op).Ok?
    requires op.DeletePeer? || op.DeleteInterface? || op.DeleteUser?
    ensures DeviceIds(Mutate(env, db, op).value.peers)
         == Filter(DeviceIds(db.peers), (id: Id) => id in DevicesAfter(d, op))
  {
    var there := (id: Id) => id in DevicesAfter(d, op);
    match op
    case DeletePeer(id) => KeptIds(db.peers, WithoutId(id), there);
    case DeleteInterface(i) => KeptIds(db.peers, NotOn(i), there);
    case DeleteUser(u) => KeptIds(db.peers, NotOwnedBy(u), there);
  }

  lemma DeviceOrderFollows(env: Env, db: Db, op: Op, d: map<Id, Device>)
    requires DevicesMatch(db.peers, d) && PeersUnique(db.peers) && Mutate(env, db, op).Ok?
    ensures DeviceIds(Mutate(env, db, op).value.peers)
         == OrderAfter(DeviceIds(db.peers), if op.CreatePeer? || op.CreateUnconfigured? then Some(op.id) else None,
              (id: Id) => id in DevicesAfter(d, op))
  {
    if op.DeletePeer? || op.DeleteInterface? || op.DeleteUser? {
      RemovalsKeepOrder(env, db, op, d);
      assert DeviceIds(db.peers) + [] == DeviceIds(db.peers);
    } else {
      DevicesFollow(env, db, op, d);
      AllIdsThere(Mutate(env, db, op).value.peers, DevicesAfter(d, op));
      IdsStay(env, db, op);
    }
  }

  lemma IdsStay(env: Env, db: Db, op: Op)
    requires Mutate(env, db, op).Ok? && !op.DeletePeer? && !op.DeleteInterface? && !op.DeleteUser?
    ensures DeviceIds(Mutate(env, db, op).value.peers)
         == DeviceIds(db.peers) + (if op.CreatePeer? || op.CreateUnconfigured? then [op.id] else [])
  {
  }

  lemma RowOrderIs(env: Env, db: Db, op: Op)
    requires Mutate(env, db, op).Ok?
    ensures Mutate(env, db, op).value.order ==
      if op.CreateInterface? then db.order + [op.id]
      else if op.DeleteInterface? then Filter(db.order, OtherThan(op.id))
      else db.order
  {
  }

  lemma RowOrderKept(db: Db, op: Op, m: map<Id, Settings>, order': seq<Id>)
    requires forall k :: 0 <= k < |db.order| ==> db.order[k] in m
    requires order' == (if op.CreateInterface? then db.order + [op.id]
                        else if op.DeleteInterface? then Filter(db.order, OtherThan(op.id))
                        else db.order)
    ensures order' == OrderAfter(db.order, if op.CreateInterface? then Some(op.id) else None,
                        (id: Id) => id in InterfacesAfter(m, op))
  {
    KnownRows(db, op, m);
    var there := (id: Id) => id in InterfacesAfter(m, op);
    assert db.order + [] == db.order;
    if op.DeleteInterface? {
      FilterAgree(db.order, OtherThan(op.id), there);
    } else {
      FilterAll(if op.CreateInterface? then db.order + [op.id] else db.order, there);
    }
  }

  lemma InterfaceOrderFollows(env: Env, db: Db, op: Op, m: map<Id, Settings>)
    requires ForeignKeys(db) && InterfacesMatch(env, db.interfaces, m) && Mutate(env, db, op).Ok?
    ensures Mutate(env, db, op).value.order
         == OrderAfter(db.order, if op.CreateInterface? then Some(op.id) else None,
              (id: Id) => id in InterfacesAfter(m, op))
  {
    RowOrderIs(env, db, op);
    RowOrderKept(db, op, m, Mutate(env, db, op).value.order);
  }

  lemma KnownRows(db: Db, op: Op, m: map<Id, Settings>)
    requires forall k :: 0 <= k < |db.order| ==> db.order[k] in m
    ensures forall k :: 0 <= k < |db.order| ==>
      (db.order[k] in InterfacesAfter(m, op) <==> !(op.DeleteInterface? && db.order[k] == op.id))
    ensures op.CreateInterface? ==> op.id in InterfacesAfter(m, op)
  {
  }

  lemma WriteMatches(env: Env, db: Db, op: Op, b: Book)
    requires ValidDb(db) && OnBook(env, db, b) && Mutate(env, db, op).Ok?
    ensures OnBook(env, Mutate(env, db, op).value, Entered(b, op))
  {
    DevicesFollow(env, db, op, b.devices);
    AccountsFollow(env, db, op, b.accounts);
    CapturedFollow(env, db, op);
    GroupsFollow(env, db, op);
    InterfacesFollow(env, db, op, b.interfaces);
    DeviceOrderFollows(env, db, op, b.devices);
    InterfaceOrderFollows(env, db, op, b.interfaces);
  }

  lemma ErrorsMatch(env: Env, db: Db, db': Db, b: Book)
    requires SameButErrors(db, db') && OnBook(env, db, b)
    ensures OnBook(env, db', b)
  {
    forall i | i in db'.interfaces ensures SettingsMatch(env, db'.interfaces[i], b.interfaces[i]) {
      ErrorMatches(env, db.interfaces[i], db'.interfaces[i].lastError, b.interfaces[i]);
    }
  }

  lemma ErrorMatches(env: Env, r: Interface, e: Option<string>, s: Settings)
    requires SettingsMatch(env, r, s)
    ensures SettingsMatch(env, r.(lastError := e), s)
  {
  }

  /**
   In every state of every run the tables say what the accepted operations said: every
   device has the owner, interface, name, address, keys it was requested with or last
   regenerated with, every user the flags last set and the deadline of the last login, every
   group and interface the settings last supplied.
   */
  lemma {:induction false} TablesMatchBook(env: Env, events: seq<Event>)
    requires FreshRun(env, INITIAL, events)
    ensures OnBook(env, Run(env, INITIAL, events).db, BookOf(env, events))
  {
    if events != [] {
      var init, last := events[..|events| - 1], events[|events| - 1];
      var s := Run(env, INITIAL, init);
      FreshRunPrefix(env, INITIAL, events);
      TablesMatchBook(env, init);
      PushedIsPermittedAsOfLastSync(env, init);
      StepErrors(env, s, last.op, last.weather);
      if Mutate(env, s.db, last.op).Ok? {
        WriteMatches(env, s.db, last.op, BookOf(env, init));
        ErrorsMatch(env, Mutate(env, s.db, last.op).value, Run(env, INITIAL, events).db, BookOf(env, events));
      }
    }
  }
}
