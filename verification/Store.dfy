/**
 The database: interfaces, groups, peers, users and captured login facts, and what each
 handler writes to it.  Rows are kept in creation order where the order is observable.
 */
module Store {
  import opened BackendTypes
  import opened Glob
  import opened GlobAgreement
  import opened Sequences
  import opened Wrappers
  import Strings
  import Cidr

  type Id = nat

  datatype Backend =
    | SelfManaged
    | NetworkManager
    | SystemdNetworkd
    | Mikrotik(url: string, username: string, password: string, insecure: bool)
    | Node(url: string, key: string)

  datatype Interface = Interface(
    name: string,
    displayName: string,
    downloadFilename: Option<string>,
    listenPort: int,
    address: string,
    privateKey: string,
    publicKey: string,
    endpoint: string,
    dns: Option<string>,
    allowedIps: string,
    keepalive: int,
    deviceLimit: Option<int>,
    groupIds: seq<Id>,
    backend: Backend,
    lastError: Option<string>,
    configVersion: int)

  datatype Group = Group(name: string, patterns: seq<Text>, claimValues: seq<Text>)

  datatype Peer = Peer(
    id: Id,
    interfaceId: Id,
    userId: Option<Id>,
    name: string,
    publicKey: string,
    presharedKey: Option<string>,
    address: string,
    userCreated: bool,
    configVersion: int)

  datatype User = User(email: Text, banned: bool, revoked: bool, liveUntil: Option<nat>)

  /** `order` lists the interface ids in creation order; `liveUntil` None is "never deactivated". */
  datatype Db = Db(
    interfaces: map<Id, Interface>,
    order: seq<Id>,
    groups: map<Id, Group>,
    peers: seq<Peer>,
    users: map<Id, User>,
    claims: map<(Id, Text), seq<Text>>,
    clock: nat)

  // ---- Who may use an interface ----

  predicate GroupGrants(g: Group, email: Text, claimGroups: set<Text>) {
    EmailMatches(g.patterns, email) || exists k :: 0 <= k < |g.claimValues| && g.claimValues[k] in claimGroups
  }

  /** Some existing group among `ids` grants the user; ids without a group are skipped. */
  predicate AccessGranted(groups: map<Id, Group>, ids: seq<Id>, email: Text, claimGroups: set<Text>) {
    exists k :: 0 <= k < |ids| && ids[k] in groups && GroupGrants(groups[ids[k]], email, claimGroups)
  }

  /** Union of the groups captured for the user over all providers. */
  function ClaimGroups(claims: map<(Id, Text), seq<Text>>, user: Id): set<Text> {
    set k, i | k in claims && k.0 == user && 0 <= i < |claims[k]| :: claims[k][i]
  }

  predicate IsLive(u: User, clock: nat) {
    u.liveUntil.None? || u.liveUntil.value > clock
  }

  predicate UserIsLive(db: Db, user: Id) {
    user in db.users && IsLive(db.users[user], db.clock)
  }

  function Admits(db: Db, email: Text, claimGroups: set<Text>): Id -> bool {
    (i: Id) => i in db.interfaces && AccessGranted(db.groups, db.interfaces[i].groupIds, email, claimGroups)
  }

  function InterfacesForUser(db: Db, user: Id, email: Text): seq<Id> {
    if !UserIsLive(db, user) then []
    else
      Filter(db.order, Admits(db, email, ClaimGroups(db.claims, user)))
  }

  /** None: the interface does not exist (which a user who is not live does not get to see). */
  function CanAccessInterface(db: Db, user: Id, email: Text, i: Id): Option<bool> {
    if !UserIsLive(db, user) then Some(false)
    else if i !in db.interfaces then None
    else Some(AccessGranted(db.groups, db.interfaces[i].groupIds, email, ClaimGroups(db.claims, user)))
  }

  /** The device is configured and its owner, if any, is in good standing and admitted. */
  predicate Permitted(db: Db, groupIds: seq<Id>, p: Peer) {
    p.publicKey != "" &&
    match p.userId
    case None => true
    case Some(u) =>
      && u in db.users
      && !db.users[u].banned && !db.users[u].revoked
      && UserIsLive(db, u)
      && AccessGranted(db.groups, groupIds, db.users[u].email, ClaimGroups(db.claims, u))
  }

  // ---- What an interface's backend should hold ----

  function OnInterface(i: Id): Peer -> bool {
    (p: Peer) => p.interfaceId == i
  }

  function ActiveOn(db: Db, i: Id): Peer -> bool
    requires i in db.interfaces
  {
    (p: Peer) => p.interfaceId == i && Permitted(db, db.interfaces[i].groupIds, p)
  }

  function ListPeers(db: Db, i: Id): seq<Peer> {
    Filter(db.peers, OnInterface(i))
  }

  function ActivePeers(db: Db, i: Id): seq<Peer>
    requires i in db.interfaces
  {
    Filter(db.peers, ActiveOn(db, i))
  }

  function Wire(p: Peer): PeerSpec {
    PeerSpec(p.publicKey, p.address, p.presharedKey)
  }

  function Wires(peers: seq<Peer>): (w: seq<PeerSpec>)
    ensures |w| == |peers| && forall k :: 0 <= k < |w| ==> w[k] == Wire(peers[k])
  {
    seq(|peers|, k requires 0 <= k < |peers| => Wire(peers[k]))
  }

  /** A 32-bit integer narrowed to 16 bits keeps its low half. */
  function Low16(n: int): nat {
    n % 65536
  }

  function SpecOf(iface: Interface): InterfaceSpec {
    InterfaceSpec(iface.name, Low16(iface.listenPort), iface.address, iface.privateKey)
  }

  datatype Desired = Desired(spec: InterfaceSpec, peers: seq<PeerSpec>)

  function DesiredFor(db: Db, i: Id): Desired
    requires i in db.interfaces
  {
    Desired(SpecOf(db.interfaces[i]), Wires(ActivePeers(db, i)))
  }

  // ---- Secrets ----

  /** Encryption under the configured key: `seal(plaintext, nonce)` and its inverse. */
  datatype Cipher = Cipher(seal: (string, nat) -> string, unseal: string -> Option<string>)

  function Encrypted(c: Cipher, b: Backend, nonce: nat): Backend {
    match b
    case Mikrotik(_, _, password, _) => if password != "" then b.(password := c.seal(password, nonce)) else b
    case Node(_, key) => if key != "" then b.(key := c.seal(key, nonce)) else b
    case _ => b
  }

  /** None: the stored secret cannot be decrypted. */
  function Decrypted(c: Cipher, b: Backend): Option<Backend> {
    match b
    case Mikrotik(_, _, password, _) =>
      if password == "" then Some(b)
      else (match c.unseal(password) case Some(p) => Some(b.(password := p)) case None => None)
    case Node(_, key) =>
      if key == "" then Some(b)
      else (match c.unseal(key) case Some(k) => Some(b.(key := k)) case None => None)
    case _ => Some(b)
  }

  datatype Kind = KSelfManaged | KNetworkManager | KSystemdNetworkd | KMikrotik | KNode

  function KindOf(b: Backend): Kind {
    match b
    case SelfManaged => KSelfManaged
    case NetworkManager => KNetworkManager
    case SystemdNetworkd => KSystemdNetworkd
    case Mikrotik(_, _, _, _) => KMikrotik
    case Node(_, _) => KNode
  }

  // ---- What a backend call addresses ----

  function TrimSlashes(url: string): string {
    if url != "" && url[|url| - 1] == '/' then TrimSlashes(url[..|url| - 1]) else url
  }

  /** What a backend is reached through; credentials are not part of it, nor are slashes that end a URL. */
  datatype Connection =
    | Local(kind: Kind)
    | MikrotikAt(base: string)
    | NodeAt(base: string)

  function ConnectionOf(b: Backend): Connection {
    match b
    case Mikrotik(url, _, _, _) => MikrotikAt(TrimSlashes(url))
    case Node(url, _) => NodeAt(TrimSlashes(url))
    case _ => Local(KindOf(b))
  }

  /** A backend is told the interface's name, never the id of its row. */
  datatype Target = Target(connection: Connection, name: string)

  function TargetOf(iface: Interface): Target {
    Target(ConnectionOf(iface.backend), iface.name)
  }

  /** A blank secret in the new backend means "keep the stored one". */
  function KeepSecretIfBlank(supplied: Backend, stored: Backend): Backend {
    match (supplied, stored)
    case (Mikrotik(_, _, password, _), Mikrotik(_, _, kept, _)) =>
      if password == "" then supplied.(password := kept) else supplied
    case (Node(_, key), Node(_, kept)) =>
      if key == "" then supplied.(key := kept) else supplied
    case _ => supplied
  }

  function SecretOf(b: Backend): string {
    match b
    case Mikrotik(_, _, password, _) => password
    case Node(_, key) => key
    case _ => ""
  }

  // ---- IPv6 is not optional ----

  /** What lies outside the model: encryption, and which tokens parse as networks of which family. */
  datatype Env = Env(cipher: Cipher, family: string -> Option<Cidr.Family>)

  const DEFAULT_V6_ADDR := "fd00:8::1/64"
  const DEFAULT_V6_NET := "fd00:8::/64"

  function SubnetTokens(spec: string): seq<string> {
    Strings.NonEmptyTrimmed(Strings.Split(spec, {',', ' ', '\t'}))
  }

  predicate HasIpv6(env: Env, spec: string) {
    var tokens := SubnetTokens(spec);
    && (forall k :: 0 <= k < |tokens| ==> env.family(tokens[k]).Some?)
    && (exists k :: 0 <= k < |tokens| && env.family(tokens[k]) == Some(Cidr.V6))
  }

  function TrimCommas(s: string): string {
    if s != [] && s[|s| - 1] == ',' then TrimCommas(s[..|s| - 1]) else s
  }

  function EnsureIpv6(env: Env, spec: string, defaultV6: string): string {
    if HasIpv6(env, spec) then spec
    else
      var trimmed := Strings.Trim(TrimCommas(Strings.Trim(spec)));
      if trimmed == "" then defaultV6 else trimmed + ", " + defaultV6
  }

  function NonBlank(s: Option<string>): Option<string> {
    if s.Some? && Strings.Trim(s.value) != "" then Some(Strings.Trim(s.value)) else None
  }

  // ---- What the handlers write ----

  datatype NewInterface = NewInterface(
    name: string,
    displayName: string,
    downloadFilename: Option<string>,
    listenPort: int,
    address: string,
    privateKey: string,
    publicKey: string,
    endpoint: string,
    dns: Option<string>,
    allowedIps: string,
    keepalive: int,
    deviceLimit: Option<int>,
    groupIds: seq<Id>,
    backend: Backend)

  /** None leaves a field as it is. */
  datatype Change = Change(
    displayName: Option<string>,
    downloadFilename: Option<Option<string>>,
    endpoint: Option<string>,
    dns: Option<Option<string>>,
    allowedIps: Option<string>,
    keepalive: Option<int>,
    deviceLimit: Option<Option<int>>,
    groupIds: Option<seq<Id>>,
    backend: Option<Backend>)

  function Or<T>(o: Option<T>, current: T): T {
    if o.Some? then o.value else current
  }

  datatype Op =
    | CreateInterface(id: Id, fields: NewInterface, nonce: nat)
    | UpdateInterface(id: Id, change: Change, nonce: nat)
    | DeleteInterface(id: Id)
    | Resync(id: Id)
    | CreatePeer(id: Id, interfaceId: Id, owner: Option<Id>, name: string, clientKey: string, publicKey: string,
                 psk: string, address: string, userCreated: bool)
    | CreateUnconfigured(id: Id, interfaceId: Id, owner: Option<Id>, name: string, address: string)
    | RenamePeer(id: Id, name: string)
    | RegeneratePeer(id: Id, clientKey: string, publicKey: string, psk: string)
    | DeletePeer(id: Id)
    | UpsertUser(id: Id, email: Text)
    | SetBanned(id: Id, flag: bool)
    | SetRevoked(id: Id, flag: bool)
    | DeleteUser(id: Id)
    | CreateGroup(id: Id, group: Group)
    | UpdateGroup(id: Id, group: Group)
    | DeleteGroup(id: Id)
    | Login(id: Id, provider: Text, groups: Option<seq<Text>>, ttlDays: Option<nat>)
    | Tick(seconds: nat)
    | Restart

  datatype Refusal = NotFound | Conflict | KindFixed

  function Created(env: Env, f: NewInterface, nonce: nat): Interface {
    Interface(f.name, f.displayName, NonBlank(f.downloadFilename), f.listenPort,
      EnsureIpv6(env, f.address, DEFAULT_V6_ADDR), f.privateKey, f.publicKey, f.endpoint, f.dns,
      EnsureIpv6(env, f.allowedIps, DEFAULT_V6_NET), f.keepalive, f.deviceLimit, f.groupIds,
      Encrypted(env.cipher, f.backend, nonce), None, 1)
  }

  /** The update of one interface row; refused when the backend's kind would change. */
  function Updated(env: Env, cur: Interface, c: Change, nonce: nat): Option<Interface> {
    if c.backend.Some? && KindOf(c.backend.value) != KindOf(cur.backend) then None
    else
      var backend := if c.backend.Some?
        then KeepSecretIfBlank(Encrypted(env.cipher, c.backend.value, nonce), cur.backend)
        else cur.backend;
      var endpoint, dns := Or(c.endpoint, cur.endpoint), Or(c.dns, cur.dns);
      var allowedIps := if c.allowedIps.Some? then EnsureIpv6(env, c.allowedIps.value, DEFAULT_V6_NET)
          else cur.allowedIps;
      var keepalive := Or(c.keepalive, cur.keepalive);
      var changed := endpoint != cur.endpoint || dns != cur.dns || allowedIps != cur.allowedIps
          || keepalive != cur.keepalive;
      Some(cur.(
        displayName := Or(c.displayName, cur.displayName),
        downloadFilename := if c.downloadFilename.Some? then NonBlank(c.downloadFilename.value)
            else cur.downloadFilename,
        endpoint := endpoint, dns := dns, allowedIps := allowedIps, keepalive := keepalive,
        deviceLimit := Or(c.deviceLimit, cur.deviceLimit),
        groupIds := Or(c.groupIds, cur.groupIds),
        backend := backend,
        configVersion := if changed then cur.configVersion + 1 else cur.configVersion))
  }

  /** Something that goes into the device files is different. */
  predicate FileFieldsDiffer(a: Interface, b: Interface) {
    a.endpoint != b.endpoint || a.dns != b.dns || a.allowedIps != b.allowedIps || a.keepalive != b.keepalive
  }

  function WithId(id: Id): Peer -> bool {
    (p: Peer) => p.id == id
  }

  function OtherThan(id: Id): Id -> bool {
    (i: Id) => i != id
  }

  function NotOn(i: Id): Peer -> bool {
    (p: Peer) => p.interfaceId != i
  }

  function NotOwnedBy(u: Id): Peer -> bool {
    (p: Peer) => p.userId != Some(u)
  }

  function WithoutId(id: Id): Peer -> bool {
    (p: Peer) => p.id != id
  }

  function FindPeer(db: Db, id: Id): Option<Peer> {
    var k := First(db.peers, WithId(id));
    if k.Some? then Some(db.peers[k.value]) else None
  }

  /** The foreign keys exist, and neither the address nor a non-empty key is used twice on the interface. */
  predicate PeerFits(db: Db, id: Id, interfaceId: Id, owner: Option<Id>, publicKey: string, address: string) {
    && interfaceId in db.interfaces
    && (owner.Some? ==> owner.value in db.users)
    && forall k :: 0 <= k < |db.peers| ==>
      && db.peers[k].id != id
      && (db.peers[k].interfaceId == interfaceId ==>
        db.peers[k].address != address && (publicKey != "" ==> db.peers[k].publicKey != publicKey))
  }

  predicate KeyFree(db: Db, id: Id, interfaceId: Id, publicKey: string) {
    publicKey != "" ==>
      forall k :: 0 <= k < |db.peers| && db.peers[k].interfaceId == interfaceId && db.peers[k].id != id ==>
        db.peers[k].publicKey != publicKey
  }

  predicate GroupNameTaken(db: Db, id: Id, name: string) {
    exists g :: g in db.groups && g != id && db.groups[g].name == name
  }

  function Revised(peers: seq<Peer>, id: Id, p': Peer): (r: seq<Peer>)
    ensures |r| == |peers|
    ensures forall k :: 0 <= k < |r| ==> r[k] == if peers[k].id == id then p' else peers[k]
  {
    seq(|peers|, k requires 0 <= k < |peers| => if peers[k].id == id then p' else peers[k])
  }

  function SetUser(db: Db, id: Id, u: User): Db {
    db.(users := db.users[id := u])
  }

  const SECONDS_PER_DAY := 86400

  function Mutate(env: Env, db: Db, op: Op): Result<Db, Refusal> {
    match op
    case CreateInterface(id, fields, nonce) =>
      if id in db.interfaces || (exists j :: j in db.interfaces && db.interfaces[j].name == fields.name)
          then Err(Conflict)
      else Ok(db.(interfaces := db.interfaces[id := Created(env, fields, nonce)], order := db.order + [id]))
    case UpdateInterface(id, change, nonce) =>
      if id !in db.interfaces then Err(NotFound)
      else
        var row := Updated(env, db.interfaces[id], change, nonce);
        if row.None? then Err(KindFixed) else Ok(db.(interfaces := db.interfaces[id := row.value]))
    case DeleteInterface(id) =>
      if id !in db.interfaces then Err(NotFound)
      else Ok(db.(interfaces := db.interfaces - {id}, order := Filter(db.order, OtherThan(id)),
                  peers := Filter(db.peers, NotOn(id))))
    case Resync(id) =>
      if id !in db.interfaces then Err(NotFound) else Ok(db)
    case CreatePeer(id, i, owner, name, _, publicKey, psk, address, userCreated) =>
      if !PeerFits(db, id, i, owner, publicKey, address) then Err(Conflict)
      else Ok(db.(peers := db.peers +
        [Peer(id, i, owner, name, publicKey, Some(psk), address, userCreated, db.interfaces[i].configVersion)]))
    case CreateUnconfigured(id, i, owner, name, address) =>
      if !PeerFits(db, id, i, owner, "", address) then Err(Conflict)
      else Ok(db.(peers := db.peers +
        [Peer(id, i, owner, name, "", None, address, false, db.interfaces[i].configVersion)]))
    case RenamePeer(id, name) =>
      (match FindPeer(db, id)
       case None => Err(NotFound)
       case Some(p) => Ok(db.(peers := Revised(db.peers, id, p.(name := name)))))
    case RegeneratePeer(id, _, publicKey, psk) =>
      (match FindPeer(db, id)
       case None => Err(NotFound)
       case Some(p) =>
         if p.interfaceId !in db.interfaces || !KeyFree(db, id, p.interfaceId, publicKey) then Err(Conflict)
         else Ok(db.(peers := Revised(db.peers, id,
           p.(publicKey := publicKey, presharedKey := Some(psk),
               configVersion := db.interfaces[p.interfaceId].configVersion)))))
    case DeletePeer(id) =>
      if FindPeer(db, id).None? then Err(NotFound) else Ok(db.(peers := Filter(db.peers, WithoutId(id))))
    case UpsertUser(id, email) =>
      if exists u :: u in db.users && db.users[u].email == email then Ok(db)
      else if id in db.users then Err(Conflict)
      else Ok(SetUser(db, id, User(email, false, false, None)))
    case SetBanned(id, flag) =>
      Ok(if id in db.users then SetUser(db, id, db.users[id].(banned := flag)) else db)
    case SetRevoked(id, flag) =>
      Ok(if id in db.users then SetUser(db, id, db.users[id].(revoked := flag)) else db)
    case DeleteUser(id) =>
      Ok(db.(users := db.users - {id}, claims := map k | k in db.claims && k.0 != id :: db.claims[k],
             peers := Filter(db.peers, NotOwnedBy(id))))
    case CreateGroup(id, group) =>
      if id in db.groups || GroupNameTaken(db, id, group.name) then Err(Conflict)
      else Ok(db.(groups := db.groups[id := group]))
    case UpdateGroup(id, group) =>
      if id !in db.groups then Err(NotFound)
      else if GroupNameTaken(db, id, group.name) then Err(Conflict)
      else Ok(db.(groups := db.groups[id := group]))
    case DeleteGroup(id) =>
      Ok(db.(groups := db.groups - {id}))
    case Login(id, provider, groups, ttl) =>
      if id !in db.users then Err(NotFound)
      else
        var claims := if groups.Some? then db.claims[(id, provider) := groups.value] else db.claims;
        var until := if ttl.Some? then Some(db.clock + ttl.value * SECONDS_PER_DAY) else None;
        Ok(SetUser(db.(claims := claims), id, db.users[id].(liveUntil := until)))
    case Tick(seconds) =>
      Ok(db.(clock := db.clock + seconds))
    case Restart =>
      Ok(db)
  }

  /** A new random group id is one no interface happens to list. */
  predicate FreshIds(db: Db, op: Op) {
    op.CreateGroup? ==> forall i :: i in db.interfaces ==> op.id !in db.interfaces[i].groupIds
  }

  // ---- What every database state satisfies ----

  ghost predicate ForeignKeys(db: Db) {
    && (forall k :: 0 <= k < |db.peers| ==> db.peers[k].interfaceId in db.interfaces)
    && (forall k :: 0 <= k < |db.peers| ==> db.peers[k].userId.Some? ==> db.peers[k].userId.value in db.users)
    && (forall c :: c in db.claims ==> c.0 in db.users)
    && (forall k :: 0 <= k < |db.order| ==> db.order[k] in db.interfaces)
    && (forall i :: i in db.interfaces ==> i in db.order)
    && Pairwise(db.order, (i: Id, j: Id) => i != j)
  }

  /** Primary key, unique address per interface, unique non-empty key per interface. */
  predicate PeersApart(p: Peer, q: Peer) {
    && p.id != q.id
    && (p.interfaceId == q.interfaceId ==> p.address != q.address && (p.publicKey != "" ==> p.publicKey != q.publicKey))
  }

  ghost predicate PeersUnique(peers: seq<Peer>) {
    Pairwise(peers, PeersApart)
  }

  predicate PskKnown(p: Peer) {
    p.publicKey != "" ==> p.presharedKey.Some?
  }

  /** The names of interfaces and of groups are unique, and so are the users' emails. */
  ghost predicate NamesUnique(db: Db) {
    && (forall i, j :: i in db.interfaces && j in db.interfaces && i != j ==>
         db.interfaces[i].name != db.interfaces[j].name)
    && (forall g, h :: g in db.groups && h in db.groups && g != h ==> db.groups[g].name != db.groups[h].name)
    && (forall u, v :: u in db.users && v in db.users && u != v ==> db.users[u].email != db.users[v].email)
  }

  ghost predicate ValidDb(db: Db) {
    && ForeignKeys(db)
    && NamesUnique(db)
    && PeersUnique(db.peers)
    && forall k :: 0 <= k < |db.peers| ==> PskKnown(db.peers[k])
  }

  const EMPTY_DB := Db(map[], [], map[], [], map[], map[], 0)
}
