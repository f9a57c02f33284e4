/**
 Full-state apply to the router, as a function on its tables, and what it guarantees
 from any starting tables, duplicates included.
 */
module RouterApply {
  import opened BackendTypes
  import opened RouterPeers
  import opened RouterTables
  import opened Sequences
  import opened Strings
  import opened Wrappers

  // ---- The interface row ----

  function Named(name: string): InterfaceRow -> bool {
    (r: InterfaceRow) => r.name == name
  }

  function FirstNamed(rows: seq<InterfaceRow>, name: string): (r: Option<nat>)
    ensures r.Some? ==> r.value < |rows| && rows[r.value].name == name
    ensures r.Some? ==> forall j :: 0 <= j < r.value ==> rows[j].name != name
    ensures r.None? ==> forall j :: 0 <= j < |rows| ==> rows[j].name != name
  {
    First(rows, Named(name))
  }

  function EnsureInterface(t: Tables, name: string, port: nat, key: string): Tables {
    var hit := FirstNamed(t.interfaces, name);
    if hit.Some?
    then t.(interfaces := t.interfaces[hit.value := InterfaceRow(t.interfaces[hit.value].id, name, port, key, false)])
    else PutInterface(t, name, port, key)
  }

  /** The first row with the name carries the port and key, and ensuring it again changes nothing. */
  lemma EnsureInterfaceHolds(t: Tables, name: string, port: nat, key: string)
    ensures var u := EnsureInterface(t, name, port, key);
            && FirstNamed(u.interfaces, name).Some?
            && (var row := u.interfaces[FirstNamed(u.interfaces, name).value];
                row == InterfaceRow(row.id, name, port, key, false))
            && EnsureInterface(u, name, port, key) == u
  {
    var hit := FirstNamed(t.interfaces, name);
    var u := EnsureInterface(t, name, port, key);
    var h := if hit.Some? then hit.value else |t.interfaces|;
    assert u.interfaces[h := u.interfaces[h]] == u.interfaces;
  }

  // ---- The addresses of one family ----

  function Comment(iface: string): string {
    "wg-vpng:" + iface
  }

  /** We own the rows of the interface that carry our comment. */
  predicate Owned(r: AddressRow, iface: string) {
    r.iface == iface && r.comment == Comment(iface)
  }

  function AddressOn(iface: string): AddressRow -> bool {
    (r: AddressRow) => r.iface == iface
  }

  function IsOwned(iface: string): AddressRow -> bool {
    (r: AddressRow) => Owned(r, iface)
  }

  /** Rows of other interfaces, and rows without our comment. */
  function NotOwned(iface: string): AddressRow -> bool {
    (r: AddressRow) => r.iface != iface || r.comment != "wg-vpng:" + iface
  }

  function NotStale(iface: string, want: set<string>): AddressRow -> bool {
    (r: AddressRow) => !Owned(r, iface) || r.address in want
  }

  function OwnedAddresses(rows: seq<AddressRow>, iface: string): set<string> {
    set i | 0 <= i < |rows| && Owned(rows[i], iface) :: rows[i].address
  }

  function Missing(desired: seq<string>, have: set<string>): seq<string> {
    if desired == [] then []
    else
      var init, last := desired[..|desired| - 1], desired[|desired| - 1];
      Missing(init, have) + (if last in have then [] else [last])
  }

  function AddAddresses(t: Tables, v6: bool, iface: string, addresses: seq<string>): Tables {
    if addresses == [] then t
    else PutAddress(AddAddresses(t, v6, iface, addresses[..|addresses| - 1]), v6, iface, Comment(iface),
        addresses[|addresses| - 1])
  }

  function DropStale(t: Tables, v6: bool, iface: string, want: set<string>): Tables {
    WithAddressTable(t, v6, Filter(AddressTable(t, v6), NotStale(iface, want)))
  }

  function ReconcileFamily(t: Tables, v6: bool, iface: string, desired: seq<string>): Tables {
    var have := OwnedAddresses(AddressTable(t, v6), iface);
    AddAddresses(DropStale(t, v6, iface, Elems(desired)), v6, iface, Missing(desired, have))
  }

  // ---- The whole apply ----

  function IsV6Token(a: string): bool {
    ':' in a
  }

  function OfFamily(addresses: seq<string>, v6: bool): seq<string> {
    Filter(addresses, (a: string) => IsV6Token(a) == v6)
  }

  function ReconcileAddresses(t: Tables, iface: string, addresses: seq<string>): Tables {
    ReconcileFamily(
      ReconcileFamily(t, false, iface, OfFamily(addresses, false)),
      true, iface, OfFamily(addresses, true))
  }

  function Prune(t: Tables, iface: string, keys: set<string>): Tables {
    t.(peers := Filter(t.peers, Wanted(iface, keys)))
  }

  /** The first half: the interface row and its addresses. */
  function ApplyInterface(t: Tables, spec: InterfaceSpec): Tables {
    var t1 := EnsureInterface(t, spec.name, spec.listenPort, spec.privateKey);
    ReconcileAddresses(t1, spec.name, Cidrs(spec.address))
  }

  /** The second half: stale peers go, desired peers are added or updated. */
  function ApplyPeers(t: Tables, name: string, peers: seq<PeerSpec>): Tables {
    UpsertAll(Prune(t, name, Keys(peers)), name, peers)
  }

  function Apply(t: Tables, spec: InterfaceSpec, peers: seq<PeerSpec>): Tables {
    ApplyPeers(ApplyInterface(t, spec), spec.name, peers)
  }

  // ---- Addresses: the owned set becomes the desired set ----

  lemma {:induction false} MissingAre(desired: seq<string>, have: set<string>)
    ensures Elems(Missing(desired, have)) == Elems(desired) - have
  {
    if desired != [] {
      var init, last := desired[..|desired| - 1], desired[|desired| - 1];
      MissingAre(init, have);
      ElemsAppend(init, last);
      ElemsAppend(Missing(init, have), last);
      assert desired == init + [last];
      assert Missing(init, have) + [] == Missing(init, have);
    }
  }

  lemma ElemsAppend(s: seq<string>, a: string)
    ensures Elems(s + [a]) == Elems(s) + {a}
  {
    var longer := s + [a];
    assert forall i :: 0 <= i < |s| ==> longer[i] == s[i];
    assert longer[|s|] == a;
  }

  lemma OwnedAppend(rows: seq<AddressRow>, r: AddressRow, iface: string)
    ensures OwnedAddresses(rows + [r], iface)
        == OwnedAddresses(rows, iface) + (if Owned(r, iface) then {r.address} else {})
  {
    var longer := rows + [r];
    assert forall i :: 0 <= i < |rows| ==> longer[i] == rows[i];
    assert longer[|rows|] == r;
  }

  lemma {:induction false} OwnedFiltered(rows: seq<AddressRow>, iface: string, want: set<string>)
    ensures OwnedAddresses(Filter(rows, NotStale(iface, want)), iface) == OwnedAddresses(rows, iface) * want
  {
    if rows != [] {
      var init, last := rows[..|rows| - 1], rows[|rows| - 1];
      OwnedFiltered(init, iface, want);
      OwnedAppend(init, last, iface);
      OwnedAppend(Filter(init, NotStale(iface, want)), last, iface);
      assert rows == init + [last];
      assert Filter(init, NotStale(iface, want)) + [] == Filter(init, NotStale(iface, want));
    }
  }

  /** `u` differs from `t` in one address table and the id counter at most. */
  ghost predicate OnlyAddresses(t: Tables, u: Tables, v6: bool) {
    u == WithAddressTable(t, v6, AddressTable(u, v6)).(counter := u.counter)
  }

  /** The owned addresses grew by `added`; every other row is as before. */
  ghost predicate GainsOwned(rows: seq<AddressRow>, rows': seq<AddressRow>, iface: string, added: set<string>) {
    && OwnedAddresses(rows', iface) == OwnedAddresses(rows, iface) + added
    && Filter(rows', NotOwned(iface)) == Filter(rows, NotOwned(iface))
  }

  lemma PutAddressAdds(t: Tables, v6: bool, iface: string, address: string)
    ensures var u := PutAddress(t, v6, iface, Comment(iface), address);
            && OnlyAddresses(t, u, v6) && u.counter == t.counter + 1
            && GainsOwned(AddressTable(t, v6), AddressTable(u, v6), iface, {address})
  {
    var rows, row := AddressTable(t, v6), NewAddress(FreshId(t), v6, iface, Comment(iface), address);
    OwnedAppend(rows, row, iface);
    FilterConcat(rows, [row], NotOwned(iface));
    FilterNone([row], NotOwned(iface));
  }

  lemma AddOneMoreAdds(t: Tables, m: Tables, v6: bool, iface: string, added: set<string>, last: string)
    requires OnlyAddresses(t, m, v6) && GainsOwned(AddressTable(t, v6), AddressTable(m, v6), iface, added)
    ensures var u := PutAddress(m, v6, iface, Comment(iface), last);
            && OnlyAddresses(t, u, v6) && u.counter == m.counter + 1
            && GainsOwned(AddressTable(t, v6), AddressTable(u, v6), iface, added + {last})
  {
    PutAddressAdds(m, v6, iface, last);
  }

  /** The first addresses added something; with the last one it is `all`. */
  lemma AddLastAdds(t: Tables, v6: bool, iface: string, addresses: seq<string>, added: set<string>, all: set<string>)
    requires addresses != [] && all == added + {addresses[|addresses| - 1]}
    requires AddedSoFar(t, AddAddresses(t, v6, iface, addresses[..|addresses| - 1]), v6, iface, added, |addresses| - 1)
    ensures AddedSoFar(t, AddAddresses(t, v6, iface, addresses), v6, iface, all, |addresses|)
  {
    var init := addresses[..|addresses| - 1];
    AddOneMoreAdds(t, AddAddresses(t, v6, iface, init), v6, iface, added, addresses[|addresses| - 1]);
  }

  /** One table was touched only, `added` was appended to it, and `n` ids were used. */
  ghost predicate AddedSoFar(t: Tables, u: Tables, v6: bool, iface: string, added: set<string>, n: nat) {
    && OnlyAddresses(t, u, v6) && u.counter == t.counter + n
    && GainsOwned(AddressTable(t, v6), AddressTable(u, v6), iface, added)
  }

  lemma NothingAdded(t: Tables, v6: bool, iface: string)
    ensures AddedSoFar(t, AddAddresses(t, v6, iface, []), v6, iface, {}, 0)
  {
  }

  /** Adding addresses touches one table only, appends owned rows to it, and uses one id each. */
  lemma {:induction false} AddAddressesAdds(t: Tables, v6: bool, iface: string, addresses: seq<string>)
    ensures AddedSoFar(t, AddAddresses(t, v6, iface, addresses), v6, iface, Elems(addresses), |addresses|)
  {
    if addresses == [] {
      NothingAdded(t, v6, iface);
      assert Elems(addresses) == {};
    } else {
      var init, last := addresses[..|addresses| - 1], addresses[|addresses| - 1];
      AddAddressesAdds(t, v6, iface, init);
      ElemsAppend(init, last);
      assert addresses == init + [last];
      AddLastAdds(t, v6, iface, addresses, Elems(init), Elems(addresses));
    }
  }

  lemma HeadIsElement(s: seq<string>)
    ensures s != [] ==> s[0] in Elems(s)
  {
  }

  /** One family: the owned set is the desired set, and rows we do not own are as before. */
  lemma FamilyConverges(t: Tables, v6: bool, iface: string, desired: seq<string>)
    ensures var u := ReconcileFamily(t, v6, iface, desired);
            && OwnedAddresses(AddressTable(u, v6), iface) == Elems(desired)
            && Filter(AddressTable(u, v6), NotOwned(iface)) == Filter(AddressTable(t, v6), NotOwned(iface))
            && u == WithAddressTable(t, v6, AddressTable(u, v6)).(counter := u.counter)
  {
    var rows, want := AddressTable(t, v6), Elems(desired);
    var have := OwnedAddresses(rows, iface);
    var dropped := DropStale(t, v6, iface, want);
    OwnedFiltered(rows, iface, want);
    FilterTwice(rows, NotStale(iface, want), NotOwned(iface));
    MissingAre(desired, have);
    AddAddressesAdds(dropped, v6, iface, Missing(desired, have));
  }

  /** A family already at its desired set is left exactly as it is. */
  lemma FamilyAtRest(t: Tables, v6: bool, iface: string, desired: seq<string>)
    requires OwnedAddresses(AddressTable(t, v6), iface) == Elems(desired)
    ensures ReconcileFamily(t, v6, iface, desired) == t
  {
    var rows, want := AddressTable(t, v6), Elems(desired);
    forall i | 0 <= i < |rows| ensures NotStale(iface, want)(rows[i]) {
      if Owned(rows[i], iface) {
        assert rows[i].address in OwnedAddresses(rows, iface);
      }
    }
    FilterAll(rows, NotStale(iface, want));
    MissingAre(desired, want);
    HeadIsElement(Missing(desired, want));
  }

  // ---- Peers: convergence ----

  /** After the peer half, the keys on the interface are exactly the desired keys. */
  lemma KeysConverge(t: Tables, iface: string, peers: seq<PeerSpec>)
    ensures var u := ApplyPeers(t, iface, peers);
            forall k :: k in Keys(peers) <==> FirstHit(u.peers, iface, k).Some?
  {
    var keys := Keys(peers);
    var pruned := Prune(t, iface, keys);
    UpsertAllSettles(pruned, iface, peers);
    var u := UpsertAll(pruned, iface, peers);
    forall k | FirstHit(u.peers, iface, k).Some? ensures k in keys {
      var h := FirstHit(u.peers, iface, k).value;
      if h < |pruned.peers| {
        FilterMembers(t.peers, Wanted(iface, keys));
        assert Wanted(iface, keys)(pruned.peers[h]);
      } else {
        LastAddressKnown(peers, k);
      }
    }
  }

  /** The row a lookup of a desired key finds has the last spec's address and the last supplied preshared key. */
  lemma FirstRowConverges(t: Tables, iface: string, peers: seq<PeerSpec>, k: string)
    requires k in Keys(peers)
    ensures var u := UpsertAll(t, iface, peers);
            && FirstHit(u.peers, iface, k).Some?
            && (var row := u.peers[FirstHit(u.peers, iface, k).value];
                && Some(row.address) == LastAddress(peers, k)
                && row.psk == (if LastPsk(peers, k).Some? then LastPsk(peers, k)
                               else if FirstHit(t.peers, iface, k).Some?
                                   then t.peers[FirstHit(t.peers, iface, k).value].psk
                               else None))
  {
    UpsertAllSettles(t, iface, peers);
    var u := UpsertAll(t, iface, peers);
    FirstHitKept(t.peers, u.peers, iface, peers, k);
    LastAddressKnown(peers, k);
  }

  /** Further rows with a desired key are not corrected: they stay as they were. */
  lemma DuplicatesStay(t: Tables, iface: string, peers: seq<PeerSpec>, i: nat)
    requires i < |t.peers| && FirstHit(t.peers, iface, t.peers[i].key) != Some(i)
    ensures i < |UpsertAll(t, iface, peers).peers| && UpsertAll(t, iface, peers).peers[i] == t.peers[i]
  {
    UpsertAllSettles(t, iface, peers);
  }

  /** A table in which every desired key is present and settled is left exactly as it is. */
  lemma UpsertAtRest(t: Tables, iface: string, peers: seq<PeerSpec>)
    requires AllFound(t.peers, iface, Keys(peers))
    requires forall i :: 0 <= i < |t.peers| && FirstHit(t.peers, iface, t.peers[i].key) == Some(i)
               ==> Settled(t.peers[i], peers) == t.peers[i]
    ensures UpsertAll(t, iface, peers) == t
  {
    UpsertAllFrame(t, iface, peers);
    UpsertAllSettles(t, iface, peers);
    var u := UpsertAll(t, iface, peers);
    if |u.peers| > |t.peers| {
      LastAddressKnown(peers, u.peers[|t.peers|].key);
    }
    assert u.peers == t.peers;
  }

  lemma UpsertTwice(t: Tables, iface: string, peers: seq<PeerSpec>)
    ensures UpsertAll(UpsertAll(t, iface, peers), iface, peers) == UpsertAll(t, iface, peers)
  {
    UpsertAllSettles(t, iface, peers);
    var u := UpsertAll(t, iface, peers);
    forall i | 0 <= i < |u.peers| && FirstHit(u.peers, iface, u.peers[i].key) == Some(i)
      ensures Settled(u.peers[i], peers) == u.peers[i]
    {
      var k := u.peers[i].key;
      FirstHitKept(t.peers, u.peers, iface, peers, k);
      LastAddressKnown(peers, k);
      if k in Keys(peers) {
        FirstRowConverges(t, iface, peers, k);
      }
    }
    UpsertAtRest(u, iface, peers);
  }

  // ---- The whole apply ----

  function OtherName(name: string): InterfaceRow -> bool {
    (r: InterfaceRow) => r.name != name
  }

  /** Everything the router holds that is not ours for this interface is row for row as before. */
  ghost predicate OthersKept(t: Tables, u: Tables, iface: string) {
    && Filter(u.interfaces, OtherName(iface)) == Filter(t.interfaces, OtherName(iface))
    && Filter(u.peers, OffInterface(iface)) == Filter(t.peers, OffInterface(iface))
    && Filter(u.ip4, NotOwned(iface)) == Filter(t.ip4, NotOwned(iface))
    && Filter(u.ip6, NotOwned(iface)) == Filter(t.ip6, NotOwned(iface))
  }

  lemma EnsureKeepsOthers(t: Tables, name: string, port: nat, key: string)
    ensures OthersKept(t, EnsureInterface(t, name, port, key), name)
  {
    var hit := FirstNamed(t.interfaces, name);
    var u := EnsureInterface(t, name, port, key);
    if hit.Some? {
      FilterUpdate(t.interfaces, hit.value, u.interfaces[hit.value], OtherName(name));
    } else {
      FilterConcat(t.interfaces, [u.interfaces[|t.interfaces|]], OtherName(name));
      FilterNone([u.interfaces[|t.interfaces|]], OtherName(name));
    }
  }

  lemma UpsertKeepsOthers(t: Tables, iface: string, p: PeerSpec)
    ensures OthersKept(t, Upsert(t, iface, p), iface)
  {
    var hit := FirstHit(t.peers, iface, p.publicKey);
    var u := Upsert(t, iface, p);
    if hit.Some? {
      FilterUpdate(t.peers, hit.value, u.peers[hit.value], OffInterface(iface));
    } else {
      FilterConcat(t.peers, [u.peers[|t.peers|]], OffInterface(iface));
      FilterNone([u.peers[|t.peers|]], OffInterface(iface));
    }
  }

  lemma {:induction false} UpsertAllKeepsOthers(t: Tables, iface: string, peers: seq<PeerSpec>)
    ensures OthersKept(t, UpsertAll(t, iface, peers), iface)
  {
    if peers != [] {
      UpsertAllKeepsOthers(t, iface, peers[..|peers| - 1]);
      UpsertKeepsOthers(UpsertAll(t, iface, peers[..|peers| - 1]), iface, peers[|peers| - 1]);
    }
  }

  lemma PruneKeepsOthers(t: Tables, iface: string, keys: set<string>)
    ensures OthersKept(t, Prune(t, iface, keys), iface)
  {
    FilterTwice(t.peers, Wanted(iface, keys), OffInterface(iface));
  }

  lemma AddressesFrame(t: Tables, iface: string, addresses: seq<string>)
    ensures var u := ReconcileAddresses(t, iface, addresses);
            u.interfaces == t.interfaces && u.peers == t.peers
  {
    FamilyFrame(t, false, iface, OfFamily(addresses, false));
    FamilyFrame(ReconcileFamily(t, false, iface, OfFamily(addresses, false)), true, iface, OfFamily(addresses, true));
  }

  lemma FamilyFrame(t: Tables, v6: bool, iface: string, desired: seq<string>)
    ensures OnlyAddresses(t, ReconcileFamily(t, v6, iface, desired), v6)
  {
    FamilyConverges(t, v6, iface, desired);
  }

  lemma AddressesConverge(t: Tables, iface: string, addresses: seq<string>)
    ensures var u := ReconcileAddresses(t, iface, addresses);
            && OthersKept(t, u, iface)
            && u.interfaces == t.interfaces && u.peers == t.peers
            && OwnedAddresses(u.ip4, iface) == Elems(OfFamily(addresses, false))
            && OwnedAddresses(u.ip6, iface) == Elems(OfFamily(addresses, true))
  {
    FamilyConverges(t, false, iface, OfFamily(addresses, false));
    FamilyConverges(ReconcileFamily(t, false, iface, OfFamily(addresses, false)), true, iface,
        OfFamily(addresses, true));
  }

  lemma AddressesAtRest(t: Tables, iface: string, addresses: seq<string>)
    requires OwnedAddresses(t.ip4, iface) == Elems(OfFamily(addresses, false))
    requires OwnedAddresses(t.ip6, iface) == Elems(OfFamily(addresses, true))
    ensures ReconcileAddresses(t, iface, addresses) == t
  {
    FamilyAtRest(t, false, iface, OfFamily(addresses, false));
    FamilyAtRest(t, true, iface, OfFamily(addresses, true));
  }

  lemma ApplyInterfaceFrame(t: Tables, spec: InterfaceSpec, t1: Tables, u: Tables)
    requires t1 == EnsureInterface(t, spec.name, spec.listenPort, spec.privateKey)
    requires u == ReconcileAddresses(t1, spec.name, Cidrs(spec.address))
    ensures u == ApplyInterface(t, spec) && u.peers == t.peers && u.interfaces == t1.interfaces
  {
    AddressesFrame(t1, spec.name, Cidrs(spec.address));
  }

  lemma ApplyPeersFrame(t: Tables, name: string, peers: seq<PeerSpec>)
    ensures var u := ApplyPeers(t, name, peers);
            u == t.(peers := u.peers, counter := u.counter)
  {
    UpsertAllFrame(Prune(t, name, Keys(peers)), name, peers);
  }

  /** Applying touches nothing but our rows for the interface. */
  lemma ApplyKeepsOthers(t: Tables, spec: InterfaceSpec, peers: seq<PeerSpec>)
    ensures OthersKept(t, Apply(t, spec, peers), spec.name)
  {
    var t2 := ApplyInterface(t, spec);
    EnsureKeepsOthers(t, spec.name, spec.listenPort, spec.privateKey);
    AddressesConverge(EnsureInterface(t, spec.name, spec.listenPort, spec.privateKey), spec.name, Cidrs(spec.address));
    PruneKeepsOthers(t2, spec.name, Keys(peers));
    UpsertAllKeepsOthers(Prune(t2, spec.name, Keys(peers)), spec.name, peers);
  }

  ghost predicate ShowsInterface(rows: seq<InterfaceRow>, spec: InterfaceSpec) {
    var h := FirstNamed(rows, spec.name);
    h.Some? && rows[h.value] == InterfaceRow(rows[h.value].id, spec.name, spec.listenPort, spec.privateKey, false)
  }

  /** A row with our comment assigns the address to the interface. */
  ghost predicate Assigned(rows: seq<AddressRow>, name: string, a: string) {
    exists i :: 0 <= i < |rows| && rows[i].iface == name && rows[i].comment == "wg-vpng:" + name && rows[i].address == a
  }

  /** Exactly the tokens of the specification are assigned: those with a colon as IPv6, the others as IPv4. */
  ghost predicate ShowsAddresses(ip4: seq<AddressRow>, ip6: seq<AddressRow>, spec: InterfaceSpec) {
    && (forall a :: Assigned(ip4, spec.name, a) <==> a in Cidrs(spec.address) && ':' !in a)
    && (forall a :: Assigned(ip6, spec.name, a) <==> a in Cidrs(spec.address) && ':' in a)
  }

  lemma AssignedAreOwned(rows: seq<AddressRow>, name: string, a: string)
    ensures Assigned(rows, name, a) <==> a in OwnedAddresses(rows, name)
  {
  }

  lemma OfFamilyAre(addresses: seq<string>, v6: bool, a: string)
    ensures a in Elems(OfFamily(addresses, v6)) <==> a in addresses && (':' in a <==> v6)
  {
    InFilter(addresses, (x: string) => IsV6Token(x) == v6, a);
  }

  lemma ShowsOwned(ip4: seq<AddressRow>, ip6: seq<AddressRow>, spec: InterfaceSpec)
    ensures ShowsAddresses(ip4, ip6, spec)
       <==> && OwnedAddresses(ip4, spec.name) == Elems(OfFamily(Cidrs(spec.address), false))
            && OwnedAddresses(ip6, spec.name) == Elems(OfFamily(Cidrs(spec.address), true))
  {
    var want4, want6 := Elems(OfFamily(Cidrs(spec.address), false)), Elems(OfFamily(Cidrs(spec.address), true));
    forall a
      ensures Assigned(ip4, spec.name, a) <==> a in OwnedAddresses(ip4, spec.name)
      ensures Assigned(ip6, spec.name, a) <==> a in OwnedAddresses(ip6, spec.name)
      ensures a in want4 <==> a in Cidrs(spec.address) && ':' !in a
      ensures a in want6 <==> a in Cidrs(spec.address) && ':' in a
    {
      AssignedAreOwned(ip4, spec.name, a);
      AssignedAreOwned(ip6, spec.name, a);
      OfFamilyAre(Cidrs(spec.address), false, a);
      OfFamilyAre(Cidrs(spec.address), true, a);
    }
    if ShowsAddresses(ip4, ip6, spec) {
      assert forall a :: a in OwnedAddresses(ip4, spec.name) <==> a in want4;
      assert forall a :: a in OwnedAddresses(ip6, spec.name) <==> a in want6;
    }
  }

  ghost predicate ShowsPeer(rows: seq<PeerRow>, name: string, peers: seq<PeerSpec>, k: string) {
    var h := FirstHit(rows, name, k);
    && h.Some?
    && Some(rows[h.value].address) == LastAddress(peers, k)
    && (LastPsk(peers, k).Some? ==> rows[h.value].psk == LastPsk(peers, k))
  }

  ghost predicate ShowsPeers(rows: seq<PeerRow>, name: string, peers: seq<PeerSpec>) {
    && (forall k :: k in Keys(peers) ==> ShowsPeer(rows, name, peers, k))
    && (forall i :: 0 <= i < |rows| && rows[i].iface == name ==> rows[i].key in Keys(peers))
  }

  /**
   The router shows what was asked for: the interface row with its port and key, exactly
   the addresses, exactly the peer keys, and for each key the last spec's settings.
   */
  ghost predicate Shows(t: Tables, spec: InterfaceSpec, peers: seq<PeerSpec>) {
    && ShowsInterface(t.interfaces, spec)
    && ShowsAddresses(t.ip4, t.ip6, spec)
    && ShowsPeers(t.peers, spec.name, peers)
  }

  lemma ApplyInterfaceConverges(t: Tables, spec: InterfaceSpec)
    ensures var u := ApplyInterface(t, spec);
            ShowsInterface(u.interfaces, spec) && ShowsAddresses(u.ip4, u.ip6, spec)
  {
    EnsureInterfaceHolds(t, spec.name, spec.listenPort, spec.privateKey);
    AddressesConverge(EnsureInterface(t, spec.name, spec.listenPort, spec.privateKey), spec.name, Cidrs(spec.address));
    ShowsOwned(ApplyInterface(t, spec).ip4, ApplyInterface(t, spec).ip6, spec);
  }

  lemma ApplyPeersConverges(t: Tables, name: string, peers: seq<PeerSpec>)
    ensures ShowsPeers(ApplyPeers(t, name, peers).peers, name, peers)
  {
    KeysConverge(t, name, peers);
    var u := ApplyPeers(t, name, peers);
    forall k | k in Keys(peers) ensures ShowsPeer(u.peers, name, peers, k) {
      FirstRowConverges(Prune(t, name, Keys(peers)), name, peers, k);
    }
    forall i | 0 <= i < |u.peers| && u.peers[i].iface == name ensures u.peers[i].key in Keys(peers) {
      assert Hits(u.peers[i], name, u.peers[i].key);
    }
  }

  /** From any tables, one apply makes the router show the desired state. */
  lemma ApplyConverges(t: Tables, spec: InterfaceSpec, peers: seq<PeerSpec>)
    ensures Shows(Apply(t, spec, peers), spec, peers)
  {
    ApplyInterfaceConverges(t, spec);
    ApplyPeersFrame(ApplyInterface(t, spec), spec.name, peers);
    ApplyPeersConverges(ApplyInterface(t, spec), spec.name, peers);
  }

  lemma EnsureAtRest(u: Tables, spec: InterfaceSpec)
    requires ShowsInterface(u.interfaces, spec)
    ensures EnsureInterface(u, spec.name, spec.listenPort, spec.privateKey) == u
  {
    var h := FirstNamed(u.interfaces, spec.name).value;
    assert u.interfaces[h := u.interfaces[h]] == u.interfaces;
  }

  lemma ApplyInterfaceAtRest(u: Tables, spec: InterfaceSpec)
    requires ShowsInterface(u.interfaces, spec) && ShowsAddresses(u.ip4, u.ip6, spec)
    ensures ApplyInterface(u, spec) == u
  {
    EnsureAtRest(u, spec);
    ShowsOwned(u.ip4, u.ip6, spec);
    AddressesAtRest(u, spec.name, Cidrs(spec.address));
  }

  lemma ApplyPeersTwice(t: Tables, name: string, peers: seq<PeerSpec>)
    ensures ApplyPeers(ApplyPeers(t, name, peers), name, peers) == ApplyPeers(t, name, peers)
  {
    var u := ApplyPeers(t, name, peers);
    ApplyPeersConverges(t, name, peers);
    FilterAll(u.peers, Wanted(name, Keys(peers)));
    UpsertTwice(Prune(t, name, Keys(peers)), name, peers);
  }

  /** A second apply of the same state leaves the whole router as it is: nothing added, nothing deleted. */
  lemma ApplyIdempotent(t: Tables, spec: InterfaceSpec, peers: seq<PeerSpec>)
    ensures Apply(Apply(t, spec, peers), spec, peers) == Apply(t, spec, peers)
  {
    ApplyConverges(t, spec, peers);
    ApplyInterfaceAtRest(Apply(t, spec, peers), spec);
    ApplyPeersTwice(ApplyInterface(t, spec), spec.name, peers);
  }

  // ---- Removal ----

  function DropNamedRow(rows: seq<InterfaceRow>, name: string): seq<InterfaceRow> {
    var hit := FirstNamed(rows, name);
    if hit.Some? then Without(rows, hit.value) else rows
  }

  function DropFirstNamed(t: Tables, name: string): Tables {
    t.(interfaces := DropNamedRow(t.interfaces, name))
  }

  function Remove(t: Tables, name: string): Tables {
    DropFirstNamed(Prune(ReconcileAddresses(t, name, []), name, {}), name)
  }

  /** The router knows nothing of the interface yet. */
  ghost predicate Unknown(t: Tables, name: string) {
    && FirstNamed(t.interfaces, name).None?
    && (forall i :: 0 <= i < |t.peers| ==> t.peers[i].iface != name)
    && (forall i :: 0 <= i < |t.ip4| ==> !Owned(t.ip4[i], name))
    && (forall i :: 0 <= i < |t.ip6| ==> !Owned(t.ip6[i], name))
  }

  lemma OwnedIsListed(rows: seq<AddressRow>, iface: string, i: nat)
    requires i < |rows|
    ensures Owned(rows[i], iface) ==> rows[i].address in OwnedAddresses(rows, iface)
  {
  }

  lemma NothingOwned(rows: seq<AddressRow>, iface: string)
    requires OwnedAddresses(rows, iface) == {}
    ensures Filter(rows, NotOwned(iface)) == rows
  {
    forall i | 0 <= i < |rows| ensures NotOwned(iface)(rows[i]) {
      OwnedIsListed(rows, iface, i);
    }
    FilterAll(rows, NotOwned(iface));
  }

  lemma DropKeepsOthers(t: Tables, name: string)
    ensures OthersKept(t, DropFirstNamed(t, name), name)
  {
    var hit := FirstNamed(t.interfaces, name);
    if hit.Some? {
      FilterRemove(t.interfaces, hit.value, OtherName(name));
    }
  }

  /** Removal empties what is ours for the interface and keeps everything else. */
  lemma RemoveClears(t: Tables, name: string)
    ensures var u := Remove(t, name);
            && OthersKept(t, u, name)
            && u.peers == Filter(t.peers, OffInterface(name))
            && u.ip4 == Filter(t.ip4, NotOwned(name))
            && u.ip6 == Filter(t.ip6, NotOwned(name))
  {
    var t1 := ReconcileAddresses(t, name, []);
    AddressesConverge(t, name, []);
    NothingOwned(t1.ip4, name);
    NothingOwned(t1.ip6, name);
    PruneKeepsOthers(t1, name, {});
    FilterAgree(t1.peers, Wanted(name, {}), OffInterface(name));
    DropKeepsOthers(Prune(t1, name, {}), name);
  }

  lemma RemoveInterfaces(t: Tables, name: string)
    ensures Remove(t, name).interfaces == DropNamedRow(t.interfaces, name)
  {
    AddressesFrame(t, name, []);
  }

  lemma LastRowDropped(rows: seq<InterfaceRow>, name: string, front: seq<InterfaceRow>)
    requires rows != [] && rows[|rows| - 1].name == name && front == rows[..|rows| - 1]
    requires forall j :: 0 <= j < |front| ==> front[j].name != name
    ensures DropNamedRow(rows, name) == front
  {
    assert rows[|rows|..] == [];
  }

  lemma ApplyInterfaceRows(t: Tables, spec: InterfaceSpec, peers: seq<PeerSpec>)
    ensures Apply(t, spec, peers).interfaces
        == EnsureInterface(t, spec.name, spec.listenPort, spec.privateKey).interfaces
  {
    ApplyInterfaceFrame(t, spec, EnsureInterface(t, spec.name, spec.listenPort, spec.privateKey),
        ApplyInterface(t, spec));
    ApplyPeersFrame(ApplyInterface(t, spec), spec.name, peers);
  }

  /** Bringing an interface up and tearing it down again leaves the router's rows as they were. */
  lemma RemoveUndoesApply(t: Tables, spec: InterfaceSpec, peers: seq<PeerSpec>)
    requires Unknown(t, spec.name)
    ensures var u := Remove(Apply(t, spec, peers), spec.name);
            u.interfaces == t.interfaces && u.peers == t.peers && u.ip4 == t.ip4 && u.ip6 == t.ip6
  {
    var u := Apply(t, spec, peers);
    ApplyInterfaceRows(t, spec, peers);
    LastRowDropped(u.interfaces, spec.name, t.interfaces);
    RemoveInterfaces(u, spec.name);
    ApplyKeepsOthers(t, spec, peers);
    UnknownRestored(t, u, spec.name);
  }

  lemma UnknownRestored(t: Tables, u: Tables, name: string)
    requires Unknown(t, name) && OthersKept(t, u, name)
    ensures Remove(u, name).peers == t.peers && Remove(u, name).ip4 == t.ip4 && Remove(u, name).ip6 == t.ip6
  {
    RemoveClears(u, name);
    FilterAll(t.peers, OffInterface(name));
    FilterAll(t.ip4, NotOwned(name));
    FilterAll(t.ip6, NotOwned(name));
  }
}
