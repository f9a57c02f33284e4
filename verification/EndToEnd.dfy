/** From the access rule to the router: one apply puts exactly the active devices on it. */
module EndToEnd {
  import opened BackendTypes
  import opened DesiredText
  import opened RouterTables
  import opened Sequences
  import opened Store
  import opened TextBackends
  import opened Wrappers
  import Ini
  import RouterApply
  import RouterPeers
  import Strings

  ghost predicate KeysDistinct(peers: seq<PeerSpec>) {
    forall j, k :: 0 <= j < k < |peers| ==> peers[j].publicKey != peers[k].publicKey
  }

  /** With distinct keys the last spec of a key is its only one. */
  lemma {:induction false} OnlySpecIsLast(peers: seq<PeerSpec>, k: nat)
    requires KeysDistinct(peers) && k < |peers|
    ensures RouterPeers.LastAddress(peers, peers[k].publicKey) == Some(peers[k].address)
    ensures RouterPeers.LastPsk(peers, peers[k].publicKey) == peers[k].presharedKey
  {
    var init := peers[..|peers| - 1];
    if k < |init| {
      OnlySpecIsLast(init, k);
    } else if peers[k].presharedKey.None? {
      NoOtherSpec(init, peers[k].publicKey);
    }
  }

  lemma NoOtherSpec(peers: seq<PeerSpec>, key: string)
    requires forall j :: 0 <= j < |peers| ==> peers[j].publicKey != key
    ensures RouterPeers.LastPsk(peers, key).None?
  {
    RouterPeers.NoPskWithoutSpec(peers, key);
  }

  /** The unique-key constraint of the database reaches the desired state; active devices have their preshared key. */
  lemma ActiveKeysDistinct(db: Db, i: Id)
    requires ValidDb(db) && i in db.interfaces
    ensures KeysDistinct(DesiredFor(db, i).peers)
    ensures forall k :: 0 <= k < |ActivePeers(db, i)| ==> ActivePeers(db, i)[k].presharedKey.Some?
  {
    var active := ActivePeers(db, i);
    FilterPairwise(db.peers, ActiveOn(db, i), PeersApart);
    forall k | 0 <= k < |active|
      ensures active[k].interfaceId == i && active[k].publicKey != "" && active[k].presharedKey.Some?
    {
      InFilter(db.peers, ActiveOn(db, i), active[k]);
      var m :| 0 <= m < |db.peers| && db.peers[m] == active[k];
      assert PskKnown(db.peers[m]);
    }
    forall j, k | 0 <= j < k < |active| ensures active[j].publicKey != active[k].publicKey {
      assert PeersApart(active[j], active[k]);
    }
  }

  /** With distinct keys the router shows each spec as given. */
  lemma ShownAsGiven(u: Tables, spec: InterfaceSpec, peers: seq<PeerSpec>, k: nat)
    requires RouterApply.Shows(u, spec, peers) && KeysDistinct(peers)
    requires k < |peers| && peers[k].presharedKey.Some?
    ensures var hit := RouterPeers.FirstHit(u.peers, spec.name, peers[k].publicKey);
            hit.Some? && u.peers[hit.value].address == peers[k].address
                && u.peers[hit.value].psk == peers[k].presharedKey
  {
    OnlySpecIsLast(peers, k);
    assert peers[k].publicKey in Keys(peers);
    assert RouterApply.ShowsPeer(u.peers, spec.name, peers, peers[k].publicKey);
  }

  /** The router holds `p`'s address and preshared key under its public key. */
  predicate HeldAs(u: Tables, name: string, p: Peer) {
    var hit := RouterPeers.FirstHit(u.peers, name, p.publicKey);
    hit.Some? && u.peers[hit.value].address == p.address && u.peers[hit.value].psk == p.presharedKey
  }

  /**
   Whatever the router held: after applying an interface's desired state, looking up an
   active device finds its address and preshared key, and every key on the interface
   belongs to an active device.
   */
  lemma RouterHoldsActiveDevices(db: Db, i: Id, t: Tables)
    requires ValidDb(db) && i in db.interfaces
    ensures var u := RouterApply.Apply(t, SpecOf(db.interfaces[i]), DesiredFor(db, i).peers);
            var name, active := db.interfaces[i].name, ActivePeers(db, i);
            && (forall k :: 0 <= k < |active| ==> HeldAs(u, name, active[k]))
            && (forall r :: 0 <= r < |u.peers| && u.peers[r].iface == name ==>
              exists n :: 0 <= n < |active| && active[n].publicKey == u.peers[r].key)
  {
    var spec, peers, active := SpecOf(db.interfaces[i]), DesiredFor(db, i).peers, ActivePeers(db, i);
    ActiveKeysDistinct(db, i);
    RouterApply.ApplyConverges(t, spec, peers);
    EachHeld(RouterApply.Apply(t, spec, peers), spec, active);
  }

  lemma EachHeld(u: Tables, spec: InterfaceSpec, active: seq<Peer>)
    requires RouterApply.Shows(u, spec, Wires(active)) && KeysDistinct(Wires(active))
    requires forall k :: 0 <= k < |active| ==> active[k].presharedKey.Some?
    ensures forall k :: 0 <= k < |active| ==> HeldAs(u, spec.name, active[k])
    ensures forall r :: 0 <= r < |u.peers| && u.peers[r].iface == spec.name ==>
      exists n :: 0 <= n < |active| && active[n].publicKey == u.peers[r].key
  {
    forall k | 0 <= k < |active| ensures HeldAs(u, spec.name, active[k]) {
      ShownAsGiven(u, spec, Wires(active), k);
    }
    forall r | 0 <= r < |u.peers| && u.peers[r].iface == spec.name
      ensures exists n :: 0 <= n < |active| && active[n].publicKey == u.peers[r].key
    {
      assert u.peers[r].key in Keys(Wires(active));
      var n :| 0 <= n < |Wires(active)| && Wires(active)[n].publicKey == u.peers[r].key;
      assert active[n].publicKey == u.peers[r].key;
    }
  }

  /**
   And the interface itself: the first row of its name has the low 16 bits of its port and
   its private key and is enabled, and our rows assign exactly its addresses, by family.
   */
  lemma RouterHoldsInterface(db: Db, i: Id, t: Tables)
    requires i in db.interfaces
    ensures var u := RouterApply.Apply(t, SpecOf(db.interfaces[i]), DesiredFor(db, i).peers);
            var row := db.interfaces[i];
            && (exists h :: 0 <= h < |u.interfaces|
                 && u.interfaces[h] == InterfaceRow(u.interfaces[h].id, row.name, row.listenPort % 0x1_0000,
                      row.privateKey, false)
                 && forall j :: 0 <= j < h ==> u.interfaces[j].name != row.name)
            && (forall a :: RouterApply.Assigned(u.ip4, row.name, a) <==> a in Strings.Cidrs(row.address) && ':' !in a)
            && (forall a :: RouterApply.Assigned(u.ip6, row.name, a) <==> a in Strings.Cidrs(row.address) && ':' in a)
  {
    RouterApply.ApplyConverges(t, SpecOf(db.interfaces[i]), DesiredFor(db, i).peers);
  }

  /**
   The text backends: a reader of the file finds the interface's private key and port, and
   the active devices in order, each with its key, its addresses and its preshared key.
   */
  lemma TextHoldsActiveDevices(style: Style, db: Db, i: Id)
    requires i in db.interfaces && Clean(SpecOf(db.interfaces[i]), DesiredFor(db, i).peers)
    requires style.Keyfile? ==> forall k :: 0 <= k < |ActivePeers(db, i)| ==> ';' !in ActivePeers(db, i)[k].address
    ensures var text := Rendered(style, SpecOf(db.interfaces[i]), DesiredFor(db, i).peers);
            var doc, active := Recover(style, Ini.Read(text, Spaced(style))), ActivePeers(db, i);
            && doc.privateKey == Some(db.interfaces[i].privateKey)
            && doc.port == Some(db.interfaces[i].listenPort % 0x1_0000)
            && |doc.peers| == |active|
            && forall k :: 0 <= k < |active| ==>
                 && doc.peers[k].publicKey == Some(active[k].publicKey)
                 && doc.peers[k].allowed == Strings.Cidrs(active[k].address)
                 && doc.peers[k].presharedKey ==
                      (if active[k].presharedKey == Some("") then None else active[k].presharedKey)
  {
    TextIsDoc(style, SpecOf(db.interfaces[i]), ActivePeers(db, i));
  }

  lemma TextIsDoc(style: Style, spec: InterfaceSpec, active: seq<Peer>)
    requires Clean(spec, Wires(active))
    requires style.Keyfile? ==> forall k :: 0 <= k < |active| ==> ';' !in active[k].address
    ensures Recover(style, Ini.Read(Rendered(style, spec, Wires(active)), Spaced(style))) == DocOf(spec, Wires(active))
  {
    SameDesiredState(style, spec, Wires(active));
    assert forall k :: 0 <= k < |active| ==> Carried(style, Wires(active)[k]);
  }
}
