/** Requests addressed by internal id do what the lookups by name or key mean. */
module RouterRequests {
  import opened BackendTypes
  import opened RouterApply
  import opened RouterPeers
  import opened RouterTables
  import opened Sequences
  import opened Wrappers

  lemma PatchInterfaceIsEnsure(t: Tables, name: string, port: nat, key: string)
    requires WellFormed(t) && FirstNamed(t.interfaces, name).Some?
    ensures var listed := Filter(t.interfaces, Named(name));
            listed != [] && PatchInterface(t, listed[0].id, name, port, key) == EnsureInterface(t, name, port, key)
  {
    var h := FirstNamed(t.interfaces, name).value;
    ListedFirst(t.interfaces, Named(name));
    var rows := SetInterface(t.interfaces, t.interfaces[h].id, name, port, key);
    assert rows == t.interfaces[h := InterfaceRow(t.interfaces[h].id, name, port, key, false)] by {
      forall i | 0 <= i < |rows| && i != h ensures rows[i] == t.interfaces[i] {
        assert InterfaceId()(t.interfaces[i]) != InterfaceId()(t.interfaces[h]);
      }
    }
  }

  /** The head of a listing is the first match of the table. */
  lemma ListedFirst<T>(a: seq<T>, p: T -> bool)
    ensures Filter(a, p) != [] <==> First(a, p).Some?
    ensures First(a, p).Some? ==> Filter(a, p)[0] == a[First(a, p).value]
  {
    FirstInFilter(a, p, p);
  }

  lemma PatchPeerIsUpsert(t: Tables, h: nat, iface: string, p: PeerSpec)
    requires WellFormed(t) && FirstHit(t.peers, iface, p.publicKey) == Some(h)
    ensures PatchPeer(t, t.peers[h].id, iface, p.publicKey, p.address, p.presharedKey) == Upsert(t, iface, p)
  {
    var rows := SetPeer(t.peers, t.peers[h].id, iface, p.publicKey, p.address, p.presharedKey);
    assert rows == t.peers[h := Patched(t.peers[h], iface, p.publicKey, p.address, p.presharedKey)] by {
      forall i | 0 <= i < |rows| && i != h ensures rows[i] == t.peers[i] {
        assert PeerId()(t.peers[i]) != PeerId()(t.peers[h]);
      }
    }
  }

  lemma DeletePeerTakesOut(t: Tables, h: nat)
    requires WellFormed(t) && h < |t.peers|
    ensures DeletePeer(t, t.peers[h].id) == t.(peers := Without(t.peers, h))
  {
    var id := t.peers[h].id;
    forall k | 0 <= k < |t.peers| && k != h ensures t.peers[k].id != id {
      assert PeerId()(t.peers[k]) != PeerId()(t.peers[h]);
    }
    FilterDropsOne(t.peers, h, (r: PeerRow) => r.id != id);
  }

  lemma DeleteInterfaceIsDrop(t: Tables, name: string)
    requires WellFormed(t) && FirstNamed(t.interfaces, name).Some?
    ensures var listed := Filter(t.interfaces, Named(name));
            listed != [] && DeleteInterface(t, listed[0].id) == DropFirstNamed(t, name)
  {
    var h := FirstNamed(t.interfaces, name).value;
    ListedFirst(t.interfaces, Named(name));
    var id := t.interfaces[h].id;
    forall k | 0 <= k < |t.interfaces| && k != h ensures t.interfaces[k].id != id {
      assert InterfaceId()(t.interfaces[k]) != InterfaceId()(t.interfaces[h]);
    }
    FilterDropsOne(t.interfaces, h, (r: InterfaceRow) => r.id != id);
  }

  // ---- Ids stay valid ----

  lemma PutAddressKeepsIds(t: Tables, v6: bool, iface: string, comment: string, address: string)
    requires WellFormed(t)
    ensures WellFormed(PutAddress(t, v6, iface, comment, address))
  {
  }

  lemma UpsertKeepsIds(t: Tables, iface: string, p: PeerSpec)
    requires WellFormed(t)
    ensures WellFormed(Upsert(t, iface, p))
  {
    var hit := FirstHit(t.peers, iface, p.publicKey);
    if hit.Some? {
      var u := Upsert(t, iface, p);
      assert forall i :: 0 <= i < |u.peers| ==> PeerId()(u.peers[i]) == PeerId()(t.peers[i]);
    } else {
    }
  }

  lemma EnsureKeepsIds(t: Tables, name: string, port: nat, key: string)
    requires WellFormed(t)
    ensures WellFormed(EnsureInterface(t, name, port, key))
  {
    var hit := FirstNamed(t.interfaces, name);
    if hit.Some? {
      var u := EnsureInterface(t, name, port, key);
      assert forall i :: 0 <= i < |u.interfaces| ==> InterfaceId()(u.interfaces[i]) == InterfaceId()(t.interfaces[i]);
    }
  }

  lemma DeletesKeepIds(t: Tables, id: nat, v6: bool)
    requires WellFormed(t)
    ensures WellFormed(DeletePeer(t, id)) && WellFormed(DeleteInterface(t, id)) && WellFormed(DeleteAddress(t, v6, id))
  {
    FilterKeepsIds(t.peers, PeerId(), t.counter, (r: PeerRow) => r.id != id);
    FilterKeepsIds(t.interfaces, InterfaceId(), t.counter, (r: InterfaceRow) => r.id != id);
    FilterKeepsIds(AddressTable(t, v6), AddressId(), t.counter, (r: AddressRow) => r.id != id);
  }

  // ---- Single steps leave what is not ours alone ----

  lemma DeletePeerKeepsOthers(t: Tables, h: nat, iface: string)
    requires WellFormed(t) && h < |t.peers| && t.peers[h].iface == iface
    ensures OthersKept(t, DeletePeer(t, t.peers[h].id), iface)
  {
    DeletePeerTakesOut(t, h);
    FilterRemove(t.peers, h, OffInterface(iface));
  }

  lemma PutAddressKeepsOthers(t: Tables, v6: bool, iface: string, address: string)
    ensures OthersKept(t, PutAddress(t, v6, iface, Comment(iface), address), iface)
  {
    PutAddressAdds(t, v6, iface, address);
  }

  lemma DeleteAddressTakesOut(t: Tables, v6: bool, h: nat)
    requires WellFormed(t) && h < |AddressTable(t, v6)|
    ensures DeleteAddress(t, v6, AddressTable(t, v6)[h].id) == WithAddressTable(t, v6, Without(AddressTable(t, v6), h))
  {
    var rows := AddressTable(t, v6);
    var id := rows[h].id;
    forall k | 0 <= k < |rows| && k != h ensures rows[k].id != id {
      assert AddressId()(rows[k]) != AddressId()(rows[h]);
    }
    FilterDropsOne(rows, h, (r: AddressRow) => r.id != id);
  }

  lemma DeleteAddressKeepsOthers(t: Tables, v6: bool, h: nat, iface: string)
    requires WellFormed(t) && h < |AddressTable(t, v6)| && Owned(AddressTable(t, v6)[h], iface)
    ensures OthersKept(t, DeleteAddress(t, v6, AddressTable(t, v6)[h].id), iface)
  {
    DeleteAddressTakesOut(t, v6, h);
    FilterRemove(AddressTable(t, v6), h, NotOwned(iface));
  }

}
