/** Keys converge from any router state; rows converge exactly when no desired key had two of them. */
module RouterRows {
  import opened BackendTypes
  import opened RouterApply
  import opened RouterPeers
  import opened RouterTables
  import opened Sequences
  import opened Wrappers
  import Strings

  /** The two rows do not share a key from `keys` on the interface. */
  predicate Apart(a: PeerRow, b: PeerRow, iface: string, keys: set<string>) {
    !(a.iface == iface && b.iface == iface && a.key == b.key && a.key in keys)
  }

  /** No key from `keys` has two rows on the interface. */
  ghost predicate OneRowEach(rows: seq<PeerRow>, iface: string, keys: set<string>) {
    Pairwise(rows, (a: PeerRow, b: PeerRow) => Apart(a, b, iface, keys))
  }

  /** Two kept elements keep their order. */
  lemma {:induction false} KeptInOrder<T>(rows: seq<T>, keep: T -> bool, i: nat, j: nat) returns (m: nat, n: nat)
    requires i < j < |rows| && keep(rows[i]) && keep(rows[j])
    ensures m < n < |Filter(rows, keep)| && Filter(rows, keep)[m] == rows[i] && Filter(rows, keep)[n] == rows[j]
  {
    var init := rows[..|rows| - 1];
    if j < |init| {
      m, n := KeptInOrder(init, keep, i, j);
    } else {
      n := |Filter(init, keep)|;
      InFilter(init, keep, rows[i]);
      m :| 0 <= m < n && Filter(init, keep)[m] == rows[i];
    }
  }

  lemma PruneKeepsRepeats(rows: seq<PeerRow>, iface: string, keys: set<string>)
    ensures OneRowEach(Filter(rows, Wanted(iface, keys)), iface, keys) <==> OneRowEach(rows, iface, keys)
  {
    var kept := Filter(rows, Wanted(iface, keys));
    if OneRowEach(rows, iface, keys) {
      FilterPairwise(rows, Wanted(iface, keys), (a: PeerRow, b: PeerRow) => Apart(a, b, iface, keys));
    } else {
      var i, j :| 0 <= i < j < |rows| && !Apart(rows[i], rows[j], iface, keys);
      var m, n := KeptInOrder(rows, Wanted(iface, keys), i, j);
      assert !Apart(kept[m], kept[n], iface, keys);
    }
  }

  lemma SettledRowsRepeat(before: seq<PeerRow>, after: seq<PeerRow>, iface: string, peers: seq<PeerSpec>)
    requires Settles(before, after, iface, peers)
    ensures OneRowEach(after, iface, Keys(peers)) <==> OneRowEach(before, iface, Keys(peers))
  {
    assert forall i :: 0 <= i < |before| ==> after[i].iface == before[i].iface && after[i].key == before[i].key;
    if OneRowEach(after, iface, Keys(peers)) {
      forall i, j | 0 <= i < j < |before| ensures Apart(before[i], before[j], iface, Keys(peers)) {
        assert Apart(after[i], after[j], iface, Keys(peers));
      }
    }
    if OneRowEach(before, iface, Keys(peers)) {
      forall i, j | 0 <= i < j < |after| ensures Apart(after[i], after[j], iface, Keys(peers)) {
        NewRowsDoNotRepeat(before, after, iface, peers, i, j);
      }
    }
  }

  lemma NewRowsDoNotRepeat(before: seq<PeerRow>, after: seq<PeerRow>, iface: string, peers: seq<PeerSpec>,
      i: nat, j: nat)
    requires Settles(before, after, iface, peers) && OneRowEach(before, iface, Keys(peers)) && i < j < |after|
    ensures Apart(after[i], after[j], iface, Keys(peers))
  {
    if j < |before| {
      assert Apart(before[i], before[j], iface, Keys(peers));
    } else if i < |before| {
      assert FirstHit(before, iface, after[j].key).None?;
      assert !Hits(before[i], iface, after[j].key);
    }
  }

  /** An apply neither makes nor removes a second row of a desired key. */
  lemma RowsConvergeIff(t: Tables, spec: InterfaceSpec, peers: seq<PeerSpec>)
    ensures OneRowEach(Apply(t, spec, peers).peers, spec.name, Keys(peers))
        <==> OneRowEach(t.peers, spec.name, Keys(peers))
  {
    var mid := ApplyInterface(t, spec);
    var pruned := Prune(mid, spec.name, Keys(peers));
    InterfacePartLeavesPeers(t, spec);
    PruneKeepsRepeats(t.peers, spec.name, Keys(peers));
    UpsertAllSettles(pruned, spec.name, peers);
    SettledRowsRepeat(pruned.peers, UpsertAll(pruned, spec.name, peers).peers, spec.name, peers);
  }

  lemma InterfacePartLeavesPeers(t: Tables, spec: InterfaceSpec)
    ensures ApplyInterface(t, spec).peers == t.peers
  {
    var t1 := RouterApply.EnsureInterface(t, spec.name, spec.listenPort, spec.privateKey);
    ApplyInterfaceFrame(t, spec, t1, RouterApply.ReconcileAddresses(t1, spec.name, Strings.Cidrs(spec.address)));
  }

  /** A surplus row of a desired key is still there after an apply, exactly as it was. */
  lemma SurplusRowsStay(t: Tables, spec: InterfaceSpec, peers: seq<PeerSpec>, i: nat, j: nat)
    requires i < j < |t.peers| && t.peers[i].iface == spec.name && t.peers[i].key in Keys(peers)
    requires t.peers[j].iface == spec.name && t.peers[j].key == t.peers[i].key
    ensures var rows := Apply(t, spec, peers).peers;
            exists n :: 0 <= n < |rows| && rows[n] == t.peers[j]
              && FirstHit(rows, spec.name, t.peers[j].key) != Some(n)
  {
    var pruned := Prune(ApplyInterface(t, spec), spec.name, Keys(peers));
    InterfacePartLeavesPeers(t, spec);
    var m, n := KeptInOrder(t.peers, Wanted(spec.name, Keys(peers)), i, j);
    assert Hits(pruned.peers[m], spec.name, t.peers[j].key);
    DuplicatesStay(pruned, spec.name, peers, n);
    UpsertAllSettles(pruned, spec.name, peers);
    var rows := UpsertAll(pruned, spec.name, peers).peers;
    assert Hits(rows[m], spec.name, t.peers[j].key);
    assert rows[n] == t.peers[j];
  }

  /** The row carries what the last spec of its key says. */
  predicate AsSpecified(r: PeerRow, peers: seq<PeerSpec>) {
    && Some(r.address) == LastAddress(peers, r.key)
    && (LastPsk(peers, r.key).Some? ==> r.psk == LastPsk(peers, r.key))
  }

  /** The rows on the interface are exactly one row per desired key, each as specified. */
  ghost predicate ExactRows(rows: seq<PeerRow>, iface: string, peers: seq<PeerSpec>) {
    && (forall i :: 0 <= i < |rows| && rows[i].iface == iface ==>
         rows[i].key in Keys(peers) && AsSpecified(rows[i], peers))
    && (forall k :: k in Keys(peers) ==> FirstHit(rows, iface, k).Some?)
    && OneRowEach(rows, iface, Keys(peers))
  }

  /** After an apply the interface's rows are exact if and only if no desired key had two rows before. */
  lemma RowsExactIff(t: Tables, spec: InterfaceSpec, peers: seq<PeerSpec>)
    ensures ExactRows(Apply(t, spec, peers).peers, spec.name, peers) <==> OneRowEach(t.peers, spec.name, Keys(peers))
  {
    RowsConvergeIff(t, spec, peers);
    ApplyConverges(t, spec, peers);
    var rows := Apply(t, spec, peers).peers;
    if OneRowEach(rows, spec.name, Keys(peers)) {
      forall i | 0 <= i < |rows| && rows[i].iface == spec.name
        ensures rows[i].key in Keys(peers) && AsSpecified(rows[i], peers)
      {
        OnlyRowIsFirst(rows, spec.name, Keys(peers), i);
        assert ShowsPeer(rows, spec.name, peers, rows[i].key);
      }
      forall k | k in Keys(peers) ensures FirstHit(rows, spec.name, k).Some? {
        assert ShowsPeer(rows, spec.name, peers, k);
      }
    }
  }

  lemma OnlyRowIsFirst(rows: seq<PeerRow>, iface: string, keys: set<string>, i: nat)
    requires OneRowEach(rows, iface, keys) && i < |rows| && rows[i].iface == iface && rows[i].key in keys
    ensures FirstHit(rows, iface, rows[i].key) == Some(i)
  {
    forall j | 0 <= j < i ensures !Hits(rows[j], iface, rows[i].key) {
      assert Apart(rows[j], rows[i], iface, keys);
    }
    FirstHitIs(rows, iface, rows[i].key, i);
  }

  // ---- What an apply adds to the address tables ----

  /** The row was there before, or is ours for the interface; IPv6 rows of ours are not advertised. */
  predicate KnownOrOurs(r: AddressRow, before: seq<AddressRow>, name: string, v6: bool) {
    || r in before
    || (r.iface == name && r.comment == "wg-vpng:" + name && r.advertise == (if v6 then Some(false) else None))
  }

  lemma {:induction false} AddedAreOurs(t: Tables, v6: bool, name: string, addresses: seq<string>, i: nat)
    requires i < |AddressTable(AddAddresses(t, v6, name, addresses), v6)|
    ensures KnownOrOurs(AddressTable(AddAddresses(t, v6, name, addresses), v6)[i], AddressTable(t, v6), name, v6)
  {
    if addresses != [] {
      var init := addresses[..|addresses| - 1];
      if i < |AddressTable(AddAddresses(t, v6, name, init), v6)| {
        AddedAreOurs(t, v6, name, init, i);
      }
    }
  }

  lemma FamilyAddsOurs(t: Tables, v6: bool, name: string, desired: seq<string>, i: nat)
    requires i < |AddressTable(ReconcileFamily(t, v6, name, desired), v6)|
    ensures KnownOrOurs(AddressTable(ReconcileFamily(t, v6, name, desired), v6)[i], AddressTable(t, v6), name, v6)
  {
    var dropped := DropStale(t, v6, name, Elems(desired));
    AddedAreOurs(dropped, v6, name, Missing(desired, OwnedAddresses(AddressTable(t, v6), name)), i);
    FilterMembers(AddressTable(t, v6), NotStale(name, Elems(desired)));
  }

  /** An apply adds no address rows but ours: with our comment, and in the IPv6 table not advertised. */
  lemma AddressRowsKnown(t: Tables, spec: InterfaceSpec, peers: seq<PeerSpec>)
    ensures var u := Apply(t, spec, peers);
            && (forall i :: 0 <= i < |u.ip4| ==> KnownOrOurs(u.ip4[i], t.ip4, spec.name, false))
            && (forall i :: 0 <= i < |u.ip6| ==> KnownOrOurs(u.ip6[i], t.ip6, spec.name, true))
  {
    var t1 := RouterApply.EnsureInterface(t, spec.name, spec.listenPort, spec.privateKey);
    var v4, v6 := OfFamily(Strings.Cidrs(spec.address), false), OfFamily(Strings.Cidrs(spec.address), true);
    var t2 := ReconcileFamily(t1, false, spec.name, v4);
    var u := Apply(t, spec, peers);
    FamilyFrame(t1, false, spec.name, v4);
    FamilyFrame(t2, true, spec.name, v6);
    ApplyPeersFrame(ApplyInterface(t, spec), spec.name, peers);
    forall i | 0 <= i < |u.ip4| ensures KnownOrOurs(u.ip4[i], t.ip4, spec.name, false) {
      FamilyAddsOurs(t1, false, spec.name, v4, i);
    }
    forall i | 0 <= i < |u.ip6| ensures KnownOrOurs(u.ip6[i], t.ip6, spec.name, true) {
      FamilyAddsOurs(t2, true, spec.name, v6, i);
    }
  }
}
