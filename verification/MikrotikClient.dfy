/** The router client and the backend built on it, request by request. */
module MikrotikClient {
  import opened BackendTypes
  import opened Router
  import opened RouterApply
  import opened RouterPeers
  import opened RouterRequests
  import opened RouterTables
  import opened Sequences
  import opened Strings
  import opened Wrappers

  datatype Error = Transport | PeerNotFound(key: string)

  /** What holds after any call that concerns `iface`, also after one that failed half way. */
  ghost predicate Untouched(before: Tables, after: Tables, iface: string) {
    WellFormed(after) && OthersKept(before, after, iface)
  }

  class Client {
    const device: Device

    constructor (d: Device)
      ensures device == d
    {
      device := d;
    }

    method EnsureInterface(name: string, port: nat, key: string) returns (r: Result<(), Error>)
      requires WellFormed(device.Now())
      modifies device
      ensures Untouched(old(device.Now()), device.Now(), name)
      ensures match r
              case Ok(_) =>
                && device.lost == old(device.lost)
                && device.Now() == RouterApply.EnsureInterface(old(device.Now()), name, port, key)
              case Err(e) => e == Transport && device.lost > old(device.lost)
    {
      ghost var t := device.Now();
      var ok, listed := device.ListInterfaces(name);
      if !ok { return Err(Transport); }
      ListedFirst(t.interfaces, Named(name));
      EnsureKeepsIds(t, name, port, key);
      EnsureKeepsOthers(t, name, port, key);
      if listed != [] {
        PatchInterfaceIsEnsure(t, name, port, key);
        ok := device.ChangeInterface(listed[0].id, name, port, key);
      } else {
        ok := device.CreateInterface(name, port, key);
      }
      return if ok then Ok(()) else Err(Transport);
    }

    /** The id of the first peer with that key, if any. */
    method FindPeerId(iface: string, key: string) returns (r: Result<Option<nat>, Error>)
      modifies device`lost
      ensures r.Ok? ==> device.lost == old(device.lost)
      ensures r.Err? ==> device.lost > old(device.lost)
      ensures match r
              case Ok(id) => id == (var h := FirstHit(device.peers, iface, key);
                                    if h.Some? then Some(device.peers[h.value].id) else None)
              case Err(e) => e == Transport
    {
      var ok, listed := device.ListPeers(iface);
      if !ok { return Err(Transport); }
      for i := 0 to |listed|
        invariant forall j :: 0 <= j < i ==> listed[j].key != key
      {
        if listed[i].key == key {
          FoundInListing(device.peers, listed, iface, key, i);
          return Ok(Some(listed[i].id));
        }
      }
      MissingInListing(device.peers, listed, iface, key);
      return Ok(None);
    }

    method UpsertPeer(iface: string, p: PeerSpec) returns (r: Result<(), Error>)
      requires WellFormed(device.Now())
      modifies device
      ensures Untouched(old(device.Now()), device.Now(), iface)
      ensures match r
              case Ok(_) => device.lost == old(device.lost) && device.Now() == Upsert(old(device.Now()), iface, p)
              case Err(e) => e == Transport && device.lost > old(device.lost)
    {
      ghost var t := device.Now();
      UpsertKeepsIds(t, iface, p);
      UpsertKeepsOthers(t, iface, p);
      var found := FindPeerId(iface, p.publicKey);
      var ok: bool;
      match found {
        case Err(e) => return Err(e);
        case Ok(Some(id)) =>
          PatchPeerIsUpsert(t, FirstHit(t.peers, iface, p.publicKey).value, iface, p);
          ok := device.ChangePeer(id, iface, p.publicKey, p.address, p.presharedKey);
        case Ok(None) =>
          ok := device.CreatePeer(iface, p.publicKey, p.address, p.presharedKey);
      }
      return if ok then Ok(()) else Err(Transport);
    }

    /** Removes the first row with the key; it is an error when there is none. */
    method RemovePeer(iface: string, key: string) returns (r: Result<(), Error>)
      requires WellFormed(device.Now())
      modifies device
      ensures Untouched(old(device.Now()), device.Now(), iface)
      ensures var h := FirstHit(old(device.Now()).peers, iface, key);
              match r
              case Ok(_) =>
                && device.lost == old(device.lost)
                && h.Some?
                && device.Now() == old(device.Now()).(peers := Without(old(device.Now()).peers, h.value))
              case Err(Transport) => device.lost > old(device.lost)
              case Err(PeerNotFound(k)) =>
                k == key && h.None? && device.lost == old(device.lost) && device.Now() == old(device.Now())
    {
      ghost var t := device.Now();
      var found := FindPeerId(iface, key);
      match found {
        case Err(e) => return Err(e);
        case Ok(None) => return Err(PeerNotFound(key));
        case Ok(Some(id)) =>
          ghost var h := FirstHit(t.peers, iface, key).value;
          DeletesKeepIds(t, id, false);
          DeletePeerTakesOut(t, h);
          DeletePeerKeepsOthers(t, h, iface);
          var ok := device.RemovePeer(id);
          return if ok then Ok(()) else Err(Transport);
      }
    }

    /** Deletes our addresses that are no longer wanted, then adds the missing ones. */
    method ReconcileAddrFamily(v6: bool, iface: string, desired: seq<string>) returns (r: Result<(), Error>)
      requires WellFormed(device.Now())
      modifies device
      ensures Untouched(old(device.Now()), device.Now(), iface)
      ensures match r
              case Ok(_) =>
                && device.lost == old(device.lost)
                && device.Now() == ReconcileFamily(old(device.Now()), v6, iface, desired)
              case Err(e) => e == Transport && device.lost > old(device.lost)
    {
      ghost var t := device.Now();
      var ok, listed := device.ListAddresses(v6, iface);
      if !ok { return Err(Transport); }
      var owned := Filter(listed, IsOwned(iface));
      FilterTwice(AddressTable(t, v6), AddressOn(iface), IsOwned(iface));
      var want := set d | d in desired;
      var dropped := DropStaleAddresses(v6, iface, owned, want);
      if dropped.Err? { return dropped; }
      var have := set a | a in owned :: a.address;
      HaveIsOwned(AddressTable(t, v6), iface, owned, have);
      var added := AddMissingAddresses(v6, iface, desired, have);
      return added;
    }

    method DropStaleAddresses(v6: bool, iface: string, owned: seq<AddressRow>, want: set<string>)
        returns (r: Result<(), Error>)
      requires WellFormed(device.Now())
      requires owned == Filter(AddressTable(device.Now(), v6), IsOwned(iface))
      modifies device
      ensures Untouched(old(device.Now()), device.Now(), iface)
      ensures match r
              case Ok(_) =>
                && device.lost == old(device.lost)
                && device.Now() == DropStale(old(device.Now()), v6, iface, want)
              case Err(e) => e == Transport && device.lost > old(device.lost)
    {
      ghost var t := device.Now();
      ghost var done, rest: seq<AddressRow> := [], AddressTable(t, v6);
      AddressesSweptStart(t, v6, owned, iface, want);
      for n := 0 to |owned|
        invariant device.lost == old(device.lost)
        invariant Untouched(t, device.Now(), iface)
        invariant AddressesSwept(t, device.Now(), v6, done, rest, owned, n, iface, want)
      {
        ghost var u := device.Now();
        ghost var done', rest' := AddressesSweptStep(t, u, v6, done, rest, owned, n, iface, want);
        if owned[n].address !in want {
          var ok := device.RemoveAddress(v6, owned[n].id);
          if !ok { return Err(Transport); }
        }
        done, rest := done', rest';
      }
      AddressesSweptDone(t, device.Now(), v6, done, rest, owned, iface, want);
      return Ok(());
    }

    method AddMissingAddresses(v6: bool, iface: string, desired: seq<string>, have: set<string>)
        returns (r: Result<(), Error>)
      requires WellFormed(device.Now())
      modifies device
      ensures Untouched(old(device.Now()), device.Now(), iface)
      ensures match r
              case Ok(_) =>
                && device.lost == old(device.lost)
                && device.Now() == AddAddresses(old(device.Now()), v6, iface, Missing(desired, have))
              case Err(e) => e == Transport && device.lost > old(device.lost)
    {
      ghost var t := device.Now();
      for n := 0 to |desired|
        invariant device.lost == old(device.lost)
        invariant Untouched(t, device.Now(), iface)
        invariant device.Now() == AddAddresses(t, v6, iface, Missing(desired[..n], have))
      {
        assert desired[..n + 1][..n] == desired[..n];
        assert Missing(desired[..n], have) + [] == Missing(desired[..n], have);
        if desired[n] !in have {
          ghost var u := device.Now();
          PutAddressKeepsIds(u, v6, iface, Comment(iface), desired[n]);
          PutAddressKeepsOthers(u, v6, iface, desired[n]);
          AddOneMore(t, v6, iface, Missing(desired[..n], have), desired[n]);
          var ok := device.CreateAddress(v6, iface, Comment(iface), desired[n]);
          if !ok { return Err(Transport); }
        }
      }
      assert desired[..|desired|] == desired;
      return Ok(());
    }

    method ReconcileAddresses(iface: string, addresses: seq<string>) returns (r: Result<(), Error>)
      requires WellFormed(device.Now())
      modifies device
      ensures Untouched(old(device.Now()), device.Now(), iface)
      ensures match r
              case Ok(_) =>
                && device.lost == old(device.lost)
                && device.Now() == RouterApply.ReconcileAddresses(old(device.Now()), iface, addresses)
              case Err(e) => e == Transport && device.lost > old(device.lost)
    {
      ghost var t := device.Now();
      r := ReconcileAddrFamily(false, iface, OfFamily(addresses, false));
      if r.Err? { return; }
      ghost var t4 := device.Now();
      r := ReconcileAddrFamily(true, iface, OfFamily(addresses, true));
    }

    /** Removes the listed peers whose key is not wanted. The internal "not found" error cannot occur. */
    method RemoveStalePeers(iface: string, existing: seq<PeerRow>, wanted: set<string>) returns (r: Result<(), Error>)
      requires WellFormed(device.Now())
      requires existing == Filter(device.peers, OnInterface(iface))
      modifies device
      ensures Untouched(old(device.Now()), device.Now(), iface)
      ensures match r
              case Ok(_) => device.lost == old(device.lost) && device.Now() == Prune(old(device.Now()), iface, wanted)
              case Err(e) => e == Transport && device.lost > old(device.lost)
    {
      ghost var t := device.Now();
      ghost var done, rest: seq<PeerRow> := [], t.peers;
      PeersSweptStart(t, existing, iface, wanted);
      for n := 0 to |existing|
        invariant device.lost == old(device.lost)
        invariant Untouched(t, device.Now(), iface)
        invariant PeersSwept(t, device.Now(), done, rest, existing, n, iface, wanted)
      {
        ghost var u := device.Now();
        ghost var done', rest' := PeersSweptStep(t, u, done, rest, existing, n, iface, wanted);
        if existing[n].key !in wanted {
          var removed := RemovePeer(iface, existing[n].key);
          if removed.Err? { return removed; }
        }
        done, rest := done', rest';
      }
      PeersSweptDone(t, device.Now(), done, rest, existing, iface, wanted);
      return Ok(());
    }

    method UpsertPeers(iface: string, peers: seq<PeerSpec>) returns (r: Result<(), Error>)
      requires WellFormed(device.Now())
      modifies device
      ensures Untouched(old(device.Now()), device.Now(), iface)
      ensures match r
              case Ok(_) =>
                && device.lost == old(device.lost)
                && device.Now() == UpsertAll(old(device.Now()), iface, peers)
              case Err(e) => e == Transport && device.lost > old(device.lost)
    {
      ghost var t := device.Now();
      for n := 0 to |peers|
        invariant device.lost == old(device.lost)
        invariant Untouched(t, device.Now(), iface)
        invariant device.Now() == UpsertAll(t, iface, peers[..n])
      {
        ghost var u := device.Now();
        var done := UpsertPeer(iface, peers[n]);
        if done.Err? { return done; }
        assert peers[..n + 1][..n] == peers[..n];
      }
      assert peers[..|peers|] == peers;
      return Ok(());
    }

    /** The peer half of the apply: list, delete what is stale, add or update what is desired. */
    method ReconcilePeers(iface: string, peers: seq<PeerSpec>) returns (r: Result<(), Error>)
      requires WellFormed(device.Now())
      modifies device
      ensures Untouched(old(device.Now()), device.Now(), iface)
      ensures match r
              case Ok(_) =>
                && device.lost == old(device.lost)
                && device.Now() == ApplyPeers(old(device.Now()), iface, peers)
              case Err(e) => e == Transport && device.lost > old(device.lost)
    {
      ghost var t := device.Now();
      var ok, existing := device.ListPeers(iface);
      if !ok { return Err(Transport); }
      r := RemoveStalePeers(iface, existing, Keys(peers));
      if r.Err? { return; }
      ghost var pruned := device.Now();
      r := UpsertPeers(iface, peers);
    }

    /**
     The backend's full-state apply.  It succeeds exactly when every request is
     answered, and then the router is in the state `Apply` describes; a failure is a
     transport failure and leaves everybody else's rows alone.
     */
    method ApplyState(spec: InterfaceSpec, peers: seq<PeerSpec>) returns (r: Result<(), Error>)
      requires WellFormed(device.Now())
      modifies device
      ensures Untouched(old(device.Now()), device.Now(), spec.name)
      ensures match r
              case Ok(_) => device.lost == old(device.lost) && device.Now() == Apply(old(device.Now()), spec, peers)
              case Err(e) => e == Transport && device.lost > old(device.lost)
    {
      ghost var t := device.Now();
      r := EnsureInterface(spec.name, spec.listenPort, spec.privateKey);
      if r.Err? { return; }
      ghost var t1 := device.Now();
      r := ReconcileAddresses(spec.name, Cidrs(spec.address));
      if r.Err? { return; }
      ghost var t2 := device.Now();
      r := ReconcilePeers(spec.name, peers);
    }

    /**
     Tears the interface down.  Failures before the last two requests are swallowed, so
     success alone promises nothing; when every request is answered the rows are gone.
     */
    method RemoveInterface(name: string) returns (r: Result<(), Error>)
      requires WellFormed(device.Now())
      modifies device
      ensures Untouched(old(device.Now()), device.Now(), name)
      ensures device.lost == old(device.lost) ==> r.Ok? && device.Now() == Remove(old(device.Now()), name)
      ensures r.Err? ==> r.error == Transport
    {
      ghost var t := device.Now();
      var addresses := ReconcileAddresses(name, []);
      ghost var t1 := device.Now();
      ghost var lost1 := device.lost;
      var ok, listed := device.ListPeers(name);
      if !ok { return Err(Transport); }
      RemoveListedPeers(name, listed);
      ghost var t2 := device.Now();
      var rows;
      ok, rows := device.ListInterfaces(name);
      if !ok { return Err(Transport); }
      ListedFirst(t2.interfaces, Named(name));
      if rows != [] {
        DeletesKeepIds(t2, rows[0].id, false);
        DeleteInterfaceIsDrop(t2, name);
        DropKeepsOthers(t2, name);
        ok := device.RemoveInterface(rows[0].id);
        if !ok { return Err(Transport); }
      }
      return Ok(());
    }

    /** Removes every listed peer, ignoring failures. */
    method RemoveListedPeers(name: string, listed: seq<PeerRow>)
      requires WellFormed(device.Now())
      requires listed == Filter(device.peers, OnInterface(name))
      modifies device
      ensures Untouched(old(device.Now()), device.Now(), name)
      ensures device.lost >= old(device.lost)
      ensures device.lost == old(device.lost) ==> device.Now() == Prune(old(device.Now()), name, {})
    {
      ghost var t := device.Now();
      ghost var done, rest: seq<PeerRow> := [], t.peers;
      PeersSweptStart(t, listed, name, {});
      for n := 0 to |listed|
        invariant device.lost >= old(device.lost)
        invariant Untouched(t, device.Now(), name)
        invariant device.lost == old(device.lost) ==> PeersSwept(t, device.Now(), done, rest, listed, n, name, {})
      {
        ghost var u := device.Now();
        ghost var answered := device.lost == old(device.lost);
        ghost var done', rest' := done, rest;
        if answered {
          done', rest' := PeersSweptStep(t, u, done, rest, listed, n, name, {});
        }
        var _ := RemovePeer(name, listed[n].key);
        done, rest := done', rest';
      }
      if device.lost == old(device.lost) {
        PeersSweptDone(t, device.Now(), done, rest, listed, name, {});
      }
    }
  }

  lemma FoundInListing(rows: seq<PeerRow>, listed: seq<PeerRow>, iface: string, key: string, i: nat)
    requires listed == Filter(rows, OnInterface(iface))
    requires i < |listed| && listed[i].key == key
    requires forall j :: 0 <= j < i ==> listed[j].key != key
    ensures FirstHit(rows, iface, key).Some? && rows[FirstHit(rows, iface, key).value] == listed[i]
  {
    FilterMembers(rows, OnInterface(iface));
    FirstHitIs(listed, iface, key, i);
    FirstInFilter(rows, OnInterface(iface), HitBy(iface, key));
  }

  lemma MissingInListing(rows: seq<PeerRow>, listed: seq<PeerRow>, iface: string, key: string)
    requires listed == Filter(rows, OnInterface(iface))
    requires forall j :: 0 <= j < |listed| ==> listed[j].key != key
    ensures FirstHit(rows, iface, key).None?
  {
    FirstInFilter(rows, OnInterface(iface), HitBy(iface, key));
  }

  lemma HaveIsOwned(rows: seq<AddressRow>, iface: string, owned: seq<AddressRow>, have: set<string>)
    requires owned == Filter(rows, IsOwned(iface))
    requires have == set a | a in owned :: a.address
    ensures have == OwnedAddresses(rows, iface)
  {
    FilterMembers(rows, IsOwned(iface));
    forall i | 0 <= i < |rows| && Owned(rows[i], iface) ensures rows[i].address in have {
      assert IsOwned(iface)(rows[i]);
    }
    forall x | x in owned ensures x.address in OwnedAddresses(rows, iface) {
      var k :| 0 <= k < |owned| && owned[k] == x;
      assert IsOwned(iface)(owned[k]);
    }
  }

  lemma AddOneMore(t: Tables, v6: bool, iface: string, addresses: seq<string>, a: string)
    ensures AddAddresses(t, v6, iface, addresses + [a])
         == PutAddress(AddAddresses(t, v6, iface, addresses), v6, iface, Comment(iface), a)
  {
    var longer := addresses + [a];
    assert longer[..|longer| - 1] == addresses;
  }

  lemma StaleAddressGoes(t: Tables, u: Tables, v6: bool, at: nat, iface: string)
    requires WellFormed(u) && OthersKept(t, u, iface)
    requires at < |AddressTable(u, v6)| && Owned(AddressTable(u, v6)[at], iface)
    ensures var v := DeleteAddress(u, v6, AddressTable(u, v6)[at].id);
            && Untouched(t, v, iface)
            && v == WithAddressTable(u, v6, Without(AddressTable(u, v6), at))
  {
    var rows := AddressTable(u, v6);
    DeletesKeepIds(u, rows[at].id, v6);
    DeleteAddressTakesOut(u, v6, at);
    DeleteAddressKeepsOthers(u, v6, at, iface);
  }

  /**
   Why the lookup by key finds the very row the listing named: every earlier copy of a
   stale key has already been removed, so k copies go in exactly k rounds.
   */
  lemma StaleCopyIsFirst(kept: seq<PeerRow>, rest: seq<PeerRow>, iface: string, wanted: set<string>, i: nat)
    requires forall j :: 0 <= j < |kept| ==> kept[j].iface != iface || kept[j].key in wanted
    requires i < |rest| && rest[i].iface == iface && rest[i].key !in wanted
    requires forall j :: 0 <= j < i ==> rest[j].iface != iface
    ensures FirstHit(kept + rest, iface, rest[i].key) == Some(|kept| + i)
  {
    FirstHitIs(kept + rest, iface, rest[i].key, |kept| + i);
  }

  // ---- Both deletion loops, one listed row at a time ----

  /** `n` of the listed rows have been dealt with: those selected in `done`, the front part of the old table. */
  ghost predicate PeersSwept(t: Tables, u: Tables, done: seq<PeerRow>, rest: seq<PeerRow>, listed: seq<PeerRow>, n: nat,
                             iface: string, wanted: set<string>) {
    && u == t.(peers := u.peers)
    && done + rest == t.peers
    && n <= |listed|
    && Sweep(u.peers, done, rest, listed[n..], OnInterface(iface), Wanted(iface, wanted))
  }

  lemma PeersSweptStart(t: Tables, listed: seq<PeerRow>, iface: string, wanted: set<string>)
    requires listed == Filter(t.peers, OnInterface(iface))
    ensures PeersSwept(t, t, [], t.peers, listed, 0, iface, wanted)
  {
    assert listed[0..] == listed;
    assert [] + t.peers == t.peers;
  }

  lemma PeersSweptStep(t: Tables, u: Tables, done: seq<PeerRow>, rest: seq<PeerRow>, listed: seq<PeerRow>, n: nat,
                       iface: string, wanted: set<string>) returns (done': seq<PeerRow>, rest': seq<PeerRow>)
    requires PeersSwept(t, u, done, rest, listed, n, iface, wanted) && n < |listed|
    ensures listed[n].key in wanted ==> PeersSwept(t, u, done', rest', listed, n + 1, iface, wanted)
    ensures listed[n].key !in wanted ==>
      var h := FirstHit(u.peers, iface, listed[n].key);
      h.Some? && PeersSwept(t, u.(peers := Without(u.peers, h.value)), done', rest', listed, n + 1, iface, wanted)
  {
    var i := SweepStep(u.peers, done, rest, listed[n..], OnInterface(iface), Wanted(iface, wanted));
    done', rest' := done + rest[..i + 1], rest[i + 1..];
    assert done' + rest' == done + rest;
    assert listed[n..][1..] == listed[n + 1..];
    if listed[n].key !in wanted {
      FilterMembers(done, Wanted(iface, wanted));
      StaleCopyIsFirst(Filter(done, Wanted(iface, wanted)), rest, iface, wanted, i);
    }
  }

  lemma PeersSweptDone(t: Tables, u: Tables, done: seq<PeerRow>, rest: seq<PeerRow>, listed: seq<PeerRow>,
                       iface: string, wanted: set<string>)
    requires PeersSwept(t, u, done, rest, listed, |listed|, iface, wanted)
    ensures u == Prune(t, iface, wanted)
  {
    assert listed[|listed|..] == [];
    SweepDone(u.peers, done, rest, OnInterface(iface), Wanted(iface, wanted));
  }

  ghost predicate AddressesSwept(t: Tables, u: Tables, v6: bool, done: seq<AddressRow>, rest: seq<AddressRow>,
                                 listed: seq<AddressRow>, n: nat, iface: string, want: set<string>) {
    && u == WithAddressTable(t, v6, AddressTable(u, v6))
    && done + rest == AddressTable(t, v6)
    && n <= |listed|
    && Sweep(AddressTable(u, v6), done, rest, listed[n..], IsOwned(iface), NotStale(iface, want))
  }

  lemma AddressesSweptStart(t: Tables, v6: bool, listed: seq<AddressRow>, iface: string, want: set<string>)
    requires listed == Filter(AddressTable(t, v6), IsOwned(iface))
    ensures AddressesSwept(t, t, v6, [], AddressTable(t, v6), listed, 0, iface, want)
  {
    assert listed[0..] == listed;
    assert [] + AddressTable(t, v6) == AddressTable(t, v6);
  }

  lemma AddressesSweptMove(t: Tables, u: Tables, v6: bool, done: seq<AddressRow>, rest: seq<AddressRow>,
                           listed: seq<AddressRow>, n: nat, iface: string, want: set<string>)
    returns (done': seq<AddressRow>, rest': seq<AddressRow>, at: nat)
    requires AddressesSwept(t, u, v6, done, rest, listed, n, iface, want) && n < |listed|
    ensures at < |AddressTable(u, v6)| && AddressTable(u, v6)[at] == listed[n] && Owned(listed[n], iface)
    ensures listed[n].address in want ==> AddressesSwept(t, u, v6, done', rest', listed, n + 1, iface, want)
    ensures listed[n].address !in want ==>
      AddressesSwept(t, WithAddressTable(u, v6, Without(AddressTable(u, v6), at)), v6, done', rest', listed, n + 1,
          iface, want)
  {
    var i := SweepStep(AddressTable(u, v6), done, rest, listed[n..], IsOwned(iface), NotStale(iface, want));
    done', rest', at := done + rest[..i + 1], rest[i + 1..], |Filter(done, NotStale(iface, want))| + i;
    assert done' + rest' == done + rest;
    assert listed[n..][1..] == listed[n + 1..];
    assert IsOwned(iface)(rest[i]);
  }

  lemma AddressesSweptStep(t: Tables, u: Tables, v6: bool, done: seq<AddressRow>, rest: seq<AddressRow>,
                           listed: seq<AddressRow>, n: nat, iface: string, want: set<string>)
    returns (done': seq<AddressRow>, rest': seq<AddressRow>)
    requires Untouched(t, u, iface)
    requires AddressesSwept(t, u, v6, done, rest, listed, n, iface, want) && n < |listed|
    ensures listed[n].address in want ==> AddressesSwept(t, u, v6, done', rest', listed, n + 1, iface, want)
    ensures listed[n].address !in want ==>
      var v := DeleteAddress(u, v6, listed[n].id);
      Untouched(t, v, iface) && AddressesSwept(t, v, v6, done', rest', listed, n + 1, iface, want)
  {
    var at;
    done', rest', at := AddressesSweptMove(t, u, v6, done, rest, listed, n, iface, want);
    if listed[n].address !in want {
      StaleAddressGoes(t, u, v6, at, iface);
    }
  }

  lemma AddressesSweptDone(t: Tables, u: Tables, v6: bool, done: seq<AddressRow>, rest: seq<AddressRow>,
                           listed: seq<AddressRow>, iface: string, want: set<string>)
    requires AddressesSwept(t, u, v6, done, rest, listed, |listed|, iface, want)
    ensures u == DropStale(t, v6, iface, want)
  {
    assert listed[|listed|..] == [];
    SweepDone(AddressTable(u, v6), done, rest, IsOwned(iface), NotStale(iface, want));
  }
}
