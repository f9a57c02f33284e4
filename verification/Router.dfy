/**
 The router as the client meets it: requests that list, create, change and delete rows.

 A request can fail.  A failed request may or may not have reached the router, so its
 effect is then either there or not.
 */
module Router {
  import opened RouterApply
  import opened RouterPeers
  import opened RouterTables
  import opened Sequences
  import opened Wrappers

  /** A request that answered took effect; one that failed may have. */
  ghost predicate Lossy(before: Tables, after: Tables, ok: bool, effect: Tables) {
    (after == effect || after == before) && (ok ==> after == effect)
  }

  ghost predicate Counted(before: nat, after: nat, ok: bool) {
    after == if ok then before else before + 1
  }

  class Device {
    var interfaces: seq<InterfaceRow>
    var peers: seq<PeerRow>
    var ip4: seq<AddressRow>
    var ip6: seq<AddressRow>
    var counter: nat
    ghost var lost: nat  // requests that got no answer

    constructor ()
      ensures Now() == Tables([], [], [], [], 0)
    {
      interfaces, peers, ip4, ip6, counter, lost := [], [], [], [], 0, 0;
    }

    function Now(): Tables
      reads this`interfaces, this`peers, this`ip4, this`ip6, this`counter
    {
      Tables(interfaces, peers, ip4, ip6, counter)
    }

    /** Takes the requested effect, unless the request got lost on the way. */
    method Deliver(effect: Tables) returns (ok: bool)
      modifies this
      ensures Lossy(old(Now()), Now(), ok, effect)
      ensures Counted(old(lost), lost, ok)
    {
      var reached: bool := *;
      ok := false;
      if reached {
        interfaces, peers, ip4, ip6, counter := effect.interfaces, effect.peers, effect.ip4, effect.ip6, effect.counter;
        ok := *;
      }
      lost := if ok then lost else lost + 1;
    }

    method CreateInterface(name: string, port: nat, key: string) returns (ok: bool)
      modifies this
      ensures Lossy(old(Now()), Now(), ok, PutInterface(old(Now()), name, port, key))
      ensures Counted(old(lost), lost, ok)
    {
      ok := Deliver(PutInterface(Now(), name, port, key));
    }

    method ChangeInterface(id: nat, name: string, port: nat, key: string) returns (ok: bool)
      modifies this
      ensures Lossy(old(Now()), Now(), ok, PatchInterface(old(Now()), id, name, port, key))
      ensures Counted(old(lost), lost, ok)
    {
      ok := Deliver(PatchInterface(Now(), id, name, port, key));
    }

    method RemoveInterface(id: nat) returns (ok: bool)
      modifies this
      ensures Lossy(old(Now()), Now(), ok, DeleteInterface(old(Now()), id))
      ensures Counted(old(lost), lost, ok)
    {
      ok := Deliver(DeleteInterface(Now(), id));
    }

    method CreatePeer(iface: string, key: string, address: string, psk: Option<string>) returns (ok: bool)
      modifies this
      ensures Lossy(old(Now()), Now(), ok, PutPeer(old(Now()), iface, key, address, psk))
      ensures Counted(old(lost), lost, ok)
    {
      ok := Deliver(PutPeer(Now(), iface, key, address, psk));
    }

    method ChangePeer(id: nat, iface: string, key: string, address: string, psk: Option<string>) returns (ok: bool)
      modifies this
      ensures Lossy(old(Now()), Now(), ok, PatchPeer(old(Now()), id, iface, key, address, psk))
      ensures Counted(old(lost), lost, ok)
    {
      ok := Deliver(PatchPeer(Now(), id, iface, key, address, psk));
    }

    method RemovePeer(id: nat) returns (ok: bool)
      modifies this
      ensures Lossy(old(Now()), Now(), ok, DeletePeer(old(Now()), id))
      ensures Counted(old(lost), lost, ok)
    {
      ok := Deliver(DeletePeer(Now(), id));
    }

    method CreateAddress(v6: bool, iface: string, comment: string, address: string) returns (ok: bool)
      modifies this
      ensures Lossy(old(Now()), Now(), ok, PutAddress(old(Now()), v6, iface, comment, address))
      ensures Counted(old(lost), lost, ok)
    {
      ok := Deliver(PutAddress(Now(), v6, iface, comment, address));
    }

    method RemoveAddress(v6: bool, id: nat) returns (ok: bool)
      modifies this
      ensures Lossy(old(Now()), Now(), ok, DeleteAddress(old(Now()), v6, id))
      ensures Counted(old(lost), lost, ok)
    {
      ok := Deliver(DeleteAddress(Now(), v6, id));
    }

    method Answer() returns (ok: bool)
      modifies this`lost
      ensures Counted(old(lost), lost, ok)
    {
      ok := *;
      lost := if ok then lost else lost + 1;
    }

    method ListInterfaces(name: string) returns (ok: bool, rows: seq<InterfaceRow>)
      modifies this`lost
      ensures Counted(old(lost), lost, ok)
      ensures ok ==> rows == Filter(interfaces, Named(name))
    {
      ok := Answer();
      rows := Filter(interfaces, Named(name));
    }

    method ListPeers(iface: string) returns (ok: bool, rows: seq<PeerRow>)
      modifies this`lost
      ensures Counted(old(lost), lost, ok)
      ensures ok ==> rows == Filter(peers, OnInterface(iface))
    {
      ok := Answer();
      rows := Filter(peers, OnInterface(iface));
    }

    method ListAddresses(v6: bool, iface: string) returns (ok: bool, rows: seq<AddressRow>)
      modifies this`lost
      ensures Counted(old(lost), lost, ok)
      ensures ok ==> rows == Filter(AddressTable(Now(), v6), AddressOn(iface))
    {
      ok := Answer();
      rows := Filter(AddressTable(Now(), v6), AddressOn(iface));
    }
  }
}
