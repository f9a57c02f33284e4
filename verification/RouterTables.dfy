/**
 The router: tables of rows with an internal id, kept in insertion order, as served by
 the stand-in for the RouterOS REST interface (tests/fake-mikrotik.py).
 */
module RouterTables {
  import opened Sequences
  import opened Wrappers

  datatype InterfaceRow = InterfaceRow(id: nat, name: string, port: nat, privateKey: string, disabled: bool)
  datatype PeerRow = PeerRow(id: nat, iface: string, key: string, address: string, psk: Option<string>)
  datatype AddressRow = AddressRow(id: nat, iface: string, comment: string, address: string, advertise: Option<bool>)

  datatype Tables = Tables(
    interfaces: seq<InterfaceRow>,
    peers: seq<PeerRow>,
    ip4: seq<AddressRow>,
    ip6: seq<AddressRow>,
    counter: nat)

  function InterfaceId(): InterfaceRow -> nat {
    (r: InterfaceRow) => r.id
  }

  function PeerId(): PeerRow -> nat {
    (r: PeerRow) => r.id
  }

  function AddressId(): AddressRow -> nat {
    (r: AddressRow) => r.id
  }

  /** Ids are handed out once per row. */
  ghost predicate WellFormed(t: Tables) {
    && IdsValid(t.interfaces, InterfaceId(), t.counter)
    && IdsValid(t.peers, PeerId(), t.counter)
    && IdsValid(t.ip4, AddressId(), t.counter)
    && IdsValid(t.ip6, AddressId(), t.counter)
  }

  // ---- The requests, as functions on the tables ----

  function FreshId(t: Tables): nat {
    t.counter + 1
  }

  function PutInterface(t: Tables, name: string, port: nat, key: string): Tables {
    t.(interfaces := t.interfaces + [InterfaceRow(FreshId(t), name, port, key, false)], counter := FreshId(t))
  }

  function SetInterface(rows: seq<InterfaceRow>, id: nat, name: string, port: nat, key: string): seq<InterfaceRow> {
    seq(|rows|, i requires 0 <= i < |rows| =>
      if rows[i].id == id then InterfaceRow(id, name, port, key, false) else rows[i])
  }

  /** A patch of an id that is not there creates the row, as the stand-in does. */
  function PatchInterface(t: Tables, id: nat, name: string, port: nat, key: string): Tables {
    if exists i :: 0 <= i < |t.interfaces| && t.interfaces[i].id == id
    then t.(interfaces := SetInterface(t.interfaces, id, name, port, key))
    else t.(interfaces := t.interfaces + [InterfaceRow(id, name, port, key, false)])
  }

  function DeleteInterface(t: Tables, id: nat): Tables {
    t.(interfaces := Filter(t.interfaces, (r: InterfaceRow) => r.id != id))
  }

  function PutPeer(t: Tables, iface: string, key: string, address: string, psk: Option<string>): Tables {
    t.(peers := t.peers + [PeerRow(FreshId(t), iface, key, address, psk)], counter := FreshId(t))
  }

  /** A body without a preshared key leaves the stored one alone. */
  function Patched(r: PeerRow, iface: string, key: string, address: string, psk: Option<string>): PeerRow {
    PeerRow(r.id, iface, key, address, if psk.Some? then psk else r.psk)
  }

  function SetPeer(rows: seq<PeerRow>, id: nat, iface: string, key: string, address: string,
      psk: Option<string>): seq<PeerRow> {
    seq(|rows|, i requires 0 <= i < |rows| =>
      if rows[i].id == id then Patched(rows[i], iface, key, address, psk) else rows[i])
  }

  function PatchPeer(t: Tables, id: nat, iface: string, key: string, address: string, psk: Option<string>): Tables {
    if exists i :: 0 <= i < |t.peers| && t.peers[i].id == id
    then t.(peers := SetPeer(t.peers, id, iface, key, address, psk))
    else t.(peers := t.peers + [PeerRow(id, iface, key, address, psk)])
  }

  function DeletePeer(t: Tables, id: nat): Tables {
    t.(peers := Filter(t.peers, (r: PeerRow) => r.id != id))
  }

  function AddressTable(t: Tables, v6: bool): seq<AddressRow> {
    if v6 then t.ip6 else t.ip4
  }

  function WithAddressTable(t: Tables, v6: bool, rows: seq<AddressRow>): Tables {
    if v6 then t.(ip6 := rows) else t.(ip4 := rows)
  }

  function NewAddress(id: nat, v6: bool, iface: string, comment: string, address: string): AddressRow {
    AddressRow(id, iface, comment, address, if v6 then Some(false) else None)
  }

  function PutAddress(t: Tables, v6: bool, iface: string, comment: string, address: string): Tables {
    WithAddressTable(t, v6, AddressTable(t, v6) + [NewAddress(FreshId(t), v6, iface, comment, address)])
      .(counter := FreshId(t))
  }

  function DeleteAddress(t: Tables, v6: bool, id: nat): Tables {
    WithAddressTable(t, v6, Filter(AddressTable(t, v6), (r: AddressRow) => r.id != id))
  }
}
