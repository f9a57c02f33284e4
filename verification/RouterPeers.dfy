/** The peer half of a full-state apply, as functions on the router's peer table. */
module RouterPeers {
  import opened BackendTypes
  import opened RouterTables
  import opened Sequences
  import opened Wrappers

  predicate Hits(r: PeerRow, iface: string, key: string) {
    r.iface == iface && r.key == key
  }

  function OnInterface(iface: string): PeerRow -> bool {
    (r: PeerRow) => r.iface == iface
  }

  function OffInterface(iface: string): PeerRow -> bool {
    (r: PeerRow) => r.iface != iface
  }

  /** Rows that survive the removal of what is no longer wanted on `iface`. */
  function Wanted(iface: string, keys: set<string>): PeerRow -> bool {
    (r: PeerRow) => r.iface != iface || r.key in keys
  }

  function HitBy(iface: string, key: string): PeerRow -> bool {
    (r: PeerRow) => Hits(r, iface, key)
  }

  /** The row a lookup by public key finds: the first one on the interface that has it. */
  function FirstHit(rows: seq<PeerRow>, iface: string, key: string): (r: Option<nat>)
    ensures r.Some? ==> r.value < |rows| && Hits(rows[r.value], iface, key)
    ensures r.Some? ==> forall j :: 0 <= j < r.value ==> !Hits(rows[j], iface, key)
    ensures r.None? ==> forall j :: 0 <= j < |rows| ==> !Hits(rows[j], iface, key)
  {
    First(rows, HitBy(iface, key))
  }

  // ---- Add or update one peer ----

  function Upsert(t: Tables, iface: string, p: PeerSpec): Tables {
    var hit := FirstHit(t.peers, iface, p.publicKey);
    if hit.Some?
    then t.(peers := t.peers[hit.value := Patched(t.peers[hit.value], iface, p.publicKey, p.address, p.presharedKey)])
    else PutPeer(t, iface, p.publicKey, p.address, p.presharedKey)
  }

  function UpsertAll(t: Tables, iface: string, peers: seq<PeerSpec>): Tables {
    if peers == [] then t
    else Upsert(UpsertAll(t, iface, peers[..|peers| - 1]), iface, peers[|peers| - 1])
  }

  /** The address of the last desired spec with that key. */
  function LastAddress(peers: seq<PeerSpec>, key: string): Option<string> {
    if peers == [] then None
    else if peers[|peers| - 1].publicKey == key then Some(peers[|peers| - 1].address)
    else LastAddress(peers[..|peers| - 1], key)
  }

  /** The preshared key of the last desired spec with that key that supplies one. */
  function LastPsk(peers: seq<PeerSpec>, key: string): Option<string> {
    if peers == [] then None
    else if peers[|peers| - 1].publicKey == key && peers[|peers| - 1].presharedKey.Some?
      then peers[|peers| - 1].presharedKey
    else LastPsk(peers[..|peers| - 1], key)
  }

  lemma {:induction false} LastAddressKnown(peers: seq<PeerSpec>, key: string)
    ensures LastAddress(peers, key).Some? <==> key in Keys(peers)
  {
    if peers != [] {
      var init := peers[..|peers| - 1];
      LastAddressKnown(init, key);
      KeysAppend(init, peers[|peers| - 1]);
      assert peers == init + [peers[|peers| - 1]];
    }
  }

  /** What the first row of a desired key ends up as. */
  function Settled(r: PeerRow, peers: seq<PeerSpec>): PeerRow {
    var psk := LastPsk(peers, r.key);
    match LastAddress(peers, r.key)
    case Some(a) => r.(address := a, psk := if psk.Some? then psk else r.psk)
    case None => r
  }

  /** The first row of each desired key is settled, every other row is as before. */
  ghost predicate OldRowsSettled(before: seq<PeerRow>, after: seq<PeerRow>, iface: string, peers: seq<PeerSpec>) {
    && |before| <= |after|
    && forall i :: 0 <= i < |before| ==>
      after[i] == if FirstHit(before, iface, before[i].key) == Some(i) then Settled(before[i], peers) else before[i]
  }

  /** A row was added only for a desired key that had none, once per key. */
  ghost predicate NewRowsSettled(before: seq<PeerRow>, after: seq<PeerRow>, iface: string, peers: seq<PeerSpec>) {
    && |before| <= |after|
    && (forall i :: |before| <= i < |after| ==>
      && after[i].iface == iface
      && FirstHit(before, iface, after[i].key).None?
      && LastAddress(peers, after[i].key) == Some(after[i].address)
      && LastPsk(peers, after[i].key) == after[i].psk)
    && forall i, j :: |before| <= i < j < |after| ==> after[i].key != after[j].key
  }

  ghost predicate AllFound(rows: seq<PeerRow>, iface: string, keys: set<string>) {
    forall k :: k in keys ==> FirstHit(rows, iface, k).Some?
  }

  ghost predicate Settles(before: seq<PeerRow>, after: seq<PeerRow>, iface: string, peers: seq<PeerSpec>) {
    && OldRowsSettled(before, after, iface, peers)
    && NewRowsSettled(before, after, iface, peers)
    && AllFound(after, iface, Keys(peers))
  }

  lemma FirstHitIs(rows: seq<PeerRow>, iface: string, key: string, i: nat)
    requires i < |rows| && Hits(rows[i], iface, key)
    requires forall j :: 0 <= j < i ==> !Hits(rows[j], iface, key)
    ensures FirstHit(rows, iface, key) == Some(i)
  {
  }

  /** The first hit stays where it was; only keys without one get a new row. */
  lemma FirstHitKept(before: seq<PeerRow>, after: seq<PeerRow>, iface: string, peers: seq<PeerSpec>, key: string)
    requires Settles(before, after, iface, peers)
    ensures FirstHit(before, iface, key).Some? ==> FirstHit(after, iface, key) == FirstHit(before, iface, key)
    ensures FirstHit(before, iface, key).None? && FirstHit(after, iface, key).Some?
        ==> FirstHit(after, iface, key).value >= |before|
  {
    var hit := FirstHit(before, iface, key);
    if hit.Some? {
      FirstHitIs(after, iface, key, hit.value);
    }
  }

  lemma {:induction false} NoPskWithoutSpec(peers: seq<PeerSpec>, key: string)
    requires key !in Keys(peers)
    ensures LastPsk(peers, key).None?
  {
    if peers != [] {
      var init := peers[..|peers| - 1];
      KeysAppend(init, peers[|peers| - 1]);
      assert peers == init + [peers[|peers| - 1]];
      NoPskWithoutSpec(init, key);
    }
  }

  lemma SpecAppended(r: PeerRow, peers: seq<PeerSpec>, p: PeerSpec)
    ensures r.key != p.publicKey ==> Settled(r, peers + [p]) == Settled(r, peers)
    ensures r.key == p.publicKey ==>
      Settled(r, peers + [p]) == Patched(Settled(r, peers), r.iface, p.publicKey, p.address, p.presharedKey)
    ensures LastAddress(peers + [p], r.key) == if r.key == p.publicKey then Some(p.address)
        else LastAddress(peers, r.key)
    ensures LastPsk(peers + [p], r.key) ==
      if r.key == p.publicKey && p.presharedKey.Some? then p.presharedKey else LastPsk(peers, r.key)
  {
    var all := peers + [p];
    assert all[..|all| - 1] == peers;
    LastAddressKnown(peers, r.key);
    if r.key !in Keys(peers) {
      NoPskWithoutSpec(peers, r.key);
    }
  }

  lemma PatchOldRows(before: seq<PeerRow>, after: seq<PeerRow>, iface: string, peers: seq<PeerSpec>,
      p: PeerSpec, h: nat)
    requires Settles(before, after, iface, peers)
    requires FirstHit(after, iface, p.publicKey) == Some(h)
    ensures OldRowsSettled(before, after[h := Patched(after[h], iface, p.publicKey, p.address, p.presharedKey)], iface,
        peers + [p])
  {
    FirstHitKept(before, after, iface, peers, p.publicKey);
    forall i | 0 <= i < |before| {
      SpecAppended(before[i], peers, p);
    }
  }

  lemma PatchNewRows(before: seq<PeerRow>, after: seq<PeerRow>, iface: string, peers: seq<PeerSpec>,
      p: PeerSpec, h: nat)
    requires Settles(before, after, iface, peers)
    requires FirstHit(after, iface, p.publicKey) == Some(h)
    ensures NewRowsSettled(before, after[h := Patched(after[h], iface, p.publicKey, p.address, p.presharedKey)], iface,
        peers + [p])
  {
    var done := after[h := Patched(after[h], iface, p.publicKey, p.address, p.presharedKey)];
    FirstHitKept(before, after, iface, peers, p.publicKey);
    forall i | |before| <= i < |after|
      ensures done[i].key == after[i].key && done[i].iface == iface
      ensures LastAddress(peers + [p], done[i].key) == Some(done[i].address)
          && LastPsk(peers + [p], done[i].key) == done[i].psk
    {
      SpecAppended(after[i], peers, p);
      if after[i].key == p.publicKey {
        assert Hits(after[i], iface, p.publicKey);
        assert i == h;
      }
    }
  }

  lemma StillFound(rows: seq<PeerRow>, rows': seq<PeerRow>, iface: string, peers: seq<PeerSpec>, p: PeerSpec)
    requires AllFound(rows, iface, Keys(peers))
    requires |rows| <= |rows'|
    requires forall i :: 0 <= i < |rows| ==> rows'[i].iface == rows[i].iface && rows'[i].key == rows[i].key
    requires exists i :: 0 <= i < |rows'| && Hits(rows'[i], iface, p.publicKey)
    ensures AllFound(rows', iface, Keys(peers + [p]))
  {
    KeysAppend(peers, p);
    forall k | k in Keys(peers + [p]) ensures FirstHit(rows', iface, k).Some? {
      if k != p.publicKey {
        assert Hits(rows'[FirstHit(rows, iface, k).value], iface, k);
      }
    }
  }

  lemma AppendRow(before: seq<PeerRow>, after: seq<PeerRow>, iface: string, peers: seq<PeerSpec>, p: PeerSpec,
      row: PeerRow)
    requires Settles(before, after, iface, peers)
    requires FirstHit(after, iface, p.publicKey).None?
    requires row == PeerRow(row.id, iface, p.publicKey, p.address, p.presharedKey)
    ensures OldRowsSettled(before, after + [row], iface, peers + [p])
    ensures NewRowsSettled(before, after + [row], iface, peers + [p])
  {
    FirstHitKept(before, after, iface, peers, p.publicKey);
    assert p.publicKey !in Keys(peers);
    NoPskWithoutSpec(peers, p.publicKey);
    forall i | 0 <= i < |before| {
      SpecAppended(before[i], peers, p);
    }
    forall i | |before| <= i < |after| + 1 {
      SpecAppended((after + [row])[i], peers, p);
    }
  }

  lemma UpsertSettles(before: seq<PeerRow>, t: Tables, iface: string, peers: seq<PeerSpec>, p: PeerSpec)
    requires Settles(before, t.peers, iface, peers)
    ensures Settles(before, Upsert(t, iface, p).peers, iface, peers + [p])
  {
    var hit := FirstHit(t.peers, iface, p.publicKey);
    var after := Upsert(t, iface, p).peers;
    if hit.Some? {
      PatchOldRows(before, t.peers, iface, peers, p, hit.value);
      PatchNewRows(before, t.peers, iface, peers, p, hit.value);
      assert Hits(after[hit.value], iface, p.publicKey);
    } else {
      AppendRow(before, t.peers, iface, peers, p, after[|t.peers|]);
      assert Hits(after[|t.peers|], iface, p.publicKey);
    }
    StillFound(t.peers, after, iface, peers, p);
  }

  /** The upsert loop touches the peer table only and uses one id for each row it adds. */
  lemma {:induction false} UpsertAllFrame(t: Tables, iface: string, peers: seq<PeerSpec>)
    ensures var u := UpsertAll(t, iface, peers);
            u == t.(peers := u.peers, counter := u.counter)
            && u.counter - t.counter == |u.peers| - |t.peers|
  {
    if peers != [] {
      UpsertAllFrame(t, iface, peers[..|peers| - 1]);
    }
  }

  /** The whole upsert loop, row by row, from any peer table. */
  lemma NothingToSettle(rows: seq<PeerRow>, iface: string)
    ensures Settles(rows, rows, iface, [])
  {
    assert forall i :: 0 <= i < |rows| ==> Settled(rows[i], []) == rows[i];
  }

  lemma {:induction false} UpsertAllSettles(t: Tables, iface: string, peers: seq<PeerSpec>)
    ensures Settles(t.peers, UpsertAll(t, iface, peers).peers, iface, peers)
  {
    if peers == [] {
      NothingToSettle(t.peers, iface);
    } else {
      var init, last := peers[..|peers| - 1], peers[|peers| - 1];
      UpsertAllSettles(t, iface, init);
      UpsertSettles(t.peers, UpsertAll(t, iface, init), iface, init, last);
      assert peers == init + [last];
    }
  }
}
