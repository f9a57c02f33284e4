/** Several interfaces on one router: applying one leaves what the others show. */
module SharedRouter {
  import opened BackendTypes
  import opened EndToEnd
  import opened RouterTables
  import opened Sequences
  import opened Store
  import RouterApply
  import RouterPeers

  /** The interfaces applied to the router in turn. */
  function ApplyEach(t: Tables, db: Db, ids: seq<Id>): Tables
    requires forall k :: 0 <= k < |ids| ==> ids[k] in db.interfaces
  {
    if ids == [] then t
    else
      var last := ids[|ids| - 1];
      RouterApply.Apply(ApplyEach(t, db, ids[..|ids| - 1]), SpecOf(db.interfaces[last]), DesiredFor(db, last).peers)
  }

  /** The first row found among the kept ones is the first row of the whole table. */
  lemma SameFirst<T>(a: seq<T>, b: seq<T>, keep: T -> bool, sel: T -> bool)
    requires Filter(a, keep) == Filter(b, keep)
    requires forall i :: 0 <= i < |a| && sel(a[i]) ==> keep(a[i])
    requires forall i :: 0 <= i < |b| && sel(b[i]) ==> keep(b[i])
    ensures First(a, sel).Some? <==> First(b, sel).Some?
    ensures First(a, sel).Some? ==> a[First(a, sel).value] == b[First(b, sel).value]
  {
    FirstInFilter(a, keep, sel);
    FirstInFilter(b, keep, sel);
  }

  lemma OwnedKept(a: seq<AddressRow>, b: seq<AddressRow>, name: string, other: string)
    requires name != other && Filter(a, RouterApply.NotOwned(other)) == Filter(b, RouterApply.NotOwned(other))
    ensures RouterApply.OwnedAddresses(a, name) <= RouterApply.OwnedAddresses(b, name)
  {
    forall x | x in RouterApply.OwnedAddresses(a, name) ensures x in RouterApply.OwnedAddresses(b, name) {
      var i :| 0 <= i < |a| && RouterApply.Owned(a[i], name) && a[i].address == x;
      InFilter(a, RouterApply.NotOwned(other), a[i]);
      InFilter(b, RouterApply.NotOwned(other), a[i]);
      var j :| 0 <= j < |b| && b[j] == a[i];
    }
  }

  lemma AddressesStillShown(t: Tables, u: Tables, spec: InterfaceSpec, other: string)
    requires RouterApply.OthersKept(t, u, other) && spec.name != other
    requires RouterApply.ShowsAddresses(t.ip4, t.ip6, spec)
    ensures RouterApply.ShowsAddresses(u.ip4, u.ip6, spec)
  {
    RouterApply.ShowsOwned(t.ip4, t.ip6, spec);
    RouterApply.ShowsOwned(u.ip4, u.ip6, spec);
    OwnedKept(t.ip4, u.ip4, spec.name, other);
    OwnedKept(u.ip4, t.ip4, spec.name, other);
    OwnedKept(t.ip6, u.ip6, spec.name, other);
    OwnedKept(u.ip6, t.ip6, spec.name, other);
  }

  lemma PeersStillShown(t: seq<PeerRow>, u: seq<PeerRow>, name: string, peers: seq<PeerSpec>, other: string)
    requires Filter(t, RouterPeers.OffInterface(other)) == Filter(u, RouterPeers.OffInterface(other)) && name != other
    requires RouterApply.ShowsPeers(t, name, peers)
    ensures RouterApply.ShowsPeers(u, name, peers)
  {
    forall k | k in Keys(peers) ensures RouterApply.ShowsPeer(u, name, peers, k) {
      assert RouterApply.ShowsPeer(t, name, peers, k);
      SameFirst(t, u, RouterPeers.OffInterface(other), RouterPeers.HitBy(name, k));
    }
    forall i | 0 <= i < |u| && u[i].iface == name ensures u[i].key in Keys(peers) {
      InFilter(u, RouterPeers.OffInterface(other), u[i]);
      InFilter(t, RouterPeers.OffInterface(other), u[i]);
      var j :| 0 <= j < |t| && t[j] == u[i];
    }
  }

  /** What is shown for one interface stays shown while another is applied. */
  lemma StillShown(t: Tables, u: Tables, spec: InterfaceSpec, peers: seq<PeerSpec>, other: string)
    requires RouterApply.OthersKept(t, u, other) && spec.name != other
    requires RouterApply.Shows(t, spec, peers)
    ensures RouterApply.Shows(u, spec, peers)
  {
    SameFirst(t.interfaces, u.interfaces, RouterApply.OtherName(other), RouterApply.Named(spec.name));
    AddressesStillShown(t, u, spec, other);
    PeersStillShown(t.peers, u.peers, spec.name, peers, other);
  }

  /**
   Interfaces that share a router, whatever it held: once each has been applied, the
   router shows the desired state of all of them.
   */
  lemma {:induction false} SharedRouterShowsAll(t: Tables, db: Db, ids: seq<Id>, k: nat)
    requires ValidDb(db) && forall m :: 0 <= m < |ids| ==> ids[m] in db.interfaces
    requires k < |ids|
    ensures RouterApply.Shows(ApplyEach(t, db, ids), SpecOf(db.interfaces[ids[k]]), DesiredFor(db, ids[k]).peers)
  {
    var init, last := ids[..|ids| - 1], ids[|ids| - 1];
    var before := ApplyEach(t, db, init);
    if ids[k] == last {
      RouterApply.ApplyConverges(before, SpecOf(db.interfaces[last]), DesiredFor(db, last).peers);
    } else {
      assert init[k] == ids[k];
      SharedRouterShowsAll(t, db, init, k);
      assert db.interfaces[ids[k]].name != db.interfaces[last].name;
      RouterApply.ApplyKeepsOthers(before, SpecOf(db.interfaces[last]), DesiredFor(db, last).peers);
      StillShown(before, ApplyEach(t, db, ids), SpecOf(db.interfaces[ids[k]]), DesiredFor(db, ids[k]).peers,
          db.interfaces[last].name);
    }
  }

  /** So every active device of every interface is held by the router as stored. */
  lemma EveryActiveDeviceHeld(t: Tables, db: Db, ids: seq<Id>, k: nat, n: nat)
    requires ValidDb(db) && forall m :: 0 <= m < |ids| ==> ids[m] in db.interfaces
    requires k < |ids| && n < |ActivePeers(db, ids[k])|
    ensures HeldAs(ApplyEach(t, db, ids), db.interfaces[ids[k]].name, ActivePeers(db, ids[k])[n])
  {
    SharedRouterShowsAll(t, db, ids, k);
    ActiveKeysDistinct(db, ids[k]);
    EachHeld(ApplyEach(t, db, ids), SpecOf(db.interfaces[ids[k]]), ActivePeers(db, ids[k]));
  }
}
