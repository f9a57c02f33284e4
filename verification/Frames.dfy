/**
 Why interfaces a handler does not sync need no sync: their desired state, judged by
 the login facts of their last sync, is the same after the handler's write.
 */
module Frames {
  import opened Glob
  import opened Reconcile
  import opened Sequences
  import opened Store
  import opened Wrappers

  /** Every owner of a configured device on the interface was known at its last sync. */
  ghost predicate OwnersKnown(db: Db, i: Id, f: Facts) {
    forall k :: 0 <= k < |db.peers| && db.peers[k].interfaceId == i && db.peers[k].publicKey != ""
        && db.peers[k].userId.Some?
      ==> db.peers[k].userId.value in f.live
  }

  /** The same rows judged alike give the same wire list. */
  lemma {:induction false} SameWires(a: seq<Peer>, b: seq<Peer>, ka: Peer -> bool, kb: Peer -> bool)
    requires |a| == |b|
    requires forall k :: 0 <= k < |a| ==> ka(a[k]) == kb(b[k]) && (ka(a[k]) ==> Wire(a[k]) == Wire(b[k]))
    ensures Wires(Filter(a, ka)) == Wires(Filter(b, kb))
  {
    if a != [] {
      SameWires(a[..|a| - 1], b[..|b| - 1], ka, kb);
    }
  }

  /** Interface row and device rows as before, each device judged as before. */
  lemma SameDesired(d: Db, d': Db, i: Id)
    requires i in d.interfaces && i in d'.interfaces
    requires SpecOf(d.interfaces[i]) == SpecOf(d'.interfaces[i])
    requires |d.peers| == |d'.peers|
    requires forall k :: 0 <= k < |d.peers| ==>
      ActiveOn(d, i)(d.peers[k]) == ActiveOn(d', i)(d'.peers[k])
      && (ActiveOn(d, i)(d.peers[k]) ==> Wire(d.peers[k]) == Wire(d'.peers[k]))
    ensures DesiredFor(d, i) == DesiredFor(d', i)
  {
    SameWires(d.peers, d'.peers, ActiveOn(d, i), ActiveOn(d', i));
  }

  // ---- Groups ----

  /** A group the interface does not list has no say in who is admitted. */
  lemma UnlistedGroupIsIdle(groups: map<Id, Group>, groups': map<Id, Group>, g: Id, ids: seq<Id>, email: Text,
      claims: set<Text>)
    requires g !in ids
    requires groups - {g} == groups' - {g}
    ensures AccessGranted(groups, ids, email, claims) <==> AccessGranted(groups', ids, email, claims)
  {
    forall k | 0 <= k < |ids|
      ensures ids[k] in groups <==> ids[k] in groups'
      ensures ids[k] in groups ==> groups[ids[k]] == groups'[ids[k]]
    {
      assert ids[k] in groups - {g} <==> ids[k] in groups;
      assert ids[k] in groups' - {g} <==> ids[k] in groups';
      if ids[k] in groups {
        assert (groups - {g})[ids[k]] == (groups' - {g})[ids[k]];
      }
    }
  }

  /** Changing, creating or deleting a group leaves the devices of interfaces that do not list it alone. */
  lemma GroupFrame(db: Db, g: Id, groups': map<Id, Group>, i: Id)
    requires i in db.interfaces && g !in db.interfaces[i].groupIds
    requires db.groups - {g} == groups' - {g}
    ensures DesiredFor(db.(groups := groups'), i) == DesiredFor(db, i)
  {
    var db' := db.(groups := groups');
    forall k | 0 <= k < |db.peers| ensures ActiveOn(db, i)(db.peers[k]) == ActiveOn(db', i)(db.peers[k]) {
      var p := db.peers[k];
      if p.userId.Some? && p.userId.value in db.users {
        UnlistedGroupIsIdle(db.groups, groups', g, db.interfaces[i].groupIds,
          db.users[p.userId.value].email, ClaimGroups(db.claims, p.userId.value));
      }
    }
    SameDesired(db, db', i);
  }

  // ---- Devices ----

  /** A device is judged alike whatever other devices there are. */
  lemma JudgedAlike(db: Db, peers': seq<Peer>, i: Id, rows: seq<Peer>)
    requires i in db.interfaces
    ensures Filter(rows, ActiveOn(db.(peers := peers'), i)) == Filter(rows, ActiveOn(db, i))
  {
    FilterAgree(rows, ActiveOn(db.(peers := peers'), i), ActiveOn(db, i));
  }

  lemma InactiveAtEnd(rows: seq<Peer>, p: Peer, keep: Peer -> bool)
    requires !keep(p)
    ensures Filter(rows + [p], keep) == Filter(rows, keep)
  {
    assert (rows + [p])[..|rows|] == rows;
  }

  lemma AppendFrame(db: Db, p: Peer, i: Id)
    requires i in db.interfaces
    requires p.interfaceId != i || p.publicKey == ""
    ensures DesiredFor(db.(peers := db.peers + [p]), i) == DesiredFor(db, i)
  {
    JudgedAlike(db, db.peers + [p], i, db.peers + [p]);
    InactiveAtEnd(db.peers, p, ActiveOn(db, i));
  }

  lemma RemovalFrame(db: Db, keep: Peer -> bool, i: Id)
    requires i in db.interfaces
    requires forall k :: 0 <= k < |db.peers| && db.peers[k].interfaceId == i ==> keep(db.peers[k])
    ensures DesiredFor(db.(peers := Filter(db.peers, keep)), i) == DesiredFor(db, i)
  {
    JudgedAlike(db, Filter(db.peers, keep), i, Filter(db.peers, keep));
    FilterTwice(db.peers, keep, ActiveOn(db, i));
  }

  /** Only the row with the id changes, and either its wire form stays or it is on another interface. */
  lemma RevisionFrame(db: Db, id: Id, k: nat, p': Peer, i: Id)
    requires i in db.interfaces && PeersUnique(db.peers)
    requires k < |db.peers| && db.peers[k].id == id
    requires p'.interfaceId == db.peers[k].interfaceId
    requires p'.interfaceId != i || (Wire(p') == Wire(db.peers[k]) && p'.userId == db.peers[k].userId)
    ensures DesiredFor(db.(peers := Revised(db.peers, id, p')), i) == DesiredFor(db, i)
  {
    var db' := db.(peers := Revised(db.peers, id, p'));
    forall j | 0 <= j < |db.peers| && j != k ensures db'.peers[j] == db.peers[j] {
      assert PeersApart(db.peers[if j < k then j else k], db.peers[if j < k then k else j]);
    }
    SameDesired(db, db', i);
  }

  // ---- All handlers ----

  lemma InterfaceFrame(db: Db, id: Id, row: Interface, order': seq<Id>, i: Id)
    requires i in db.interfaces && i != id
    ensures DesiredFor(db.(interfaces := db.interfaces[id := row], order := order'), i) == DesiredFor(db, i)
  {
    SameDesired(db, db.(interfaces := db.interfaces[id := row], order := order'), i);
  }

  lemma DeleteInterfaceFrame(db: Db, id: Id, i: Id, order': seq<Id>)
    requires i in db.interfaces && i != id
    ensures DesiredFor(db.(interfaces := db.interfaces - {id}, order := order',
        peers := Filter(db.peers, NotOn(id))), i)
         == DesiredFor(db, i)
  {
    var smaller := db.(peers := Filter(db.peers, NotOn(id)));
    RemovalFrame(db, NotOn(id), i);
    SameDesired(smaller, smaller.(interfaces := db.interfaces - {id}, order := order'), i);
  }

  lemma NewUserFrame(db: Db, id: Id, u: User, f: Facts, i: Id)
    requires i in db.interfaces && ForeignKeys(db) && id !in db.users
    ensures DesiredFor(AsOf(SetUser(db, id, u), f), i) == DesiredFor(AsOf(db, f), i)
  {
    var d, d' := AsOf(db, f), AsOf(SetUser(db, id, u), f);
    forall k | 0 <= k < |db.peers| ensures ActiveOn(d, i)(db.peers[k]) == ActiveOn(d', i)(db.peers[k]) {
      var p := db.peers[k];
      if p.userId.Some? {
        assert p.userId.value in db.users;
        assert d.users[p.userId.value] == d'.users[p.userId.value];
      }
    }
    SameDesired(d, d', i);
  }

  /** Logins and time change nothing that is judged by earlier login facts. */
  lemma LoginFrame(db: Db, id: Id, until: Option<nat>, claims: map<(Id, Text), seq<Text>>, clock: nat, f: Facts, i: Id)
    requires i in db.interfaces && id in db.users
    requires OwnersKnown(db, i, f)
    ensures DesiredFor(AsOf(SetUser(db.(claims := claims, clock := clock), id,
        db.users[id].(liveUntil := until)), f), i)
         == DesiredFor(AsOf(db, f), i)
  {
    var d, d' := AsOf(db, f),
        AsOf(SetUser(db.(claims := claims, clock := clock), id, db.users[id].(liveUntil := until)), f);
    forall k | 0 <= k < |db.peers| ensures ActiveOn(d, i)(db.peers[k]) == ActiveOn(d', i)(db.peers[k]) {
      var p := db.peers[k];
      if p.interfaceId == i && p.publicKey != "" && p.userId.Some? {
        assert p.userId.value in f.live;
        if p.userId.value in db.users {
          assert d.users[p.userId.value] == d'.users[p.userId.value];
        }
      }
    }
    SameDesired(d, d', i);
  }
}
