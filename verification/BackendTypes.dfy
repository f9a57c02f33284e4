/** The desired state every backend is handed: the interface and its full peer list. */
module BackendTypes {
  import opened Wrappers

  datatype InterfaceSpec = InterfaceSpec(name: string, listenPort: nat, address: string, privateKey: string)

  datatype PeerSpec = PeerSpec(publicKey: string, address: string, presharedKey: Option<string>)

  function Keys(peers: seq<PeerSpec>): set<string> {
    set i | 0 <= i < |peers| :: peers[i].publicKey
  }

  lemma KeysAppend(peers: seq<PeerSpec>, p: PeerSpec)
    ensures Keys(peers + [p]) == Keys(peers) + {p.publicKey}
  {
    var longer := peers + [p];
    assert forall i :: 0 <= i < |peers| ==> longer[i] == peers[i];
    assert longer[|peers|] == p;
  }
}
