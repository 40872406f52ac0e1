/** The peer whitelist of server.py that `register_nodes` filters against. */
module Whitelist {
  const AUTHORIZED_PEERS: set<string> := {
    "127.0.0.1:5000",
    "127.0.0.1:5001",
    "127.0.0.1:5002",
    "localhost:5000"
  }

  /**
    The network locations among `nodes` that are on the whitelist.
    `netlocOf` stands for `urlparse(node).netloc or urlparse(node).path`.
   */
  function Admitted(netlocOf: string -> string, nodes: seq<string>): set<string>
    decreases |nodes|
  {
    if nodes == [] then {}
    else
      var loc := netlocOf(nodes[|nodes| - 1]);
      Admitted(netlocOf, nodes[..|nodes| - 1]) + (if loc in AUTHORIZED_PEERS then {loc} else {})
  }

  /** A location is admitted exactly when it is whitelisted and one of the nodes has it. */
  lemma {:induction false} AdmittedMembers(netlocOf: string -> string, nodes: seq<string>, x: string)
    ensures x in Admitted(netlocOf, nodes) <==>
            x in AUTHORIZED_PEERS && exists i :: 0 <= i < |nodes| && netlocOf(nodes[i]) == x
    decreases |nodes|
  {
    if nodes != [] {
      var init := nodes[..|nodes| - 1];
      AdmittedMembers(netlocOf, init, x);
      if exists i :: 0 <= i < |init| && netlocOf(init[i]) == x {
        var i :| 0 <= i < |init| && netlocOf(init[i]) == x;
        assert nodes[i] == init[i];
      }
      if exists i :: 0 <= i < |nodes| && netlocOf(nodes[i]) == x {
        var i :| 0 <= i < |nodes| && netlocOf(nodes[i]) == x;
        if i < |init| { assert init[i] == nodes[i]; }
      }
    }
  }
}
