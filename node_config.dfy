/** The per-server configuration record of config/src/node.rs. */
module NodeConfig {
  import opened Ints
  import opened Wrappers
  import opened Config

  datatype Node = Node(
    netMap: map<Replica, Addr>,
    delta: U64,
    id: Replica,
    numNodes: Usize,
    numFaults: Usize,
    blockSize: Usize,
    clientPort: U16,
    clientAddr: Addr,
    payload: Usize,
    protPayload: string,
    cryptoAlg: Algorithm,
    pkMap: map<Replica, Bytes>,
    secretKeyBytes: Bytes,
    skMap: map<Replica, Bytes>,
    myCert: Bytes,
    myCertKey: Bytes,
    rootCert: Bytes)

  /** `Node::new()`: everything empty or zero, the syncer at `0.0.0.0:5000`, `delta` 50. */
  function NewNode(): (n: Node)
    ensures n.netMap == map[] && n.skMap == map[] && n.pkMap == map[]
    ensures n.id == 0 && n.numNodes == 0 && n.numFaults == 0 && n.delta == 50
    ensures n.clientAddr == Addr(WILDCARD, 5000) && n.cryptoAlg == NOPKI
  {
    Node(map[], 50, 0, 0, 0, 0, 0, Addr(WILDCARD, 5000), 0, "", NOPKI, map[], [], map[], [], [], [])
  }

  /** One secret-key entry as the NOPKI branch of `validate` wants it. */
  predicate KeyEntryOk(node: Node, r: Replica, isValid: ReplicaCheck)
    requires r in node.skMap
  {
    isValid(r, node.numNodes) && |node.skMap[r]| == SECRET_KEY_SIZE
  }

  /** What `validate` accepts: n+1 addresses (the servers and the syncer), n > 2f, well-formed keys. */
  predicate NodeValid(node: Node, isValid: ReplicaCheck)
  {
    && |node.netMap| == node.numNodes + 1
    && 2 * node.numFaults < node.numNodes
    && forall r :: r in node.skMap ==> KeyEntryOk(node, r, isValid)
  }

  /**
   * `Node::validate`. The checks run in order and the first failing one is
   * reported; the secret keys are visited in the map's iteration order, which
   * the model leaves open, so an invalid entry is one of possibly several.
   */
  method Validate(node: Node, isValid: ReplicaCheck) returns (r: Outcome<ParseError>)
    ensures r.Pass? <==> NodeValid(node, isValid)
    ensures |node.netMap| != node.numNodes + 1 ==>
              r == Fail(InvalidMapLen(node.numNodes + 1, |node.netMap|))
    ensures |node.netMap| == node.numNodes + 1 && 2 * node.numFaults >= node.numNodes ==>
              r == Fail(IncorrectFaults(node.numFaults, node.numNodes))
    ensures r.Fail? && r.error.InvalidMapEntry? ==>
              r.error.replica in node.skMap && !isValid(r.error.replica, node.numNodes)
    ensures r.Fail? && r.error.InvalidPkSize? ==>
              exists k :: k in node.skMap && isValid(k, node.numNodes) &&
                |node.skMap[k]| == r.error.size != SECRET_KEY_SIZE
  {
    if |node.netMap| != node.numNodes + 1 {
      return Fail(InvalidMapLen(node.numNodes + 1, |node.netMap|));
    }
    if 2 * node.numFaults >= node.numNodes {
      return Fail(IncorrectFaults(node.numFaults, node.numNodes));
    }
    match node.cryptoAlg
    case NOPKI =>
      var unvisited := node.skMap.Keys;
      while unvisited != {}
        invariant unvisited <= node.skMap.Keys
        invariant forall k :: k in node.skMap && k !in unvisited ==> KeyEntryOk(node, k, isValid)
        decreases |unvisited|
      {
        var k :| k in unvisited;
        if !isValid(k, node.numNodes) {
          return Fail(InvalidMapEntry(k));
        }
        if |node.skMap[k]| != SECRET_KEY_SIZE {
          return Fail(InvalidPkSize(|node.skMap[k]|));
        }
        unvisited := unvisited - {k};
      }
    return Pass;
  }

  /** `my_ip`: the node's own entry of the address map; a missing entry is the `expect` panic. */
  function MyIp(node: Node): (a: Addr)
    requires node.id in node.netMap
    ensures a in node.netMap.Values && a == node.netMap[node.id]
  {
    node.netMap[node.id]
  }

  /** `client_ip`: the address on which the node listens for the syncer, whatever the address map holds. */
  function ClientIp(node: Node): (a: Addr)
    ensures a.host == WILDCARD && a.port == node.clientPort
  {
    Addr(WILDCARD, node.clientPort)
  }

  /** The address map after `update_config(ips)`, entry by entry. */
  ghost predicate Rewritten(old_: Node, new_: Node, ips: seq<Addr>)
  {
    && (forall k: Replica :: k in new_.netMap <==> k in old_.netMap || k < |ips|)
    && (forall i: Replica :: i < |ips| ==>
          new_.netMap[i] == if i == old_.id then Addr(WILDCARD, ips[i].port) else ips[i])
    && (forall k :: k in old_.netMap && k >= |ips| ==> new_.netMap[k] == old_.netMap[k])
  }

  /**
   * `update_config(ips)`: the i-th address becomes entry i of the map, the
   * node's own entry listening on the wildcard host with the same port, and
   * the address at index `num_nodes` is also the syncer's address. Nothing
   * else in the record changes.
   */
  method UpdateConfig(node: Node, ips: Vec<Addr>) returns (r: Node)
    ensures Rewritten(node, r, ips)
    ensures r.clientAddr == if node.numNodes < |ips| then ips[node.numNodes] else node.clientAddr
    ensures r == node.(netMap := r.netMap, clientAddr := r.clientAddr)
    ensures node.id < |ips| ==> MyIp(r) == Addr(WILDCARD, ips[node.id].port)
    ensures ClientIp(r) == ClientIp(node)
  {
    var netMap: map<Replica, Addr> := node.netMap;
    var clientAddr := node.clientAddr;
    var idx: Replica := 0;
    var maxNodes := node.numNodes;
    while idx < |ips|
      invariant idx <= |ips|
      invariant forall k: Replica :: k in netMap <==> k in node.netMap || k < idx
      invariant forall i: Replica :: i < idx ==>
                  netMap[i] == if i == node.id then Addr(WILDCARD, ips[i].port) else ips[i]
      invariant forall k :: k in node.netMap && k >= idx ==> netMap[k] == node.netMap[k]
      invariant clientAddr == if maxNodes < idx then ips[maxNodes] else node.clientAddr
    {
      var ip := ips[idx];
      if idx == maxNodes {
        clientAddr := Addr(ip.host, ip.port);
      }
      if idx == node.id {
        netMap := netMap[idx := Addr(WILDCARD, ip.port)];
        idx := idx + 1;
        continue;
      }
      netMap := netMap[idx := ip];
      idx := idx + 1;
    }
    r := node.(netMap := netMap, clientAddr := clientAddr);
  }
}
