/** The synchronizer's configuration record of config/src/client.rs. */
module ClientConfig {
  import opened Ints
  import opened Wrappers
  import opened Config

  datatype Client = Client(
    netMap: map<Replica, Addr>,
    cryptoAlg: Algorithm,
    serverPk: map<Replica, Bytes>,
    numNodes: Usize,
    numFaults: Usize,
    blockSize: Usize,
    payload: Usize,
    rootCert: Bytes)

  /** `Client::new()`. */
  function NewClient(): (c: Client)
    ensures c.netMap == map[] && c.serverPk == map[] && c.numNodes == 0 && c.numFaults == 0
  {
    Client(map[], NOPKI, map[], 0, 0, 0, 0, [])
  }

  /** What `validate` accepts: one address per server, n > 2f, every key a valid replica. */
  predicate ClientValid(client: Client, isValid: ReplicaCheck)
  {
    && |client.netMap| == client.numNodes
    && 2 * client.numFaults < client.numNodes
    && forall r :: r in client.netMap ==> isValid(r, client.numNodes)
  }

  /** `Client::validate`: the checks in order, the first failing one reported. */
  method Validate(client: Client, isValid: ReplicaCheck) returns (r: Outcome<ParseError>)
    ensures r.Pass? <==> ClientValid(client, isValid)
    ensures |client.netMap| != client.numNodes ==>
              r == Fail(InvalidMapLen(client.numNodes, |client.netMap|))
    ensures |client.netMap| == client.numNodes && 2 * client.numFaults >= client.numNodes ==>
              r == Fail(IncorrectFaults(client.numFaults, client.numNodes))
    ensures r.Fail? ==> r.error.InvalidMapLen? || r.error.IncorrectFaults? || r.error.InvalidMapEntry?
    ensures r.Fail? && r.error.InvalidMapEntry? ==>
              r.error.replica in client.netMap && !isValid(r.error.replica, client.numNodes)
  {
    if |client.netMap| != client.numNodes {
      return Fail(InvalidMapLen(client.numNodes, |client.netMap|));
    }
    if 2 * client.numFaults >= client.numNodes {
      return Fail(IncorrectFaults(client.numFaults, client.numNodes));
    }
    var unvisited := client.netMap.Keys;
    while unvisited != {}
      invariant unvisited <= client.netMap.Keys
      invariant forall k :: k in client.netMap && k !in unvisited ==> isValid(k, client.numNodes)
      decreases |unvisited|
    {
      var k :| k in unvisited;
      if !isValid(k, client.numNodes) {
        return Fail(InvalidMapEntry(k));
      }
      unvisited := unvisited - {k};
    }
    return Pass;
  }

  /** `update_config(ips)`: entry i of the map becomes the i-th address; other entries and fields stay. */
  method UpdateConfig(client: Client, ips: Vec<Addr>) returns (r: Client)
    ensures forall k: Replica :: k in r.netMap <==> k in client.netMap || k < |ips|
    ensures forall i: Replica :: i < |ips| ==> r.netMap[i] == ips[i]
    ensures forall k :: k in client.netMap && k >= |ips| ==> r.netMap[k] == client.netMap[k]
    ensures r == client.(netMap := r.netMap)
  {
    var netMap: map<Replica, Addr> := client.netMap;
    var idx: Replica := 0;
    while idx < |ips|
      invariant idx <= |ips|
      invariant forall k: Replica :: k in netMap <==> k in client.netMap || k < idx
      invariant forall i: Replica :: i < idx ==> netMap[i] == ips[i]
      invariant forall k :: k in client.netMap && k >= idx ==> netMap[k] == client.netMap[k]
    {
      netMap := netMap[idx := ips[idx]];
      idx := idx + 1;
    }
    r := client.(netMap := netMap);
  }
}
