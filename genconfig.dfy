/**
 * The configuration generator of tools/genconfig: from the command-line
 * options it draws one secret key per unordered pair of servers, fills in one
 * `Node` record per server and the synchronizer's `Client` record, and
 * validates them all. Command-line parsing and file writing are not modelled:
 * the options arrive as a record, and the result is the records themselves.
 *
 * `SecretKey::generate` is the oracle `generate`: its g-th call returns
 * `generate(g)`. `rand::thread_rng().gen_range(0, 20000000)` is `draws`: the
 * i-th server's draw is `draws(i)`.
 */
module GenConfig {
  import opened Ints
  import opened Wrappers
  import opened Config
  import opened NodeConfig
  import opened ClientConfig
  import opened Text
  import PbftNode

  /** The parsed command line; an absent `num_faults` is `None`. */
  datatype Options = Options(
    numNodes: Usize,
    numFaults: Option<Usize>,
    delay: U64,
    basePort: U16,
    blockSize: Usize,
    clientBasePort: U16,
    payload: Usize,
    clientRunPort: U16)

  /** A random draw of `gen_range(0, 20000000)`. */
  type Draw = x: nat | x < 20000000

  /** What a run of the generator ends in: the records it wrote, or a panic. */
  datatype Generation =
    | Generated(nodes: seq<Node>, client: Client)
    | Panic(reason: string)

  const LOCALHOST: string := "127.0.0.1"
  const SUBTRACT_OVERFLOW: string := "attempt to subtract with overflow"
  const ADD_OVERFLOW: string := "attempt to add with overflow"
  const NODE_INVALID: string := "failed to validate node config"
  const CLIENT_INVALID: string := "failed to validate the client config"

  /**
   * The fault bound: the given one, or by default `(n-1)/3`, the largest f
   * with n >= 3f+1. With no servers the default underflows (`None`).
   */
  function Faults(opts: Options): (f: Option<Usize>)
    ensures f.None? <==> opts.numFaults.None? && opts.numNodes == 0
    ensures opts.numFaults.Some? ==> f == opts.numFaults
    ensures opts.numFaults.None? && f.Some? ==>
              && 2 * f.value < opts.numNodes
              && 3 * f.value < opts.numNodes <= 3 * f.value + 3
  {
    match opts.numFaults
    case Some(x) => Some(x)
    case None => if opts.numNodes == 0 then None else Some((opts.numNodes - 1) / 3)
  }

  /** `base + (i as u16)`: the index truncated to 16 bits; `None` is the overflow panic. */
  function Port(base: U16, i: nat): (p: Option<U16>)
    ensures i < TWO_16 && base + i < TWO_16 ==> p == Some(base + i)
    ensures base + i % TWO_16 >= TWO_16 ==> p.None?
  {
    var sum := base + i % TWO_16;
    if sum < TWO_16 then Some(sum) else None
  }

  /** None of the ports `base + i` for i < count overflows 16 bits. */
  predicate Fits(base: U16, count: nat)
  {
    forall i: nat :: i < count ==> Port(base, i).Some?
  }

  /** No server's port, in either range, overflows 16 bits. */
  predicate PortsFit(opts: Options)
  {
    Fits(opts.basePort, opts.numNodes) && Fits(opts.clientBasePort, opts.numNodes)
  }

  /** The text `prot_payload` of a server whose draw is `num`: `a,{num},50000,100`. */
  function ProtPayload(num: Draw): string
  {
    "a," + Decimal(num) + ",50000,100"
  }

  // ---------------------------------------------------------------------
  // The pairwise key matrix
  // ---------------------------------------------------------------------

  /** How many keys rows `0 .. a-1` draw: row r draws one per column r .. n-1. */
  function RowStart(a: nat, n: nat): nat
    requires a <= n
  {
    if a == 0 then 0 else RowStart(a - 1, n) + (n - (a - 1))
  }

  /** Which generation the key of the pair `a <= b` is: row a's draw for column b. */
  function PairIndex(a: nat, b: nat, n: nat): nat
    requires a <= b < n
  {
    RowStart(a, n) + (b - a)
  }

  /** The key servers i and j share. */
  function KeyFor(generate: nat -> Key, n: nat, i: nat, j: nat): Key
    requires i < n && j < n
  {
    generate(PairIndex(Min(i, j), Max(i, j), n))
  }

  /** Twice the keys the first a rows draw: a(2n - a + 1). */
  lemma {:induction false} RowStartClosedForm(a: nat, n: nat)
    requires a <= n
    ensures 2 * RowStart(a, n) == a * (2 * n - a + 1)
  {
    if a > 0 {
      RowStartClosedForm(a - 1, n);
    }
  }

  /** All n rows together draw n(n+1)/2 keys. */
  lemma RowStartTotal(n: nat)
    ensures RowStart(n, n) == n * (n + 1) / 2
  {
    RowStartClosedForm(n, n);
  }

  /** Later rows start later. */
  lemma {:induction false} RowStartMonotonic(a: nat, c: nat, n: nat)
    requires a <= c <= n
    ensures RowStart(a, n) <= RowStart(c, n)
  {
    if a < c {
      RowStartMonotonic(a, c - 1, n);
    }
  }

  /** Every pair's key is one of the n(n+1)/2 generated. */
  lemma PairIndexBound(a: nat, b: nat, n: nat)
    requires a <= b < n
    ensures PairIndex(a, b, n) < n * (n + 1) / 2
  {
    RowStartMonotonic(a + 1, n, n);
    RowStartTotal(n);
  }

  /** Distinct unordered pairs use distinct generations. */
  lemma PairIndexInjective(a: nat, b: nat, c: nat, d: nat, n: nat)
    requires a <= b < n && c <= d < n
    requires PairIndex(a, b, n) == PairIndex(c, d, n)
    ensures a == c && b == d
  {
    if a < c {
      RowStartMonotonic(a + 1, c, n);
    } else if c < a {
      RowStartMonotonic(c + 1, a, n);
    }
  }

  /** Every generation is used by exactly one unordered pair. */
  lemma {:induction false} PairIndexOnto(g: nat, n: nat)
    requires g < n * (n + 1) / 2
    ensures exists a: nat, b: nat :: a <= b < n && PairIndex(a, b, n) == g
  {
    RowStartTotal(n);
    var a := 0;
    while RowStart(a + 1, n) <= g
      invariant a < n && RowStart(a, n) <= g
      decreases n - a
    {
      RowStartMonotonic(a + 1, n, n);
      if a + 1 == n {
        assert false;
      }
      a := a + 1;
    }
    assert PairIndex(a, a + (g - RowStart(a, n)), n) == g;
  }

  /** A fresh-value oracle: no two calls return the same key. */
  ghost predicate Fresh(generate: nat -> Key)
  {
    forall g, h :: g != h ==> generate(g) != generate(h)
  }

  /** With fresh keys, two servers share their key with nobody else. */
  lemma DistinctPairsDistinctKeys(generate: nat -> Key, n: nat, i: nat, j: nat, k: nat, l: nat)
    requires Fresh(generate)
    requires i < n && j < n && k < n && l < n
    requires KeyFor(generate, n, i, j) == KeyFor(generate, n, k, l)
    ensures (i == k && j == l) || (i == l && j == k)
  {
    PairIndexInjective(Min(i, j), Max(i, j), Min(k, l), Max(k, l), n);
  }

  /** The rows so far hold, at column c of row r, the key of the pair {r, c}. */
  ghost predicate Filled(secKeys: seq<seq<Key>>, generate: nat -> Key, n: nat)
  {
    forall r, c :: 0 <= r < |secKeys| && 0 <= c < |secKeys[r]| ==>
      r < n && c < n && secKeys[r][c] == KeyFor(generate, n, r, c)
  }

  /** The length of row r while the outer loop is at i and the inner one at j. */
  function RowLength(r: nat, i: nat, j: nat, n: nat): nat
  {
    if r < i then n else if r == i then j else if r < j then i + 1 else i
  }

  /** The matrix while the outer loop is at i and the inner one at j. */
  ghost predicate Drawn(secKeys: seq<seq<Key>>, generate: nat -> Key, n: nat, i: nat, j: nat)
  {
    && |secKeys| == n
    && (forall r :: 0 <= r < n ==> |secKeys[r]| == RowLength(r, i, j, n))
    && Filled(secKeys, generate, n)
  }

  /** Pushing the key of the pair {i, j} onto row i and, unless i == j, onto row j. */
  lemma DrawStep(secKeys: seq<seq<Key>>, generate: nat -> Key, n: nat, i: nat, j: nat, next: seq<seq<Key>>)
    requires i <= j < n && Drawn(secKeys, generate, n, i, j)
    requires var key := generate(RowStart(i, n) + (j - i));
      var pushed := secKeys[i := secKeys[i] + [key]];
      next == if j != i then pushed[j := pushed[j] + [key]] else pushed
    ensures Drawn(next, generate, n, i, j + 1)
  {
    var key := generate(RowStart(i, n) + (j - i));
    assert key == KeyFor(generate, n, i, j) == KeyFor(generate, n, j, i);
    forall r, c | 0 <= r < |next| && 0 <= c < |next[r]|
      ensures r < n && c < n && next[r][c] == KeyFor(generate, n, r, c)
    {
      if c < |secKeys[r]| {
        assert next[r][c] == secKeys[r][c];
      }
    }
  }

  /** The inner loop for row i: one key per column j = i .. n-1. */
  method DrawRow(secKeys: seq<seq<Key>>, generate: nat -> Key, n: nat, i: nat, generated: nat)
    returns (next: seq<seq<Key>>, drawn: nat)
    requires i < n && Drawn(secKeys, generate, n, i, i) && generated == RowStart(i, n)
    ensures Drawn(next, generate, n, i + 1, i + 1) && drawn == RowStart(i + 1, n)
  {
    next, drawn := secKeys, generated;
    var j := i;
    while j < n
      invariant i <= j <= n
      invariant drawn == RowStart(i, n) + (j - i)
      invariant Drawn(next, generate, n, i, j)
    {
      var key := generate(drawn);
      drawn := drawn + 1;
      var before := next;
      next := next[i := next[i] + [key]];
      if j != i {
        next := next[j := next[j] + [key]];
      }
      DrawStep(before, generate, n, i, j, next);
      j := j + 1;
    }
  }

  /**
   * The triangular key loop: for each pair i <= j one fresh key, pushed onto
   * row i and, unless i == j, onto row j. `generated` counts the draws.
   */
  method GenerateKeys(n: Usize, generate: nat -> Key) returns (secKeys: seq<seq<Key>>, generated: nat)
    ensures |secKeys| == n
    ensures forall i :: 0 <= i < n ==> |secKeys[i]| == n
    ensures forall i, j :: 0 <= i < n && 0 <= j < n ==> secKeys[i][j] == KeyFor(generate, n, i, j)
    ensures forall i, j :: 0 <= i < n && 0 <= j < n ==> secKeys[i][j] == secKeys[j][i]
    ensures generated == n * (n + 1) / 2
  {
    secKeys := seq(n, _ => []);
    generated := 0;
    var i := 0;
    while i < n
      invariant i <= n
      invariant generated == RowStart(i, n)
      invariant Drawn(secKeys, generate, n, i, i)
    {
      secKeys, generated := DrawRow(secKeys, generate, n, i, generated);
      i := i + 1;
    }
    RowStartTotal(n);
    forall r, c | 0 <= r < n && 0 <= c < n ensures secKeys[r][c] == KeyFor(generate, n, r, c) {
      assert |secKeys[r]| == RowLength(r, n, n, n);
    }
  }

  // ---------------------------------------------------------------------
  // The records
  // ---------------------------------------------------------------------

  /** The replicas 0 .. n-1. */
  function Range(n: nat): (s: set<Replica>)
    requires n <= TWO_64
    ensures forall r: Replica :: r in s <==> r < n
    ensures |s| == n
  {
    if n == 0 then {} else Range(n - 1) + {n - 1}
  }

  /** Servers 0 .. count-1 at `127.0.0.1:{base+i}`. */
  function Addresses(base: U16, count: nat): map<Replica, Addr>
    requires count <= TWO_64 && Fits(base, count)
  {
    map r: Replica | r < count :: Addr(LOCALHOST, Port(base, r).value)
  }

  lemma AddressesShape(base: U16, count: nat)
    requires count <= TWO_64 && Fits(base, count)
    ensures |Addresses(base, count)| == count
    ensures forall i: Replica :: i in Addresses(base, count) <==> i < count
    ensures forall i: Replica :: i < count ==> Addresses(base, count)[i] == Addr(LOCALHOST, Port(base, i).value)
  {
    assert Addresses(base, count).Keys == Range(count);
  }

  lemma AddressesSnoc(base: U16, count: nat)
    requires count < TWO_64 && Fits(base, count + 1)
    ensures Addresses(base, count + 1) == Addresses(base, count)[count := Addr(LOCALHOST, Port(base, count).value)]
  {
  }

  /** The servers' address map every node receives: server i at `127.0.0.1:{base_port+i}`, the synchronizer at index n. */
  function SharedNetMap(opts: Options): map<Replica, Addr>
    requires PortsFit(opts)
  {
    Addresses(opts.basePort, opts.numNodes)[opts.numNodes := Addr(LOCALHOST, opts.clientRunPort)]
  }

  /** The synchronizer's map: server i at `127.0.0.1:{client_base_port+i}`. */
  function ClientNetMap(opts: Options): map<Replica, Addr>
    requires PortsFit(opts)
  {
    Addresses(opts.clientBasePort, opts.numNodes)
  }

  /** The shared map has n+1 entries: the servers' addresses and, at index n, the synchronizer's. */
  lemma SharedNetMapShape(opts: Options)
    requires PortsFit(opts)
    ensures |SharedNetMap(opts)| == opts.numNodes + 1
    ensures forall i: Replica :: i < opts.numNodes ==>
              i in SharedNetMap(opts) && SharedNetMap(opts)[i] == Addr(LOCALHOST, Port(opts.basePort, i).value)
    ensures opts.numNodes in SharedNetMap(opts)
    ensures SharedNetMap(opts)[opts.numNodes] == Addr(LOCALHOST, opts.clientRunPort)
  {
    AddressesShape(opts.basePort, opts.numNodes);
  }

  /** The synchronizer's map has one entry per server. */
  lemma ClientNetMapShape(opts: Options)
    requires PortsFit(opts)
    ensures |ClientNetMap(opts)| == opts.numNodes
    ensures forall i: Replica :: i in ClientNetMap(opts) <==> i < opts.numNodes
    ensures forall i: Replica :: i < opts.numNodes ==> ClientNetMap(opts)[i] == Addr(LOCALHOST, Port(opts.clientBasePort, i).value)
  {
    AddressesShape(opts.clientBasePort, opts.numNodes);
  }

  /** Row `row` of the key matrix as a secret-key map: column j under key j. */
  method KeyMap(row: seq<Key>) returns (skMap: map<Replica, Bytes>)
    requires |row| < TWO_64
    ensures forall j: Replica :: j in skMap <==> j < |row|
    ensures forall j: Replica :: j < |row| ==> skMap[j] == row[j]
  {
    skMap := map[];
    var j: Replica := 0;
    while j < |row|
      invariant j <= |row|
      invariant forall k: Replica :: k in skMap <==> k < j
      invariant forall k: Replica :: k < j ==> skMap[k] == row[k]
    {
      skMap := skMap[j := row[j]];
      j := j + 1;
    }
  }

  /** Server i's record after the population loop, before the address map is shared. */
  function Populated(opts: Options, f: Usize, i: Replica, port: U16, payload: string, skMap: map<Replica, Bytes>): Node
  {
    NewNode().(
      delta := opts.delay, id := i, numNodes := opts.numNodes, numFaults := f,
      blockSize := opts.blockSize, payload := opts.payload, clientPort := port,
      protPayload := payload, cryptoAlg := NOPKI, skMap := skMap)
  }

  /** The population loop's result for servers 0 .. count-1. */
  ghost predicate PopulatedUpTo(nodes: seq<Node>, count: nat, opts: Options, f: Usize, secKeys: seq<seq<Key>>, draws: nat -> Draw)
    requires count <= |secKeys|
  {
    && |nodes| == count
    && forall i: Replica :: i < count ==>
         && Port(opts.clientBasePort, i).Some?
         && (forall j: Replica :: j in nodes[i].skMap <==> j < |secKeys[i]|)
         && (forall j: Replica :: j < |secKeys[i]| ==> nodes[i].skMap[j] == secKeys[i][j])
         && nodes[i] == Populated(opts, f, i, Port(opts.clientBasePort, i).value, ProtPayload(draws(i)), nodes[i].skMap)
  }

  /** Record i, filled in from row i of the key matrix, extends the loop's result by one. */
  lemma PopulatedSnoc(nodes: seq<Node>, node: Node, i: Replica, opts: Options, f: Usize, secKeys: seq<seq<Key>>, draws: nat -> Draw)
    requires i < |secKeys| && PopulatedUpTo(nodes, i, opts, f, secKeys, draws)
    requires Port(opts.clientBasePort, i).Some?
    requires forall j: Replica :: j in node.skMap <==> j < |secKeys[i]|
    requires forall j: Replica :: j < |secKeys[i]| ==> node.skMap[j] == secKeys[i][j]
    requires node == Populated(opts, f, i, Port(opts.clientBasePort, i).value, ProtPayload(draws(i)), node.skMap)
    ensures PopulatedUpTo(nodes + [node], i + 1, opts, f, secKeys, draws)
  {
    var next := nodes + [node];
    forall k: Replica | k < i + 1
      ensures && Port(opts.clientBasePort, k).Some?
              && (forall j: Replica :: j in next[k].skMap <==> j < |secKeys[k]|)
              && (forall j: Replica :: j < |secKeys[k]| ==> next[k].skMap[j] == secKeys[k][j])
              && next[k] == Populated(opts, f, k, Port(opts.clientBasePort, k).value, ProtPayload(draws(k)), next[k].skMap)
    {
      if k < i {
        assert next[k] == nodes[k];
      }
    }
  }

  /**
   * The loop over the servers: fill in record i, its secret keys and the
   * address entries of server i in both maps. `ok` is false on a port
   * overflow, which panics.
   */
  method Populate(opts: Options, f: Usize, secKeys: seq<seq<Key>>, draws: nat -> Draw)
    returns (nodes: seq<Node>, ip: map<Replica, Addr>, clientMap: map<Replica, Addr>, ok: bool)
    requires |secKeys| == opts.numNodes
    requires forall i :: 0 <= i < |secKeys| ==> |secKeys[i]| == opts.numNodes
    ensures ok <==> PortsFit(opts)
    ensures ok ==> PopulatedUpTo(nodes, opts.numNodes, opts, f, secKeys, draws)
    ensures ok ==> ip == Addresses(opts.basePort, opts.numNodes)
    ensures ok ==> clientMap == ClientNetMap(opts)
  {
    nodes := [];
    ip := map[];
    clientMap := map[];
    var i: Replica := 0;
    while i < opts.numNodes
      invariant i <= opts.numNodes
      invariant Fits(opts.basePort, i) && Fits(opts.clientBasePort, i)
      invariant PopulatedUpTo(nodes, i, opts, f, secKeys, draws)
      invariant ip == Addresses(opts.basePort, i)
      invariant clientMap == Addresses(opts.clientBasePort, i)
    {
      var clientPort := Port(opts.clientBasePort, i);
      var serverPort := Port(opts.basePort, i);
      if clientPort.None? || serverPort.None? {
        return nodes, ip, clientMap, false;
      }
      var skMap := KeyMap(secKeys[i]);
      var node := Populated(opts, f, i, clientPort.value, ProtPayload(draws(i)), skMap);
      PopulatedSnoc(nodes, node, i, opts, f, secKeys, draws);
      nodes := nodes + [node];
      AddressesSnoc(opts.basePort, i);
      AddressesSnoc(opts.clientBasePort, i);
      ip := ip[i := Addr(LOCALHOST, serverPort.value)];
      clientMap := clientMap[i := Addr(LOCALHOST, clientPort.value)];
      i := i + 1;
    }
    ok := true;
  }

  /** The loop handing every record the shared address map and the (empty) public-key map. */
  method ShareMaps(nodes: seq<Node>, ip: map<Replica, Addr>, pk: map<Replica, Bytes>) returns (shared: seq<Node>)
    ensures |shared| == |nodes|
    ensures forall i :: 0 <= i < |nodes| ==> shared[i] == nodes[i].(pkMap := pk, netMap := ip)
  {
    shared := nodes;
    var i := 0;
    while i < |nodes|
      invariant i <= |nodes| && |shared| == |nodes|
      invariant forall k :: 0 <= k < i ==> shared[k] == nodes[k].(pkMap := pk, netMap := ip)
      invariant forall k :: i <= k < |nodes| ==> shared[k] == nodes[k]
    {
      shared := shared[i := shared[i].(pkMap := pk, netMap := ip)];
      i := i + 1;
    }
  }

  /** `node[i].validate().expect(..)` for each record in turn: `ok` is false where the first one fails. */
  method ValidateNodes(nodes: seq<Node>, isValid: ReplicaCheck) returns (ok: bool)
    ensures ok <==> forall i :: 0 <= i < |nodes| ==> NodeValid(nodes[i], isValid)
  {
    var i := 0;
    while i < |nodes|
      invariant i <= |nodes|
      invariant forall k :: 0 <= k < i ==> NodeValid(nodes[k], isValid)
    {
      var r := NodeConfig.Validate(nodes[i], isValid);
      if r.Fail? {
        return false;
      }
      i := i + 1;
    }
    return true;
  }

  /** What server i's written record holds. */
  ghost predicate NodeRecord(node: Node, i: Replica, opts: Options, f: Usize, generate: nat -> Key, draws: nat -> Draw)
    requires PortsFit(opts) && i < opts.numNodes
  {
    && node == Populated(opts, f, i, Port(opts.clientBasePort, i).value, ProtPayload(draws(i)), node.skMap)
                 .(pkMap := map[], netMap := SharedNetMap(opts))
    && (forall j: Replica :: j in node.skMap <==> j < opts.numNodes)
    && (forall j: Replica :: j < opts.numNodes ==> node.skMap[j] == KeyFor(generate, opts.numNodes, i, j))
  }

  /** Any two servers hold the same key for each other. */
  ghost predicate SymmetricKeys(nodes: seq<Node>)
  {
    forall i: Replica, j: Replica :: i < |nodes| && j < |nodes| ==>
      && j in nodes[i].skMap && i in nodes[j].skMap
      && nodes[i].skMap[j] == nodes[j].skMap[i]
  }

  /** When the generator succeeds: its options are coherent and every server is a valid replica. */
  predicate Succeeds(opts: Options, isValid: ReplicaCheck)
  {
    && Faults(opts).Some?
    && PortsFit(opts)
    && 2 * Faults(opts).value < opts.numNodes
    && forall r: Replica :: r < opts.numNodes ==> isValid(r, opts.numNodes)
  }

  /** A server record, as written, passes `validate` exactly when the generation succeeds. */
  lemma NodeRecordValid(node: Node, i: Replica, opts: Options, generate: nat -> Key, draws: nat -> Draw, isValid: ReplicaCheck)
    requires Faults(opts).Some? && PortsFit(opts) && i < opts.numNodes
    requires NodeRecord(node, i, opts, Faults(opts).value, generate, draws)
    ensures NodeValid(node, isValid) <==> Succeeds(opts, isValid)
  {
    SharedNetMapShape(opts);
    if Succeeds(opts, isValid) {
      forall r | r in node.skMap ensures KeyEntryOk(node, r, isValid) {
      }
    }
    if NodeValid(node, isValid) {
      forall r: Replica | r < opts.numNodes ensures isValid(r, opts.numNodes) {
        assert KeyEntryOk(node, r, isValid);
      }
    }
  }

  /**
   * `main` from the key matrix to the shared maps: the records as they are
   * written. `ok` is false on a port overflow.
   */
  method Build(opts: Options, f: Usize, generate: nat -> Key, draws: nat -> Draw)
    returns (nodes: seq<Node>, clientMap: map<Replica, Addr>, ok: bool)
    ensures ok <==> PortsFit(opts)
    ensures ok ==> |nodes| == opts.numNodes
    ensures ok ==> forall i: Replica :: i < opts.numNodes ==> NodeRecord(nodes[i], i, opts, f, generate, draws)
    ensures ok ==> clientMap == ClientNetMap(opts)
  {
    var n := opts.numNodes;
    var secKeys, _ := GenerateKeys(n, generate);
    var ip;
    nodes, ip, clientMap, ok := Populate(opts, f, secKeys, draws);
    if !ok {
      return;
    }
    ip := ip[n := Addr(LOCALHOST, opts.clientRunPort)];
    nodes := ShareMaps(nodes, ip, map[]);
  }

  /** Records built from the fault bound hold the same key for each other. */
  lemma RecordsSymmetric(nodes: seq<Node>, opts: Options, f: Usize, generate: nat -> Key, draws: nat -> Draw)
    requires PortsFit(opts) && |nodes| == opts.numNodes
    requires forall i: Replica :: i < opts.numNodes ==> NodeRecord(nodes[i], i, opts, f, generate, draws)
    ensures SymmetricKeys(nodes)
  {
    forall i: Replica, j: Replica | i < |nodes| && j < |nodes|
      ensures j in nodes[i].skMap && i in nodes[j].skMap && nodes[i].skMap[j] == nodes[j].skMap[i]
    {
      assert NodeRecord(nodes[i], i, opts, f, generate, draws);
      assert NodeRecord(nodes[j], j, opts, f, generate, draws);
    }
  }

  /**
   * `main` from the fault bound to the validation: the records, then
   * `validate` on every server record and on the synchronizer's. Each
   * failure is the panic it causes in the source.
   */
  method Generate(opts: Options, generate: nat -> Key, draws: nat -> Draw, isValid: ReplicaCheck) returns (g: Generation)
    ensures Faults(opts).None? ==> g == Panic(SUBTRACT_OVERFLOW)
    ensures Faults(opts).Some? && !PortsFit(opts) ==> g == Panic(ADD_OVERFLOW)
    ensures g.Generated? <==> Succeeds(opts, isValid)
    ensures g.Generated? ==> |g.nodes| == opts.numNodes
    ensures g.Generated? ==> forall i: Replica :: i < opts.numNodes ==>
              NodeRecord(g.nodes[i], i, opts, Faults(opts).value, generate, draws)
    ensures g.Generated? ==> SymmetricKeys(g.nodes)
    ensures g.Generated? ==>
              g.client == NewClient().(blockSize := opts.blockSize, cryptoAlg := NOPKI, numNodes := opts.numNodes,
                                      numFaults := Faults(opts).value, netMap := ClientNetMap(opts))
  {
    var faults := Faults(opts);
    if faults.None? {
      return Panic(SUBTRACT_OVERFLOW);
    }
    var n, f := opts.numNodes, faults.value;
    var client := NewClient().(blockSize := opts.blockSize, cryptoAlg := NOPKI, numNodes := n, numFaults := f);
    var nodes, clientMap, ok := Build(opts, f, generate, draws);
    if !ok {
      return Panic(ADD_OVERFLOW);
    }
    client := client.(netMap := clientMap, serverPk := map[]);
    var valid := ValidateNodes(nodes, isValid);
    if n > 0 {
      NodeRecordValid(nodes[0], 0, opts, generate, draws, isValid);
    }
    if !valid {
      return Panic(NODE_INVALID);
    }
    ClientNetMapShape(opts);
    var checked := ClientConfig.Validate(client, isValid);
    if checked.Fail? {
      return Panic(CLIENT_INVALID);
    }
    RecordsSymmetric(nodes, opts, f, generate, draws);
    return Generated(nodes, client);
  }

  /**
   * Two servers whose contexts were spawned from records of one successful
   * generation accept each other's packets: the key matrix is symmetric, so
   * the MAC the sender seals with is the one the receiver checks.
   */
  lemma ConfiguredPeersAuthenticate(nodes: seq<Node>, sender: PbftNode.Context, receiver: PbftNode.Context, k: nat)
    requires SymmetricKeys(nodes)
    requires sender.myid < |nodes| && receiver.myid < |nodes|
    requires sender.secKeyMap == nodes[sender.myid].skMap && receiver.secKeyMap == nodes[receiver.myid].skMap
    requires sender.ser == receiver.ser && sender.mac == receiver.mac
    requires sender.Wf() && k < |sender.netOutbox| && sender.netOutbox[k].to == receiver.myid
    ensures receiver.CheckProposal(sender.netOutbox[k].msg)
    ensures sender.netOutbox[k].msg.sender == sender.myid
  {
    PbftNode.SentPacketsAuthenticate(sender, receiver, k);
  }
}
