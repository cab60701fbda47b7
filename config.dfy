/**
 * Shared vocabulary of config/src: socket addresses, parse errors, the crypto
 * algorithm and the secret-key size. Addresses are (host, port) pairs; the
 * text form `host:port` and its parsing are not modelled.
 */
module Config {
  import opened Ints

  datatype Addr = Addr(host: string, port: U16)

  /** The host a node listens on for its own sockets. */
  const WILDCARD: string := "0.0.0.0"

  datatype ParseError =
    | InvalidMapLen(expected: nat, found: nat)
    | IncorrectFaults(faults: nat, nodes: nat)
    | InvalidMapEntry(replica: Replica)
    | InvalidPkSize(size: nat)

  datatype Algorithm = NOPKI

  /** The byte length of a pairwise secret key. */
  const SECRET_KEY_SIZE: nat := 32

  type Key = k: Bytes | |k| == SECRET_KEY_SIZE witness seq(SECRET_KEY_SIZE, _ => 0)

  /** `is_valid_replica(id, num_nodes)`, whose body is not part of this model. */
  type ReplicaCheck = (Replica, Usize) -> bool
}
