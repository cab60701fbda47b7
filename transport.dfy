/**
 * What the node and the synchronizer see of the reliable transport: a send
 * is recorded as `(recipient, message)` in an outbox, and returns a cancel
 * handler, modelled as a token naming the channel and the send's position in
 * that channel's outbox.
 */
module Transport {
  import opened Ints

  datatype Channel = Consensus | Sync

  datatype CancelHandler = CancelHandler(channel: Channel, index: nat)

  datatype Outgoing<M> = Outgoing(to: Replica, msg: M)

  /** The cancel handlers a node keeps are filed under key 0 of a map; absent means none. */
  function HandlersOf(ch: map<U64, seq<CancelHandler>>): seq<CancelHandler>
  {
    if 0 in ch then ch[0] else []
  }

  /** The tokens of `count` consecutive sends on `channel` starting at outbox position `from`. */
  function Tokens(channel: Channel, from: nat, count: nat): (t: seq<CancelHandler>)
    ensures |t| == count
  {
    if count == 0 then [] else Tokens(channel, from, count - 1) + [CancelHandler(channel, from + count - 1)]
  }

  /** Token k of a run names send `from + k`. */
  lemma {:induction false} TokenAt(channel: Channel, from: nat, count: nat, k: nat)
    requires k < count
    ensures Tokens(channel, from, count)[k] == CancelHandler(channel, from + k)
  {
    if k < count - 1 {
      TokenAt(channel, from, count - 1, k);
    }
  }
}
