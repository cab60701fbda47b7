/**
 * One PBFT-style approximate-agreement node: the `Context` of
 * consensus/pbft/src/node/context.rs together with its message handlers
 * (process.rs) and protocol steps (ping.rs).
 *
 * Sends are recorded in two outboxes, one per transport (`netOutbox` to the
 * other servers, `syncOutbox` to the synchronizer); each send hands back a
 * cancel handler that is filed under key 0 of `cancelHandlers`. The ghost
 * history `broadcasts` lists the protocol messages broadcast so far.
 */
module PbftNode {
  import opened Ints
  import opened Wrappers
  import opened Crypto
  import opened Transport
  import opened SyncTypes
  import opened Wire
  import opened PbftMsg
  import opened Config
  import opened NodeConfig
  import Statistics
  import BigEndian

  type Packet = Outgoing<WrapperMsg<ProtMsg>>

  /** The replicas `broadcast` sends to, in `order`: all of them for the leader, all but `me` otherwise. */
  function RecipientsOf(order: seq<Replica>, me: Replica, leader: bool): seq<Replica>
  {
    if order == [] then []
    else
      var last := order[|order| - 1];
      RecipientsOf(order[..|order| - 1], me, leader) + (if leader || last != me then [last] else [])
  }

  /** The leader sends to every replica in the order, a follower to all but itself. */
  lemma {:induction false} RecipientsMembership(order: seq<Replica>, me: Replica, leader: bool)
    ensures forall r :: r in RecipientsOf(order, me, leader) <==> r in order && (leader || r != me)
  {
    if order != [] {
      var prefix := order[..|order| - 1];
      RecipientsMembership(prefix, me, leader);
      assert order == prefix + [order[|order| - 1]];
    }
  }

  /** The packets `broadcast` sends: to each recipient, the message MACed with that recipient's key. */
  function Wraps(rs: seq<Replica>, m: ProtMsg, me: Replica, keys: map<Replica, Bytes>, ser: ProtMsg -> Bytes, mac: MacFn): (ps: seq<Packet>)
    requires forall r :: r in rs ==> r in keys
    ensures |ps| == |rs|
  {
    if rs == [] then []
    else
      var last := rs[|rs| - 1];
      Wraps(rs[..|rs| - 1], m, me, keys, ser, mac) + [Outgoing(last, New(m, me, keys[last], ser, mac))]
  }

  /** Packet k of a broadcast goes to recipient k, from `me`, and verifies under that recipient's key. */
  lemma {:induction false} WrapsSealed(rs: seq<Replica>, m: ProtMsg, me: Replica, keys: map<Replica, Bytes>, ser: ProtMsg -> Bytes, mac: MacFn, k: nat)
    requires forall r :: r in rs ==> r in keys
    requires k < |rs|
    ensures var p := Wraps(rs, m, me, keys, ser, mac)[k];
      p.to == rs[k] && p.msg.protmsg == m && p.msg.sender == me && Authentic(p.msg, keys[rs[k]], ser, mac)
  {
    if k < |rs| - 1 {
      WrapsSealed(rs[..|rs| - 1], m, me, keys, ser, mac, k);
    }
  }

  /** A packet from `me`, addressed to a key holder and authenticated under the key shared with it. */
  ghost predicate SealedBy(p: Packet, me: Replica, keys: map<Replica, Bytes>, ser: ProtMsg -> Bytes, mac: MacFn)
  {
    p.to in keys && p.msg.sender == me && Authentic(p.msg, keys[p.to], ser, mac)
  }

  /** Appending the packets of a broadcast to a sealed outbox keeps it sealed. */
  lemma AppendSealed(net0: seq<Packet>, rs: seq<Replica>, m: ProtMsg, me: Replica, keys: map<Replica, Bytes>, ser: ProtMsg -> Bytes, mac: MacFn, net: seq<Packet>)
    requires forall r :: r in rs ==> r in keys
    requires forall k :: 0 <= k < |net0| ==> SealedBy(net0[k], me, keys, ser, mac)
    requires net == net0 + Wraps(rs, m, me, keys, ser, mac)
    ensures forall k :: 0 <= k < |net| ==> SealedBy(net[k], me, keys, ser, mac)
  {
    forall k | 0 <= k < |net| ensures SealedBy(net[k], me, keys, ser, mac) {
      if k >= |net0| {
        WrapsSealed(rs, m, me, keys, ser, mac, k - |net0|);
      }
    }
  }

  lemma RecipientsStep(order: seq<Replica>, i: nat, me: Replica, leader: bool)
    requires i < |order|
    ensures RecipientsOf(order[..i + 1], me, leader) ==
              RecipientsOf(order[..i], me, leader) + (if leader || order[i] != me then [order[i]] else [])
  {
    assert order[..i + 1][..i] == order[..i];
  }

  lemma WrapsSnoc(rs: seq<Replica>, r: Replica, m: ProtMsg, me: Replica, keys: map<Replica, Bytes>, ser: ProtMsg -> Bytes, mac: MacFn)
    requires forall x :: x in rs ==> x in keys
    requires r in keys
    ensures Wraps(rs + [r], m, me, keys, ser, mac) == Wraps(rs, m, me, keys, ser, mac) + [Outgoing(r, New(m, me, keys[r], ser, mac))]
  {
    assert (rs + [r])[..|rs|] == rs;
  }

  function PrepareCount(s: seq<ProtMsg>): nat
  {
    if s == [] then 0 else PrepareCount(s[..|s| - 1]) + (if s[|s| - 1].Prepare? then 1 else 0)
  }

  function EchoCount(s: seq<ProtMsg>): nat
  {
    if s == [] then 0 else EchoCount(s[..|s| - 1]) + (if s[|s| - 1].Echo? then 1 else 0)
  }

  lemma CountsSnoc(s: seq<ProtMsg>, m: ProtMsg)
    ensures PrepareCount(s + [m]) == PrepareCount(s) + (if m.Prepare? then 1 else 0)
    ensures EchoCount(s + [m]) == EchoCount(s) + (if m.Echo? then 1 else 0)
  {
    assert (s + [m])[..|s|] == s;
  }

  /** A history with no Prepare counted holds no Prepare. */
  lemma {:induction false} NoPrepareIn(s: seq<ProtMsg>)
    requires PrepareCount(s) == 0
    ensures forall m :: m in s ==> !m.Prepare?
  {
    if s != [] {
      NoPrepareIn(s[..|s| - 1]);
      assert s == s[..|s| - 1] + [s[|s| - 1]];
    }
  }

  /** How many Echo messages carried `v` so far (absent keys count 0, as `or_insert(0)` does). */
  function Tally(counts: map<Vec<U64>, nat>, v: Vec<U64>): nat
  {
    if v in counts then counts[v] else 0
  }

  /** Some tallied vector has count exactly `c`: the `find(|&(_, &count)| count == c)` of `handle_echo`. */
  predicate HasCount(counts: map<Vec<U64>, nat>, c: int)
  {
    exists v :: v in counts && counts[v] == c
  }

  /** What a node has sent so far, on both transports, with the handlers it keeps. */
  datatype Sends = Sends(net: seq<Packet>, sync: seq<Outgoing<SyncMsg>>, handlers: map<U64, seq<CancelHandler>>)

  /**
   * From `a` to `b` the node sent `net` to servers, then `sync` to the
   * synchronizer, and filed one handler per send, in order, under key 0.
   */
  ghost predicate Appended(a: Sends, b: Sends, net: seq<Packet>, sync: seq<Outgoing<SyncMsg>>)
  {
    && b.net == a.net + net
    && b.sync == a.sync + sync
    && HandlersOf(b.handlers) == HandlersOf(a.handlers) + Tokens(Consensus, |a.net|, |net|) + Tokens(Sync, |a.sync|, |sync|)
    && b.handlers == if net == [] && sync == [] then a.handlers else a.handlers[0 := HandlersOf(b.handlers)]
  }

  /** Server sends followed by synchronizer sends add up. */
  lemma AppendedThen(a: Sends, b: Sends, c: Sends, net: seq<Packet>, sync: seq<Outgoing<SyncMsg>>)
    requires Appended(a, b, net, []) && Appended(b, c, [], sync)
    ensures Appended(a, c, net, sync)
  {
    assert Tokens(Sync, |a.sync|, 0) == [] && Tokens(Consensus, |b.net|, 0) == [];
    assert HandlersOf(c.handlers) == HandlersOf(a.handlers) + Tokens(Consensus, |a.net|, |net|) + Tokens(Sync, |a.sync|, |sync|);
  }

  lemma {:induction false} TokensSplit(channel: Channel, from: nat, x: nat, y: nat)
    ensures Tokens(channel, from, x + y) == Tokens(channel, from, x) + Tokens(channel, from + x, y)
  {
    if y > 0 {
      TokensSplit(channel, from, x, y - 1);
    }
  }

  /** Two runs of server sends add up. */
  lemma AppendedNetThen(a: Sends, b: Sends, c: Sends, net1: seq<Packet>, net2: seq<Packet>)
    requires Appended(a, b, net1, []) && Appended(b, c, net2, [])
    ensures Appended(a, c, net1 + net2, [])
  {
    TokensSplit(Consensus, |a.net|, |net1|, |net2|);
    assert Tokens(Sync, |a.sync|, 0) == [] && Tokens(Sync, |b.sync|, 0) == [];
    assert HandlersOf(c.handlers) == HandlersOf(a.handlers) + Tokens(Consensus, |a.net|, |net1 + net2|) + [];
  }

  /** Sending nothing changes nothing. */
  lemma AppendedNothing(a: Sends)
    ensures Appended(a, a, [], [])
  {
    assert Tokens(Consensus, |a.net|, 0) == [] && Tokens(Sync, |a.sync|, 0) == [];
    assert HandlersOf(a.handlers) + [] + [] == HandlersOf(a.handlers);
  }

  /** An iteration order of a key map: every key once, in an order the map's hashing decides. */
  method KeyOrder(m: map<Replica, Bytes>) returns (order: seq<Replica>)
    ensures forall r :: r in order <==> r in m
    ensures forall i, j :: 0 <= i < j < |order| ==> order[i] != order[j]
  {
    order := [];
    var rest := m.Keys;
    while rest != {}
      invariant rest <= m.Keys
      invariant forall r :: r in order <==> r in m && r !in rest
      invariant forall i, j :: 0 <= i < j < |order| ==> order[i] != order[j]
      decreases |rest|
    {
      var r :| r in rest;
      order := order + [r];
      rest := rest - {r};
    }
  }

  /**
   * A packet one node sent to another passes the receiver's
   * `check_proposal`, provided the two agree on the key they share (as the
   * symmetric key matrix of the configuration generator makes them) and on
   * the MAC and the encoding.
   */
  lemma SentPacketsAuthenticate(sender: Context, receiver: Context, k: nat)
    requires sender.Wf() && k < |sender.netOutbox| && sender.netOutbox[k].to == receiver.myid
    requires sender.myid in receiver.secKeyMap
    requires receiver.secKeyMap[sender.myid] == sender.secKeyMap[receiver.myid]
    requires sender.ser == receiver.ser && sender.mac == receiver.mac
    ensures receiver.CheckProposal(sender.netOutbox[k].msg)
    ensures sender.netOutbox[k].msg.sender == sender.myid
  {
    assert sender.Sealed(sender.netOutbox[k]);
  }

  /** The synchronizer event of `run`'s three-way select that the node reacts to next. */
  datatype Event =
    | ExitSignal(senderDropped: bool)
    | NetRecv(net: Option<WrapperMsg<ProtMsg>>)
    | SyncRecv(sync: Option<SyncMsg>)

  /** What one turn of `run`'s loop leads to: `Failed` is `run` returning an error, `Panicked` a panic in a handler. */
  datatype Control = Continue | Finished | Failed(reason: string) | Panicked

  const NETWORK_CLOSED := "Networking layer has closed"
  /** The exit signal's sender was dropped: the `oneshot` receive error. */
  const EXIT_ERROR := "channel closed"

  class Context {
    const numNodes: Usize
    const myid: Replica
    const numFaults: Usize
    const inpMessage: U64
    const secKeyMap: map<Replica, Bytes>
    /** The iteration order of `sec_key_map`, fixed once the map is built. */
    const peers: seq<Replica>
    const isLeader: bool
    const mac: MacFn
    /** `bincode::serialize` on protocol messages. */
    const ser: ProtMsg -> Bytes

    var cancelHandlers: map<U64, seq<CancelHandler>>
    var netOutbox: seq<Packet>
    var syncOutbox: seq<Outgoing<SyncMsg>>

    var quorum: nat
    var values: seq<U64>
    var echo: bool
    var echoQuorum: nat
    var vecCounts: map<Vec<U64>, nat>

    ghost var broadcasts: seq<ProtMsg>

    ghost function Handlers(): seq<CancelHandler>
      reads this`cancelHandlers
    {
      HandlersOf(cancelHandlers)
    }

    ghost function Snapshot(): Sends
      reads this`netOutbox, this`syncOutbox, this`cancelHandlers
    {
      Sends(netOutbox, syncOutbox, cancelHandlers)
    }

    /** What `spawn` fixes: n > 2f (checked by `validate` before the node starts) and the key order. */
    ghost predicate Configured()
    {
      && 2 * numFaults < numNodes
      && (forall r :: r in peers <==> r in secKeyMap)
      && (forall i, j :: 0 <= i < j < |peers| ==> peers[i] != peers[j])
    }

    ghost function Recipients(): (rs: seq<Replica>)
      requires Configured()
      ensures forall r :: r in rs ==> r in secKeyMap
    {
      RecipientsMembership(peers, myid, isLeader);
      RecipientsOf(peers, myid, isLeader)
    }

    /** The packets one `broadcast` of `m` sends. */
    ghost function BroadcastPackets(m: ProtMsg): seq<Packet>
      requires Configured()
    {
      Wraps(Recipients(), m, myid, secKeyMap, ser, mac)
    }

    /** A packet this node may have sent: from `myid`, MACed with the key it shares with the recipient. */
    ghost predicate Sealed(p: Packet)
    {
      SealedBy(p, myid, secKeyMap, ser, mac)
    }

    /** The bookkeeping every method keeps. */
    ghost predicate Wf()
      reads this`netOutbox, this`syncOutbox, this`cancelHandlers
    {
      && Configured()
      && cancelHandlers.Keys <= {0}
      && |Handlers()| == |netOutbox| + |syncOutbox|
      && (forall k :: 0 <= k < |netOutbox| ==> Sealed(netOutbox[k]))
      && (forall k :: 0 <= k < |syncOutbox| ==> syncOutbox[k].to == 0 && syncOutbox[k].msg.sender == myid)
    }

    /** The node invariant: the bookkeeping and the protocol invariant. */
    ghost predicate Valid()
      reads this
    {
      Wf() && Protocol()
    }

    /**
     * The protocol invariant: only the leader collects values; `quorum` is 0
     * or the number of values and is never 2f+1 between messages; one Prepare,
     * carrying the first 2f+1 values, has gone out iff 2f+1 values arrived;
     * at most one Echo has gone out, and none while `echo` is still set.
     */
    ghost predicate Protocol()
      reads this`quorum, this`values, this`echo, this`broadcasts
    {
      && Configured()
      && (!isLeader ==> values == [] && quorum == 0)
      && (quorum == 0 || (quorum == |values| && quorum != 2 * numFaults + 1))
      && PrepareCount(broadcasts) == (if |values| >= 2 * numFaults + 1 then 1 else 0)
      && (|values| >= 2 * numFaults + 1 ==>
            forall m :: m in broadcasts && m.Prepare? ==> m.msg == Msg(values[..2 * numFaults + 1], myid))
      && EchoCount(broadcasts) <= 1
      && (echo ==> EchoCount(broadcasts) == 0)
    }

    /** The sends of a call, in order: `net` to servers, then `sync` to the synchronizer, one handler each. */
    twostate predicate Emitted(new net: seq<Packet>, new sync: seq<Outgoing<SyncMsg>>)
      reads this
    {
      Appended(old(Snapshot()), Snapshot(), net, sync)
    }

    twostate predicate ProtocolUnchanged()
      reads this
    {
      quorum == old(quorum) && values == old(values) && echo == old(echo) &&
      echoQuorum == old(echoQuorum) && vecCounts == old(vecCounts)
    }

    /** `add_cancel_handler`: append to the list under key 0, creating it if absent. */
    method AddCancelHandler(h: CancelHandler)
      modifies this
      ensures cancelHandlers == old(cancelHandlers)[0 := old(Handlers()) + [h]]
      ensures netOutbox == old(netOutbox) && syncOutbox == old(syncOutbox)
      ensures ProtocolUnchanged() && broadcasts == old(broadcasts)
    {
      var list := if 0 in cancelHandlers then cancelHandlers[0] else [];
      cancelHandlers := cancelHandlers[0 := list + [h]];
    }

    /** `send`: hand one wrapper to the server transport and file its cancel handler. */
    method Send(replica: Replica, w: WrapperMsg<ProtMsg>)
      modifies this
      ensures Emitted([Outgoing(replica, w)], [])
      ensures ProtocolUnchanged() && broadcasts == old(broadcasts)
    {
      var handler := CancelHandler(Consensus, |netOutbox|);
      assert Tokens(Consensus, |netOutbox|, 1) == [handler];
      assert Tokens(Sync, |syncOutbox|, 0) == [];
      assert Handlers() + [handler] + [] == Handlers() + [handler];
      netOutbox := netOutbox + [Outgoing(replica, w)];
      AddCancelHandler(handler);
    }

    /** `sync_send.send(0, …)` followed by `add_cancel_handler`. */
    method NotifySyncer(state: SyncState, value: string)
      requires Wf()
      modifies this
      ensures Wf()
      ensures Emitted([], [Outgoing(0, SyncMsg(myid, state, value))])
      ensures ProtocolUnchanged() && broadcasts == old(broadcasts)
    {
      var handler := CancelHandler(Sync, |syncOutbox|);
      assert Tokens(Consensus, |netOutbox|, 0) == [];
      assert Tokens(Sync, |syncOutbox|, 1) == [handler];
      assert Handlers() + [] + [handler] == Handlers() + [handler];
      syncOutbox := syncOutbox + [Outgoing(0, SyncMsg(myid, state, value))];
      AddCancelHandler(handler);
    }

    /**
     * Where `broadcast` stands after the first `i` keys: it has sent `m` to
     * the recipients among them, in order, and filed one handler per send.
     */
    ghost predicate BroadcastProgress(m: ProtMsg, i: nat, sent: seq<Replica>, s0: Sends)
      reads this
    {
      && i <= |peers|
      && sent == RecipientsOf(peers[..i], myid, isLeader)
      && (forall r :: r in sent ==> r in secKeyMap)
      && Appended(s0, Snapshot(), Wraps(sent, m, myid, secKeyMap, ser, mac), [])
    }

    /** One turn of `broadcast`'s loop: key `i` gets the message unless it is a follower's own id. */
    method BroadcastTo(m: ProtMsg, i: nat, ghost sent: seq<Replica>, ghost s0: Sends) returns (ghost sent': seq<Replica>)
      requires i < |peers| && Configured()
      requires BroadcastProgress(m, i, sent, s0)
      modifies this
      ensures sent' == RecipientsOf(peers[..i + 1], myid, isLeader)
      ensures forall r :: r in sent' ==> r in secKeyMap
      ensures Appended(s0, Snapshot(), Wraps(sent', m, myid, secKeyMap, ser, mac), [])
      ensures ProtocolUnchanged() && broadcasts == old(broadcasts)
    {
      var replica := peers[i];
      RecipientsStep(peers, i, myid, isLeader);
      sent' := sent;
      if isLeader || replica != myid {
        var w := New(m, myid, secKeyMap[replica], ser, mac);
        WrapsSnoc(sent, replica, m, myid, secKeyMap, ser, mac);
        ghost var s1 := Snapshot();
        Send(replica, w);
        AppendedNetThen(s0, s1, Snapshot(), Wraps(sent, m, myid, secKeyMap, ser, mac), [Outgoing(replica, w)]);
        sent' := sent + [replica];
      }
    }

    /** `broadcast`'s loop over the keys of `sec_key_map`, in `peers` order. */
    method SendToPeers(m: ProtMsg) returns (ghost sent: seq<Replica>)
      requires Configured()
      modifies this
      ensures BroadcastProgress(m, |peers|, sent, old(Snapshot()))
      ensures ProtocolUnchanged() && broadcasts == old(broadcasts)
    {
      var i := 0;
      sent := [];
      AppendedNothing(Snapshot());
      while i < |peers|
        invariant BroadcastProgress(m, i, sent, old(Snapshot()))
        invariant ProtocolUnchanged() && broadcasts == old(broadcasts)
      {
        sent := BroadcastTo(m, i, sent, old(Snapshot()));
        i := i + 1;
      }
    }

    /** `broadcast`: wrap `m` for every key holder (the leader included, a follower excepted) and send it. */
    method Broadcast(m: ProtMsg)
      requires Wf()
      modifies this
      ensures Wf()
      ensures Emitted(BroadcastPackets(m), [])
      ensures ProtocolUnchanged() && broadcasts == old(broadcasts) + [m]
    {
      ghost var sent := SendToPeers(m);
      assert peers[..|peers|] == peers;
      broadcasts := broadcasts + [m];
      AppendSealed(old(netOutbox), sent, m, myid, secKeyMap, ser, mac, netOutbox);
    }

    /** `start_init`: broadcast `Init(inp_message)`. */
    method StartInit()
      requires Wf()
      modifies this
      ensures Wf()
      ensures Emitted(BroadcastPackets(Init(inpMessage)), [])
      ensures ProtocolUnchanged() && broadcasts == old(broadcasts) + [Init(inpMessage)]
      ensures old(Valid()) ==> Valid()
    {
      Broadcast(Init(inpMessage));
      CountsSnoc(old(broadcasts), Init(inpMessage));
    }

    /**
     * What `handle_init` does: nothing once `quorum` is 2f+1 or on a
     * follower; otherwise the leader appends the value, and the value that
     * makes 2f+1 resets `quorum` and broadcasts `Prepare` of the values.
     */
    twostate predicate InitEffect(msg: U64)
      requires Configured()
      reads this
    {
      && echo == old(echo) && echoQuorum == old(echoQuorum) && vecCounts == old(vecCounts)
      && if old(quorum) == 2 * numFaults + 1 || !isLeader then
           && values == old(values) && quorum == old(quorum)
           && Emitted([], []) && broadcasts == old(broadcasts)
         else
           && values == old(values) + [msg]
           && if |values| == 2 * numFaults + 1 then
                && quorum == 0
                && Emitted(BroadcastPackets(Prepare(Msg(values, myid))), [])
                && broadcasts == old(broadcasts) + [Prepare(Msg(values, myid))]
              else
                && quorum == |values|
                && Emitted([], []) && broadcasts == old(broadcasts)
    }

    twostate lemma InitKeepsValid(msg: U64)
      requires old(Protocol()) && InitEffect(msg)
      ensures Protocol()
    {
      if old(quorum) != 2 * numFaults + 1 && isLeader {
        var t := 2 * numFaults + 1;
        if |values| == t {
          var p := Prepare(Msg(values, myid));
          CountsSnoc(old(broadcasts), p);
          NoPrepareIn(old(broadcasts));
          assert values[..t] == values;
        } else {
          assert |values| > t ==> values[..t] == old(values)[..t];
        }
      }
    }

    /** `handle_init(msg, sender)`; `sender` only appears in a log line. */
    method HandleInit(msg: U64, sender: Replica)
      requires Wf()
      modifies this
      ensures Wf()
      ensures InitEffect(msg)
      ensures old(Valid()) ==> Valid()
    {
      if quorum == 2 * numFaults + 1 || !isLeader {
        return;
      }
      Collect(msg);
    }

    /** The leader's half of `handle_init`: record the value, and at `2f + 1` values broadcast them as `Prepare`. */
    method Collect(msg: U64)
      requires Wf() && isLeader && quorum != 2 * numFaults + 1
      modifies this
      ensures Wf()
      ensures InitEffect(msg)
      ensures old(Valid()) ==> Valid()
    {
      values := values + [msg];
      quorum := |values|;
      if quorum == 2 * numFaults + 1 {
        quorum := 0;
        Broadcast(Prepare(Msg(values, myid)));
      }
      if old(Protocol()) {
        InitKeepsValid(msg);
      }
    }

    /** What `handle_prepare` does: a follower with `echo` set echoes the vector once; otherwise nothing. */
    twostate predicate PrepareEffect(content: Vec<U64>)
      requires Configured()
      reads this
    {
      && ProtocolFixedButEcho()
      && if !isLeader && old(echo) then
           && !echo
           && Emitted(BroadcastPackets(Echo(Msg(content, myid))), [])
           && broadcasts == old(broadcasts) + [Echo(Msg(content, myid))]
         else
           && echo == old(echo) && Emitted([], []) && broadcasts == old(broadcasts)
    }

    twostate predicate ProtocolFixedButEcho()
      reads this
    {
      quorum == old(quorum) && values == old(values) && echoQuorum == old(echoQuorum) && vecCounts == old(vecCounts)
    }

    twostate lemma PrepareKeepsValid(content: Vec<U64>)
      requires old(Protocol()) && PrepareEffect(content)
      ensures Protocol()
    {
      if !isLeader && old(echo) {
        CountsSnoc(old(broadcasts), Echo(Msg(content, myid)));
      }
    }

    /** `handle_prepare(values, sender_id)`; `sender_id` only appears in a log line. */
    method HandlePrepare(content: Vec<U64>, senderId: Replica)
      requires Wf()
      modifies this
      ensures Wf()
      ensures PrepareEffect(content)
      ensures old(Valid()) ==> Valid()
    {
      if !isLeader {
        if echo {
          Broadcast(Echo(Msg(content, myid)));
          echo := false;
        }
      }
      if old(Protocol()) {
        PrepareKeepsValid(content);
      }
    }

    /** `terminate(data)`: report COMPLETED with `data` to the synchronizer. */
    method Terminate(data: string)
      requires Wf()
      modifies this
      ensures Wf()
      ensures Emitted([], [Outgoing(0, SyncMsg(myid, COMPLETED, data))])
      ensures ProtocolUnchanged() && broadcasts == old(broadcasts)
    {
      NotifySyncer(COMPLETED, data);
    }

    /** The Echo of the amplified vector, if any. */
    ghost function EchoPackets(amplified: Option<Vec<U64>>): seq<Packet>
      requires Configured()
    {
      if amplified.Some? then BroadcastPackets(Echo(Msg(amplified.value, myid))) else []
    }

    /** The synchronizer report of a delivered vector: its median, as `handle_echo` formats it. */
    function Report(delivered: Vec<U64>): SyncMsg
      requires |delivered| > 0
    {
      SyncMsg(myid, COMPLETED, Statistics.MedianText(delivered))
    }

    /** The synchronizer sends of a delivery: none, or one report unless the vector was empty. */
    function Reports(ok: bool, delivered: Option<Vec<U64>>): seq<Outgoing<SyncMsg>>
    {
      if ok && delivered.Some? && |delivered.value| > 0 then [Outgoing(0, Report(delivered.value))] else []
    }

    /**
     * What `handle_echo` does: count one more Echo, and one more for
     * `content`; echo (once) a vector tallied exactly f+1 times; report the
     * median of a vector tallied exactly n-f times. `amplified` and
     * `delivered` are the vectors `find` picked; `ok` is false when the
     * delivered vector is empty, where `mid - 1` underflows.
     */
    twostate predicate EchoEffect(content: Vec<U64>, ok: bool, new amplified: Option<Vec<U64>>, new delivered: Option<Vec<U64>>)
      requires Configured()
      reads this
    {
      && quorum == old(quorum) && values == old(values)
      && echoQuorum == old(echoQuorum) + 1
      && vecCounts == old(vecCounts)[content := Tally(old(vecCounts), content) + 1]
      && (amplified.Some? <==> old(echo) && HasCount(vecCounts, numFaults + 1))
      && (amplified.Some? ==> Tally(vecCounts, amplified.value) == numFaults + 1)
      && echo == (old(echo) && !HasCount(vecCounts, numFaults + 1))
      && (delivered.Some? <==> HasCount(vecCounts, numNodes - numFaults))
      && (delivered.Some? ==> Tally(vecCounts, delivered.value) == numNodes - numFaults)
      && (ok <==> delivered.None? || |delivered.value| > 0)
      && Emitted(EchoPackets(amplified), Reports(ok, delivered))
      && broadcasts == old(broadcasts) + (if amplified.Some? then [Echo(Msg(amplified.value, myid))] else [])
    }

    /** The amplification step of `handle_echo`: echo a vector tallied exactly f+1 times, once. */
    method Amplify() returns (ghost amplified: Option<Vec<U64>>)
      requires Wf()
      modifies this
      ensures Wf()
      ensures quorum == old(quorum) && values == old(values)
      ensures echoQuorum == old(echoQuorum) && vecCounts == old(vecCounts)
      ensures amplified.Some? <==> old(echo) && HasCount(vecCounts, numFaults + 1)
      ensures amplified.Some? ==> Tally(vecCounts, amplified.value) == numFaults + 1
      ensures echo == (old(echo) && !HasCount(vecCounts, numFaults + 1))
      ensures Emitted(EchoPackets(amplified), [])
      ensures broadcasts == old(broadcasts) + (if amplified.Some? then [Echo(Msg(amplified.value, myid))] else [])
      ensures old(Protocol()) ==> Protocol()
    {
      var fPlusOneResponses := numFaults + 1;
      amplified := None;
      AppendedNothing(Snapshot());
      if HasCount(vecCounts, fPlusOneResponses) {
        var vec :| vec in vecCounts && vecCounts[vec] == fPlusOneResponses;
        if echo {
          Broadcast(Echo(Msg(vec, myid)));
          echo := false;
          amplified := Some(vec);
          CountsSnoc(old(broadcasts), Echo(Msg(vec, myid)));
        }
      }
    }

    /** The delivery step of `handle_echo`: report the median of a vector tallied exactly n-f times. */
    method Deliver() returns (ok: bool, ghost delivered: Option<Vec<U64>>)
      requires Wf()
      modifies this
      ensures Wf()
      ensures ProtocolUnchanged() && broadcasts == old(broadcasts)
      ensures delivered.Some? <==> HasCount(vecCounts, numNodes - numFaults)
      ensures delivered.Some? ==> Tally(vecCounts, delivered.value) == numNodes - numFaults
      ensures ok <==> delivered.None? || |delivered.value| > 0
      ensures Emitted([], Reports(ok, delivered))
    {
      var nMinusFResponses := numNodes - numFaults;
      ok := true;
      delivered := None;
      AppendedNothing(Snapshot());
      if HasCount(vecCounts, nMinusFResponses) {
        var vec2 :| vec2 in vecCounts && vecCounts[vec2] == nMinusFResponses;
        delivered := Some(vec2);
        if |vec2| == 0 {
          ok := false;
        } else {
          var result := Statistics.MedianText(vec2);
          Terminate(result);
        }
      }
    }

    /** `handle_echo(values, sender_id)`; `sender_id` only appears in a log line. */
    method HandleEcho(content: Vec<U64>, senderId: Replica)
      returns (ok: bool, ghost amplified: Option<Vec<U64>>, ghost delivered: Option<Vec<U64>>)
      requires Wf()
      modifies this
      ensures Wf()
      ensures EchoEffect(content, ok, amplified, delivered)
      ensures old(Protocol()) ==> Protocol()
    {
      echoQuorum := echoQuorum + 1;
      vecCounts := vecCounts[content := Tally(vecCounts, content) + 1];
      ghost var s0 := Snapshot();
      amplified := Amplify();
      ghost var s1 := Snapshot();
      ok, delivered := Deliver();
      AppendedThen(s0, s1, Snapshot(), EchoPackets(amplified), Reports(ok, delivered));
    }

    /** `check_proposal`: verify the wrapper's MAC under the key shared with its sender. */
    function CheckProposal(w: WrapperMsg<ProtMsg>): (accepted: bool)
      requires w.sender in secKeyMap
    {
      Authentic(w, secKeyMap[w.sender], ser, mac)
    }

    /**
     * `check_proposal` accepts exactly the wrappers that `WrapperMsg::new`
     * builds with the key this node shares with the claimed sender: no one
     * without that key can pass as the sender.
     */
    lemma AcceptedIffSealed(w: WrapperMsg<ProtMsg>)
      requires w.sender in secKeyMap
      ensures CheckProposal(w) <==> w == New(w.protmsg, w.sender, secKeyMap[w.sender], ser, mac)
    {
      AuthenticIffSealed(w, secKeyMap[w.sender], ser, mac);
    }

    /** A wrapper built with the key this node shares with its sender passes `check_proposal`. */
    lemma AcceptsSealed(m: ProtMsg, sender: Replica)
      requires sender in secKeyMap
      ensures CheckProposal(New(m, sender, secKeyMap[sender], ser, mac))
    {
      NewIsAuthentic(m, sender, secKeyMap[sender], ser, mac);
    }

    /**
     * `process_msg`: authenticate, then dispatch: Init with the wrapper's
     * sender, Prepare and Echo with the payload's origin. `ok` is false only
     * where the tokio task panics: an unknown sender or an empty delivered vector.
     */
    twostate predicate Processed(new w: WrapperMsg<ProtMsg>, ok: bool, new amplified: Option<Vec<U64>>, new delivered: Option<Vec<U64>>)
      requires Configured()
      reads this
    {
      && (w.sender !in secKeyMap ==> !ok && unchanged(this))
      && (w.sender in secKeyMap && !CheckProposal(w) ==> ok && unchanged(this))
      && (w.sender in secKeyMap && CheckProposal(w) ==>
            match w.protmsg
            case Init(v) => ok && InitEffect(v)
            case Prepare(msg) => ok && PrepareEffect(msg.content)
            case Echo(msg) => EchoEffect(msg.content, ok, amplified, delivered))
    }

    method ProcessMsg(w: WrapperMsg<ProtMsg>)
      returns (ok: bool, ghost amplified: Option<Vec<U64>>, ghost delivered: Option<Vec<U64>>)
      requires Wf()
      modifies this
      ensures Wf()
      ensures Processed(w, ok, amplified, delivered)
      ensures old(Valid()) ==> Valid()
    {
      amplified, delivered := None, None;
      if w.sender !in secKeyMap {
        return false, None, None;
      }
      if CheckProposal(w) {
        ok := true;
        match w.protmsg
        case Init(mainMsg) =>
          HandleInit(mainMsg, w.sender);
        case Prepare(msg) =>
          HandlePrepare(msg.content, msg.origin);
        case Echo(msg) =>
          ok, amplified, delivered := HandleEcho(msg.content, msg.origin);
      } else {
        ok := true;
      }
    }

    /** The reaction of `run` to one synchronizer message: START starts the protocol, STOP ends the loop. */
    method SyncStep(msg: SyncMsg) returns (c: Control)
      requires Wf()
      modifies this
      ensures Wf()
      ensures msg.state == START ==>
        && c == Continue
        && Emitted(BroadcastPackets(Init(inpMessage)), [Outgoing(0, SyncMsg(myid, STARTED, ""))])
        && ProtocolUnchanged() && broadcasts == old(broadcasts) + [Init(inpMessage)]
      ensures msg.state != START ==> unchanged(this) && c == (if msg.state == STOP then Finished else Continue)
      ensures old(Valid()) ==> Valid()
    {
      match msg.state
      case START =>
        ghost var s0 := Snapshot();
        StartInit();
        ghost var s1 := Snapshot();
        NotifySyncer(STARTED, "");
        AppendedThen(s0, s1, Snapshot(), BroadcastPackets(Init(inpMessage)), [Outgoing(0, SyncMsg(myid, STARTED, ""))]);
        c := Continue;
      case STOP =>
        c := Finished;
      case _ =>
        c := Continue;
    }

    /** One turn of `run`'s select loop. */
    method Step(e: Event) returns (c: Control, ghost amplified: Option<Vec<U64>>, ghost delivered: Option<Vec<U64>>)
      requires Wf()
      modifies this
      ensures Wf()
      ensures old(netOutbox) <= netOutbox && old(syncOutbox) <= syncOutbox
      ensures match e
        case ExitSignal(dropped) => unchanged(this) && c == (if dropped then Failed(EXIT_ERROR) else Finished)
        case NetRecv(None) => unchanged(this) && c == Failed(NETWORK_CLOSED)
        case NetRecv(Some(w)) =>
          && (c == Continue || c == Panicked)
          && Processed(w, c == Continue, amplified, delivered)
        case SyncRecv(None) => unchanged(this) && c == Failed(NETWORK_CLOSED)
        case SyncRecv(Some(m)) =>
          && (m.state == START ==>
                && c == Continue
                && Emitted(BroadcastPackets(Init(inpMessage)), [Outgoing(0, SyncMsg(myid, STARTED, ""))])
                && ProtocolUnchanged() && broadcasts == old(broadcasts) + [Init(inpMessage)])
          && (m.state != START ==> unchanged(this) && c == (if m.state == STOP then Finished else Continue))
      ensures old(Valid()) ==> Valid()
    {
      amplified, delivered := None, None;
      match e
      case ExitSignal(dropped) =>
        c := if dropped then Failed(EXIT_ERROR) else Finished;
      case NetRecv(None) =>
        c := Failed(NETWORK_CLOSED);
      case NetRecv(Some(w)) =>
        var ok;
        ok, amplified, delivered := ProcessMsg(w);
        c := if ok then Continue else Panicked;
      case SyncRecv(None) =>
        c := Failed(NETWORK_CLOSED);
      case SyncRecv(Some(m)) =>
        c := SyncStep(m);
    }

    /**
     * `run`: announce ALIVE to the synchronizer, then take the events in
     * order until one ends the loop; `handled` is how many were taken.
     * Running out of events leaves the node waiting (`Continue`).
     */
    method Run(events: seq<Event>) returns (c: Control, handled: nat)
      requires Wf()
      modifies this
      ensures Wf()
      ensures old(Valid()) ==> Valid()
      ensures |old(syncOutbox)| < |syncOutbox| && syncOutbox[|old(syncOutbox)|] == Outgoing(0, SyncMsg(myid, ALIVE, ""))
      ensures old(netOutbox) <= netOutbox && old(syncOutbox) <= syncOutbox
      ensures handled <= |events|
      ensures c == Continue ==> handled == |events|
      ensures c != Continue ==> 0 < handled
      ensures c == Finished ==>
        || events[handled - 1] == ExitSignal(false)
        || (events[handled - 1].SyncRecv? && events[handled - 1].sync.Some? && events[handled - 1].sync.value.state == STOP)
    {
      NotifySyncer(ALIVE, "");
      ghost var k0 := |old(syncOutbox)|;
      c := Continue;
      handled := 0;
      while handled < |events| && c == Continue
        invariant handled <= |events|
        invariant Wf()
        invariant old(Valid()) ==> Valid()
        invariant k0 < |syncOutbox| && syncOutbox[k0] == Outgoing(0, SyncMsg(myid, ALIVE, ""))
        invariant old(netOutbox) <= netOutbox && old(syncOutbox) <= syncOutbox
        invariant c != Continue ==> 0 < handled
        invariant c == Finished ==>
          || events[handled - 1] == ExitSignal(false)
          || (events[handled - 1].SyncRecv? && events[handled - 1].sync.Some? && events[handled - 1].sync.value.state == STOP)
      {
        var next, _, _ := Step(events[handled]);
        c := next;
        handled := handled + 1;
      }
    }

    /**
     * `spawn` followed by the start of its tokio task: the node's numbers and keys
     * come from `config` (whose `validate` passed, so n > 2f), the leader is
     * replica 0. The source keeps the raw bytes in `inp_message` and sends
     * them in `Init`, whose content here is a `u64`; the model stores their
     * big-endian number, the value `spawn` computes as `number`.
     * `Context` (context.rs:20-43) declares none of the fields the handlers
     * use (`quorum`, `values`, `echo`, `echo_quorum`, `vec_counts`); they
     * start at 0 or empty, except `echo`, which is the parameter `echo0`.
     */
    constructor Spawn(config: Node, message: Bytes, echo0: bool, mac: MacFn)
      requires config.id in config.netMap
      requires |message| <= 8
      requires 2 * config.numFaults < config.numNodes
      ensures numNodes == config.numNodes && myid == config.id && numFaults == config.numFaults
      ensures isLeader <==> config.id == 0
      ensures secKeyMap == config.skMap
      ensures inpMessage == BigEndian.Value(message + seq(8 - |message|, _ => 0))
      ensures this.mac == mac && ser == Serialize
      ensures netOutbox == [] && syncOutbox == [] && cancelHandlers == map[]
      ensures quorum == 0 && values == [] && echo == echo0 && echoQuorum == 0 && vecCounts == map[]
      ensures broadcasts == []
      ensures Valid()
    {
      var number := BigEndian.VecToU64BigEndian(message);
      var order := KeyOrder(config.skMap);
      numNodes := config.numNodes;
      myid := config.id;
      numFaults := config.numFaults;
      inpMessage := number;
      secKeyMap := config.skMap;
      peers := order;
      isLeader := config.id == 0;
      this.mac := mac;
      ser := Serialize;
      cancelHandlers := map[];
      netOutbox := [];
      syncOutbox := [];
      quorum := 0;
      values := [];
      echo := echo0;
      echoQuorum := 0;
      vecCounts := map[];
      broadcasts := [];
    }
  }
}
