/**
 * The message intake and termination of the reliable-broadcast node
 * (consensus/rbc/src/node/process.rs). The rest of that node's context is
 * not part of this model: what it needs here is its id, its key map, the
 * synchronizer transport and its cancel handlers. `handle_ping` is not part
 * of this model either; its calls are recorded, in order, in `pinged`.
 */
module RbcNode {
  import opened Ints
  import opened Crypto
  import opened Transport
  import opened SyncTypes
  import opened Wire
  import opened RbcMsg

  class Context {
    const myid: Replica
    const secKeyMap: map<Replica, Bytes>
    const mac: MacFn
    /** `bincode::serialize` on protocol messages. */
    const ser: ProtMsg -> Bytes

    var syncOutbox: seq<Outgoing<SyncMsg>>
    var cancelHandlers: map<U64, seq<CancelHandler>>
    var pinged: seq<Msg>

    constructor (myid: Replica, secKeyMap: map<Replica, Bytes>, mac: MacFn)
      ensures this.myid == myid && this.secKeyMap == secKeyMap && this.mac == mac && ser == Serialize
      ensures syncOutbox == [] && cancelHandlers == map[] && pinged == []
    {
      this.myid := myid;
      this.secKeyMap := secKeyMap;
      this.mac := mac;
      ser := Serialize;
      syncOutbox := [];
      cancelHandlers := map[];
      pinged := [];
    }

    /** `check_proposal`: verify the wrapper's MAC under the key shared with its sender. */
    function CheckProposal(w: WrapperMsg<ProtMsg>): (accepted: bool)
      requires w.sender in secKeyMap
    {
      Authentic(w, secKeyMap[w.sender], ser, mac)
    }

    /**
     * `check_proposal` accepts exactly the wrappers that `WrapperMsg::new`
     * builds with the key this node shares with the claimed sender: no one
     * without that key can pass as the sender.
     */
    lemma AcceptedIffSealed(w: WrapperMsg<ProtMsg>)
      requires w.sender in secKeyMap
      ensures CheckProposal(w) <==> w == New(w.protmsg, w.sender, secKeyMap[w.sender], ser, mac)
    {
      AuthenticIffSealed(w, secKeyMap[w.sender], ser, mac);
    }

    /** A wrapper built with the key this node shares with its sender passes `check_proposal`. */
    lemma AcceptsSealed(m: ProtMsg, sender: Replica)
      requires sender in secKeyMap
      ensures CheckProposal(New(m, sender, secKeyMap[sender], ser, mac))
    {
      NewIsAuthentic(m, sender, secKeyMap[sender], ser, mac);
    }

    /**
     * `process_msg`: an authenticated Ping goes to `handle_ping` with its
     * inner message; anything else is dropped. `ok` is false where the tokio task
     * panics: a sender without a key.
     */
    method ProcessMsg(w: WrapperMsg<ProtMsg>) returns (ok: bool)
      modifies this
      ensures w.sender !in secKeyMap ==> !ok && unchanged(this)
      ensures w.sender in secKeyMap && !CheckProposal(w) ==> ok && unchanged(this)
      ensures w.sender in secKeyMap && CheckProposal(w) ==>
        && ok
        && pinged == old(pinged) + [w.protmsg.msg]
        && syncOutbox == old(syncOutbox) && cancelHandlers == old(cancelHandlers)
    {
      if w.sender !in secKeyMap {
        return false;
      }
      ok := true;
      if CheckProposal(w) {
        match w.protmsg
        case Ping(mainMsg, rep) =>
          pinged := pinged + [mainMsg];
      }
    }

    /** `terminate(data)`: report COMPLETED with `data` to synchronizer 0 and file the handler. */
    method Terminate(data: string)
      modifies this
      ensures syncOutbox == old(syncOutbox) + [Outgoing(0, SyncMsg(myid, COMPLETED, data))]
      ensures cancelHandlers == old(cancelHandlers)[0 := HandlersOf(old(cancelHandlers)) + [CancelHandler(Sync, |old(syncOutbox)|)]]
      ensures pinged == old(pinged)
    {
      var handler := CancelHandler(Sync, |syncOutbox|);
      syncOutbox := syncOutbox + [Outgoing(0, SyncMsg(myid, COMPLETED, data))];
      cancelHandlers := cancelHandlers[0 := HandlersOf(cancelHandlers) + [handler]];
    }
  }
}
