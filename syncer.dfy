/**
 * The synchronizer of node/src/syncer.rs: it waits until every server is
 * ALIVE, broadcasts START, collects COMPLETED reports with their values and
 * arrival times, and once ⌊2n/3⌋+1 servers have reported it judges whether
 * they agree and broadcasts STOP.
 *
 * Clock readings arrive as the `now` parameter of each step. The judgement,
 * which the source only writes to its log, is recorded in `verdicts`.
 */
module Synchronizer {
  import opened Ints
  import opened Wrappers
  import opened Transport
  import opened SyncTypes
  import Sorting

  /** What the synchronizer concluded when it stopped the run. */
  datatype Verdict =
    | Agreement(elapsed: seq<int>, reported: set<string>)
    | Disagreement(reported: set<string>)

  /** One message to each of the replicas `0 .. n-1`, in order. */
  function Fanout(m: SyncMsg, n: Usize): (out: seq<Outgoing<SyncMsg>>)
    ensures |out| == n
    ensures forall i :: 0 <= i < n ==> out[i] == Outgoing(i, m)
  {
    if n == 0 then [] else Fanout(m, n - 1) + [Outgoing(n - 1, m)]
  }

  /** The elapsed times of the reporters in `order`, measured from `start`. */
  function Differences(order: seq<Replica>, timings: map<Replica, nat>, start: nat): (d: seq<int>)
    requires forall r :: r in order ==> r in timings
    ensures |d| == |order|
    ensures forall i :: 0 <= i < |order| ==> d[i] == timings[order[i]] - start
  {
    if order == [] then []
    else Differences(order[..|order| - 1], timings, start) + [timings[order[|order| - 1]] - start]
  }

  lemma DifferencesSnoc(order: seq<Replica>, r: Replica, timings: map<Replica, nat>, start: nat)
    requires forall x :: x in order ==> x in timings
    requires r in timings
    ensures Differences(order + [r], timings, start) == Differences(order, timings, start) + [timings[r] - start]
  {
    assert (order + [r])[..|order|] == order;
  }

  /** `order` lists the keys of `timings`, each once. */
  ghost predicate Enumerates(order: seq<Replica>, timings: map<Replica, nat>)
  {
    && (forall r :: r in order <==> r in timings)
    && Distinct(order)
  }

  /** No replica appears twice in `order`. */
  ghost predicate Distinct(order: seq<Replica>)
  {
    forall i, j :: 0 <= i < j < |order| ==> order[i] != order[j]
  }

  /** Midway through a scan of `timings`: `order` lists, each once, the replicas not left in `rest`. */
  ghost predicate Visited(order: seq<Replica>, rest: set<Replica>, timings: map<Replica, nat>)
  {
    && rest <= timings.Keys
    && (forall r :: r in order <==> r in timings && r !in rest)
    && Distinct(order)
  }

  /** Every report arrived after the start: `time - start_time` does not underflow. */
  predicate NotBefore(timings: map<Replica, nat>, start: nat)
  {
    forall r :: r in timings ==> start <= timings[r]
  }

  /** The reported values, as a set: `set_of_reported_values`. */
  method ReportedValues(values: map<Replica, string>) returns (reported: set<string>)
    ensures reported == values.Values
  {
    reported := {};
    var rest := values.Keys;
    while rest != {}
      invariant rest <= values.Keys
      invariant forall v :: v in reported <==> exists r :: r in values && r !in rest && values[r] == v
      decreases |rest|
    {
      var r :| r in rest;
      reported := reported + {values[r]};
      rest := rest - {r};
    }
  }

  /**
   * The sorted elapsed times: one `time - start_time` per reporter, in the
   * map's iteration order `order`, then sorted. The subtraction is on
   * unsigned integers: `None` is its underflow panic.
   */
  method ElapsedTimes(timings: map<Replica, nat>, start: nat) returns (elapsed: Option<seq<int>>, ghost order: seq<Replica>)
    ensures Enumerates(order, timings)
    ensures elapsed.Some? <==> NotBefore(timings, start)
    ensures elapsed.Some? ==> elapsed.value == Sorting.Sort(Differences(order, timings, start))
  {
    var times: seq<int> := [];
    order := [];
    var rest := timings.Keys;
    while rest != {}
      invariant Visited(order, rest, timings)
      invariant times == Differences(order, timings, start)
      invariant forall r :: r in order ==> start <= timings[r]
      decreases |rest|
    {
      var r :| r in rest;
      if timings[r] < start {
        CompleteEnumeration(order, rest, timings);
        return None, order + SetToSeq(rest);
      }
      ScanStep(order, rest, timings, r);
      DifferencesSnoc(order, r, timings, start);
      times := times + [timings[r] - start];
      order := order + [r];
      rest := rest - {r};
    }
    elapsed := Some(Sorting.Sort(times));
  }

  /** Visiting one more replica keeps `order` the distinct list of those visited. */
  lemma ScanStep(order: seq<Replica>, rest: set<Replica>, timings: map<Replica, nat>, r: Replica)
    requires Visited(order, rest, timings) && r in rest
    ensures Visited(order + [r], rest - {r}, timings)
  {
  }

  /** Some listing of a finite set of replicas, each once. */
  ghost function SetToSeq(s: set<Replica>): (order: seq<Replica>)
    ensures forall r :: r in order <==> r in s
    ensures Distinct(order)
    decreases |s|
  {
    if s == {} then []
    else
      var r :| r in s;
      [r] + SetToSeq(s - {r})
  }

  /**
   * The verdict on the reports `timings` and `values`: disagreement iff
   * more than one distinct value was reported; on agreement, the elapsed
   * times in ascending order, one per reporter.
   */
  ghost predicate Judged(v: Verdict, timings: map<Replica, nat>, values: map<Replica, string>, start: nat)
  {
    && v.reported == values.Values
    && (v.Disagreement? <==> |values.Values| > 1)
    && (v.Agreement? ==>
          exists order :: Enumerates(order, timings) && v.elapsed == Sorting.Sort(Differences(order, timings, start)))
  }

  /** Listing the replicas not yet visited after those visited enumerates the map. */
  lemma CompleteEnumeration(order: seq<Replica>, rest: set<Replica>, timings: map<Replica, nat>)
    requires Visited(order, rest, timings)
    ensures Enumerates(order + SetToSeq(rest), timings)
  {
    var tail := SetToSeq(rest);
    var o := order + tail;
    forall i, j | 0 <= i < j < |o| ensures o[i] != o[j] {
      if j < |order| {
      } else if i >= |order| {
        assert o[i] == tail[i - |order|] && o[j] == tail[j - |order|];
      } else {
        assert o[i] in order && o[j] in tail;
      }
    }
  }

  /** A list of distinct replicas holds each replica at most once. */
  lemma {:induction false} DistinctCount(order: seq<Replica>, x: Replica)
    requires Distinct(order)
    ensures multiset(order)[x] == if x in order then 1 else 0
  {
    if order != [] {
      var front := order[..|order| - 1];
      var last := order[|order| - 1];
      assert order == front + [last];
      DistinctCount(front, x);
      assert last !in front by {
        forall i | 0 <= i < |front| ensures front[i] != last {
          assert front[i] == order[i];
        }
      }
    }
  }

  /** Two enumerations of the same map list the same replicas. */
  lemma EnumerationsPermute(o1: seq<Replica>, o2: seq<Replica>, timings: map<Replica, nat>)
    requires Enumerates(o1, timings) && Enumerates(o2, timings)
    ensures multiset(o1) == multiset(o2)
  {
    forall x ensures multiset(o1)[x] == multiset(o2)[x] {
      DistinctCount(o1, x);
      DistinctCount(o2, x);
    }
  }

  /** The elapsed times of two lists of reporters, one after the other. */
  lemma DifferencesConcat(a: seq<Replica>, b: seq<Replica>, timings: map<Replica, nat>, start: nat)
    requires forall r :: r in a ==> r in timings
    requires forall r :: r in b ==> r in timings
    ensures Differences(a + b, timings, start) == Differences(a, timings, start) + Differences(b, timings, start)
  {
    assert forall r :: r in a + b ==> r in a || r in b;
  }

  /** Taking element `k` out of a list takes one copy of it out of its multiset. */
  lemma RemoveAt(o: seq<Replica>, k: nat)
    requires k < |o|
    ensures o == o[..k] + [o[k]] + o[k + 1..]
    ensures multiset(o[..k] + o[k + 1..]) == multiset(o) - multiset{o[k]}
  {
    assert o == o[..k] + [o[k]] + o[k + 1..];
  }

  lemma DifferencesSingleton(r: Replica, timings: map<Replica, nat>, start: nat)
    requires r in timings
    ensures Differences([r], timings, start) == [timings[r] - start]
  {
    assert [r][..0] == [];
  }

  /** Taking reporter `x` out of a list takes its one elapsed time out. */
  lemma DifferencesRemove(left: seq<Replica>, x: Replica, right: seq<Replica>, timings: map<Replica, nat>, start: nat)
    requires forall r :: r in left ==> r in timings
    requires forall r :: r in right ==> r in timings
    requires x in timings
    ensures multiset(Differences(left + [x] + right, timings, start))
         == multiset(Differences(left + right, timings, start)) + multiset{timings[x] - start}
  {
    DifferencesSingleton(x, timings, start);
    DifferencesConcat(left, [x], timings, start);
    DifferencesConcat(left + [x], right, timings, start);
    DifferencesConcat(left, right, timings, start);
  }

  /** Reordering the reporters reorders their elapsed times the same way. */
  lemma {:induction false} PermutedDifferences(o1: seq<Replica>, o2: seq<Replica>, timings: map<Replica, nat>, start: nat)
    requires forall r :: r in o1 ==> r in timings
    requires forall r :: r in o2 ==> r in timings
    requires multiset(o1) == multiset(o2)
    ensures multiset(Differences(o1, timings, start)) == multiset(Differences(o2, timings, start))
  {
    if o1 == [] {
      assert |o2| == |multiset(o2)| == 0;
    } else {
      var last := |o1| - 1;
      var x := o1[last];
      assert x in multiset(o2);
      var k :| 0 <= k < |o2| && o2[k] == x;
      RemoveAt(o1, last);
      RemoveAt(o2, k);
      var l1, r1, l2, r2 := o1[..last], o1[last + 1..], o2[..k], o2[k + 1..];
      assert forall r :: r in l1 + r1 ==> r in o1;
      assert forall r :: r in l2 + r2 ==> r in o2;
      PermutedDifferences(l1 + r1, l2 + r2, timings, start);
      DifferencesRemove(l1, x, r1, timings, start);
      DifferencesRemove(l2, x, r2, timings, start);
    }
  }

  /**
   * The sorted elapsed times do not depend on the map's iteration order:
   * every enumeration of the reports yields the same list.
   */
  lemma ElapsedOrderIrrelevant(o1: seq<Replica>, o2: seq<Replica>, timings: map<Replica, nat>, start: nat)
    requires Enumerates(o1, timings) && Enumerates(o2, timings)
    ensures Sorting.Sort(Differences(o1, timings, start)) == Sorting.Sort(Differences(o2, timings, start))
  {
    EnumerationsPermute(o1, o2, timings);
    PermutedDifferences(o1, o2, timings, start);
    Sorting.SortPermutationInvariant(Differences(o1, timings, start), Differences(o2, timings, start));
  }

  /** An event the synchronizer's select loop reacts to. */
  datatype Event =
    | ExitSignal(senderDropped: bool)
    | Recv(msg: Option<SyncMsg>, now: nat)

  /** What one turn of the loop leads to: `Failed` is `run` returning an error, `Panicked` a panic. */
  datatype Control = Continue | Finished | Failed(reason: string) | Panicked

  const NETWORK_CLOSED := "Networking layer has closed"
  const EXIT_ERROR := "channel closed"

  class Syncer {
    /** The number of servers: the size of the address map, fixed at spawn. */
    const numNodes: Usize
    var startTime: nat
    var alive: set<Replica>
    var timings: map<Replica, nat>
    var values: map<Replica, string>
    var outbox: seq<Outgoing<SyncMsg>>
    var cancelHandlers: seq<CancelHandler>
    var verdicts: seq<Verdict>

    /** How many reports stop the run: `2n/3 + 1`, rounded down. */
    function StopThreshold(): nat
    {
      2 * numNodes / 3 + 1
    }

    /** Every send has left its cancel handler, in order. */
    ghost predicate Valid()
      reads this
    {
      cancelHandlers == Tokens(Sync, 0, |outbox|)
    }

    /** `spawn`: `num_nodes` is the size of the address map; everything else starts empty. */
    constructor Spawn(netMapSize: Usize)
      ensures numNodes == netMapSize
      ensures startTime == 0 && alive == {} && timings == map[] && values == map[]
      ensures outbox == [] && cancelHandlers == [] && verdicts == []
      ensures Valid()
    {
      numNodes := netMapSize;
      startTime := 0;
      alive := {};
      timings := map[];
      values := map[];
      outbox := [];
      cancelHandlers := [];
      verdicts := [];
    }

    /** `broadcast`: send `m` to each replica `0 .. num_nodes-1`, filing one handler per send. */
    method Broadcast(m: SyncMsg)
      requires Valid()
      modifies this
      ensures Valid()
      ensures outbox == old(outbox) + Fanout(m, numNodes)
      ensures startTime == old(startTime) && alive == old(alive) && timings == old(timings)
      ensures values == old(values) && verdicts == old(verdicts)
    {
      var replica: Usize := 0;
      while replica < numNodes
        invariant replica <= numNodes
        invariant outbox == old(outbox) + Fanout(m, replica)
        invariant Valid()
        invariant startTime == old(startTime) && alive == old(alive) && timings == old(timings)
        invariant values == old(values) && verdicts == old(verdicts)
      {
        var handler := CancelHandler(Sync, |outbox|);
        outbox := outbox + [Outgoing(replica, m)];
        AddCancelHandler(handler);
        replica := replica + 1;
      }
    }

    /** `add_cancel_handler`: push onto the list. */
    method AddCancelHandler(h: CancelHandler)
      modifies this
      ensures cancelHandlers == old(cancelHandlers) + [h]
      ensures outbox == old(outbox) && startTime == old(startTime) && alive == old(alive)
      ensures timings == old(timings) && values == old(values) && verdicts == old(verdicts)
    {
      cancelHandlers := cancelHandlers + [h];
    }

    /**
     * The ALIVE arm: the sender joins the alive set and, whenever the set then
     * holds `num_nodes` replicas, START goes to every server and the clock
     * restarts at `now`. Nothing guards against a repeated trigger.
     */
    method Alive(sender: Replica, now: nat)
      requires Valid()
      modifies this
      ensures Valid()
      ensures alive == old(alive) + {sender}
      ensures timings == old(timings) && values == old(values) && verdicts == old(verdicts)
      ensures |alive| == numNodes ==>
                outbox == old(outbox) + Fanout(SyncMsg(numNodes, START, ""), numNodes) && startTime == now
      ensures |alive| != numNodes ==> outbox == old(outbox) && startTime == old(startTime)
    {
      alive := alive + {sender};
      if |alive| == numNodes {
        Broadcast(SyncMsg(numNodes, START, ""));
        startTime := now;
      }
    }

    /**
     * What the COMPLETED arm does once ⌊2n/3⌋+1 servers have reported: judge
     * the reports and send STOP to every server. `ok` is false on the
     * underflow panic of an elapsed time, which leaves the outbox and the
     * verdicts as they were.
     */
    method Conclude() returns (ok: bool)
      requires Valid()
      modifies this
      ensures Valid()
      ensures ok <==> NotBefore(timings, startTime)
      ensures startTime == old(startTime) && alive == old(alive) && timings == old(timings) && values == old(values)
      ensures !ok ==> outbox == old(outbox) && verdicts == old(verdicts)
      ensures ok ==> outbox == old(outbox) + Fanout(SyncMsg(numNodes, STOP, ""), numNodes)
      ensures ok ==> |verdicts| == |old(verdicts)| + 1 && verdicts[..|old(verdicts)|] == old(verdicts)
      ensures ok ==> Judged(verdicts[|old(verdicts)|], timings, values, startTime)
    {
      var elapsed, order := ElapsedTimes(timings, startTime);
      if elapsed.None? {
        return false;
      }
      var reported := ReportedValues(values);
      var verdict := if |reported| > 1 then Disagreement(reported) else Agreement(elapsed.value, reported);
      verdicts := verdicts + [verdict];
      Broadcast(SyncMsg(numNodes, STOP, ""));
      return true;
    }

    /**
     * The reaction to one server message at clock reading `now`. ALIVE
     * grows the alive set and, whenever it then holds `num_nodes` replicas,
     * broadcasts START and restarts the clock; COMPLETED records the time and
     * the value and, whenever exactly ⌊2n/3⌋+1 servers have then reported,
     * judges agreement and broadcasts STOP. `ok` is false on the underflow
     * panic of an elapsed time.
     */
    twostate predicate Handled(msg: SyncMsg, now: nat, ok: bool)
      reads this
    {
      && (msg.state == ALIVE ==>
            && ok
            && alive == old(alive) + {msg.sender}
            && timings == old(timings) && values == old(values) && verdicts == old(verdicts)
            && if |alive| == numNodes then
                 outbox == old(outbox) + Fanout(SyncMsg(numNodes, START, ""), numNodes) && startTime == now
               else
                 outbox == old(outbox) && startTime == old(startTime))
      && (msg.state == COMPLETED ==>
            && alive == old(alive) && startTime == old(startTime)
            && timings == old(timings)[msg.sender := now]
            && values == old(values)[msg.sender := msg.value]
            && (|timings| != StopThreshold() ==> ok && outbox == old(outbox) && verdicts == old(verdicts))
            && (|timings| == StopThreshold() ==>
                  && (ok <==> NotBefore(timings, startTime))
                  && (!ok ==> outbox == old(outbox) && verdicts == old(verdicts))
                  && (ok ==> && outbox == old(outbox) + Fanout(SyncMsg(numNodes, STOP, ""), numNodes)
                             && |verdicts| == |old(verdicts)| + 1
                             && verdicts[..|old(verdicts)|] == old(verdicts)
                             && Judged(verdicts[|old(verdicts)|], timings, values, startTime))))
      && (msg.state != ALIVE && msg.state != COMPLETED ==>
            && ok && alive == old(alive) && startTime == old(startTime) && timings == old(timings)
            && values == old(values) && outbox == old(outbox) && verdicts == old(verdicts)
            && cancelHandlers == old(cancelHandlers))
    }

    /** One server message: the arms of `run`'s match on its state. */
    method Handle(msg: SyncMsg, now: nat) returns (ok: bool)
      requires Valid()
      modifies this
      ensures Valid()
      ensures Handled(msg, now, ok)
    {
      ok := true;
      match msg.state
      case ALIVE =>
        Alive(msg.sender, now);
      case COMPLETED =>
        timings := timings[msg.sender := now];
        values := values[msg.sender := msg.value];
        if |timings| == StopThreshold() {
          ok := Conclude();
        }
      case _ =>
    }

    /** One turn of `run`'s select loop. */
    method Step(e: Event) returns (c: Control)
      requires Valid()
      modifies this
      ensures Valid()
      ensures old(outbox) <= outbox && old(verdicts) <= verdicts
      ensures match e
        case ExitSignal(dropped) => unchanged(this) && c == (if dropped then Failed(EXIT_ERROR) else Finished)
        case Recv(None, _) => unchanged(this) && c == Failed(NETWORK_CLOSED)
        case Recv(Some(m), now) => (c == Continue || c == Panicked) && Handled(m, now, c == Continue)
    {
      match e
      case ExitSignal(dropped) =>
        c := if dropped then Failed(EXIT_ERROR) else Finished;
      case Recv(None, _) =>
        c := Failed(NETWORK_CLOSED);
      case Recv(Some(m), now) =>
        var ok := Handle(m, now);
        c := if ok then Continue else Panicked;
    }

    /**
     * `run`: take the events in order until one ends the loop; `handled` is
     * how many were taken. STOP does not end the synchronizer: only the exit
     * signal, a closed network or a panic does.
     */
    method Run(events: seq<Event>) returns (c: Control, handled: nat)
      requires Valid()
      modifies this
      ensures Valid()
      ensures old(outbox) <= outbox && old(verdicts) <= verdicts
      ensures handled <= |events|
      ensures c == Continue ==> handled == |events|
      ensures c != Continue ==> 0 < handled
      ensures c == Finished ==> events[handled - 1] == ExitSignal(false)
      ensures c.Failed? ==> events[handled - 1].ExitSignal? || events[handled - 1].msg.None?
    {
      c := Continue;
      handled := 0;
      while handled < |events| && c == Continue
        invariant handled <= |events|
        invariant Valid()
        invariant old(outbox) <= outbox && old(verdicts) <= verdicts
        invariant c != Continue ==> 0 < handled
        invariant c == Finished ==> events[handled - 1] == ExitSignal(false)
        invariant c.Failed? ==> events[handled - 1].ExitSignal? || events[handled - 1].msg.None?
      {
        c := Step(events[handled]);
        handled := handled + 1;
      }
    }
  }
}
