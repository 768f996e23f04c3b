/**
 Runs of a cluster in which nothing goes wrong, and how many messages they
 keep in flight.
 */
module Traffic {
  import opened HybridClock
  import opened Membership
  import opened Gossip

  lemma AfterNone(c: Cluster)
    ensures After(c, []) == c
  {
  }

  lemma {:induction false} AfterOne(c: Cluster, run: seq<Action>, a: Action)
    ensures After(c, run + [a]) == Act(After(c, run), a)
  {
    assert (run + [a])[..|run|] == run;
  }

  lemma {:induction false} AfterBoth(c: Cluster, run: seq<Action>, more: seq<Action>)
    ensures After(c, run + more) == After(After(c, run), more)
    decreases |more|
  {
    if more == [] {
      assert run + more == run;
    } else {
      var rest, last := more[..|more| - 1], more[|more| - 1];
      assert run + more == run + rest + [last];
      AfterBoth(c, run, rest);
      AfterOne(c, run + rest, last);
    }
  }

  /** No action is refused, nothing is delivered twice, and every delivery is answered at once. */
  predicate Smooth(c: Cluster, run: seq<Action>)
    decreases |run|
  {
    var n := |run|;
    run == [] ||
    (&& !run[n - 1].Deliver? && Enabled(After(c, run[..n - 1]), run[n - 1])
     && if n > 1 && run[n - 2].Deliver? then
          && run[n - 1].Reply? && run[n - 1].host == run[n - 2].host && !run[n - 2].again
          && Enabled(After(c, run[..n - 2]), run[n - 2]) && Smooth(c, run[..n - 2])
        else Smooth(c, run[..n - 1]))
  }

  lemma {:induction false} SmoothOn(c: Cluster, run: seq<Action>, a: Action)
    requires Smooth(c, run) && !a.Deliver? && Enabled(After(c, run), a)
    ensures Smooth(c, run + [a]) && After(c, run + [a]) == Act(After(c, run), a)
  {
    AfterOne(c, run, a);
    assert (run + [a])[..|run|] == run;
    hide Enabled, After;
  }

  /** A host merges a message and answers it with its table. */
  function Heard(c: Cluster, host: NodeId, from: NodeId, p: Packet, reply: Packet): Cluster
    requires host in c.tables
  {
    Posted(Received(c, host, from, p, false), host, from, reply)
  }

  lemma {:induction false} SmoothHear(c: Cluster, run: seq<Action>, host: NodeId, from: NodeId, p: Packet, q: Packet)
    requires Smooth(c, run) && host in After(c, run).tables && Envelope(from, host, p) in After(c, run).net
    requires Enumerates(q, MergeAll(After(c, run).tables[host], p))
    ensures var run' := run + [Deliver(host, from, p, false), Reply(host, q)];
      Smooth(c, run') && After(c, run') == Heard(After(c, run), host, from, p, q)
  {
    hide After, Enumerates, MergeAll;
    var a, b := Deliver(host, from, p, false), Reply(host, q);
    var mid := run + [a];
    AfterOne(c, run, a);
    AfterOne(c, mid, b);
    var run' := run + [a, b];
    assert run' == mid + [b] && run'[..|run|] == run && run'[..|run| + 1] == mid;
  }

  function Sends(run: seq<Action>): nat {
    if run == [] then 0 else Sends(run[..|run| - 1]) + if run[|run| - 1].Send? then 1 else 0
  }

  lemma {:induction false} OneMore(c: Cluster, a: Action)
    requires c.owed == map[] && Enabled(c, a) && !a.Deliver?
    ensures |Act(c, a).net| == |c.net| + (if a.Send? then 1 else 0) && Act(c, a).owed == map[]
  {
    hide Enumerates, MergeAll, Upsert, Transition;
  }

  lemma {:induction false} OneForOne(c: Cluster, a: Action, b: Action)
    requires c.owed == map[] && Enabled(c, a) && a.Deliver? && !a.again
    requires b.Reply? && b.host == a.host && Enabled(Act(c, a), b)
    ensures |Act(Act(c, a), b).net| == |c.net| && Act(Act(c, a), b).owed == map[]
  {
    hide Enumerates, MergeAll, Upsert, Transition;
  }

  /** As every message is answered, messages never die out: unless some are lost or a clock fails,
      each round of gossip leaves one more of them in flight for good. */
  lemma {:induction false} TrafficExactly(c: Cluster, run: seq<Action>)
    requires Smooth(c, run) && c.owed == map[]
    ensures |After(c, run).net| == |c.net| + Sends(run) && After(c, run).owed == map[]
    decreases |run|
  {
    if run != [] {
      hide Act, Enabled;
      var n := |run|;
      if n > 1 && run[n - 2].Deliver? {
        assert run[..n - 1][..n - 2] == run[..n - 2];
        TrafficExactly(c, run[..n - 2]);
        OneForOne(After(c, run[..n - 2]), run[n - 2], run[n - 1]);
      } else {
        TrafficExactly(c, run[..n - 1]);
        OneMore(After(c, run[..n - 1]), run[n - 1]);
      }
    }
  }
}
