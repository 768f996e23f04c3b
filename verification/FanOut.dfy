/**
 Sending one write to many nodes: to the owners of a key, and, when owners fail,
 as hints to nodes that stand in for them.
 */
module FanOut {
  import opened Text
  import opened HybridClock
  import opened Ring
  import opened Replica

  // ---------------------------------------------------------------------
  // Lists of nodes
  // ---------------------------------------------------------------------

  /** The nodes of `s` that are in `keep`, in order. */
  function Select(s: seq<NodeId>, keep: set<NodeId>): seq<NodeId> {
    if s == [] then []
    else Select(s[..|s| - 1], keep) + (if s[|s| - 1] in keep then [s[|s| - 1]] else [])
  }

  lemma {:induction false} SelectFacts(s: seq<NodeId>, keep: set<NodeId>)
    requires Distinct(s)
    ensures Distinct(Select(s, keep))
    ensures forall n :: n in Select(s, keep) <==> n in s && n in keep
    decreases |s|
  {
    if s != [] {
      var rest := s[..|s| - 1];
      SelectFacts(rest, keep);
      assert s == rest + [s[|s| - 1]];
    }
  }

  /** The nodes kept stand in the order they stood in. */
  lemma {:induction false} SelectInOrder(s: seq<NodeId>, keep: set<NodeId>) returns (at: seq<nat>)
    ensures |at| == |Select(s, keep)| && Increasing(at)
    ensures forall k :: 0 <= k < |at| ==> at[k] < |s| && s[at[k]] == Select(s, keep)[k]
    ensures forall i: nat :: i in at <==> i < |s| && s[i] in keep
    decreases |s|
  {
    hide Select, Increasing;
    SelectStep(s, keep);
    if s == [] {
      at := [];
    } else {
      var m := |s| - 1;
      at := SelectInOrder(s[..m], keep);
      if s[m] in keep {
        IncreasingNext(at, m);
        at := at + [m];
      }
    }
  }

  lemma SelectStep(s: seq<NodeId>, keep: set<NodeId>)
    ensures s == [] ==> Select(s, keep) == [] && Increasing([])
    ensures s != [] ==>
      var m := |s| - 1;
      Select(s, keep) == if s[m] in keep then Select(s[..m], keep) + [s[m]] else Select(s[..m], keep)
  {
  }

  lemma {:induction false} SelectNext(s: seq<NodeId>, i: nat, keep: set<NodeId>)
    requires i < |s|
    ensures Select(s[..i + 1], keep) == if s[i] in keep then Select(s[..i], keep) + [s[i]] else Select(s[..i], keep)
  {
    assert s[..i + 1][..i] == s[..i];
  }

  // ---------------------------------------------------------------------
  // Fan-out to the owners
  // ---------------------------------------------------------------------

  /** Nodes that store a request, and nodes whose acknowledgement comes back. */
  ghost function Takers(up: set<NodeId>, faults: NodeId -> Fault): set<NodeId> {
    set n | n in up && faults(n).Stores()
  }

  ghost function Ackers(up: set<NodeId>, faults: NodeId -> Fault): set<NodeId> {
    set n | n in up && faults(n).Clean?
  }

  /** The view after exactly the nodes in `takers` have stored the request. */
  ghost function Spread(view: View, takers: set<NodeId>, req: WriteRequest): View
    requires Storable(req)
  {
    map n | n in view :: if n in takers then Stored(view[n], req) else view[n]
  }

  lemma {:induction false} SpreadNext(view: View, takers: set<NodeId>, s: seq<NodeId>, i: nat, req: WriteRequest)
    requires Storable(req) && i < |s| && Distinct(s)
    requires s[i] in takers ==> s[i] in view
    ensures var some, more := takers * Members(s[..i]), takers * Members(s[..i + 1]);
      Spread(view, more, req) ==
        if s[i] in takers then Spread(view, some, req)[s[i] := Stored(Spread(view, some, req)[s[i]], req)]
        else Spread(view, some, req)
  {
    hide Stored, Storable;
    assert s[..i + 1] == s[..i] + [s[i]];
    assert Members(s[..i + 1]) == Members(s[..i]) + {s[i]} by {
      assert forall n :: n in Members(s[..i + 1]) ==> n in Members(s[..i]) || n == s[i];
      assert s[..i + 1][i] == s[i] && forall j :: 0 <= j < i ==> s[..i + 1][j] == s[..i][j];
    }
    assert s[i] !in Members(s[..i]);
  }

  /** Asks every target to store the request. Results come back in the order `targets`; a task
      that panics counts neither way, whether or not its request was stored. */
  method BroadcastWrite(net: Network, from: NodeId, targets: seq<NodeId>, req: WriteRequest, faults: NodeId -> Fault,
          panics: set<NodeId>)
    returns (acked: seq<NodeId>, failed: seq<NodeId>)
    requires net.Valid() && Distinct(targets) && Storable(req)
    modifies net.Repr()
    ensures net.Valid()
    ensures acked == Select(targets, Ackers(net.Reachable(from), faults) - panics)
    ensures failed == Select(targets, Members(targets) - Ackers(net.Reachable(from), faults) - panics)
    ensures net.View() == Spread(old(net.View()), Takers(net.Reachable(from), faults) * Members(targets), req)
  {
    hide Stored, Storable, Replay;
    ghost var view0, up := net.View(), net.Reachable(from);
    ghost var takers, good := Takers(up, faults), Ackers(up, faults);
    acked, failed := [], [];
    ghost var bad := Members(targets) - good - panics;
    assert targets[..0] == [];
    assert net.View() == Spread(view0, takers * Members(targets[..0]), req);
    for i := 0 to |targets|
      invariant net.Valid() && up == net.Reachable(from)
      invariant acked == Select(targets[..i], good - panics)
      invariant failed == Select(targets[..i], bad)
      invariant net.View() == Spread(view0, takers * Members(targets[..i]), req)
    {
      hide Spread, Distinct, Members, Select;
      var node := targets[i];
      assert node in Members(targets) by { InMembers(targets, i); }
      SelectNext(targets, i, good - panics);
      SelectNext(targets, i, bad);
      SpreadNext(view0, takers, targets, i, req);
      var ok := net.RemoteWrite(from, node, req, faults(node));
      if node !in panics {
        if ok {
          acked := acked + [node];
        } else {
          failed := failed + [node];
        }
      }
    }
    assert targets[..|targets|] == targets;
  }

  lemma InMembers(s: seq<NodeId>, i: nat)
    requires i < |s|
    ensures s[i] in Members(s)
  {
  }

  // ---------------------------------------------------------------------
  // Stand-ins for owners that failed
  // ---------------------------------------------------------------------

  function HintRequest(req: WriteRequest, target: NodeId): (h: WriteRequest)
    ensures Storable(h) && Record(h) == Record(req)
  {
    req.(isHint := true, hintTarget := Some(target))
  }

  function Fallbacks(all: seq<NodeId>, owners: seq<NodeId>): seq<NodeId> {
    Select(all, Members(all) - Members(owners))
  }

  function Fewer(a: nat, b: nat): (m: nat)
    ensures m <= a && m <= b && (m == a || m == b)
  {
    if a < b then a else b
  }

  /** The view after the first `m` stand-ins were asked to keep a hint. */
  ghost function HintsAt(view: View, fallbacks: seq<NodeId>, failed: seq<NodeId>, m: nat, takers: set<NodeId>,
          req: WriteRequest)
    : (r: View)
    requires m <= |fallbacks| && m <= |failed| && takers <= view.Keys
    ensures r.Keys == view.Keys
  {
    if m == 0 then view
    else
      var prev := HintsAt(view, fallbacks, failed, m - 1, takers, req);
      var f := fallbacks[m - 1];
      if f in takers then prev[f := Stored(prev[f], HintRequest(req, failed[m - 1]))] else prev
  }

  lemma {:induction false} HintsElsewhere(view: View, fallbacks: seq<NodeId>, failed: seq<NodeId>, m: nat,
          takers: set<NodeId>, req: WriteRequest, n: NodeId)
    requires m <= |fallbacks| && m <= |failed| && takers <= view.Keys
    requires n in view && forall i :: 0 <= i < m ==> fallbacks[i] != n
    ensures HintsAt(view, fallbacks, failed, m, takers, req)[n] == view[n]
  {
    hide Stored, HintRequest;
    if m > 0 {
      HintsElsewhere(view, fallbacks, failed, m - 1, takers, req, n);
    }
  }

  lemma {:induction false} HintsOf(view: View, fallbacks: seq<NodeId>, failed: seq<NodeId>, m: nat,
          takers: set<NodeId>, req: WriteRequest, i: nat)
    requires m <= |fallbacks| && m <= |failed| && takers <= view.Keys && Distinct(fallbacks)
    requires i < m && fallbacks[i] in view
    ensures HintsAt(view, fallbacks, failed, m, takers, req)[fallbacks[i]] ==
            if fallbacks[i] in takers then Stored(view[fallbacks[i]], HintRequest(req, failed[i]))
            else view[fallbacks[i]]
  {
    hide Stored, HintRequest;
    if i == m - 1 {
      HintsElsewhere(view, fallbacks, failed, m - 1, takers, req, fallbacks[i]);
    } else {
      HintsOf(view, fallbacks, failed, m - 1, takers, req, i);
    }
  }

  /** Stand-in number i keeps a hint for failed owner number i, and no other node changes. */
  lemma {:induction false} HintsAtFacts(view: View, fallbacks: seq<NodeId>, failed: seq<NodeId>, m: nat,
          takers: set<NodeId>, req: WriteRequest)
    requires m <= |fallbacks| && m <= |failed| && takers <= view.Keys && Distinct(fallbacks)
    ensures var r := HintsAt(view, fallbacks, failed, m, takers, req);
      && (forall n :: n in view && n !in fallbacks[..m] ==> r[n] == view[n])
      && (forall i :: 0 <= i < m && fallbacks[i] in view ==>
            r[fallbacks[i]] == if fallbacks[i] in takers then Stored(view[fallbacks[i]], HintRequest(req, failed[i]))
                               else view[fallbacks[i]])
  {
    hide *;
    var r := HintsAt(view, fallbacks, failed, m, takers, req);
    forall n | n in view && n !in fallbacks[..m] ensures r[n] == view[n] {
      assert forall i :: 0 <= i < m ==> fallbacks[i] == fallbacks[..m][i];
      HintsElsewhere(view, fallbacks, failed, m, takers, req, n);
    }
    forall i | 0 <= i < m && fallbacks[i] in view
      ensures r[fallbacks[i]] ==
              if fallbacks[i] in takers then Stored(view[fallbacks[i]], HintRequest(req, failed[i]))
              else view[fallbacks[i]]
    {
      HintsOf(view, fallbacks, failed, m, takers, req, i);
    }
  }

  /** `f` keeps the record of `req` under a key that names `target`. */
  ghost predicate KeepsFor(view: View, f: NodeId, target: NodeId, req: WriteRequest) {
    var k := MakeHintKey(target, req.hlc, req.key.objectId);
    f in view && k in view[f].hints && view[f].hints[k] == Hint(req.key, Record(req))
  }

  ghost predicate Injective(standIns: map<NodeId, NodeId>) {
    forall f, g :: f in standIns && g in standIns && f != g ==> standIns[f] != standIns[g]
  }

  /** Pairwise different non-owners keep the record for pairwise different failed owners. */
  ghost predicate StandIns(view: View, standIns: map<NodeId, NodeId>, owners: seq<NodeId>, failed: seq<NodeId>,
          req: WriteRequest) {
    && Injective(standIns)
    && forall f :: f in standIns ==> f !in owners && standIns[f] in failed && KeepsFor(view, f, standIns[f], req)
  }

  /** The stand-ins among the first `m` that acknowledged, each with the owner it stands in for. */
  ghost function Pairs(fallbacks: seq<NodeId>, failed: seq<NodeId>, m: nat, good: set<NodeId>): map<NodeId, NodeId>
    requires m <= |fallbacks| && m <= |failed|
  {
    if m == 0 then map[]
    else
      var prev := Pairs(fallbacks, failed, m - 1, good);
      if fallbacks[m - 1] in good then prev[fallbacks[m - 1] := failed[m - 1]] else prev
  }

  lemma {:induction false} PairsFacts(fallbacks: seq<NodeId>, failed: seq<NodeId>, m: nat, good: set<NodeId>, f: NodeId)
    returns (i: nat)
    requires m <= |fallbacks| && m <= |failed| && f in Pairs(fallbacks, failed, m, good)
    ensures i < m && fallbacks[i] == f && f in good && Pairs(fallbacks, failed, m, good)[f] == failed[i]
  {
    if f == fallbacks[m - 1] && f in good {
      i := m - 1;
    } else {
      i := PairsFacts(fallbacks, failed, m - 1, good, f);
    }
  }

  lemma KeptFor(node: Node, view: View, f: NodeId, target: NodeId, req: WriteRequest)
    requires f in view && view[f] == Stored(node, HintRequest(req, target))
    ensures KeepsFor(view, f, target, req)
  {
    hide MakeHintKey;
  }

  lemma {:induction false} StandInsHold(view: View, fallbacks: seq<NodeId>, failed: seq<NodeId>, owners: seq<NodeId>,
          m: nat, takers: set<NodeId>, good: set<NodeId>, req: WriteRequest)
    requires m <= |fallbacks| && m <= |failed| && good <= takers <= view.Keys
    requires Distinct(fallbacks) && Distinct(failed)
    requires forall f :: f in fallbacks ==> f !in owners
    ensures StandIns(HintsAt(view, fallbacks, failed, m, takers, req), Pairs(fallbacks, failed, m, good), owners,
                     failed, req)
  {
    hide KeepsFor, Stored, Pairs, HintsAt;
    HintsAtFacts(view, fallbacks, failed, m, takers, req);
    var standIns := Pairs(fallbacks, failed, m, good);
    var after := HintsAt(view, fallbacks, failed, m, takers, req);
    forall f | f in standIns
      ensures f !in owners && standIns[f] in failed && KeepsFor(after, f, standIns[f], req)
    {
      var i := PairsFacts(fallbacks, failed, m, good, f);
      KeptFor(view[f], after, f, failed[i], req);
    }
    forall f, g | f in standIns && g in standIns && f != g ensures standIns[f] != standIns[g] {
      var i := PairsFacts(fallbacks, failed, m, good, f);
      var j := PairsFacts(fallbacks, failed, m, good, g);
    }
  }

  method StoreHintFor(net: Network, from: NodeId, f: NodeId, target: NodeId, req: WriteRequest, faults: NodeId -> Fault)
    returns (ok: bool)
    requires net.Valid()
    modifies net.Repr()
    ensures net.Valid() && net.Reachable(from) == old(net.Reachable(from))
    ensures ok <==> f in Ackers(net.Reachable(from), faults)
    ensures net.View() == if f in Takers(net.Reachable(from), faults)
                          then old(net.View())[f := Stored(old(net.View())[f], HintRequest(req, target))]
                          else old(net.View())
  {
    hide *;
    Answering(net, from, faults);
    Taking(net, from, f, HintRequest(req, target), faults);
    ok := net.RemoteWrite(from, f, HintRequest(req, target), faults(f));
  }

  method AskInTurn(net: Network, from: NodeId, req: WriteRequest, fallbacks: seq<NodeId>, failed: seq<NodeId>,
          needed: nat, faults: NodeId -> Fault)
    returns (stored: nat, ghost standIns: map<NodeId, NodeId>)
    requires net.Valid() && Distinct(fallbacks) && needed <= |failed|
    modifies net.Repr()
    ensures net.Valid() && net.Reachable(from) == old(net.Reachable(from))
    ensures Takers(net.Reachable(from), faults) <= old(net.View()).Keys
    ensures var m := Fewer(needed, |fallbacks|);
      && standIns == Pairs(fallbacks, failed, m, Ackers(net.Reachable(from), faults))
      && net.View() == HintsAt(old(net.View()), fallbacks, failed, m, Takers(net.Reachable(from), faults), req)
    ensures stored == |standIns|
  {
    hide *;
    ghost var view0, up := net.View(), net.Reachable(from);
    ghost var takers, good := Takers(up, faults), Ackers(up, faults);
    Answering(net, from, faults);
    StartPairs(view0, fallbacks, failed, takers, good, req);
    stored, standIns := 0, map[];
    var i := 0;
    while i < needed && i < |fallbacks|
      invariant 0 <= i <= needed && i <= |fallbacks|
      invariant net.Valid() && up == net.Reachable(from)
      invariant Asked(view0, fallbacks, failed, i, takers, good, req, net.View(), stored, standIns)
    {
      NextPair(view0, fallbacks, failed, i, takers, good, req, net.View(), stored, standIns);
      var ok := StoreHintFor(net, from, fallbacks[i], failed[i], req, faults);
      if ok {
        stored := stored + 1;
        standIns := standIns[fallbacks[i] := failed[i]];
      }
      i := i + 1;
    }
    AskedFacts(view0, fallbacks, failed, i, takers, good, req, net.View(), stored, standIns);
  }

  /** Sends a hint for each of the first w failed owners to the next node that is not an owner, as
      long as there is one, and counts the hints that were acknowledged. */
  method StoreSloppyHints(net: Network, from: NodeId, req: WriteRequest, owners: seq<NodeId>, failed: seq<NodeId>,
          all: seq<NodeId>, w: nat, faults: NodeId -> Fault)
    returns (stored: nat, ghost standIns: map<NodeId, NodeId>)
    requires net.Valid() && Distinct(failed) && Distinct(all)
    modifies net.Repr()
    ensures net.Valid()
    ensures var m := Fewer(Fewer(|failed|, w), |Fallbacks(all, owners)|);
      && standIns == Pairs(Fallbacks(all, owners), failed, m, Ackers(net.Reachable(from), faults))
      && net.View() == HintsAt(old(net.View()), Fallbacks(all, owners), failed, m,
                               Takers(net.Reachable(from), faults), req)
    ensures stored == |standIns|
    ensures StandIns(net.View(), standIns, owners, failed, req)
  {
    hide *;
    var fallbacks := Fallbacks(all, owners);
    FallbacksFacts(all, owners);
    ghost var view0 := net.View();
    ghost var takers, good := Takers(net.Reachable(from), faults), Ackers(net.Reachable(from), faults);
    Answering(net, from, faults);
    ghost var m := Fewer(Fewer(|failed|, w), |fallbacks|);
    StandInsHold(view0, fallbacks, failed, owners, m, takers, good, req);
    if failed == [] {
      StartPairs(view0, fallbacks, failed, takers, good, req);
      stored, standIns := 0, map[];
    } else {
      stored, standIns := AskInTurn(net, from, req, fallbacks, failed, Fewer(|failed|, w), faults);
    }
  }

  lemma Answering(net: Network, from: NodeId, faults: NodeId -> Fault)
    ensures Ackers(net.Reachable(from), faults) <= Takers(net.Reachable(from), faults) <= net.View().Keys
    ensures net !in net.Repr()
  {
  }

  lemma Taking(net: Network, from: NodeId, n: NodeId, req: WriteRequest, faults: NodeId -> Fault)
    requires Storable(req)
    ensures net.Takes(from, n, req, faults(n)) <==> n in Takers(net.Reachable(from), faults)
    ensures net.Takes(from, n, req, faults(n)) && faults(n).Clean? <==> n in Ackers(net.Reachable(from), faults)
  {
  }

  lemma {:induction false} FallbacksFacts(all: seq<NodeId>, owners: seq<NodeId>)
    requires Distinct(all)
    ensures Distinct(Fallbacks(all, owners))
    ensures forall f :: f in Fallbacks(all, owners) <==> f in all && f !in owners
  {
    hide Select;
    SelectFacts(all, Members(all) - Members(owners));
  }

  ghost predicate Asked(view0: View, fallbacks: seq<NodeId>, failed: seq<NodeId>, i: nat, takers: set<NodeId>,
          good: set<NodeId>, req: WriteRequest, view: View, stored: nat, standIns: map<NodeId, NodeId>) {
    && i <= |fallbacks| && i <= |failed| && takers <= view0.Keys
    && view == HintsAt(view0, fallbacks, failed, i, takers, req)
    && standIns == Pairs(fallbacks, failed, i, good)
    && stored == |standIns|
  }

  lemma AskedFacts(view0: View, fallbacks: seq<NodeId>, failed: seq<NodeId>, i: nat, takers: set<NodeId>,
          good: set<NodeId>, req: WriteRequest, view: View, stored: nat, standIns: map<NodeId, NodeId>)
    requires Asked(view0, fallbacks, failed, i, takers, good, req, view, stored, standIns)
    ensures i <= |fallbacks| && i <= |failed| && takers <= view0.Keys
    ensures view == HintsAt(view0, fallbacks, failed, i, takers, req)
    ensures standIns == Pairs(fallbacks, failed, i, good) && stored == |standIns|
  {
  }

  lemma StartPairs(view: View, fallbacks: seq<NodeId>, failed: seq<NodeId>, takers: set<NodeId>, good: set<NodeId>,
          req: WriteRequest)
    requires takers <= view.Keys
    ensures Asked(view, fallbacks, failed, 0, takers, good, req, view, 0, map[])
    ensures HintsAt(view, fallbacks, failed, 0, takers, req) == view
    ensures Pairs(fallbacks, failed, 0, good) == map[]
  {
  }

  lemma {:induction false} NextPair(view0: View, fallbacks: seq<NodeId>, failed: seq<NodeId>, i: nat,
          takers: set<NodeId>, good: set<NodeId>, req: WriteRequest, view: View, stored: nat,
          standIns: map<NodeId, NodeId>)
    requires i < |fallbacks| && i < |failed| && Distinct(fallbacks)
    requires Asked(view0, fallbacks, failed, i, takers, good, req, view, stored, standIns)
    ensures var f := fallbacks[i];
      && (f in takers ==> f in view)
      && Asked(view0, fallbacks, failed, i + 1, takers, good, req,
               if f in takers then view[f := Stored(view[f], HintRequest(req, failed[i]))] else view,
               if f in good then stored + 1 else stored,
               if f in good then standIns[f := failed[i]] else standIns)
  {
    hide Stored;
    if fallbacks[i] in standIns {
      var j := PairsFacts(fallbacks, failed, i, good, fallbacks[i]);
    }
  }
}
