/**
 When one exchange of messages brings the tables of two hosts together.
 */
module Exchange {
  import opened Text
  import opened HybridClock
  import opened Ring
  import opened Membership
  import opened Gossip

  /** What a table says about a member, as far as gossip carries it. */
  function Says(t: Table, id: NodeId): Option<Digest> { if id in t then Some(DigestOf(id, t[id])) else None }

  /** A table with the record `r` of `id` would take over the digest `d`. */
  predicate Takes(r: Option<Digest>, d: Digest) {
    if r.Some? then Newer(d.generation, d.at, r.value.generation, r.value.at) && Step(r.value.state, d.state)
    else d.state == Joining || d.state == Healthy
  }

  /** Both say the same, or one of them would take over what the other says. */
  predicate Reconcilable(a: Option<Digest>, b: Option<Digest>) {
    a == b || (a.Some? && Takes(b, a.value)) || (b.Some? && Takes(a, b.value))
  }

  /** Merging a listing of `u` gives each member what `u` says where that is taken over, and leaves
      the rest alone. */
  lemma {:induction false} MergedListing(t: Table, u: Table, p: Packet, id: NodeId)
    requires Enumerates(p, u)
    ensures Says(MergeAll(t, p), id) ==
      if id in u && Takes(Says(t, id), DigestOf(id, u[id])) then Says(u, id) else Says(t, id)
  {
    if id in u {
      var k :| 0 <= k < |p| && p[k] == DigestOf(id, u[id]);
      MergeEach(t, p, k);
    } else {
      MergeFrame(t, p, id);
    }
  }

  /** The table of the host that sends first, and of the one that answers, after one exchange: `p`
      is sent, merged, answered by `q`, and the answer is merged. */
  predicate Exchanged(a: Table, b: Table, p: Packet, q: Packet, a': Table, b': Table) {
    Enumerates(p, a) && b' == MergeAll(b, p) && Enumerates(q, b') && a' == MergeAll(a, q)
  }

  /** After an exchange the two hosts say the same about a member exactly when what they said before
      was reconcilable. Neither says anything that was not said before. */
  lemma {:induction false} ExchangeAgreesExactly(a: Table, b: Table, p: Packet, q: Packet, a': Table, b': Table,
          id: NodeId)
    requires Exchanged(a, b, p, q, a', b')
    ensures Says(a', id) == Says(b', id) <==> Reconcilable(Says(a, id), Says(b, id))
    ensures !Reconcilable(Says(a, id), Says(b, id)) ==> Says(a', id) == Says(a, id) && Says(b', id) == Says(b, id)
    ensures Says(a', id) in {Says(a, id), Says(b, id)} && Says(b', id) in {Says(a, id), Says(b, id)}
  {
    hide Enumerates, MergeAll;
    MergedListing(b, a, p, id);
    MergedListing(a, b', q, id);
  }

  /** A second exchange, whoever starts it, changes nothing: what one exchange does not bring
      together, exchanges between the same two hosts never do. */
  lemma {:induction false} ExchangeSettles(a: Table, b: Table, p: Packet, q: Packet, a': Table, b': Table,
          p': Packet, q': Packet, a'': Table, b'': Table, id: NodeId)
    requires Exchanged(a, b, p, q, a', b')
    requires Exchanged(a', b', p', q', a'', b'') || Exchanged(b', a', p', q', b'', a'')
    ensures Says(a'', id) == Says(a', id) && Says(b'', id) == Says(b', id)
  {
    hide Enumerates, MergeAll;
    MergedListing(b, a, p, id);
    MergedListing(a, b', q, id);
    if Exchanged(a', b', p', q', a'', b'') {
      MergedListing(b', a', p', id);
      MergedListing(a', b'', q', id);
    } else {
      MergedListing(a', b', p', id);
      MergedListing(b', a'', q', id);
    }
  }

  lemma {:induction false} SameHealthy(t: Table, u: Table)
    requires forall id :: Says(t, id) == Says(u, id)
    ensures HealthyOf(t) == HealthyOf(u)
  {
    forall id ensures id in HealthyOf(t) <==> id in HealthyOf(u) {
      assert Says(t, id) == Says(u, id);
    }
  }

  /** Hosts whose tables are reconcilable throughout agree, after one exchange, on every member and,
      without collisions, on the owners of every key. */
  lemma {:induction false} ExchangeAgrees(a: Table, b: Table, p: Packet, q: Packet, a': Table, b': Table,
          ring: Positions, ring': Positions, place: Placement, position: u64, n: nat)
    requires Exchanged(a, b, p, q, a', b')
    requires forall id :: Reconcilable(Says(a, id), Says(b, id))
    requires Synced(ring, place, a') && Synced(ring', place, b') && CollisionFree(place, HealthyOf(a'))
    ensures forall id :: Says(a', id) == Says(b', id)
    ensures Owners(ring, position, n) == Owners(ring', position, n)
  {
    hide Exchanged, Reconcilable, Synced, CollisionFree, Owners, HealthyOf;
    forall id ensures Says(a', id) == Says(b', id) { ExchangeAgreesExactly(a, b, p, q, a', b', id); }
    hide Says;
    SameHealthy(a', b');
    RingsAgree(ring, a', ring', b', place, position, n);
  }
}
