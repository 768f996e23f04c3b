/**
 Hybrid logical clock values: 48 bits of milliseconds above 16 bits of
 counter, packed in one unsigned 64-bit word. Shifts and masks by 16 bits
 are division and remainder by 2^16.
 */
module Hlc {
  import opened Bytes
  import opened Text

  type Hlc = u64

  const TICKS: int := 0x1_0000
  const MAX_LOGICAL: int := 0xFFFF
  const MAX_PHYSICAL: int := 0xFFFF_FFFF_FFFF

  function Physical(h: Hlc): (p: nat)
    ensures p <= MAX_PHYSICAL
  {
    h / TICKS
  }

  function Logical(h: Hlc): (l: nat)
    ensures l <= MAX_LOGICAL
  {
    h % TICKS
  }

  /** Unpacking inverts packing. */
  function Pack(physical: nat, logical: nat): (h: Hlc)
    requires physical <= MAX_PHYSICAL && logical <= MAX_LOGICAL
    ensures Physical(h) == physical && Logical(h) == logical
  {
    physical * TICKS + logical
  }

  /** The packed order is the order of (milliseconds, counter), and packing inverts unpacking. */
  lemma PackedOrder(a: Hlc, b: Hlc)
    ensures a < b <==> Physical(a) < Physical(b) || (Physical(a) == Physical(b) && Logical(a) < Logical(b))
    ensures Pack(Physical(a), Logical(a)) == a
  {
  }

  lemma {:induction false} LessSnoc(a: Buf, b: Buf, x: byte, y: byte)
    requires |a| == |b|
    ensures Less(a + [x], b + [y]) <==> Less(a, b) || (a == b && x < y)
    decreases |a|
  {
    if a != [] {
      LessSnoc(a[1..], b[1..], x, y);
      assert (a + [x])[1..] == a[1..] + [x] && (b + [y])[1..] == b[1..] + [y];
      assert a == b <==> a[0] == b[0] && a[1..] == b[1..] by {
        assert a == [a[0]] + a[1..] && b == [b[0]] + b[1..];
      }
    }
  }

  lemma {:induction false} ToBEOrder(m: nat, n: nat, w: nat)
    requires m < Pow256(w) && n < Pow256(w)
    ensures Less(ToBE(m, w), ToBE(n, w)) <==> m < n
    ensures ToBE(m, w) == ToBE(n, w) <==> m == n
  {
    if w > 0 {
      ToBEOrder(m / 256, n / 256, w - 1);
      LessSnoc(ToBE(m / 256, w - 1), ToBE(n / 256, w - 1), m % 256, n % 256);
      FromToBE(m, w);
      FromToBE(n, w);
    }
  }

  /** Stored big-endian, clock values sort as bytes in clock order and read back unchanged. */
  lemma {:induction false} HlcBytes(a: Hlc, b: Hlc)
    ensures FromBE(ToBE(a, 8)) == a
    ensures Less(ToBE(a, 8), ToBE(b, 8)) <==> a < b
  {
    Pow256Values();
    FromToBE(a, 8);
    ToBEOrder(a, b, 8);
  }
}

/**
 The clock of one node, and runs of many nodes that stamp what they send and
 merge what they receive.
 */
module HybridClock {
  import opened Text
  import opened Hlc

  type NodeId = Uuid

  datatype Stamp = Stamped(hlc: Hlc) | LogicalOverflow(physical: nat) | PhysicalOverflow(now: nat)

  function MaxOf(a: nat, b: nat): nat { if a >= b then a else b }

  /** `Hlc::new`: refuses a time that needs more than 48 bits. */
  function New(physical: nat, logical: nat): Stamp
    requires logical <= MAX_LOGICAL
  {
    if physical <= MAX_PHYSICAL then Stamped(Pack(physical, logical)) else PhysicalOverflow(physical)
  }

  function Ticked(state: Hlc, now: nat): Stamp {
    if now > Physical(state) then New(now, 0)
    else if Logical(state) == MAX_LOGICAL then LogicalOverflow(Physical(state))
    else New(Physical(state), Logical(state) + 1)
  }

  function Updated(state: Hlc, received: Hlc, now: nat): Stamp {
    var p := MaxOf(MaxOf(now, Physical(state)), Physical(received));
    var base :=
      if p == Physical(state) && p == Physical(received) then MaxOf(Logical(state), Logical(received))
      else if p == Physical(state) then Logical(state)
      else if p == Physical(received) then Logical(received)
      else -1;
    if base == MAX_LOGICAL then LogicalOverflow(p) else New(p, base + 1)
  }

  function Restored(persisted: Hlc, now: nat): Stamp {
    var p := MaxOf(now, Physical(persisted));
    var l := if p != Physical(persisted) then 0
             else if Logical(persisted) == MAX_LOGICAL then MAX_LOGICAL
             else Logical(persisted) + 1;
    New(p, l)
  }

  // ---------------------------------------------------------------------
  // What one step computes
  // ---------------------------------------------------------------------

  /** `h` is the least clock value above `a` and `b` whose time is not before `now`. */
  predicate LeastAbove(h: Hlc, a: Hlc, b: Hlc, now: nat) {
    && h > a && h > b && Physical(h) >= now
    && forall g: Hlc :: g > a && g > b && Physical(g) >= now ==> h <= g
  }

  /** A tick gives the least value above the clock that is not before the reading, and
      fails exactly when that value would have to run ahead of every time seen. */
  lemma TickIsLeast(state: Hlc, now: nat)
    requires now <= MAX_PHYSICAL
    ensures match Ticked(state, now)
            case Stamped(h) => LeastAbove(h, state, state, now) && Physical(h) == MaxOf(now, Physical(state))
            case LogicalOverflow(p) =>
              && p == MaxOf(now, Physical(state))
              && forall g: Hlc :: g > state && Physical(g) >= now ==> Physical(g) > p
            case PhysicalOverflow(_) => false
  {
  }

  /** An update gives the least value above both clocks that is not before the reading, and
      fails exactly when that value would have to run ahead of every time seen. */
  lemma UpdateIsLeast(state: Hlc, received: Hlc, now: nat)
    requires now <= MAX_PHYSICAL
    ensures var top := MaxOf(MaxOf(now, Physical(state)), Physical(received));
      match Updated(state, received, now)
      case Stamped(h) => LeastAbove(h, state, received, now) && Physical(h) == top
      case LogicalOverflow(p) =>
        p == top && forall g: Hlc :: g > state && g > received && Physical(g) >= now ==> Physical(g) > p
      case PhysicalOverflow(_) => false
  {
  }

  /** A restored clock starts ahead of the persisted value unless the counter is saturated and
      no time has passed; then it starts at that very value. Its next tick is ahead in every case. */
  lemma RestoreIsAhead(persisted: Hlc, now: nat, later: nat)
    requires now <= MAX_PHYSICAL
    ensures var r := Restored(persisted, now);
      && r.Stamped?
      && (r.hlc > persisted <==> !(now <= Physical(persisted) && Logical(persisted) == MAX_LOGICAL))
      && r.hlc >= persisted
      && (Ticked(r.hlc, later).Stamped? ==> Ticked(r.hlc, later).hlc > persisted)
  {
  }

  /** Otherwise it starts at the least value above the persisted one that is not before the reading. */
  lemma RestoreIsLeast(persisted: Hlc, now: nat)
    requires now <= MAX_PHYSICAL && !(now <= Physical(persisted) && Logical(persisted) == MAX_LOGICAL)
    ensures var r := Restored(persisted, now);
      r.Stamped? && LeastAbove(r.hlc, persisted, persisted, now) && Physical(r.hlc) == MaxOf(now, Physical(persisted))
  {
  }

  /** A reading that needs more than 48 bits of milliseconds is refused. */
  lemma TimeTooLarge(state: Hlc, received: Hlc, now: nat)
    requires now > 0xFFFF_FFFF_FFFF
    ensures Ticked(state, now) == Updated(state, received, now) == Restored(state, now) == PhysicalOverflow(now)
  {
  }

  /** The clock a node runs: its state moves only forward, and not at all on a failure. */
  class WallClock {
    var state: Hlc

    constructor (now: nat)
      requires now <= MAX_PHYSICAL
      ensures state == Pack(now, 0)
    {
      state := Pack(now, 0);
    }

    constructor FromPersisted(persisted: Hlc, now: nat)
      requires now <= MAX_PHYSICAL
      ensures Restored(persisted, now) == Stamped(state)
      ensures state >= persisted
    {
      var physical := MaxOf(now, Physical(persisted));
      var logical := if physical == Physical(persisted)
                     then (if Logical(persisted) < MAX_LOGICAL then Logical(persisted) + 1 else MAX_LOGICAL)
                     else 0;
      state := Pack(physical, logical);
    }

    method Tick(now: nat) returns (r: Stamp)
      modifies this
      ensures r == Ticked(old(state), now)
      ensures if r.Stamped? then state == r.hlc > old(state) else state == old(state)
    {
      if now > Physical(state) {
        r := New(now, 0);
      } else {
        if Logical(state) == MAX_LOGICAL {
          return LogicalOverflow(Physical(state));
        }
        r := New(Physical(state), Logical(state) + 1);
      }
      if r.Stamped? {
        state := r.hlc;
      }
    }

    method Update(received: Hlc, now: nat) returns (r: Stamp)
      modifies this
      ensures r == Updated(old(state), received, now)
      ensures if r.Stamped? then state == r.hlc > old(state) && state > received else state == old(state)
    {
      var top := MaxOf(MaxOf(now, Physical(state)), Physical(received));
      var logical := 0;
      if top == Physical(state) && top == Physical(received) {
        var m := MaxOf(Logical(state), Logical(received));
        if m == MAX_LOGICAL {
          return LogicalOverflow(top);
        }
        logical := m + 1;
      } else if top == Physical(state) {
        if Logical(state) == MAX_LOGICAL {
          return LogicalOverflow(top);
        }
        logical := Logical(state) + 1;
      } else if top == Physical(received) {
        if Logical(received) == MAX_LOGICAL {
          return LogicalOverflow(top);
        }
        logical := Logical(received) + 1;
      }
      r := New(top, logical);
      if r.Stamped? {
        state := r.hlc;
      }
    }
  }
}
