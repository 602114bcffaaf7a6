module TransactionClock {

  // The circular time line of the transaction pool.

  // Slots are numbered modulo the pool size N, base positions are computed modulo N - 1.
  // `Turn` unrolls the clock hand so that the two moduli meet: the hand of time t stands
  // on cell Turn(t) modulo N, and time moves Turn forward only.

  /** m_arsize, m_nofTransactionPerSlot and m_maxIdleTime of a pool. */
  datatype Config = Config(size: nat, perSlot: nat, maxIdle: nat)

  ghost predicate IsPow2Of64(n: nat)
    decreases n
  {
    n == 64 || (n > 64 && n % 2 == 0 && IsPow2Of64(n / 2))
  }

  /** The product of the configured sizes is an int, and the size is less than twice as much. */
  const SIZE_LIMIT: nat := 0x1_0000_0000

  ghost predicate Usable(c: Config)
  {
    1 <= c.perSlot && 1 <= c.maxIdle && 64 <= c.size < SIZE_LIMIT && IsPow2Of64(c.size)
  }

  ghost predicate ValidConfig(c: Config)
  {
    Usable(c) && c.maxIdle * c.perSlot <= c.size
  }

  /** The remainder of an index modulo the table size, by repeated subtraction: see ModIsRemainder, and MaskIsMod
      for the mask with which the program computes it. */
  function Mod(x: int, d: nat): (r: nat)
    requires d > 0
    ensures r < d
    decreases x < 0, if x < 0 then -x else x
  {
    if x < 0 then Mod(x + d, d) else if x < d then x else Mod(x - d, d)
  }

  function Quot(x: nat, d: nat): nat
    requires d > 0
    decreases x
  {
    if x < d then 0 else 1 + Quot(x - d, d)
  }

  /** Where the clock hand stands at time t: the first cell that is not yet swept. */
  function Hand(c: Config, t: nat): (h: nat)
    requires c.size >= 64
    ensures h < c.size - 1
  {
    Mod(Mod(t, c.size - 1) * c.perSlot, c.size - 1)
  }

  /** The base slot of a transaction touched at time t that may stay idle for m time units. */
  function Candidate(c: Config, t: nat, m: nat): (b: nat)
    requires c.size >= 64
    ensures b < c.size - 1
  {
    Mod((Mod(t, c.size - 1) + m) * c.perSlot, c.size - 1)
  }

  /** First cell after the swept range of a tick from time t1 to time t2. */
  function SweepEnd(c: Config, t1: nat, t2: nat): (e: nat)
    requires c.size >= 64
    ensures Hand(c, t1) <= e < Hand(c, t1) + c.size
  {
    if Hand(c, t2) < Hand(c, t1) then Hand(c, t2) + c.size else Hand(c, t2)
  }

  /** Does the tick from time t1 to time t2 clear this slot? */
  predicate Swept(c: Config, t1: nat, t2: nat, slot: nat)
    requires c.size >= 64
  {
    Hand(c, t1) <= slot < SweepEnd(c, t1, t2) || Hand(c, t1) <= slot + c.size < SweepEnd(c, t1, t2)
  }

  /** How far the base position moves in a time unit. */
  function Pace(c: Config): (p: nat)
    requires c.size >= 64
    ensures p < c.size - 1 && p <= c.perSlot && (c.perSlot < c.size - 1 ==> p == c.perSlot)
  {
    ModAtMost(c.perSlot, c.size - 1);
    Mod(c.perSlot, c.size - 1)
  }

  /** The clock hand on the unrolled circle. */
  function Turn(c: Config, t: nat): nat
    requires c.size >= 64
  {
    t * Pace(c) + Wraps(c, t)
  }

  /** How often the base position has wrapped around until time t. */
  function Wraps(c: Config, t: nat): nat
    requires c.size >= 64
  {
    Quot(t * Pace(c), c.size - 1)
  }

  /** Clockwise distance from the base slot of (t, m) to a slot. */
  function Ahead(c: Config, t: nat, m: nat, slot: nat): (d: nat)
    requires c.size >= 64 && slot < c.size
    ensures d < c.size
  {
    Mod(slot - Candidate(c, t, m), c.size)
  }

  // ---- arithmetic ----

  lemma ScaleMono(a: int, b: int, n: nat)
    requires a <= b
    ensures a * n <= b * n
  {
    assert (b - a) * n >= 0;
    assert b * n - a * n == (b - a) * n;
  }

  lemma Distribute(a: int, b: int, n: int)
    ensures (a + b) * n == a * n + b * n
  {
  }

  lemma SameQuotient(q: int, q': int, r: int, r': int, d: nat)
    requires 0 <= r < d && 0 <= r' < d && q * d + r == q' * d + r'
    ensures q == q' && r == r'
  {
    if q < q' { ScaleMono(q + 1, q', d); Distribute(q, 1, d); }
    if q' < q { ScaleMono(q' + 1, q, d); Distribute(q', 1, d); }
  }

  lemma {:induction false} DivMod(x: nat, d: nat)
    requires d > 0
    ensures x == Quot(x, d) * d + Mod(x, d)
    decreases x
  {
    if x >= d {
      DivMod(x - d, d);
      Distribute(1, Quot(x - d, d), d);
    }
  }

  lemma {:induction false} ModAtMost(x: nat, d: nat)
    requires d > 0
    ensures Mod(x, d) <= x
    decreases x
  {
    if x >= d { ModAtMost(x - d, d); }
  }

  lemma ModOnce(x: nat, d: nat)
    requires d <= x < 2 * d
    ensures Mod(x, d) == x - d
  {
    assert Mod(x - d, d) == x - d;
  }

  lemma ModUnique(x: nat, q: int, r: int, d: nat)
    requires 0 <= r < d && x == q * d + r
    ensures Mod(x, d) == r && Quot(x, d) == q
  {
    DivMod(x, d);
    SameQuotient(q, Quot(x, d), r, Mod(x, d), d);
  }

  lemma {:induction false} ModIsRemainder(x: int, d: nat)
    requires d > 0
    ensures Mod(x, d) == x % d
    decreases x < 0, if x < 0 then -x else x
  {
    if x < 0 {
      ModIsRemainder(x + d, d);
      RemainderShift(x, d);
    } else {
      ModUnique(x, x / d, x % d, d);
    }
  }

  lemma RemainderShift(x: int, d: nat)
    requires d > 0
    ensures (x + d) % d == x % d
  {
    Distribute(x / d, 1, d);
    SameQuotient((x + d) / d, x / d + 1, (x + d) % d, x % d, d);
  }

  lemma ModAdd(x: nat, q: nat, d: nat)
    requires d > 0
    ensures Mod(q * d + x, d) == Mod(x, d)
  {
    DivMod(x, d);
    Distribute(q, Quot(x, d), d);
    ScaleMono(0, q, d);
    ModUnique(q * d + x, q + Quot(x, d), Mod(x, d), d);
  }

  lemma MulMod(a: nat, b: nat, d: nat)
    requires d > 0
    ensures Mod(Mod(a, d) * b, d) == Mod(a * b, d)
  {
    var q, r := Quot(a, d), Mod(a, d);
    DivMod(a, d);
    Regroup(q, d, r, b);
    ModAdd(r * b, q * b, d);
  }

  lemma Regroup(q: nat, d: nat, r: nat, b: nat)
    ensures (q * d + r) * b == (q * b) * d + r * b
    ensures q * b >= 0 && r * b >= 0
  {
    Distribute(q * d, r, b);
    assert (q * d) * b == (q * b) * d;
  }

  lemma MulMono(a: nat, b: nat, k: nat)
    requires a <= b
    ensures a * k <= b * k && (b - a) * k == b * k - a * k
  {
    assert b * k == a * k + (b - a) * k;
  }

  lemma QuotMono(a: nat, b: nat, d: nat)
    requires d > 0 && a <= b
    ensures Quot(a, d) <= Quot(b, d)
  {
    DivMod(a, d);
    DivMod(b, d);
    QuotientMono(Quot(a, d), Mod(a, d), Quot(b, d), Mod(b, d), d);
  }

  lemma QuotientMono(q: int, r: int, q': int, r': int, d: nat)
    requires 0 <= r < d && 0 <= r' < d && q * d + r <= q' * d + r'
    ensures q <= q'
  {
    if q' < q { ScaleMono(q' + 1, q, d); Distribute(q', 1, d); }
  }

  // ---- the hand and its unrolled form ----

  lemma HandIsRemainder(c: Config, t: nat)
    requires c.size >= 64
    ensures t * Pace(c) == Wraps(c, t) * (c.size - 1) + Hand(c, t)
  {
    hide Mod, Quot;
    MulMod(t, c.perSlot, c.size - 1);
    FactorMod(t, c.perSlot, c.size - 1);
    DivMod(t * Pace(c), c.size - 1);
  }

  lemma FactorMod(a: nat, b: nat, d: nat)
    requires d > 0
    ensures Mod(a * Mod(b, d), d) == Mod(a * b, d)
  {
    hide Mod;
    MulMod(b, a, d);
    Commutes(a, b);
    Commutes(a, Mod(b, d));
  }

  lemma Commutes(a: nat, b: nat)
    ensures a * b == b * a >= 0
  {
  }

  lemma HandIsTurn(c: Config, t: nat)
    requires c.size >= 64
    ensures Turn(c, t) == Wraps(c, t) * c.size + Hand(c, t)
  {
    HandIsRemainder(c, t);
    var w := Wraps(c, t);
    assert w * c.size == w * (c.size - 1) + w;
  }

  lemma CandidateIsHand(c: Config, t: nat, m: nat)
    requires c.size >= 64
    ensures Candidate(c, t, m) == Hand(c, t + m)
  {
    var M := c.size - 1;
    MulMod(t + m, c.perSlot, M);
    MulMod(Mod(t, M) + m, c.perSlot, M);
    DivMod(t, M);
    ModAdd(Mod(t, M) + m, Quot(t, M), M);
    assert t + m == Quot(t, M) * M + (Mod(t, M) + m);
  }

  lemma TurnMono(c: Config, t1: nat, t2: nat)
    requires c.size >= 64 && t1 <= t2
    ensures Turn(c, t1) <= Turn(c, t2) && Wraps(c, t1) <= Wraps(c, t2)
    ensures (t2 - t1) * Pace(c) <= Turn(c, t2) - Turn(c, t1)
  {
    MulMono(t1, t2, Pace(c));
    QuotMono(t1 * Pace(c), t2 * Pace(c), c.size - 1);
  }

  /** A tick clears nothing beyond the cells the unrolled hand passes. */
  lemma SweptSound(c: Config, t1: nat, t2: nat, slot: nat) returns (q: nat)
    requires c.size >= 64 && slot < c.size && t1 <= t2 && Swept(c, t1, t2, slot)
    ensures Turn(c, t1) <= slot + q * c.size < Turn(c, t2)
  {
    HandIsTurn(c, t1);
    HandIsTurn(c, t2);
    TurnMono(c, t1, t2);
    q := CellPassed(Wraps(c, t1), Wraps(c, t2), Hand(c, t1), Hand(c, t2), slot, c.size);
  }

  lemma CellPassed(w1: nat, w2: nat, h1: int, h2: int, slot: int, n: nat) returns (q: nat)
    requires 0 <= h1 < n && 0 <= h2 < n && 0 <= slot < n
    requires w1 <= w2 && w1 * n + h1 <= w2 * n + h2
    requires var end := if h2 < h1 then h2 + n else h2;
             h1 <= slot < end || h1 <= slot + n < end
    ensures w1 * n + h1 <= slot + q * n < w2 * n + h2
  {
    Distribute(w1, 1, n);
    if h2 < h1 { ScaleMono(w1 + 1, w2, n); } else { ScaleMono(w1, w2, n); }
    q := if h1 <= slot then w1 else w1 + 1;
    if h2 >= h1 { assert q == w1; }
  }

  /** A tick of less than one revolution wraps at most once, and then the hand falls back. */
  lemma AtMostOneWrap(c: Config, t1: nat, t2: nat)
    requires c.size >= 64 && t1 <= t2 && (t2 - t1) * Pace(c) < c.size - 1
    ensures Wraps(c, t1) <= Wraps(c, t2) <= Wraps(c, t1) + 1
    ensures Wraps(c, t2) == Wraps(c, t1) + 1 <==> Hand(c, t2) < Hand(c, t1)
  {
    TurnMono(c, t1, t2);
    MulMono(t1, t2, Pace(c));
    HandIsRemainder(c, t1);
    HandIsRemainder(c, t2);
    LessThanOneTurn(Wraps(c, t1), Wraps(c, t2), Hand(c, t1), Hand(c, t2), (t2 - t1) * Pace(c), c.size - 1);
  }

  lemma LessThanOneTurn(w1: int, w2: int, h1: int, h2: int, d: int, M: nat)
    requires w1 <= w2 && 0 <= h1 < M && 0 <= h2 < M && 0 <= d < M && w2 * M + h2 == w1 * M + h1 + d
    ensures w2 <= w1 + 1 && (w2 == w1 + 1 <==> h2 < h1)
  {
    if w2 >= w1 + 2 { ScaleMono(w1 + 2, w2, M); Distribute(w1, 2, M); }
    if w2 == w1 + 1 { Distribute(w1, 1, M); }
  }

  /** When a tick is less than one revolution, it clears every cell the unrolled hand passes. */
  lemma SweptComplete(c: Config, t1: nat, t2: nat, slot: nat, q: int)
    requires c.size >= 64 && slot < c.size && t1 <= t2 && (t2 - t1) * Pace(c) < c.size - 1
    requires Turn(c, t1) <= slot + q * c.size < Turn(c, t2)
    ensures Swept(c, t1, t2, slot)
  {
    HandIsTurn(c, t1);
    HandIsTurn(c, t2);
    AtMostOneWrap(c, t1, t2);
    PassedCell(Wraps(c, t1), Wraps(c, t2), Hand(c, t1), Hand(c, t2), slot, q, c.size);
  }

  lemma PassedCell(w1: int, w2: int, h1: int, h2: int, slot: int, q: int, n: nat)
    requires 0 <= h1 < n && 0 <= h2 < n && 0 <= slot < n
    requires w1 <= w2 <= w1 + 1
    requires w1 * n + h1 <= slot + q * n < w2 * n + h2
    ensures var end := if w1 == w2 then h2 else h2 + n;
            h1 <= slot < end || h1 <= slot + n < end
  {
    var y := q - w1;
    Distribute(w1, y, n);
    Distribute(w1, 1, n);
    if y < 0 { ScaleMono(y, -1, n); }
    if y > 1 { ScaleMono(2, y, n); }
  }

  /** A slot as a cell of the unrolled circle, counted from its base position. */
  lemma AheadUnrolled(c: Config, t: nat, m: nat, slot: nat) returns (z: int)
    requires c.size >= 64 && slot < c.size
    ensures slot == Turn(c, t + m) + Ahead(c, t, m, slot) + z * c.size
  {
    CandidateIsHand(c, t, m);
    HandIsTurn(c, t + m);
    z := UnrolledSlot(Turn(c, t + m), Wraps(c, t + m), Candidate(c, t, m), slot, c.size);
  }

  lemma UnrolledSlot(turn: int, w: int, base: int, slot: int, n: nat) returns (z: int)
    requires 0 <= base < n && 0 <= slot < n && turn == w * n + base
    ensures slot == turn + Mod(slot - base, n) + z * n
  {
    Distribute(-w, -1, n);
    assert (-w) * n == -(w * n);
    z := if slot >= base then -w else -w - 1;
  }

  /** The wraps between time t and time t + m. */
  function WrapsBetween(c: Config, t: nat, m: nat): (w: nat)
    requires c.size >= 64
  {
    TurnMono(c, t, t + m);
    Wraps(c, t + m) - Wraps(c, t)
  }

  /** The placement condition: the slot lies less than one revolution ahead of the hand. */
  predicate Placed(c: Config, t: nat, m: nat, slot: nat)
    requires c.size >= 64 && slot < c.size
  {
    m * Pace(c) + WrapsBetween(c, t, m) + Ahead(c, t, m, slot) < c.size
  }

  /** Between time t and the end of the idle time, no tick clears a placed slot. */
  lemma PlacedIsNotSwept(c: Config, t: nat, m: nat, slot: nat, t1: nat, t2: nat)
    requires c.size >= 64 && slot < c.size && Placed(c, t, m, slot)
    requires t <= t1 <= t2 <= t + m
    ensures !Swept(c, t1, t2, slot)
  {
    if Swept(c, t1, t2, slot) {
      var q := SweptSound(c, t1, t2, slot);
      var z := AheadUnrolled(c, t, m, slot);
      TurnMono(c, t, t1);
      TurnMono(c, t2, t + m);
      MulMono(t, t + m, Pace(c));
      Distribute(q, z, c.size);
      NoCellBetween(Turn(c, t), Turn(c, t + m), Ahead(c, t, m, slot), q + z, c.size);
    }
  }

  lemma NoCellBetween(start: int, end: int, ahead: int, y: int, n: nat)
    requires 0 <= ahead && end - start + ahead < n
    ensures !(start <= end + ahead + y * n < end)
  {
    if y >= 0 { ScaleMono(0, y, n); } else { ScaleMono(y, -1, n); }
  }

  /** Discrete intermediate value: some unit step of the hand passes a cell in between. */
  lemma {:induction false} UnitStep(c: Config, t: nat, end: nat, x: int) returns (u: nat)
    requires c.size >= 64 && t <= end && Turn(c, t) <= x < Turn(c, end)
    ensures t <= u < end && Turn(c, u) <= x < Turn(c, u + 1)
    decreases end - t
  {
    if x < Turn(c, t + 1) {
      u := t;
    } else {
      u := UnitStep(c, t + 1, end, x);
    }
  }

  /** For a slot outside of the placement condition, the unrolled hand passes it within the idle time. */
  lemma UnplacedCell(c: Config, t: nat, m: nat, slot: nat) returns (x: nat)
    requires c.size >= 64 && slot < c.size && !Placed(c, t, m, slot)
    ensures Mod(x, c.size) == slot && Turn(c, t) <= x < Turn(c, t + m)
  {
    hide Mod, Quot;
    var z := AheadUnrolled(c, t, m, slot);
    x := Turn(c, t + m) + Ahead(c, t, m, slot) - c.size;
    MulMono(t, t + m, Pace(c));
    OneRevolutionBack(x + c.size, slot, z, c.size);
    OtherSide(x, slot, z + 1, c.size);
    ModUnique(x, -(z + 1), slot, c.size);
  }

  /** A slot outside of the placement condition is lost early: ticking every time unit clears it
      before the idle time is over. */
  lemma UnplacedIsSwept(c: Config, t: nat, m: nat, slot: nat) returns (u: nat)
    requires c.size >= 64 && slot < c.size && !Placed(c, t, m, slot)
    ensures t <= u < t + m && Swept(c, u, u + 1, slot)
  {
    var x := UnplacedCell(c, t, m, slot);
    u := UnitStep(c, t, t + m, x);
    DivMod(x, c.size);
    SweptComplete(c, u, u + 1, slot, Quot(x, c.size));
  }

  lemma OtherSide(x: int, slot: int, z: int, n: nat)
    requires slot == x + z * n
    ensures x == (-z) * n + slot
  {
    assert (-z) * n == -(z * n);
  }

  lemma OneRevolutionBack(x: int, slot: int, z: int, n: nat)
    requires slot == x + z * n
    ensures slot == x - n + (z + 1) * n
  {
    Distribute(z, 1, n);
  }

  /** Exactly the placed slots are safe from every tick during the idle time. */
  lemma PlacementIsExact(c: Config, t: nat, m: nat, slot: nat)
    requires c.size >= 64 && slot < c.size
    ensures Placed(c, t, m, slot)
       <==> forall t1: nat, t2: nat :: t <= t1 <= t2 <= t + m ==> !Swept(c, t1, t2, slot)
  {
    if Placed(c, t, m, slot) {
      forall t1: nat, t2: nat | t <= t1 <= t2 <= t + m ensures !Swept(c, t1, t2, slot) {
        PlacedIsNotSwept(c, t, m, slot, t1, t2);
      }
    } else {
      var u := UnplacedIsSwept(c, t, m, slot);
      assert Swept(c, u, u + 1, slot);
    }
  }

  /** The hand stands still exactly if there are as many transactions per time unit as base positions; then nothing
      ever expires. */
  lemma StandingHand(c: Config)
    requires ValidConfig(c)
    ensures Pace(c) == 0 <==> c.perSlot == c.size - 1
    ensures Pace(c) == 0
       <==> forall t1: nat, t2: nat, slot: nat :: t1 <= t2 && slot < c.size ==> !Swept(c, t1, t2, slot)
  {
    hide Mod, Quot, Hand;
    if Pace(c) == 0 {
      forall t1: nat, t2: nat, slot: nat | t1 <= t2 && slot < c.size ensures !Swept(c, t1, t2, slot) {
        HandAtStart(c, t1);
        HandAtStart(c, t2);
      }
    } else {
      HandIsTurn(c, 0);
      TurnMono(c, 0, 1);
      SweptComplete(c, 0, 1, 0, 0);
    }
    AtMostSize(c);
  }

  lemma HandAtStart(c: Config, t: nat)
    requires c.size >= 64 && Pace(c) == 0
    ensures Hand(c, t) == 0
  {
    hide Mod, Quot, Hand, Wraps;
    HandIsRemainder(c, t);
    SameQuotient(Wraps(c, t), 0, Hand(c, t), 0, c.size - 1);
  }

  lemma AtMostSize(c: Config)
    requires ValidConfig(c)
    ensures c.perSlot <= c.size && (c.perSlot >= c.size - 1 ==> c.maxIdle == 1)
    ensures Pace(c) == 0 <==> c.perSlot == c.size - 1
  {
    MulMono(1, c.maxIdle, c.perSlot);
    if c.maxIdle > 1 { MulMono(2, c.maxIdle, c.perSlot); }
    if c.perSlot >= c.size - 1 { ModOnce(c.perSlot, c.size - 1); }
  }

  /** A bound on the probe offset that does not depend on the time of placement. */
  lemma PlacedByOffset(c: Config, t: nat, m: nat, offset: nat)
    requires c.size >= 64 && m * Pace(c) + offset < c.size - 1
    ensures Ahead(c, t, m, Mod(Candidate(c, t, m) + offset, c.size)) == offset
    ensures Placed(c, t, m, Mod(Candidate(c, t, m) + offset, c.size))
  {
    AheadOfProbe(Candidate(c, t, m), offset, c.size);
    AtMostOneWrap(c, t, t + m);
  }

  lemma AheadOfProbe(base: nat, offset: nat, n: nat)
    requires base < n && offset < n
    ensures Mod(Mod(base + offset, n) - base, n) == offset
  {
  }

  /** A full pool of 64 cells with one transaction per time unit: the idle time of 64 units granted
      at time 0 is cut by the tick that follows at time 2. */
  lemma EarlyExpiryExample()
    ensures var c := Config(64, 1, 64);
            ValidConfig(c) && Candidate(c, 0, 64) == 1 && !Placed(c, 0, 64, 1) && Swept(c, 0, 2, 1)
  {
  }

  /** The first cell of the unrolled circle over the slot that lies past the idle time. */
  lemma ExpiryCell(c: Config, t: nat, end: nat, m: nat, slot: nat) returns (x: nat)
    requires c.size >= 64 && slot < c.size && t + m <= end
    requires (end - t - m) * Pace(c) > Ahead(c, t, m, slot)
    ensures Mod(x, c.size) == slot && Turn(c, t) <= x < Turn(c, end)
  {
    var z := AheadUnrolled(c, t, m, slot);
    x := Turn(c, t + m) + Ahead(c, t, m, slot);
    TurnMono(c, t, t + m);
    TurnMono(c, t + m, end);
    OtherSide(x, slot, z, c.size);
    ModUnique(x, -z, slot, c.size);
  }

  // ---- pool size and lock striping ----

  const NOF_MUTEX: nat := 64

  lemma {:induction false} Pow2Is64Multiple(n: nat)
    requires IsPow2Of64(n)
    ensures n >= 64 && n % 64 == 0
    decreases n
  {
    if n > 64 { Pow2Is64Multiple(n / 2); }
  }

  /** The bitwise and of two numbers. */
  function And(a: nat, b: nat): nat
    decreases a
  {
    if a == 0 || b == 0 then 0 else 2 * And(a / 2, b / 2) + if a % 2 == 1 && b % 2 == 1 then 1 else 0
  }

  const WORD: nat := 0x1_0000_0000_0000_0000

  /** A number masked with n - 1, as a word of 64 bits: negative numbers stand for their two's complements. */
  function Masked(e: int, n: nat): nat
    requires n > 0
  {
    And(e % WORD, n - 1)
  }

  ghost predicate IsPow2(n: nat)
    decreases n
  {
    n == 1 || (n > 1 && n % 2 == 0 && IsPow2(n / 2))
  }

  lemma {:induction false} Pow2Of64(n: nat)
    requires IsPow2Of64(n)
    ensures IsPow2(n)
    decreases n
  {
    if n > 64 { Pow2Of64(n / 2); } else { assert IsPow2(4) && IsPow2(16); }
  }

  lemma {:induction false} Pow2Product(a: nat, b: nat)
    requires IsPow2(a) && IsPow2(b)
    ensures IsPow2(a * b)
    decreases a
  {
    if a > 1 {
      Pow2Product(a / 2, b);
      assert a * b == 2 * (a / 2 * b);
    }
  }

  lemma WordIsPow2()
    ensures IsPow2(WORD)
  {
    assert IsPow2(4) && IsPow2(16);
    Pow2Product(16, 16);
    Pow2Product(0x100, 0x100);
    Pow2Product(0x1_0000, 0x1_0000);
    Pow2Product(0x1_0000_0000, 0x1_0000_0000);
  }

  lemma {:induction false} Pow2Divides(n: nat, w: nat) returns (k: nat)
    requires IsPow2(n) && IsPow2(w) && n <= w
    ensures w == k * n
    decreases n
  {
    if n == 1 {
      k := w;
    } else {
      k := Pow2Divides(n / 2, w / 2);
      assert w == 2 * (k * (n / 2)) == k * n;
    }
  }

  /** Behind the lowest bit, the remainder of the half. */
  lemma HalfRemainder(e: nat, half: nat)
    requires half > 0
    ensures Mod(e, 2 * half) == 2 * Mod(e / 2, half) + e % 2
  {
    var q, r := Quot(e / 2, half), Mod(e / 2, half);
    DivMod(e / 2, half);
    assert 2 * (q * half) == q * (2 * half);
    ModUnique(e, q, 2 * r + e % 2, 2 * half);
  }

  lemma {:induction false} AndIsMod(e: nat, n: nat)
    requires IsPow2(n)
    ensures And(e, n - 1) == Mod(e, n)
    decreases n
  {
    if n > 1 {
      AndIsMod(e / 2, n / 2);
      HalfRemainder(e, n / 2);
      assert (n - 1) / 2 == n / 2 - 1 && (n - 1) % 2 == 1;
      assert e == 0 ==> Mod(e / 2, n / 2) == 0;
    }
  }

  /** For a table whose size is a power of two, masking is taking the remainder, also for negative numbers. */
  lemma MaskIsMod(e: int, n: nat)
    requires IsPow2Of64(n) && n <= WORD
    ensures Masked(e, n) == Mod(e, n)
  {
    Pow2Of64(n);
    WordIsPow2();
    AndIsMod(e % WORD, n);
    var k := Pow2Divides(n, WORD);
    DivMod(e % WORD, n);
    WordsAside(e, e / WORD, k, Quot(e % WORD, n), Mod(e % WORD, n), n, WORD);
  }

  /** Whole words do not count in a remainder whose modulus divides the word. */
  lemma WordsAside(e: int, q: int, k: int, y: int, r: nat, n: nat, w: nat)
    requires r < n && w == k * n && e == q * w + (y * n + r)
    ensures Mod(e, n) == r
  {
    assert q * (k * n) == (q * k) * n;
    Distribute(q * k, y, n);
    ModIsRemainder(e, n);
    SameQuotient(e / n, q * k + y, e % n, r, n);
  }

  /** Two probe positions whose masks reach the same slot hold the same mutex, that of the slot. */
  lemma StripingIsSound(c: Config, e1: nat, e2: nat)
    requires IsPow2Of64(c.size) && c.size <= WORD && Masked(e1, c.size) == Masked(e2, c.size)
    ensures e1 % NOF_MUTEX == e2 % NOF_MUTEX == Masked(e1, c.size) % NOF_MUTEX
  {
    MutexOfSlot(c, e1);
    MutexOfSlot(c, e2);
  }

  /** The mutex of a probe position is the one of its masked slot. */
  lemma MutexOfSlot(c: Config, e: nat)
    requires IsPow2Of64(c.size) && c.size <= WORD
    ensures e % NOF_MUTEX == Masked(e, c.size) % NOF_MUTEX
  {
    MaskIsMod(e, c.size);
    MutexOfRemainder(c, e);
  }

  lemma {:induction false} MutexOfRemainder(c: Config, e: nat)
    requires IsPow2Of64(c.size)
    ensures e % NOF_MUTEX == Mod(e, c.size) % NOF_MUTEX
  {
    Pow2Is64Multiple(c.size);
    if e >= c.size {
      MutexOfRemainder(c, e - c.size);
      SameRemainder64(e, c.size);
    }
  }

  lemma SameRemainder64(e: nat, a: nat)
    requires a <= e && a % 64 == 0
    ensures (e - a) % 64 == e % 64
  {
    var q, f := e / 64, a / 64;
    assert e - a == 64 * (q - f) + e % 64;
  }
}
