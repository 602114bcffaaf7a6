module TransactionRoom {

  // How much room a pool needs so that no transaction expires early: exact conditions over all reachable pools.

  import opened Wrappers
  import opened TransactionClock
  import opened TransactionPool

  // ---- ticks only ----

  ghost predicate TicksOnly(ops: seq<Op>) { forall op :: op in ops ==> op.OpTick? }

  /** Ticks empty slots and fill none. */
  lemma {:induction false} TicksOnlyRemove(c: Config, s: State, ops: seq<Op>, i: nat)
    requires Intact(c, s) && Runnable(c, s, ops) && TicksOnly(ops) && i < c.size
    ensures Run(c, s, ops).ar[i].Some? ==> Run(c, s, ops).ar[i] == s.ar[i]
    ensures ClearedDuring(c, s, ops, i) ==> Run(c, s, ops).ar[i].None?
    decreases ops
  {
    if ops != [] {
      assert ops[0] in ops;
      TickExpires(c, s, ops[0].time);
      TicksOnlyRemove(c, Step(c, s, ops[0]), ops[1..], i);
    }
  }

  lemma {:induction false} UnitTicksTick(t: nat, n: nat)
    ensures TicksOnly(UnitTicks(t, n))
    ensures forall op :: op in UnitTicks(t, n) ==> op.time <= t + n
    decreases n
  {
    if n > 0 { UnitTicksTick(t + 1, n - 1); }
  }

  // ---- what a stored transaction can rely on ----

  /** Within the idle time of a transaction touched now, nobody fetches it. */
  ghost predicate Undisturbed(s: State, ops: seq<Op>, tr: Transaction)
  {
    OpFetch(tr.tidx) !in ops && forall op :: op in ops && op.OpTick? ==> op.time <= s.lasttick + tr.maxIdle
  }

  ghost predicate FoundAfter(c: Config, s: State, ops: seq<Op>, tr: Transaction)
    requires Intact(c, s)
  {
    Runnable(c, s, ops) && Undisturbed(s, ops, tr) ==> Fetch(c, Run(c, s, ops), tr.tidx).1 == Some(tr)
  }

  /** A transaction touched now is found after every run within its idle time. */
  ghost predicate FoundInTime(c: Config, s: State, tr: Transaction)
    requires Intact(c, s)
  {
    forall ops :: FoundAfter(c, s, ops, tr)
  }

  /** A stored transaction touched now is found after every run within its idle time exactly if its slot is placed. */
  lemma FoundExactly(c: Config, s: State, tr: Transaction, slot: nat)
    requires Intact(c, s) && slot < c.size && StoredAt(s, slot, tr)
    ensures FoundInTime(c, s, tr) <==> Placed(c, s.lasttick, tr.maxIdle, slot)
  {
    if Placed(c, s.lasttick, tr.maxIdle, slot) {
      forall ops ensures FoundAfter(c, s, ops, tr) {
        if Runnable(c, s, ops) && Undisturbed(s, ops, tr) { NoEarlyExpiry(c, s, ops, tr, slot, s.lasttick); }
      }
    } else {
      var ticks := UnitTicks(s.lasttick, tr.maxIdle);
      LostAfterTicks(c, s, tr, slot);
      assert !FoundAfter(c, s, ticks, tr);
    }
  }

  lemma LostAfterTicks(c: Config, s: State, tr: Transaction, slot: nat)
    requires Intact(c, s) && slot < c.size && StoredAt(s, slot, tr) && !Placed(c, s.lasttick, tr.maxIdle, slot)
    ensures var ticks := UnitTicks(s.lasttick, tr.maxIdle);
            Runnable(c, s, ticks) && Undisturbed(s, ticks, tr) && Fetch(c, Run(c, s, ticks), tr.tidx).1.None?
  {
    var ticks := UnitTicks(s.lasttick, tr.maxIdle);
    UnplacedExpiresEarly(c, s, slot, tr.maxIdle);
    UnitTicksTick(s.lasttick, tr.maxIdle);
    var e := Run(c, s, ticks);
    FetchIsLookup(c, e, tr.tidx);
    forall x | Stored(e, x) && x.tidx == tr.tidx ensures false {
      var j :| 0 <= j < c.size && e.ar[j] == Some(x);
      TicksOnlyRemove(c, s, ticks, j);
      TicksOnlyRemove(c, s, ticks, slot);
    }
  }

  // ---- all creations of all reachable pools ----

  /** The idle time m is asked for, or it is the limit and something else than a possible idle time is asked for. */
  predicate AsksFor(c: Config, asked: int, m: nat)
  {
    (1 <= asked <= c.maxIdle && asked == m) || (!(1 <= asked <= c.maxIdle) && m == c.maxIdle)
  }

  /** After this run of a new pool, a transaction for which this idle time is asked is found in time. */
  ghost predicate SafeCreation(c: Config, time: nat, ops: seq<Op>, create: Op, m: nat)
    requires ValidConfig(c)
  {
    EmptyKeepsInvariant(c, time);
    Runnable(c, Empty(c, time), ops) ==>
      var s := Run(c, Empty(c, time), ops);
      create.OpCreate? && Allowed(c, s, create) && AsksFor(c, create.maxIdle, m) ==> CreatedInTime(c, s, create, m)
  }

  ghost predicate CreatedInTime(c: Config, s: State, create: Op, m: nat)
    requires Intact(c, s) && create.OpCreate? && Allowed(c, s, create)
  {
    CreateStores(c, s, create.contextType, create.context, create.maxIdle, create.rands);
    var (s', r) := Create(c, s, create.contextType, create.context, create.maxIdle, create.rands);
    r.Some? ==>
      FoundInTime(c, s', Transaction(create.contextType, create.context, r.value, Mod(r.value, c.size), m))
  }

  ghost predicate AllSafe(c: Config, m: nat)
    requires ValidConfig(c)
  {
    forall time: nat, ops, create :: SafeCreation(c, time, ops, create, m)
  }

  /** Main result: with a granted idle time m, all transactions created in all reachable pools are found in time
      exactly if nine more units of time fit into the pool, or the clock hand stands still. */
  lemma RoomIsExact(c: Config, m: nat)
    requires ValidConfig(c) && 1 <= m <= c.maxIdle
    ensures AllSafe(c, m) <==> Room(c, m)
  {
    if Room(c, m) {
      forall time: nat, ops, create ensures SafeCreation(c, time, ops, create, m) {
        EmptyKeepsInvariant(c, time);
        if Runnable(c, Empty(c, time), ops) {
          var s := Run(c, Empty(c, time), ops);
          if create.OpCreate? && Allowed(c, s, create) && AsksFor(c, create.maxIdle, m) {
            RoomySlot(c, s, create, m);
          }
        }
      }
    } else {
      var time, ops, create := CrowdedPool(c, m);
      assert !SafeCreation(c, time, ops, create, m);
    }
  }

  lemma RoomySlot(c: Config, s: State, create: Op, m: nat)
    requires Intact(c, s) && create.OpCreate? && Allowed(c, s, create) && AsksFor(c, create.maxIdle, m) && Room(c, m)
    ensures CreatedInTime(c, s, create, m)
  {
    var (s', r) := Create(c, s, create.contextType, create.context, create.maxIdle, create.rands);
    CreateStores(c, s, create.contextType, create.context, create.maxIdle, create.rands);
    if r.Some? {
      SlotIsPlaced(c, s, r.value, m);
      var slot := SearchSlot(c, s.lasttick, s.ar, r.value, m).value;
      FoundExactly(c, s', s'.ar[slot].value, slot);
    }
  }

  // ---- a crowded pool ----

  /** After i creations: their cells are the first ones, their slots the ones behind the base. */
  ghost predicate Crowded(c: Config, s: State, time: nat, m: nat, i: nat)
  {
    && Intact(c, s) && s.lasttick == time
    && (forall j: nat :: j < c.size ==> (SlotBehind(c, s, time, m, j).Some? <==> j < i))
    && (forall k :: 0 <= k < c.size ==> (s.refar[k] != FREE <==> k < i))
  }

  /** The slot j cells behind the base of the idle time. */
  ghost function SlotBehind(c: Config, s: State, time: nat, m: nat, j: nat): Option<Transaction>
    requires c.size >= 64 && |s.ar| == c.size
  {
    s.ar[Mod(Candidate(c, time, m) + j, c.size)]
  }

  lemma SlotsDiffer(c: Config, time: nat, m: nat, i: nat, j: nat)
    requires c.size >= 64 && i < c.size && j < c.size && i != j
    ensures Mod(Candidate(c, time, m) + i, c.size) != Mod(Candidate(c, time, m) + j, c.size)
  {
    AheadOfProbe(Candidate(c, time, m), i, c.size);
    AheadOfProbe(Candidate(c, time, m), j, c.size);
  }

  function Creation(c: Config, m: nat, i: nat): Op { OpCreate("", 0, m, Repeated(i, Tries(c) + 1)) }

  ghost predicate AllOccupied(ar: seq<Option<Transaction>>, e: nat, j: nat)
    requires |ar| > 0
  {
    forall k: nat :: k < j ==> Occupied(ar, e, k)
  }

  lemma OccupiedBehind(ar: seq<Option<Transaction>>, e: nat, next: nat, j: nat)
    requires |ar| > 0 && j > 0 && AllOccupied(ar, e, j) && next == e + 1
    ensures AllOccupied(ar, next, j - 1)
  {
    forall k: nat | k < j - 1 ensures Occupied(ar, next, k) { assert Occupied(ar, e, k + 1); }
  }

  lemma {:induction false} FirstEmptyAt(ar: seq<Option<Transaction>>, e: nat, n: nat, j: nat)
    requires |ar| > 0 && j < n && !Occupied(ar, e, j) && AllOccupied(ar, e, j)
    ensures FirstEmpty(ar, e, n) == j
    decreases n
  {
    if j > 0 {
      assert Occupied(ar, e, 0);
      assert !Occupied(ar, e + 1, j - 1);
      OccupiedBehind(ar, e, e + 1, j);
      FirstEmptyAt(ar, e + 1, n - 1, j - 1);
    }
  }

  /** The i-th creation probes over all slots of the creations before it. */
  lemma NextSlot(c: Config, s: State, time: nat, m: nat, i: nat)
    requires ValidConfig(c) && Crowded(c, s, time, m, i) && i < c.size && i < 9 * c.perSlot
    ensures SearchSlot(c, s.lasttick, s.ar, i, m) == Some(Mod(Candidate(c, time, m) + i, c.size))
  {
    var r := Mod(i, c.perSlot);
    var base, probes := Candidate(c, time, m), i - r;
    ModAtMost(i, c.perSlot);
    ProbesBefore(i, c.perSlot);
    var e := base + r;
    assert e + probes == base + i;
    assert SlotBehind(c, s, time, m, i).None?;
    forall k: nat | k < probes ensures Occupied(s.ar, e, k) {
      assert SlotBehind(c, s, time, m, r + k).Some?;
      assert e + k == base + (r + k);
    }
    FirstEmptyAt(s.ar, e, Tries(c) + 1, probes);
  }

  lemma ProbesBefore(i: nat, k: nat)
    requires k > 0 && i < 9 * k
    ensures i - Mod(i, k) <= 8 * k
  {
    DivMod(i, k);
    if Quot(i, k) >= 9 { ScaleMono(9, Quot(i, k), k); }
    ScaleMono(Quot(i, k), 8, k);
  }

  lemma FirstClaims(c: Config, s: State, i: nat)
    requires ValidConfig(c) && Intact(c, s) && i < c.size && s.refar[i] == FREE
    ensures var rands := Repeated(i, Tries(c) + 1);
            && Draws(c, rands) && Harmless(c, s, rands) && FirstFree(c.size, s.refar, rands) == 0
            && |rands| > 1 && rands[0] == i
  {
    var rands := Repeated(i, Tries(c) + 1);
    assert rands[0] == i && Mod(i, c.size) == i;
  }

  lemma NextCreation(c: Config, s: State, time: nat, m: nat, i: nat)
    requires ValidConfig(c) && 1 <= m <= c.maxIdle
    requires Crowded(c, s, time, m, i) && i < c.size && i < 9 * c.perSlot
    ensures var slot := Mod(Candidate(c, time, m) + i, c.size);
            Create(c, s, "", 0, m, Repeated(i, Tries(c) + 1))
              == (s.(ar := s.ar[slot := Some(Transaction("", 0, i, i, m))], refar := s.refar[i := slot]), Some(i))
  {
    FirstClaims(c, s, i);
    NextSlot(c, s, time, m, i);
    hide FirstFree, SearchSlot, Crowded, Intact;
    assert Mod(i, c.size) == i;
  }

  lemma CrowdedMore(c: Config, s: State, time: nat, m: nat, i: nat)
    requires ValidConfig(c) && 1 <= m <= c.maxIdle
    requires Crowded(c, s, time, m, i) && i < c.size && i < 9 * c.perSlot
    ensures Allowed(c, s, Creation(c, m, i))
    ensures var s' := Step(c, s, Creation(c, m, i));
            && s'.ar == s.ar[Mod(Candidate(c, time, m) + i, c.size) := Some(Transaction("", 0, i, i, m))]
            && s'.refar == s.refar[i := Mod(Candidate(c, time, m) + i, c.size)]
            && Crowded(c, s', time, m, i + 1)
  {
    FirstClaims(c, s, i);
    NextCreation(c, s, time, m, i);
    var s' := Step(c, s, Creation(c, m, i));
    hide Create, Intact, Harmless, FirstFree;
    forall j: nat | j < c.size ensures SlotBehind(c, s', time, m, j).Some? <==> j < i + 1 {
      assert SlotBehind(c, s, time, m, j).Some? <==> j < i;
      if j != i { SlotsDiffer(c, time, m, i, j); }
    }
  }

  lemma {:induction false} RunMore(c: Config, s: State, ops: seq<Op>, op: Op)
    requires Intact(c, s) && Runnable(c, s, ops) && Allowed(c, Run(c, s, ops), op)
    ensures Runnable(c, s, ops + [op]) && Run(c, s, ops + [op]) == Step(c, Run(c, s, ops), op)
    decreases ops
  {
    if ops == [] {
      assert [op][1..] == [] && ops + [op] == [op];
      assert Run(c, Step(c, s, op), []) == Step(c, s, op);
    } else {
      assert (ops + [op])[0] == ops[0] && (ops + [op])[1..] == ops[1..] + [op];
      RunMore(c, Step(c, s, ops[0]), ops[1..], op);
    }
  }

  lemma EmptyIsCrowded(c: Config, time: nat, m: nat)
    requires ValidConfig(c)
    ensures Intact(c, Empty(c, time)) && Crowded(c, Empty(c, time), time, m, 0)
  {
    EmptyKeepsInvariant(c, time);
    hide Intact;
  }

  lemma {:induction false} Crowd(c: Config, time: nat, m: nat, i: nat) returns (ops: seq<Op>)
    requires ValidConfig(c) && 1 <= m <= c.maxIdle && i <= c.size && i <= 9 * c.perSlot
    ensures Intact(c, Empty(c, time)) && Runnable(c, Empty(c, time), ops)
    ensures Crowded(c, Run(c, Empty(c, time), ops), time, m, i)
    decreases i
  {
    EmptyKeepsInvariant(c, time);
    if i == 0 {
      EmptyIsCrowded(c, time, m);
      ops := [];
    } else {
      hide Intact, Allowed, Step, Run, Runnable, Crowded, Empty;
      var before := Crowd(c, time, m, i - 1);
      CrowdedMore(c, Run(c, Empty(c, time), before), time, m, i - 1);
      RunMore(c, Empty(c, time), before, Creation(c, m, i - 1));
      ops := before + [Creation(c, m, i - 1)];
    }
  }

  /** A time at which the base position wraps around within the next unit. */
  lemma WrappingTime(c: Config) returns (t: nat)
    requires c.size >= 64 && Pace(c) > 0
    ensures forall m: nat :: 1 <= m ==> WrapsBetween(c, t, m) >= 1
  {
    t := Quot(c.size - 2, Pace(c));
    DivMod(c.size - 2, Pace(c));
    Distribute(t, 1, Pace(c));
    ScaleMono(0, t, Pace(c));
    assert t * Pace(c) < c.size - 1 <= (t + 1) * Pace(c);
    assert Wraps(c, t) == 0;
    forall m: nat | 1 <= m ensures WrapsBetween(c, t, m) >= 1 {
      TurnMono(c, t + 1, t + m);
      assert Wraps(c, t + 1) >= 1;
    }
  }

  /** Without room for it, some creation finds no placed slot: after as many creations as there are probes, or as
      there are slots. */
  lemma CrowdedPool(c: Config, m: nat) returns (time: nat, ops: seq<Op>, create: Op)
    requires ValidConfig(c) && 1 <= m <= c.maxIdle && !Room(c, m)
    ensures !SafeCreation(c, time, ops, create, m)
  {
    StandingHand(c);
    time := WrappingTime(c);
    var n := if 9 * c.perSlot < c.size then 9 * c.perSlot - 1 else c.size - 1;
    ops := Crowd(c, time, m, n);
    create := Creation(c, m, n);
    var s := Run(c, Empty(c, time), ops);
    CrowdedMore(c, s, time, m, n);
    FirstClaims(c, s, n);
    NextCreation(c, s, time, m, n);
    LastIsUnplaced(c, time, m, n);
    hide Placed, Create, Run, Crowded, FirstFree, Harmless, Room, IdleTime;
    var slot := Mod(Candidate(c, time, m) + n, c.size);
    FoundExactly(c, Step(c, s, create), Transaction("", 0, n, n, m), slot);
  }

  lemma LastIsUnplaced(c: Config, time: nat, m: nat, n: nat)
    requires ValidConfig(c) && 1 <= m <= c.maxIdle && !Room(c, m) && WrapsBetween(c, time, m) >= 1 && Pace(c) > 0
    requires n == if 9 * c.perSlot < c.size then 9 * c.perSlot - 1 else c.size - 1
    ensures !Placed(c, time, m, Mod(Candidate(c, time, m) + n, c.size))
  {
    AheadOfProbe(Candidate(c, time, m), n, c.size);
    ScaleMono(1, m, Pace(c));
    Distribute(m, 9, c.perSlot);
  }
}
