module TransactionPool {

  // The pool of open transactions: a table of references by index, and a circle of slots ordered by expiry times.
  // The first part describes every operation as a function on pool states, the second part proves what the
  // pool promises over whole runs, and the class at the end is the pool as it works in place.

  import opened Wrappers
  import opened TransactionClock
  import TransactionId

  /** `ref` is the cell of the reference table that belongs to the transaction. */
  datatype Transaction = Transaction(contextType: string, context: nat, tidx: nat, ref: nat, maxIdle: nat)

  /** Marks of the reference table: a free cell, and a cell claimed while its slot is being searched. */
  const FREE: int := -1
  const CLAIMED: int := 0x7fff_ffff

  /** `held` are the fetched transactions, owned by the requests that process them. */
  datatype State = State(lasttick: nat, ar: seq<Option<Transaction>>, refar: seq<int>, held: set<Transaction>)

  ghost predicate Shape(c: Config, s: State) {
    Usable(c) && |s.ar| == |s.refar| == c.size
  }

  /** A pool without transactions. */
  function Empty(c: Config, time: nat): State
  {
    State(time, seq(c.size, _ => None), seq(c.size, _ => FREE), {})
  }

  /** m_allocNofTries */
  function Tries(c: Config): nat { c.perSlot * 8 }

  /** The idle time granted for a requested one. */
  function IdleTime(c: Config, m: int): nat {
    if m <= 0 || m > c.maxIdle then c.maxIdle else m
  }

  // ---- the operations on states ----

  /** Index of the first drawn number whose reference cell is free. */
  function FirstFree(size: nat, refar: seq<int>, rands: seq<nat>): (i: nat)
    requires |refar| == size > 0
    ensures i <= |rands|
    ensures forall j :: 0 <= j < i ==> refar[Mod(rands[j], size)] != FREE
    ensures i < |rands| ==> refar[Mod(rands[i], size)] == FREE
  {
    if rands == [] then 0
    else if refar[Mod(rands[0], size)] == FREE then 0
    else 1 + FirstFree(size, refar, rands[1..])
  }

  /** Number of occupied slots passed by n probes from position e before the first empty one. */
  function FirstEmpty(ar: seq<Option<Transaction>>, e: nat, n: nat): (j: nat)
    requires |ar| > 0
    ensures j <= n
    ensures j < n ==> ar[Mod(e + j, |ar|)].None?
    decreases n
  {
    if n == 0 || ar[Mod(e, |ar|)].None? then 0 else 1 + FirstEmpty(ar, e + 1, n - 1)
  }

  /** The slot for a transaction touched at a time. */
  function SearchSlot(c: Config, time: nat, ar: seq<Option<Transaction>>, tidx: nat, maxIdle: nat): (r: Option<nat>)
    requires Usable(c) && |ar| == c.size
    ensures r.Some? ==> r.value < c.size && ar[r.value].None?
  {
    var e := Candidate(c, time, maxIdle) + Mod(tidx, c.perSlot);
    var j := FirstEmpty(ar, e, Tries(c) + 1);
    if j > Tries(c) then None else Some(Mod(e + j, c.size))
  }

  /** Of n probes from start, those before e have found no empty slot. */
  ghost predicate Probing(ar: seq<Option<Transaction>>, start: nat, n: nat, e: nat)
    requires |ar| > 0
  {
    start <= e <= start + n && FirstEmpty(ar, start, n) == (e - start) + FirstEmpty(ar, e, start + n - e)
  }

  lemma ProbeOn(ar: seq<Option<Transaction>>, start: nat, n: nat, e: nat)
    requires |ar| > 0 && Probing(ar, start, n, e) && e < start + n
    ensures if ar[Mod(e, |ar|)].None? then FirstEmpty(ar, start, n) == e - start else Probing(ar, start, n, e + 1)
  {
  }

  ghost predicate Occupied(ar: seq<Option<Transaction>>, e: nat, i: nat)
    requires |ar| > 0
  {
    ar[Mod(e + i, |ar|)].Some?
  }

  /** The probes pass occupied slots only, and they fail exactly if all n slots are occupied. */
  lemma {:induction false} ProbesAreExhaustive(ar: seq<Option<Transaction>>, e: nat, n: nat)
    requires |ar| > 0
    ensures forall i: nat :: i < FirstEmpty(ar, e, n) ==> Occupied(ar, e, i)
    ensures FirstEmpty(ar, e, n) == n <==> forall i: nat :: i < n ==> Occupied(ar, e, i)
    decreases n
  {
    if n > 0 {
      ProbesAreExhaustive(ar, e + 1, n - 1);
      assert Occupied(ar, e, 0) <==> ar[Mod(e, |ar|)].Some?;
      forall i: nat | i < FirstEmpty(ar, e, n) ensures Occupied(ar, e, i) {
        if i > 0 { assert Occupied(ar, e + 1, i - 1); }
      }
      var j := FirstEmpty(ar, e, n);
      assert j < n ==> !Occupied(ar, e, j);
    }
  }

  /** Creation with the random numbers the generator would return. The number of a failed draw is not
      checked after the draw loop: a claim with the last number fails and keeps its cell, and without any
      claim the creation goes on with the last number and the cell of another transaction. */
  function Create(c: Config, s: State, contextType: string, context: nat, m: int, rands: seq<nat>):
    (r: (State, Option<nat>))
    requires Shape(c, s) && |rands| == Tries(c) + 1
    ensures Shape(c, r.0)
  {
    var i := FirstFree(c.size, s.refar, rands);
    var tidx := if i < |rands| then rands[i] else rands[Tries(c)];
    var ref := Mod(tidx, c.size);
    if i == Tries(c) then (s.(refar := s.refar[ref := CLAIMED]), None)
    else
      var idle := IdleTime(c, m);
      match SearchSlot(c, s.lasttick, s.ar, tidx, idle)
      case None => (s.(refar := s.refar[ref := FREE]), None)
      case Some(slot) =>
        var tr := Transaction(contextType, context, tidx, ref, idle);
        (s.(ar := s.ar[slot := Some(tr)], refar := s.refar[ref := slot]), Some(tidx))
  }

  function Fetch(c: Config, s: State, tidx: int): (r: (State, Option<Transaction>))
    requires Shape(c, s)
    ensures Shape(c, r.0)
  {
    var slot := Mod(s.refar[Mod(tidx, c.size)], c.size);
    match s.ar[slot]
    case Some(tr) => if tr.tidx == tidx
                     then (s.(ar := s.ar[slot := None], held := s.held + {tr}), Some(tr))
                     else (s, None)
    case None => (s, None)
  }

  /** A held transaction comes back into the pool. */
  function Return(c: Config, s: State, tr: Transaction): (r: (State, bool))
    requires Shape(c, s) && tr.ref < c.size
    ensures Shape(c, r.0)
  {
    match SearchSlot(c, s.lasttick, s.ar, tr.tidx, tr.maxIdle)
    case None => (s, false)
    case Some(slot) =>
      (s.(ar := s.ar[slot := Some(tr)], refar := s.refar[tr.ref := slot], held := s.held - {tr}), true)
  }

  /** The owner of a held transaction destroys it. */
  function Drop(c: Config, s: State, tr: Transaction): (s': State)
    requires Shape(c, s) && tr.ref < c.size
    ensures Shape(c, s')
  {
    s.(refar := s.refar[tr.ref := FREE], held := s.held - {tr})
  }

  ghost predicate RefsInRange(ar: seq<Option<Transaction>>, n: nat) {
    forall i :: 0 <= i < |ar| && ar[i].Some? ==> ar[i].value.ref < n
  }

  /** Destroys the transactions in the cells start..end of the circle. */
  function Sweep(ar: seq<Option<Transaction>>, refar: seq<int>, start: nat, end: nat):
    (r: (seq<Option<Transaction>>, seq<int>))
    requires |ar| == |refar| > 0 && RefsInRange(ar, |ar|)
    ensures |r.0| == |r.1| == |ar| && RefsInRange(r.0, |ar|)
    decreases end
  {
    if end <= start then (ar, refar)
    else
      var (a, r) := Sweep(ar, refar, start, end - 1);
      var slot := Mod(end - 1, |ar|);
      (a[slot := None], if a[slot].Some? then r[a[slot].value.ref := FREE] else r)
  }

  function Tick(c: Config, s: State, t: nat): (s': State)
    requires Shape(c, s) && RefsInRange(s.ar, c.size)
    ensures Shape(c, s')
  {
    var (a, r) := Sweep(s.ar, s.refar, Hand(c, s.lasttick), SweepEnd(c, s.lasttick, t));
    s.(lasttick := t, ar := a, refar := r)
  }

  // ---- the invariant ----

  ghost predicate StoredAt(s: State, i: int, tr: Transaction) {
    0 <= i < |s.ar| && s.ar[i] == Some(tr)
  }

  ghost predicate Stored(s: State, tr: Transaction) { Some(tr) in s.ar }

  ghost predicate Live(s: State, tr: Transaction) { Stored(s, tr) || tr in s.held }

  ghost predicate WellFormed(c: Config, tr: Transaction)
    requires c.size > 0
  {
    tr.ref == Mod(tr.tidx, c.size) && tr.tidx < TransactionId.INDEX_LIMIT && 1 <= tr.maxIdle <= c.maxIdle
  }

  /** Every stored transaction is found through its cell, a held one has a claimed cell, and no two live
      transactions share a cell. */
  ghost predicate Intact(c: Config, s: State) {
    && Shape(c, s)
    && (forall i :: 0 <= i < c.size && s.ar[i].Some? ==>
          WellFormed(c, s.ar[i].value) && s.refar[s.ar[i].value.ref] == i)
    && (forall tr :: tr in s.held ==> WellFormed(c, tr) && s.refar[tr.ref] != FREE)
    && (forall tr, i :: tr in s.held && 0 <= i < c.size && s.ar[i].Some? ==> s.ar[i].value.ref != tr.ref)
    && (forall tr, tr' :: tr in s.held && tr' in s.held && tr.ref == tr'.ref ==> tr == tr')
  }

  /** And a cell is claimed only while a live transaction owns it. */
  ghost predicate Inv(c: Config, s: State) {
    Intact(c, s) && NothingLeaked(c, s)
  }

  ghost predicate NothingLeaked(c: Config, s: State)
    requires Shape(c, s)
  {
    forall r :: 0 <= r < c.size && s.refar[r] != FREE ==> 0 <= s.refar[r] < c.size && Owned(s, r)
  }

  ghost predicate Owned(s: State, r: nat) {
    || (exists i :: 0 <= i < |s.ar| && s.ar[i].Some? && s.ar[i].value.ref == r)
    || (exists tr :: tr in s.held && tr.ref == r)
  }

  /** The draws of one creation and whether one of those that count hits a free cell. */
  ghost predicate Draws(c: Config, rands: seq<nat>) {
    |rands| == Tries(c) + 1 && forall i :: 0 <= i < |rands| ==> rands[i] < TransactionId.INDEX_LIMIT
  }

  ghost predicate Claimable(c: Config, s: State, rands: seq<nat>)
    requires Shape(c, s) && |rands| == Tries(c) + 1
  {
    exists i :: 0 <= i < Tries(c) && s.refar[Mod(rands[i], c.size)] == FREE
  }

  /** A draw hits a free cell, or else the cell of the last one has no owner. */
  ghost predicate Harmless(c: Config, s: State, rands: seq<nat>)
    requires Shape(c, s) && |rands| == Tries(c) + 1
  {
    FirstFree(c.size, s.refar, rands) < |rands| || !Owned(s, Mod(rands[Tries(c)], c.size))
  }

  /** A new pool is empty and keeps the invariant. */
  lemma EmptyKeepsInvariant(c: Config, time: nat)
    requires ValidConfig(c)
    ensures Inv(c, Empty(c, time)) && forall tr :: !Live(Empty(c, time), tr)
  {
  }

  // ---- what each operation does ----

  /** What the caller gets: the idle time it asks for, if that is positive and within the limit, else the limit. */
  lemma CreatedIdleTime(c: Config, s: State, contextType: string, context: nat, m: int, rands: seq<nat>)
    requires Shape(c, s) && |rands| == Tries(c) + 1
    ensures var (s', r) := Create(c, s, contextType, context, m, rands);
            r.Some? ==> exists slot, tr ::
              && StoredAt(s', slot, tr) && s'.ar == s.ar[slot := Some(tr)]
              && tr.tidx == r.value && tr.contextType == contextType && tr.context == context
              && (1 <= m <= c.maxIdle ==> tr.maxIdle == m)
              && (m <= 0 || m > c.maxIdle ==> tr.maxIdle == c.maxIdle)
  {
    var (s', r) := Create(c, s, contextType, context, m, rands);
    if r.Some? {
      var slot := SearchSlot(c, s.lasttick, s.ar, r.value, IdleTime(c, m)).value;
      assert StoredAt(s', slot, s'.ar[slot].value);
    }
  }

  /** A harmless creation stores one new transaction under an index of its own, or leaves all transactions as they
      are; if a draw before the last one succeeds, it leaves the whole pool as it was. */
  lemma CreateStores(c: Config, s: State, contextType: string, context: nat, m: int, rands: seq<nat>)
    requires Intact(c, s) && Draws(c, rands) && Harmless(c, s, rands)
    ensures var (s', r) := Create(c, s, contextType, context, m, rands);
      && Intact(c, s') && s'.held == s.held && s'.lasttick == s.lasttick
      && (Inv(c, s) && Claimable(c, s, rands) ==> Inv(c, s'))
      && (r.None? ==> s'.ar == s.ar && (Claimable(c, s, rands) ==> s' == s))
      && (r.Some? ==>
            (forall tr :: Live(s, tr) ==> tr.ref != Mod(r.value, c.size)) &&
            var tr := Transaction(contextType, context, r.value, Mod(r.value, c.size), IdleTime(c, m));
               forall x :: Stored(s', x) <==> Stored(s, x) || x == tr)
  {
    CreateKeepsIntact(c, s, contextType, context, m, rands);
    if Create(c, s, contextType, context, m, rands).1.Some? {
      CreatedIsStored(c, s, contextType, context, m, rands);
    }
    if Claimable(c, s, rands) { ClaimedCreation(c, s, contextType, context, m, rands); }
  }

  /** The drawn index of a creation, and whether its cell is the claimed one of a live transaction. */
  function Drawn(c: Config, s: State, rands: seq<nat>): (tidx: nat)
    requires Shape(c, s) && |rands| == Tries(c) + 1
    ensures tidx in rands
  {
    var i := FirstFree(c.size, s.refar, rands);
    if i < |rands| then rands[i] else rands[Tries(c)]
  }

  lemma HarmlessCell(c: Config, s: State, rands: seq<nat>)
    requires Intact(c, s) && Draws(c, rands) && Harmless(c, s, rands)
    ensures !Owned(s, Mod(Drawn(c, s, rands), c.size))
    ensures forall i :: 0 <= i < c.size && s.ar[i].Some? ==> s.ar[i].value.ref != Mod(Drawn(c, s, rands), c.size)
    ensures forall tr :: tr in s.held ==> tr.ref != Mod(Drawn(c, s, rands), c.size)
  {
  }

  /** Nothing happens to other cells than the drawn one and to other slots than the one found for it. */
  lemma CreateKeepsIntact(c: Config, s: State, contextType: string, context: nat, m: int, rands: seq<nat>)
    requires Intact(c, s) && Draws(c, rands) && Harmless(c, s, rands)
    ensures Intact(c, Create(c, s, contextType, context, m, rands).0)
    ensures Create(c, s, contextType, context, m, rands).0.held == s.held
    ensures Create(c, s, contextType, context, m, rands).0.lasttick == s.lasttick
    ensures Create(c, s, contextType, context, m, rands).1.None? ==>
              Create(c, s, contextType, context, m, rands).0.ar == s.ar
  {
    HarmlessCell(c, s, rands);
    hide FirstFree, Harmless;
  }

  lemma CreatedIsStored(c: Config, s: State, contextType: string, context: nat, m: int, rands: seq<nat>)
    requires Intact(c, s) && Draws(c, rands) && Harmless(c, s, rands)
    requires Create(c, s, contextType, context, m, rands).1.Some?
    ensures var (s', r) := Create(c, s, contextType, context, m, rands);
            var tr := Transaction(contextType, context, r.value, Mod(r.value, c.size), IdleTime(c, m));
            && (forall x :: Stored(s', x) <==> Stored(s, x) || x == tr)
            && (forall x :: Live(s, x) ==> x.ref != tr.ref)
  {
    HarmlessCell(c, s, rands);
    hide FirstFree, Harmless;
    var (s', r) := Create(c, s, contextType, context, m, rands);
    var tr := Transaction(contextType, context, r.value, Mod(r.value, c.size), IdleTime(c, m));
    var slot := SearchSlot(c, s.lasttick, s.ar, r.value, IdleTime(c, m)).value;
    forall x ensures Stored(s', x) <==> Stored(s, x) || x == tr {
      if Stored(s, x) {
        var j :| 0 <= j < c.size && s.ar[j] == Some(x);
        assert s'.ar[j] == Some(x);
      }
      assert s'.ar[slot] == Some(tr);
    }
  }

  lemma ClaimedCreation(c: Config, s: State, contextType: string, context: nat, m: int, rands: seq<nat>)
    requires Intact(c, s) && Draws(c, rands) && Claimable(c, s, rands)
    requires Intact(c, Create(c, s, contextType, context, m, rands).0)
    ensures var (s', r) := Create(c, s, contextType, context, m, rands);
            && (r.None? ==> s' == s)
            && (Inv(c, s) ==> Inv(c, s'))
  {
    var (s', r) := Create(c, s, contextType, context, m, rands);
    var i := FirstFree(c.size, s.refar, rands);
    var ref := Mod(rands[i], c.size);
    assert s.refar[ref := FREE] == s.refar;
    if r.Some? && Inv(c, s) {
      var slot := SearchSlot(c, s.lasttick, s.ar, rands[i], IdleTime(c, m)).value;
      forall k | 0 <= k < c.size && s'.refar[k] != FREE ensures 0 <= s'.refar[k] < c.size && Owned(s', k) {
        if k == ref {
          assert s'.ar[slot].Some? && s'.ar[slot].value.ref == k;
        } else {
          assert Owned(s, k);
          if j :| 0 <= j < |s.ar| && s.ar[j].Some? && s.ar[j].value.ref == k { assert s'.ar[j] == s.ar[j]; }
        }
      }
    }
  }

  /** The invariant survives a creation exactly if a draw before the last one hits a free cell; all transactions
      survive it exactly if it is harmless. */
  lemma CreateKeepsInvariant(c: Config, s: State, contextType: string, context: nat, m: int, rands: seq<nat>)
    requires Intact(c, s) && Draws(c, rands)
    ensures Inv(c, s) ==> (Inv(c, Create(c, s, contextType, context, m, rands).0) <==> Claimable(c, s, rands))
    ensures Intact(c, Create(c, s, contextType, context, m, rands).0) <==> Harmless(c, s, rands)
  {
    if FirstFree(c.size, s.refar, rands) == |rands| {
      NoClaimTakesForeignCell(c, s, contextType, context, m, rands);
    } else {
      CreateStores(c, s, contextType, context, m, rands);
      if FirstFree(c.size, s.refar, rands) == Tries(c) {
        LateClaimLeaksCell(c, s, contextType, context, m, rands);
      }
    }
    if Harmless(c, s, rands) { CreateStores(c, s, contextType, context, m, rands); }
  }

  /** A claim with the last number leaves a claimed cell without an owner. */
  lemma LateClaimLeaksCell(c: Config, s: State, contextType: string, context: nat, m: int, rands: seq<nat>)
    requires Intact(c, s) && Draws(c, rands) && FirstFree(c.size, s.refar, rands) == Tries(c)
    ensures var s' := Create(c, s, contextType, context, m, rands).0;
            var ref := Mod(rands[Tries(c)], c.size);
            && Create(c, s, contextType, context, m, rands).1.None? && s'.ar == s.ar && s'.held == s.held
            && s'.refar[ref] == CLAIMED && !Owned(s', ref) && !Inv(c, s')
  {
    var s' := Create(c, s, contextType, context, m, rands).0;
    var ref := Mod(rands[Tries(c)], c.size);
    assert s.refar[ref] == FREE && s'.ar == s.ar && s'.held == s.held;
    assert s'.refar[ref] == CLAIMED;
  }

  /** Without a claim, the cell of a live transaction is redirected to another slot or freed; only a cell that was
      leaked before has none. */
  lemma NoClaimTakesForeignCell(c: Config, s: State, contextType: string, context: nat, m: int, rands: seq<nat>)
    requires Intact(c, s) && Draws(c, rands) && FirstFree(c.size, s.refar, rands) == |rands|
    ensures var s' := Create(c, s, contextType, context, m, rands).0;
            var ref := Mod(rands[Tries(c)], c.size);
            (Inv(c, s) ==> Owned(s, ref)) && (Owned(s, ref) ==> !Intact(c, s'))
  {
    var tidx := rands[Tries(c)];
    var ref := Mod(tidx, c.size);
    var s' := Create(c, s, contextType, context, m, rands).0;
    assert s.refar[ref] != FREE;
    if Owned(s, ref) {
      match SearchSlot(c, s.lasttick, s.ar, tidx, IdleTime(c, m))
      case None => RedirectBreaks(c, s, s', ref, FREE);
      case Some(slot) => RedirectBreaks(c, s, s', ref, slot);
    }
  }

  lemma RedirectBreaks(c: Config, s: State, s': State, ref: nat, cell: int)
    requires Intact(c, s) && Shape(c, s') && ref < c.size && Owned(s, ref)
    requires s'.refar == s.refar[ref := cell] && s'.held == s.held
    requires cell == FREE ==> s'.ar == s.ar
    requires cell != FREE ==> 0 <= cell < c.size && s.ar[cell].None? && s'.ar[cell].Some?
    requires cell != FREE ==> s'.ar[cell].value.ref == ref && s'.ar == s.ar[cell := s'.ar[cell]]
    ensures !Intact(c, s')
  {
    if j :| 0 <= j < |s.ar| && s.ar[j].Some? && s.ar[j].value.ref == ref {
      assert s'.ar[j] == s.ar[j] && s'.refar[ref] == cell != j;
    } else {
      var tr :| tr in s.held && tr.ref == ref;
      assert tr in s'.held && s'.refar[tr.ref] == cell;
    }
  }

  lemma FirstFreeAfter(size: nat, refar: seq<int>, n: nat, x: nat, more: seq<nat>)
    requires |refar| == size > 0 && refar[Mod(x, size)] != FREE
    ensures FirstFree(size, refar, Repeated(x, n) + more) == n + FirstFree(size, refar, more)
    decreases n
  {
    if n == 0 {
      assert Repeated(x, 0) + more == more;
    } else {
      assert (Repeated(x, n) + more)[1..] == Repeated(x, n - 1) + more;
      FirstFreeAfter(size, refar, n - 1, x, more);
    }
  }

  function Repeated(x: nat, n: nat): seq<nat> { seq(n, _ => x) }

  const SMALL := Config(64, 1, 8)

  /** Both happen: in a new pool of the default sizes, after one creation, with draws that meet its cell again. */
  lemma BadDraws(contextType: string, context: nat)
    ensures ValidConfig(SMALL) && Inv(SMALL, Empty(SMALL, 0))
    ensures var first := OpCreate(contextType, context, 0, Repeated(0, 9));
            && Allowed(SMALL, Empty(SMALL, 0), first)
            && var s := Step(SMALL, Empty(SMALL, 0), first);
               var late, none := Repeated(0, 8) + [1], Repeated(0, 9);
               && Draws(SMALL, late) && FirstFree(64, s.refar, late) == Tries(SMALL)
               && !Inv(SMALL, Create(SMALL, s, contextType, context, 0, late).0)
               && Draws(SMALL, none) && FirstFree(64, s.refar, none) == |none|
               && !Inv(SMALL, Create(SMALL, s, contextType, context, 0, none).0)
  {
    var start, first := Empty(SMALL, 0), OpCreate(contextType, context, 0, Repeated(0, 9));
    EmptyKeepsInvariant(SMALL, 0);
    assert start.refar[Mod(Repeated(0, 9)[0], 64)] == FREE;
    var s := Step(SMALL, start, first);
    assert SearchSlot(SMALL, 0, start.ar, 0, 8) == Some(8);
    assert s.refar[0] == 8 && s.refar[1] == FREE;
    hide Intact, Create, Step, SearchSlot;
    assert Repeated(0, 9) == Repeated(0, 9) + [];
    FirstFreeAfter(64, s.refar, 8, 0, [1]);
    FirstFreeAfter(64, s.refar, 9, 0, []);
    LateClaimLeaksCell(SMALL, s, contextType, context, 0, Repeated(0, 8) + [1]);
    NoClaimTakesForeignCell(SMALL, s, contextType, context, 0, Repeated(0, 9));
  }

  /** A fetch finds exactly the stored transaction with the index. */
  lemma FetchIsLookup(c: Config, s: State, tidx: int)
    requires Intact(c, s)
    ensures forall tr :: Fetch(c, s, tidx).1 == Some(tr) <==> Stored(s, tr) && tr.tidx == tidx
  {
    forall tr | Stored(s, tr) && tr.tidx == tidx ensures Fetch(c, s, tidx).1 == Some(tr) {
      var j :| 0 <= j < c.size && s.ar[j] == Some(tr);
      assert Mod(s.refar[Mod(tidx, c.size)], c.size) == j;
    }
  }

  /** A fetched transaction leaves the pool for exclusive use; a fetch without result changes nothing. */
  lemma FetchFinds(c: Config, s: State, tidx: int)
    requires Intact(c, s)
    ensures var (s', r) := Fetch(c, s, tidx);
      && Intact(c, s') && (Inv(c, s) ==> Inv(c, s')) && s'.lasttick == s.lasttick
      && (r.None? ==> s' == s)
      && (forall tr :: r == Some(tr) <==> Stored(s, tr) && tr.tidx == tidx)
      && (r.Some? ==> s'.held == s.held + {r.value} && r.value !in s.held)
      && (r.Some? ==> forall x :: Stored(s', x) <==> Stored(s, x) && x != r.value)
  {
    FetchIsLookup(c, s, tidx);
    var (s', r) := Fetch(c, s, tidx);
    if r.Some? {
      var slot := Mod(s.refar[Mod(tidx, c.size)], c.size);
      forall x ensures Stored(s', x) <==> Stored(s, x) && x != r.value {
        if Stored(s, x) && x != r.value {
          var j :| 0 <= j < c.size && s.ar[j] == Some(x);
          assert s'.ar[j] == Some(x);
        }
      }
      if Inv(c, s) { FetchLeaksNothing(c, s, tidx); }
    }
  }

  lemma FetchLeaksNothing(c: Config, s: State, tidx: int)
    requires Inv(c, s) && Fetch(c, s, tidx).1.Some?
    ensures NothingLeaked(c, Fetch(c, s, tidx).0)
  {
    var (s', r) := Fetch(c, s, tidx);
    var slot := Mod(s.refar[Mod(tidx, c.size)], c.size);
    forall k | 0 <= k < c.size && s'.refar[k] != FREE ensures Owned(s', k) {
      assert Owned(s, k);
      if j :| 0 <= j < |s.ar| && s.ar[j].Some? && s.ar[j].value.ref == k {
        if j == slot { assert r.value in s'.held; } else { assert s'.ar[j] == s.ar[j]; }
      }
    }
  }

  /** A returned transaction is stored again under its index, or stays with its owner. */
  lemma ReturnStores(c: Config, s: State, tr: Transaction)
    requires Intact(c, s) && tr in s.held
    ensures var (s', ok) := Return(c, s, tr);
      && Intact(c, s') && (Inv(c, s) ==> Inv(c, s')) && s'.lasttick == s.lasttick
      && (!ok ==> s' == s)
      && (ok ==> s'.held == s.held - {tr} && forall x :: Stored(s', x) <==> Stored(s, x) || x == tr)
  {
    var (s', ok) := Return(c, s, tr);
    if ok {
      var slot := SearchSlot(c, s.lasttick, s.ar, tr.tidx, tr.maxIdle).value;
      forall x ensures Stored(s', x) <==> Stored(s, x) || x == tr {
        if Stored(s, x) {
          var j :| 0 <= j < c.size && s.ar[j] == Some(x);
          assert s'.ar[j] == Some(x);
        }
        assert s'.ar[slot] == Some(tr);
      }
      if Inv(c, s) { ReturnLeaksNothing(c, s, tr); }
    }
  }

  lemma ReturnLeaksNothing(c: Config, s: State, tr: Transaction)
    requires Inv(c, s) && tr in s.held && Return(c, s, tr).1
    ensures NothingLeaked(c, Return(c, s, tr).0)
  {
    var s' := Return(c, s, tr).0;
    var slot := SearchSlot(c, s.lasttick, s.ar, tr.tidx, tr.maxIdle).value;
    forall k | 0 <= k < c.size && s'.refar[k] != FREE ensures 0 <= s'.refar[k] < c.size && Owned(s', k) {
      if k == tr.ref {
        assert s'.ar[slot].Some? && s'.ar[slot].value.ref == k;
      } else {
        assert Owned(s, k);
        if j :| 0 <= j < |s.ar| && s.ar[j].Some? && s.ar[j].value.ref == k { assert s'.ar[j] == s.ar[j]; }
      }
    }
  }

  /** A destroyed transaction frees its cell and nothing else. */
  lemma DropFrees(c: Config, s: State, tr: Transaction)
    requires Intact(c, s) && tr in s.held
    ensures var s' := Drop(c, s, tr);
      && Intact(c, s') && (Inv(c, s) ==> Inv(c, s'))
      && s'.held == s.held - {tr} && s'.ar == s.ar && s'.lasttick == s.lasttick && s'.refar[tr.ref] == FREE
  {
    if Inv(c, s) { DropLeaksNothing(c, s, tr); }
  }

  lemma DropLeaksNothing(c: Config, s: State, tr: Transaction)
    requires Inv(c, s) && tr in s.held
    ensures NothingLeaked(c, Drop(c, s, tr))
  {
    var s' := Drop(c, s, tr);
    forall k | 0 <= k < c.size && s'.refar[k] != FREE ensures Owned(s', k) {
      assert Owned(s, k);
      if j :| 0 <= j < |s.ar| && s.ar[j].Some? && s.ar[j].value.ref == k {
        assert s'.ar[j] == s.ar[j];
      } else {
        var x :| x in s.held && x.ref == k;
        assert x in s'.held;
      }
    }
  }

  /** Cell i lies in the range start..end of the circle of n cells. */
  predicate InRange(i: nat, start: nat, end: nat, n: nat) {
    start <= i < end || start <= i + n < end
  }

  /** The owner of reference cell k is stored in the swept range. */
  ghost predicate Dies(s: State, k: nat, start: nat, end: nat)
    requires k < |s.refar| == |s.ar|
  {
    var i := s.refar[k];
    0 <= i < |s.ar| && InRange(i, start, end, |s.ar|) && s.ar[i].Some? && s.ar[i].value.ref == k
  }

  /** What is left of the table and the references of s after sweeping start..end. */
  ghost predicate SweptTo(s: State, a: seq<Option<Transaction>>, r: seq<int>, start: nat, end: nat)
    requires |s.refar| == |s.ar| == |a| == |r|
  {
    && (forall i :: 0 <= i < |a| ==> a[i] == if InRange(i, start, end, |a|) then None else s.ar[i])
    && (forall k :: 0 <= k < |r| ==> r[k] == if Dies(s, k, start, end) then FREE else s.refar[k])
  }

  /** A sweep empties the cells of its range and frees the reference cells of their transactions. */
  lemma {:induction false} SweepClears(c: Config, s: State, start: nat, end: nat)
    requires Intact(c, s) && RefsInRange(s.ar, c.size) && start <= end <= start + c.size && start < c.size
    ensures var (a, r) := Sweep(s.ar, s.refar, start, end); SweptTo(s, a, r, start, end)
    decreases end
  {
    if start < end {
      SweepClears(c, s, start, end - 1);
      if end - 1 >= c.size { ModOnce(end - 1, c.size); }
      var (a, r) := Sweep(s.ar, s.refar, start, end - 1);
      SweepOneMore(c, s, a, r, start, end, Mod(end - 1, c.size));
    }
  }

  lemma SweepOneMore(c: Config, s: State, a: seq<Option<Transaction>>, r: seq<int>, start: nat, end: nat, slot: nat)
    requires Intact(c, s) && |a| == |r| == c.size && RefsInRange(a, c.size)
    requires start < end <= start + c.size && start < c.size
    requires slot < c.size && (slot == end - 1 || slot + c.size == end - 1)
    requires SweptTo(s, a, r, start, end - 1)
    ensures SweptTo(s, a[slot := None], if a[slot].Some? then r[a[slot].value.ref := FREE] else r, start, end)
  {
    RangeGrows(slot, start, end, c.size);
    assert a[slot] == s.ar[slot];
    forall k | 0 <= k < c.size
      ensures Dies(s, k, start, end) <==> Dies(s, k, start, end - 1) || (a[slot].Some? && a[slot].value.ref == k)
    {
    }
  }

  lemma RangeGrows(slot: nat, start: nat, end: nat, n: nat)
    requires start < end <= start + n && start < n && slot < n && (slot == end - 1 || slot + n == end - 1)
    ensures !InRange(slot, start, end - 1, n)
    ensures forall i :: 0 <= i < n ==> (InRange(i, start, end, n) <==> InRange(i, start, end - 1, n) || i == slot)
  {
  }

  /** A tick destroys exactly the stored transactions whose slots are swept. */
  lemma TickExpires(c: Config, s: State, t: nat)
    requires Intact(c, s) && RefsInRange(s.ar, c.size)
    ensures var s' := Tick(c, s, t);
      && Intact(c, s') && (Inv(c, s) ==> Inv(c, s')) && s'.held == s.held && s'.lasttick == t
      && forall i :: 0 <= i < c.size ==> s'.ar[i] == if Swept(c, s.lasttick, t, i) then None else s.ar[i]
  {
    var s' := Tick(c, s, t);
    var start, end := Hand(c, s.lasttick), SweepEnd(c, s.lasttick, t);
    SweepClears(c, s, start, end);
    if Inv(c, s) { TickLeaksNothing(c, s, t); }
  }

  lemma TickLeaksNothing(c: Config, s: State, t: nat)
    requires Inv(c, s) && RefsInRange(s.ar, c.size)
    ensures NothingLeaked(c, Tick(c, s, t))
  {
    var s' := Tick(c, s, t);
    SweepClears(c, s, Hand(c, s.lasttick), SweepEnd(c, s.lasttick, t));
    forall k | 0 <= k < c.size && s'.refar[k] != FREE ensures Owned(s', k) {
      assert Owned(s, k);
      if j :| 0 <= j < |s.ar| && s.ar[j].Some? && s.ar[j].value.ref == k {
        assert s.refar[k] == j;
        assert s'.ar[j] == s.ar[j];
      }
    }
  }

  // ---- runs ----

  datatype Op =
    | OpCreate(contextType: string, context: nat, maxIdle: int, rands: seq<nat>)
    | OpFetch(tidx: int)
    | OpReturn(tr: Transaction)
    | OpDrop(tr: Transaction)
    | OpTick(time: nat)

  /** What the callers of the pool do: they return and destroy only what they hold, time does not run
      backwards, and creations are harmless. */
  ghost predicate Allowed(c: Config, s: State, op: Op)
    requires Intact(c, s)
  {
    match op
    case OpCreate(_, _, _, rands) => Draws(c, rands) && Harmless(c, s, rands)
    case OpFetch(_) => true
    case OpReturn(tr) => tr in s.held
    case OpDrop(tr) => tr in s.held
    case OpTick(t) => s.lasttick <= t
  }

  ghost function Step(c: Config, s: State, op: Op): (s': State)
    requires Intact(c, s) && Allowed(c, s, op)
    ensures Intact(c, s')
    ensures Inv(c, s) && (op.OpCreate? ==> Claimable(c, s, op.rands)) ==> Inv(c, s')
  {
    match op
    case OpCreate(ct, cx, m, rands) => CreateStores(c, s, ct, cx, m, rands); Create(c, s, ct, cx, m, rands).0
    case OpFetch(tidx) => FetchFinds(c, s, tidx); Fetch(c, s, tidx).0
    case OpReturn(tr) => ReturnStores(c, s, tr); Return(c, s, tr).0
    case OpDrop(tr) => DropFrees(c, s, tr); Drop(c, s, tr)
    case OpTick(t) => TickExpires(c, s, t); Tick(c, s, t)
  }

  /** A run: every operation is allowed in the state that it finds. */
  ghost predicate Runnable(c: Config, s: State, ops: seq<Op>)
    requires Intact(c, s)
    decreases ops
  {
    ops == [] || (Allowed(c, s, ops[0]) && Runnable(c, Step(c, s, ops[0]), ops[1..]))
  }

  ghost function Run(c: Config, s: State, ops: seq<Op>): (s': State)
    requires Intact(c, s) && Runnable(c, s, ops)
    ensures Intact(c, s')
    decreases ops
  {
    if ops == [] then s else Run(c, Step(c, s, ops[0]), ops[1..])
  }

  ghost predicate AllClaim(c: Config, s: State, ops: seq<Op>)
    requires Intact(c, s) && Runnable(c, s, ops)
    decreases ops
  {
    ops == []
    || ((ops[0].OpCreate? ==> Claimable(c, s, ops[0].rands)) && AllClaim(c, Step(c, s, ops[0]), ops[1..]))
  }

  /** Nothing leaks in a run whose creations claim a cell before their last draw. */
  lemma {:induction false} RunKeepsInvariant(c: Config, s: State, ops: seq<Op>)
    requires Inv(c, s) && Runnable(c, s, ops) && AllClaim(c, s, ops)
    ensures Inv(c, Run(c, s, ops))
    decreases ops
  {
    if ops != [] { RunKeepsInvariant(c, Step(c, s, ops[0]), ops[1..]); }
  }

  /** No transaction expires early: whatever happens to the others, a placed transaction that nobody
      fetches is still found after every run with ticks up to its idle time. */
  lemma {:induction false} NoEarlyExpiry(c: Config, s: State, ops: seq<Op>, tr: Transaction, slot: nat, touched: nat)
    requires Intact(c, s) && Runnable(c, s, ops) && StoredAt(s, slot, tr)
    requires touched <= s.lasttick && Placed(c, touched, tr.maxIdle, slot)
    requires forall op :: op in ops && op.OpTick? ==> op.time <= touched + tr.maxIdle
    requires OpFetch(tr.tidx) !in ops
    ensures StoredAt(Run(c, s, ops), slot, tr)
    ensures Fetch(c, Run(c, s, ops), tr.tidx).1 == Some(tr)
    decreases ops
  {
    if ops == [] {
      FetchFinds(c, s, tr.tidx);
      assert Stored(s, tr);
    } else {
      assert ops[0] in ops;
      StepKeepsPlaced(c, s, ops[0], tr, slot, touched);
      NoEarlyExpiry(c, Step(c, s, ops[0]), ops[1..], tr, slot, touched);
    }
  }

  lemma CreateKeepsSlot(c: Config, s: State, op: Op, tr: Transaction, slot: nat)
    requires Shape(c, s) && op.OpCreate? && |op.rands| == Tries(c) + 1 && StoredAt(s, slot, tr)
    ensures var s' := Create(c, s, op.contextType, op.context, op.maxIdle, op.rands).0;
            StoredAt(s', slot, tr) && s'.lasttick == s.lasttick
  {
  }

  lemma FetchKeepsSlot(c: Config, s: State, tidx: int, tr: Transaction, slot: nat)
    requires Shape(c, s) && tidx != tr.tidx && StoredAt(s, slot, tr)
    ensures StoredAt(Fetch(c, s, tidx).0, slot, tr) && Fetch(c, s, tidx).0.lasttick == s.lasttick
  {
  }

  lemma ReturnKeepsSlot(c: Config, s: State, returned: Transaction, tr: Transaction, slot: nat)
    requires Shape(c, s) && returned.ref < c.size && StoredAt(s, slot, tr)
    ensures StoredAt(Return(c, s, returned).0, slot, tr) && Return(c, s, returned).0.lasttick == s.lasttick
  {
  }

  lemma StepKeepsPlaced(c: Config, s: State, op: Op, tr: Transaction, slot: nat, touched: nat)
    requires Intact(c, s) && Allowed(c, s, op) && StoredAt(s, slot, tr)
    requires touched <= s.lasttick && Placed(c, touched, tr.maxIdle, slot)
    requires op.OpTick? ==> op.time <= touched + tr.maxIdle
    requires op != OpFetch(tr.tidx)
    ensures StoredAt(Step(c, s, op), slot, tr) && touched <= Step(c, s, op).lasttick
  {
    match op
    case OpCreate(_, _, _, _) => CreateKeepsSlot(c, s, op, tr, slot);
    case OpFetch(tidx) => FetchKeepsSlot(c, s, tidx, tr, slot);
    case OpReturn(returned) => ReturnKeepsSlot(c, s, returned, tr, slot);
    case OpDrop(_) =>
    case OpTick(t) =>
      TickExpires(c, s, t);
      PlacedIsNotSwept(c, touched, tr.maxIdle, slot, s.lasttick, t);
  }

  /** There is room for nine more units of time, or the hand stands still. */
  predicate Room(c: Config, m: nat) { c.perSlot == c.size - 1 || (m + 9) * c.perSlot < c.size }

  /** Where creation and return put a transaction: at most nine times perSlot probes ahead of its base. */
  lemma SlotIsPlaced(c: Config, s: State, tidx: nat, maxIdle: nat)
    requires Shape(c, s) && SearchSlot(c, s.lasttick, s.ar, tidx, maxIdle).Some?
    requires Room(c, maxIdle)
    ensures Placed(c, s.lasttick, maxIdle, SearchSlot(c, s.lasttick, s.ar, tidx, maxIdle).value)
  {
    var e := Candidate(c, s.lasttick, maxIdle) + Mod(tidx, c.perSlot);
    var offset := Mod(tidx, c.perSlot) + FirstEmpty(s.ar, e, Tries(c) + 1);
    if c.perSlot == c.size - 1 {
      ModOnce(c.perSlot, c.size - 1);
      PlacedAtStandingHand(c, s.lasttick, maxIdle, Mod(e + FirstEmpty(s.ar, e, Tries(c) + 1), c.size));
    } else {
      Distribute(maxIdle, 9, c.perSlot);
      OneUnit(c.perSlot, maxIdle + 9, c.size);
      PlacedByOffset(c, s.lasttick, maxIdle, offset);
    }
  }

  lemma OneUnit(a: nat, n: nat, size: nat)
    requires n * a < size && n >= 2
    ensures 2 * a < size
  {
    MulMono(2, n, a);
  }

  lemma PlacedAtStandingHand(c: Config, t: nat, m: nat, slot: nat)
    requires c.size >= 64 && slot < c.size && Pace(c) == 0
    ensures Placed(c, t, m, slot)
  {
    assert t * Pace(c) == 0 && (t + m) * Pace(c) == 0 && m * Pace(c) == 0;
  }

  /** In a pool with enough room, a new transaction is found after every run with ticks up to its idle time: the one
      that was asked for, if it is positive and within the limit, else the limit. */
  lemma CreatedSurvives(c: Config, s: State, create: Op, ops: seq<Op>, idle: nat)
    requires Intact(c, s) && create.OpCreate? && Allowed(c, s, create)
    requires idle == if 1 <= create.maxIdle <= c.maxIdle then create.maxIdle else c.maxIdle
    requires var (s', r) := Create(c, s, create.contextType, create.context, create.maxIdle, create.rands);
             && Room(c, idle)
             && r.Some? && Intact(c, s') && Runnable(c, s', ops) && OpFetch(r.value) !in ops
             && forall op :: op in ops && op.OpTick? ==> op.time <= s.lasttick + idle
    ensures var (s', r) := Create(c, s, create.contextType, create.context, create.maxIdle, create.rands);
            Fetch(c, Run(c, s', ops), r.value).1
              == Some(Transaction(create.contextType, create.context, r.value, Mod(r.value, c.size), idle))
  {
    var (s', r) := Create(c, s, create.contextType, create.context, create.maxIdle, create.rands);
    CreateStores(c, s, create.contextType, create.context, create.maxIdle, create.rands);
    SlotIsPlaced(c, s, r.value, idle);
    var slot := SearchSlot(c, s.lasttick, s.ar, r.value, idle).value;
    NoEarlyExpiry(c, s', ops, s'.ar[slot].value, slot, s.lasttick);
  }

  /** The same holds for a returned transaction. */
  lemma ReturnedSurvives(c: Config, s: State, tr: Transaction, ops: seq<Op>)
    requires Intact(c, s) && tr in s.held && Room(c, tr.maxIdle)
    requires var (s', ok) := Return(c, s, tr);
             && ok && Intact(c, s') && Runnable(c, s', ops) && OpFetch(tr.tidx) !in ops
             && forall op :: op in ops && op.OpTick? ==> op.time <= s.lasttick + tr.maxIdle
    ensures Fetch(c, Run(c, Return(c, s, tr).0, ops), tr.tidx).1 == Some(tr)
  {
    SlotIsPlaced(c, s, tr.tidx, tr.maxIdle);
    var slot := SearchSlot(c, s.lasttick, s.ar, tr.tidx, tr.maxIdle).value;
    NoEarlyExpiry(c, Return(c, s, tr).0, ops, tr, slot, s.lasttick);
  }

  ghost function LastTick(time: nat, ops: seq<Op>): nat
    decreases ops
  {
    if ops == [] then time else LastTick(if ops[0].OpTick? then ops[0].time else time, ops[1..])
  }

  ghost predicate ShortGaps(c: Config, time: nat, ops: seq<Op>)
    requires c.size >= 64
    decreases ops
  {
    ops == [] ||
    if ops[0].OpTick?
    then time <= ops[0].time && (ops[0].time - time) * Pace(c) < c.size - 1 && ShortGaps(c, ops[0].time, ops[1..])
    else ShortGaps(c, time, ops[1..])
  }

  /** At some point of the run the slot is empty. */
  ghost predicate ClearedDuring(c: Config, s: State, ops: seq<Op>, slot: nat)
    requires Intact(c, s) && Runnable(c, s, ops) && slot < c.size
    decreases ops
  {
    s.ar[slot].None? || (ops != [] && ClearedDuring(c, Step(c, s, ops[0]), ops[1..], slot))
  }

  lemma {:induction false} PassedCellIsCleared(c: Config, s: State, ops: seq<Op>, slot: nat, x: nat)
    requires Intact(c, s) && Runnable(c, s, ops) && Mod(x, c.size) == slot
    requires ShortGaps(c, s.lasttick, ops)
    requires Turn(c, s.lasttick) <= x < Turn(c, LastTick(s.lasttick, ops))
    ensures ClearedDuring(c, s, ops, slot)
    decreases ops
  {
    assert ops != [];
    StepTime(c, s, ops[0]);
    if ops[0].OpTick? && x < Turn(c, ops[0].time) {
      PassingTickClears(c, s, ops[0].time, slot, x);
    } else {
      PassedCellIsCleared(c, Step(c, s, ops[0]), ops[1..], slot, x);
    }
  }

  lemma PassingTickClears(c: Config, s: State, t: nat, slot: nat, x: nat)
    requires Intact(c, s) && s.lasttick <= t && Mod(x, c.size) == slot
    requires (t - s.lasttick) * Pace(c) < c.size - 1
    requires Turn(c, s.lasttick) <= x < Turn(c, t)
    ensures Step(c, s, OpTick(t)).ar[slot].None?
  {
    DivMod(x, c.size);
    SweptComplete(c, s.lasttick, t, slot, Quot(x, c.size));
    TickExpires(c, s, t);
  }

  /** One tick per time unit from t + 1 to t + n. */
  function UnitTicks(t: nat, n: nat): seq<Op>
    decreases n
  {
    if n == 0 then [] else [OpTick(t + 1)] + UnitTicks(t + 1, n - 1)
  }

  lemma {:induction false} UnitTicksRun(c: Config, s: State, n: nat)
    requires Intact(c, s)
    ensures Runnable(c, s, UnitTicks(s.lasttick, n)) && ShortGaps(c, s.lasttick, UnitTicks(s.lasttick, n))
    ensures LastTick(s.lasttick, UnitTicks(s.lasttick, n)) == s.lasttick + n
    decreases n
  {
    if n > 0 {
      var op := OpTick(s.lasttick + 1);
      StepTime(c, s, op);
      UnitTicksRun(c, Step(c, s, op), n - 1);
      assert UnitTicks(s.lasttick, n)[1..] == UnitTicks(s.lasttick + 1, n - 1);
    }
  }

  /** Exactly the placed slots are safe: any other slot is emptied by ticking every unit of the idle time. */
  lemma UnplacedExpiresEarly(c: Config, s: State, slot: nat, m: nat)
    requires Intact(c, s) && slot < c.size && !Placed(c, s.lasttick, m, slot)
    ensures var ticks := UnitTicks(s.lasttick, m);
            Runnable(c, s, ticks) && LastTick(s.lasttick, ticks) == s.lasttick + m && ClearedDuring(c, s, ticks, slot)
  {
    UnitTicksRun(c, s, m);
    var x := UnplacedCell(c, s.lasttick, m, slot);
    PassedCellIsCleared(c, s, UnitTicks(s.lasttick, m), slot, x);
  }

  lemma StepTime(c: Config, s: State, op: Op)
    requires Intact(c, s) && Allowed(c, s, op)
    ensures Step(c, s, op).lasttick == if op.OpTick? then op.time else s.lasttick
  {
  }

  /** Guaranteed expiry: if no tick skips a whole revolution, then the slot of a transaction touched at the
      start has been cleared by the first tick T with (T - start - m) * pace > distance of the slot from its base. */
  lemma GuaranteedExpiry(c: Config, s: State, ops: seq<Op>, slot: nat, m: nat)
    requires Intact(c, s) && Runnable(c, s, ops) && slot < c.size && ShortGaps(c, s.lasttick, ops)
    requires s.lasttick + m <= LastTick(s.lasttick, ops)
    requires (LastTick(s.lasttick, ops) - s.lasttick - m) * Pace(c) > Ahead(c, s.lasttick, m, slot)
    ensures ClearedDuring(c, s, ops, slot)
  {
    var x := ExpiryCell(c, s.lasttick, LastTick(s.lasttick, ops), m, slot);
    PassedCellIsCleared(c, s, ops, slot, x);
  }

  /** Exclusive use: a fetched transaction cannot be fetched again before it is returned. */
  lemma {:induction false} HeldIsNotFetched(c: Config, s: State, ops: seq<Op>, tr: Transaction)
    requires Intact(c, s) && Runnable(c, s, ops) && tr in s.held
    requires OpReturn(tr) !in ops && OpDrop(tr) !in ops
    ensures tr in Run(c, s, ops).held && Fetch(c, Run(c, s, ops), tr.tidx).1.None?
    decreases ops
  {
    if ops == [] {
      FetchFinds(c, s, tr.tidx);
    } else {
      assert ops[0] in ops;
      HeldIsNotFetched(c, Step(c, s, ops[0]), ops[1..], tr);
    }
  }

  /** Live transactions have different indices in every reachable state. */
  lemma LiveIndicesDiffer(c: Config, s: State, ops: seq<Op>, a: Transaction, b: Transaction)
    requires Intact(c, s) && Runnable(c, s, ops)
    requires Live(Run(c, s, ops), a) && Live(Run(c, s, ops), b) && Mod(a.tidx, c.size) == Mod(b.tidx, c.size)
    ensures a == b
  {
    var e := Run(c, s, ops);
    if Stored(e, a) { var i :| 0 <= i < c.size && e.ar[i] == Some(a); assert e.refar[a.ref] == i; }
    if Stored(e, b) { var j :| 0 <= j < c.size && e.ar[j] == Some(b); assert e.refar[b.ref] == j; }
  }

  /** The mutex that a fetch takes lies in the mutex array exactly if the cell of the index is claimed. */
  lemma FetchMutexInRange(c: Config, s: State, tidx: int)
    requires Inv(c, s)
    ensures var e := s.refar[Mod(tidx, c.size)];
            (0 <= TruncatedRemainder(e, NOF_MUTEX) < NOF_MUTEX) <==> Owned(s, Mod(tidx, c.size))
    ensures Owned(s, Mod(tidx, c.size)) && (forall tr :: tr in s.held ==> tr.ref != Mod(tidx, c.size)) ==>
            var e := s.refar[Mod(tidx, c.size)];
            0 <= e && TruncatedRemainder(e, NOF_MUTEX) == Mod(e, c.size) % NOF_MUTEX
  {
    var r := Mod(tidx, c.size);
    if s.refar[r] >= 0 { MutexOfRemainder(c, s.refar[r]); }
  }

  /** The remainder of a division that truncates toward zero. */
  function TruncatedRemainder(a: int, d: nat): int
    requires d > 0
  {
    if a >= 0 then a % d else -((-a) % d)
  }

  // ---- the pool ----

  /** What a configuration leads to; a product of the two sizes that does not fit into an int is undefined. */
  datatype Configured = Accepted(config: Config) | Refused | Undefined

  /** The configured sizes: zero stands for the defaults, sizes out of range are refused. */
  method Configure(maxIdleTime: int, nofTransactionPerSlot: int) returns (r: Configured)
    ensures r.Refused? <==> !(0 <= maxIdleTime < 0x10_0000 && 0 <= nofTransactionPerSlot < 0x10_0000)
    ensures var maxIdle := if maxIdleTime == 0 then 8 else maxIdleTime;
            var perSlot := if nofTransactionPerSlot == 0 then 1 else nofTransactionPerSlot;
            && (r.Undefined? <==> !r.Refused? && maxIdle * perSlot > CLAIMED)
            && (r.Accepted? ==>
                  && ValidConfig(r.config)
                  && (r.config.size == 64 || r.config.size < 2 * (maxIdle * perSlot))
                  && r.config.maxIdle == maxIdle && r.config.perSlot == perSlot)
  {
    var maxIdle := if maxIdleTime == 0 then 8 else maxIdleTime;
    var perSlot := if nofTransactionPerSlot == 0 then 1 else nofTransactionPerSlot;
    if perSlot < 0 || perSlot >= 0x10_0000 { return Refused; }
    if maxIdle < 0 || maxIdle >= 0x10_0000 { return Refused; }
    var minSize := maxIdle * perSlot;
    if minSize > CLAIMED { return Undefined; }
    var size := 64;
    while size < minSize
      invariant IsPow2Of64(size) && size >= 64
      invariant size == 64 || size < 2 * minSize
      decreases minSize - size
    {
      Doubled(size);
      size := size * 2;
    }
    hide IsPow2Of64;
    r := Accepted(Config(size, perSlot, maxIdle));
  }

  lemma Doubled(n: nat)
    requires IsPow2Of64(n)
    ensures IsPow2Of64(n * 2)
  {
  }

  class Pool {
    const config: Config
    const ar: array<Option<Transaction>>
    const refar: array<int>
    var lasttick: nat
    /** The fetched transactions. */
    ghost var held: set<Transaction>

    ghost function Model(): State
      reads this, ar, refar
    {
      State(lasttick, ar[..], refar[..], held)
    }

    ghost predicate Allocated()
      reads this, ar, refar
    {
      && Usable(config)
      && ar.Length == refar.Length == config.size && ar as object != refar as object
      && RefsInRange(ar[..], config.size)
    }

    /** All transactions can be reached. */
    ghost predicate Whole()
      reads this, ar, refar
    {
      Allocated() && Intact(config, Model())
    }

    /** The object invariant. */
    ghost predicate Valid()
      reads this, ar, refar
    {
      Allocated() && Inv(config, Model())
    }

    constructor (config: Config, timecount: nat)
      requires ValidConfig(config)
      ensures Valid() && fresh(ar) && fresh(refar)
      ensures this.config == config && Model() == Empty(config, timecount)
    {
      Pow2Is64Multiple(config.size);
      this.config := config;
      ar := new Option<Transaction>[config.size](_ => None);
      refar := new int[config.size](_ => FREE);
      lasttick := timecount;
      held := {};
      new;
      assert ar[..] == seq(config.size, _ => None) && refar[..] == seq(config.size, _ => FREE);
      EmptyKeepsInvariant(config, timecount);
    }

    lemma CreateKeepsValid(contextType: string, context: nat, maxIdleTime: int, rands: seq<nat>)
      requires Allocated() && Draws(config, rands)
      ensures Valid() ==>
        (Inv(config, Create(config, Model(), contextType, context, maxIdleTime, rands).0)
         <==> Claimable(config, Model(), rands))
      ensures Whole() ==>
        (Intact(config, Create(config, Model(), contextType, context, maxIdleTime, rands).0)
         <==> Harmless(config, Model(), rands))
    {
      if Whole() { CreateKeepsInvariant(config, Model(), contextType, context, maxIdleTime, rands); }
    }

    lemma FetchKeepsValid(tidx: int)
      requires Allocated()
      ensures Valid() ==> Inv(config, Fetch(config, Model(), tidx).0)
      ensures Whole() ==> Intact(config, Fetch(config, Model(), tidx).0)
    {
      if Whole() { FetchFinds(config, Model(), tidx); }
    }

    lemma ReturnKeepsValid(tr: Transaction)
      requires Allocated() && tr.ref < config.size
      ensures Valid() && tr in held ==> Inv(config, Return(config, Model(), tr).0)
      ensures Whole() && tr in held ==> Intact(config, Return(config, Model(), tr).0)
    {
      if Whole() && tr in held { ReturnStores(config, Model(), tr); }
    }

    lemma DropKeepsValid(tr: Transaction)
      requires Allocated() && tr.ref < config.size
      ensures Valid() && tr in held ==> Inv(config, Drop(config, Model(), tr))
      ensures Whole() && tr in held ==> Intact(config, Drop(config, Model(), tr))
    {
      if Whole() && tr in held { DropFrees(config, Model(), tr); }
    }

    lemma TickKeepsValid(t: nat)
      requires Allocated()
      ensures Valid() ==> Inv(config, Tick(config, Model(), t))
      ensures Whole() ==> Intact(config, Tick(config, Model(), t))
    {
      if Whole() { TickExpires(config, Model(), t); }
    }

    /** The cell of an index: the size is a power of two, so that a mask gives the remainder. */
    method MaskIndex(idx: int) returns (cell: nat)
      requires Usable(config)
      ensures cell == Mod(idx, config.size)
    {
      MaskIsMod(idx, config.size);
      cell := Masked(idx, config.size);
    }

    /** Draws numbers until one claims a free reference cell or the tries are used up. */
    method ClaimCell(rands: seq<nat>) returns (cnt: int, tidx: nat, ref: nat)
      requires Allocated() && |rands| == Tries(config) + 1
      modifies refar
      ensures Allocated() && -1 <= cnt <= Tries(config) && ref == Mod(tidx, config.size)
      ensures Tries(config) - cnt == FirstFree(config.size, old(refar[..]), rands)
      ensures tidx == if cnt >= 0 then rands[Tries(config) - cnt] else rands[Tries(config)]
      ensures refar[..] == if cnt >= 0 then old(refar[..])[ref := CLAIMED] else old(refar[..])
    {
      cnt := config.perSlot * 8;
      tidx := rands[0];
      ref := MaskIndex(tidx);
      var drawn := 0;
      while cnt >= 0
        invariant -1 <= cnt <= Tries(config) && drawn == Tries(config) - cnt
        invariant drawn <= FirstFree(config.size, refar[..], rands) && unchanged(refar)
        invariant drawn > 0 ==> tidx == rands[drawn - 1]
        invariant ref == Mod(tidx, config.size)
        decreases cnt
      {
        tidx := rands[drawn];
        ref := MaskIndex(tidx);
        if refar[ref] == FREE {
          refar[ref] := CLAIMED;
          break;
        }
        cnt := cnt - 1;
        drawn := drawn + 1;
      }
    }

    /** Probes for an empty slot. */
    method ProbeSlot(tidx: nat, maxIdle: nat) returns (found: Option<nat>)
      requires Allocated()
      ensures found == SearchSlot(config, lasttick, ar[..], tidx, maxIdle)
    {
      var eidx := Candidate(config, lasttick, maxIdle) + Mod(tidx, config.perSlot);
      ghost var slots, start, n := ar[..], eidx, Tries(config) + 1;
      var cnt: int := config.perSlot * 8;
      while cnt >= 0
        invariant -1 <= cnt < n && eidx == start + (n - 1 - cnt)
        invariant Probing(slots, start, n, eidx)
        decreases cnt
      {
        ProbeOn(slots, start, n, eidx);
        var slot := MaskIndex(eidx);
        if ar[slot].None? { return Some(slot); }
        cnt := cnt - 1;
        eidx := eidx + 1;
      }
      return None;
    }

    /** Puts a new transaction with one of the drawn numbers as index into the pool. */
    method NewTransaction(contextType: string, context: nat, maxIdleTime: int, rands: seq<nat>) returns (r: Option<nat>)
      requires Allocated() && Draws(config, rands)
      modifies `lasttick, `held, ar, refar
      ensures Allocated()
      ensures (Model(), r) == Create(config, old(Model()), contextType, context, maxIdleTime, rands)
      ensures old(Valid()) ==> (Valid() <==> Claimable(config, old(Model()), rands))
      ensures old(Whole()) ==> (Whole() <==> Harmless(config, old(Model()), rands))
    {
      hide FirstFree, SearchSlot, Claimable, Harmless, Inv, Intact;
      CreateKeepsValid(contextType, context, maxIdleTime, rands);
      var idle := IdleTime(config, maxIdleTime);
      var cnt, tidx, ref := ClaimCell(rands);
      if cnt == 0 { return None; }
      var slot := ProbeSlot(tidx, idle);
      if slot.Some? {
        ar[slot.value] := Some(Transaction(contextType, context, tidx, ref, idle));
        refar[ref] := slot.value;
        assert ar[..] == old(ar[..])[slot.value := ar[slot.value]];
        assert refar[..] == old(refar[..])[ref := slot.value];
        return Some(tidx);
      }
      refar[ref] := FREE;
      assert refar[..] == old(refar[..])[ref := FREE];
      return None;
    }

    /** Takes the transaction with this identifier out of the pool; an ill-formed identifier is an error. */
    method FetchTransaction(tid: string) returns (r: Result<Option<Transaction>, string>)
      requires Allocated()
      modifies `held, ar
      ensures Allocated()
      ensures r.Err? <==> TransactionId.Parse(tid).None?
      ensures r.Err? ==> Model() == old(Model())
      ensures r.Ok? ==> (Model(), r.value) == Fetch(config, old(Model()), TransactionId.Parse(tid).value)
      ensures (old(Valid()) ==> Valid()) && (old(Whole()) ==> Whole())
    {
      var tidx := TransactionId.Parse(tid);
      if tidx.None? { return Err("illegal id of transaction"); }
      FetchKeepsValid(tidx.value);
      var ref := MaskIndex(tidx.value);
      var slot := MaskIndex(refar[ref]);
      var rt := ar[slot];
      if rt.Some? && tidx.value == rt.value.tidx {
        ar[slot] := None;
        held := held + {rt.value};
        return Ok(rt);
      }
      return Ok(None);
    }

    /** Puts a fetched transaction back under a slot for its renewed idle time. */
    method ReturnTransaction(tr: Transaction) returns (ok: bool)
      requires Allocated() && tr.ref < config.size
      modifies `lasttick, `held, ar, refar
      ensures Allocated()
      ensures (Model(), ok) == Return(config, old(Model()), tr)
      ensures tr in old(held) ==> (old(Valid()) ==> Valid()) && (old(Whole()) ==> Whole())
    {
      ReturnKeepsValid(tr);
      var slot := ProbeSlot(tr.tidx, tr.maxIdle);
      if slot.Some? {
        ar[slot.value] := Some(tr);
        refar[tr.ref] := slot.value;
        held := held - {tr};
        return true;
      }
      return false;
    }

    /** The destructor of a fetched transaction. */
    method Destroy(tr: Transaction)
      requires Allocated() && tr.ref < config.size
      modifies `held, refar
      ensures Allocated()
      ensures Model() == Drop(config, old(Model()), tr)
      ensures tr in old(held) ==> (old(Valid()) ==> Valid()) && (old(Whole()) ==> Whole())
    {
      DropKeepsValid(tr);
      refar[tr.ref] := FREE;
      held := held - {tr};
    }

    /** Moves the clock hand to a new time and destroys the transactions that it passes. */
    method CollectGarbage(timecount: nat)
      requires Allocated()
      modifies `lasttick, `held, ar, refar
      ensures Allocated()
      ensures Model() == Tick(config, old(Model()), timecount)
      ensures (old(Valid()) ==> Valid()) && (old(Whole()) ==> Whole())
    {
      TickKeepsValid(timecount);
      var start := Hand(config, lasttick);
      lasttick := timecount;
      var end := Hand(config, lasttick);
      if end < start { end := end + config.size; }
      Clear(start, end);
    }

    /** Destroys the transactions in a range of the circle. */
    method Clear(start: nat, end: nat)
      requires Allocated() && start <= end
      modifies ar, refar
      ensures Allocated()
      ensures (ar[..], refar[..]) == Sweep(old(ar[..]), old(refar[..]), start, end)
    {
      var idx := start;
      while idx < end
        invariant start <= idx <= end && Allocated()
        invariant (ar[..], refar[..]) == Sweep(old(ar[..]), old(refar[..]), start, idx)
      {
        var slot := MaskIndex(idx);
        if ar[slot].Some? { refar[ar[slot].value.ref] := FREE; }
        ar[slot] := None;
        idx := idx + 1;
      }
    }
  }
}
