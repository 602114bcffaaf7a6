module ConfigurationContexts {

  // The known context names over whole runs: which of them belong to stored configurations, and that no temporary name
  // is one of these.

  import opened Wrappers
  import opened ConfigurationStore
  import opened ConfigurationHandler
  import ConfigurationNames

  /** What the handler is asked for; files change in other ways, too. */
  datatype Event =
    | Storing(config: Config, time: string)
    | Replacing(config: Config, time: string, joins: bool)
    | Committing(tx: Transaction)
    | Deleting(ctype: string, name: string)
    | Declaring(ctype: string, name: string)
    | Allocating(ctype: string, prefix: string, name: string)
    | Releasing(ctype: string, name: string)
    | Purging
    | Clearing
    | FilesChange(store: Files, work: Files)
    | Restarting

  /** An allocation gives the name with the smallest number that is not used; only known names are given back. */
  ghost predicate Possible(st: State, e: Event)
  {
    match e
    case Allocating(ctype, prefix, name) => exists idx :: IsSmallestFree(st.names, ctype, prefix, idx, name)
    case Releasing(ctype, name) => (ctype, name) in st.names
    case _ => true
  }

  ghost function Next(st: State, e: Event): State
    requires Possible(st, e)
  {
    match e
    case Storing(c, time) => Store(st, c, time).0
    case Replacing(c, time, joins) => StoreReplace(st, c, time, joins).0
    case Committing(tx) => Commit(st, tx).0
    case Deleting(ctype, name) => Delete(st, ctype, name)
    case Declaring(ctype, name) => st.(names := Declare(st.names, (ctype, name)))
    case Allocating(ctype, _, name) => st.(names := st.names[(ctype, name) := false])
    case Releasing(ctype, name) => st.(names := Release(st.names, (ctype, name)))
    case Purging => Purge(st)
    case Clearing => ClearUnfinished(st)
    case FilesChange(store, work) => st.(store := store, work := work)
    case Restarting => Restart(st)
  }

  predicate IsKnown(st: State, key: Key) { key in st.names }

  /** Known as the name of a stored configuration. */
  predicate IsStored(st: State, key: Key) { key in st.names && st.names[key] }

  /** The unfinished file of the transaction is there and gets a name. */
  predicate Succeeds(st: State, tx: Transaction) { tx.failedName in st.work && tx.fileName != "" }

  /** The configuration is committed. */
  predicate Stores(st: State, e: Event, key: Key)
  {
    e.Committing? && (e.tx.ctype, e.tx.name) == key && Succeeds(st, e.tx)
  }

  /** The configuration is deleted, its commit fails, or the process starts again. */
  predicate Forgets(st: State, e: Event, key: Key)
  {
    match e
    case Deleting(ctype, name) => (ctype, name) == key
    case Committing(tx) => (tx.ctype, tx.name) == key && !Succeeds(st, tx)
    case Restarting => true
    case _ => false
  }

  /** The name is committed, declared or allocated. */
  predicate Names(st: State, e: Event, key: Key)
  {
    || Stores(st, e, key)
    || (e.Declaring? && (e.ctype, e.name) == key)
    || (e.Allocating? && (e.ctype, e.name) == key)
  }

  /** Exactly which names are known behind an event, and which of them as stored. */
  lemma EventDecides(st: State, e: Event, key: Key)
    requires Possible(st, e)
    ensures IsStored(Next(st, e), key) <==> Stores(st, e, key) || (IsStored(st, key) && !Forgets(st, e, key))
    ensures IsKnown(Next(st, e), key)
       <==> || Names(st, e, key)
            || (IsKnown(st, key) && !Forgets(st, e, key)
                && !(e.Releasing? && (e.ctype, e.name) == key && !IsStored(st, key)))
    ensures e.Allocating? ==> !IsKnown(st, (e.ctype, e.name))
  {
    if e.Allocating? { AllocatedIsNew(st, e.ctype, e.prefix, e.name); }
  }

  /** An allocated name has not been known before. */
  lemma AllocatedIsNew(st: State, ctype: string, prefix: string, name: string)
    requires Possible(st, Allocating(ctype, prefix, name))
    ensures !IsKnown(st, (ctype, name))
  {
    var idx :| IsSmallestFree(st.names, ctype, prefix, idx, name);
    if |prefix| <= 62 { SmallestIsWhole(st.names, ctype, prefix, idx); } else { OneName(prefix); }
  }

  // ---- runs ----

  ghost function RunOf(st: State, es: seq<Event>): State
    requires Runnable(st, es)
    decreases es
  {
    if es == [] then st else RunOf(Next(st, es[0]), es[1..])
  }

  ghost predicate Runnable(st: State, es: seq<Event>)
    decreases es
  {
    es == [] || (Possible(st, es[0]) && Runnable(Next(st, es[0]), es[1..]))
  }

  lemma {:induction false} RunnablePrefix(st: State, es: seq<Event>, i: nat)
    requires Runnable(st, es) && i <= |es|
    ensures Runnable(st, es[..i]) && (i < |es| ==> Possible(RunOf(st, es[..i]), es[i]))
    ensures i > 0 ==> es[..i][0] == es[0] && es[..i][1..] == es[1..][..i - 1]
    decreases es
  {
    if i > 0 {
      assert es[..i][1..] == es[1..][..i - 1];
      RunnablePrefix(Next(st, es[0]), es[1..], i - 1);
    }
  }

  /** The state in which the i-th event of a run happens. */
  ghost function StateAt(st: State, es: seq<Event>, i: nat): State
    requires Runnable(st, es) && i <= |es|
  {
    RunnablePrefix(st, es, i);
    RunOf(st, es[..i])
  }

  lemma StateBehind(st: State, es: seq<Event>, i: nat)
    requires Runnable(st, es) && 0 < i <= |es|
    ensures StateAt(st, es, i) == StateAt(Next(st, es[0]), es[1..], i - 1)
  {
    RunnablePrefix(st, es, i);
    RunnablePrefix(Next(st, es[0]), es[1..], i - 1);
  }

  ghost predicate StoredAt(st: State, es: seq<Event>, i: nat, key: Key)
    requires Runnable(st, es) && i < |es|
  {
    Stores(StateAt(st, es, i), es[i], key)
  }

  /** Nothing in the run from the i-th event on makes the configuration forgotten. */
  ghost predicate KeptFrom(st: State, es: seq<Event>, i: nat, key: Key)
    requires Runnable(st, es)
  {
    forall j :: i <= j < |es| ==> !Forgets(StateAt(st, es, j), es[j], key)
  }

  lemma Shifted(st: State, es: seq<Event>, key: Key)
    requires Runnable(st, es) && es != []
    ensures var next, rest := Next(st, es[0]), es[1..];
            && (forall i :: 0 < i < |es| ==> (StoredAt(st, es, i, key) <==> StoredAt(next, rest, i - 1, key)))
            && (forall i :: 0 < i <= |es| ==> (KeptFrom(st, es, i, key) <==> KeptFrom(next, rest, i - 1, key)))
            && (KeptFrom(st, es, 0, key) <==> !Forgets(st, es[0], key) && KeptFrom(next, rest, 0, key))
            && StateAt(st, es, 0) == st
  {
    var next, rest := Next(st, es[0]), es[1..];
    assert es[..0] == [] && StateAt(st, es, 0) == st;
    forall j | 0 < j < |es| ensures StateAt(st, es, j) == StateAt(next, rest, j - 1) && es[j] == rest[j - 1] {
      StateBehind(st, es, j);
    }
    forall i | 0 < i <= |es| ensures KeptFrom(st, es, i, key) <==> KeptFrom(next, rest, i - 1, key) {
      if KeptFrom(st, es, i, key) {
        forall j | i - 1 <= j < |rest| ensures !Forgets(StateAt(next, rest, j), rest[j], key) {
          assert !Forgets(StateAt(st, es, j + 1), es[j + 1], key);
        }
      }
    }
    if KeptFrom(st, es, 0, key) {
      forall j | 0 <= j < |rest| ensures !Forgets(StateAt(next, rest, j), rest[j], key) {
        assert !Forgets(StateAt(st, es, j + 1), es[j + 1], key);
      }
      assert !Forgets(StateAt(st, es, 0), es[0], key);
    }
  }

  /** There is a commit of the configuration behind which nothing makes it forgotten. */
  ghost predicate CommittedIn(st: State, es: seq<Event>, key: Key)
    requires Runnable(st, es)
  {
    exists i :: 0 <= i < |es| && StoredAt(st, es, i, key) && KeptFrom(st, es, i + 1, key)
  }

  /** Main result: over every run of stores, replacements, commits, deletions, declarations, allocations, releases and
      restarts, a name is known as that of a stored configuration exactly if it has been so at the beginning and nothing
      has made it forgotten, or if the configuration has been committed and since then neither been deleted, nor has a
      commit of it failed, nor has the process started again. */
  lemma {:induction false} StoredExactly(st: State, es: seq<Event>, key: Key)
    requires Runnable(st, es)
    ensures IsStored(RunOf(st, es), key)
       <==> (IsStored(st, key) && KeptFrom(st, es, 0, key)) || CommittedIn(st, es, key)
    decreases es
  {
    if es != [] {
      var next, rest := Next(st, es[0]), es[1..];
      Shifted(st, es, key);
      EventDecides(st, es[0], key);
      StoredExactly(next, rest, key);
      hide Stores, Forgets, IsStored;
      if i :| 0 < i < |es| && StoredAt(st, es, i, key) && KeptFrom(st, es, i + 1, key) {
        assert StoredAt(next, rest, i - 1, key) && KeptFrom(next, rest, i, key);
      }
      if CommittedIn(next, rest, key) {
        var i :| 0 <= i < |rest| && StoredAt(next, rest, i, key) && KeptFrom(next, rest, i + 1, key);
        assert StoredAt(st, es, i + 1, key) && KeptFrom(st, es, i + 2, key);
      }
      if StoredAt(st, es, 0, key) && KeptFrom(next, rest, 0, key) {
        assert KeptFrom(st, es, 1, key);
      }
    }
  }

  /** The beginning of a run decides what is stored when a later event happens. */
  lemma StoredAtEvent(st: State, es: seq<Event>, i: nat, j: nat, key: Key)
    requires Runnable(st, es) && i < j <= |es| && StoredAt(st, es, i, key)
    requires forall k :: i < k < j ==> !Forgets(StateAt(st, es, k), es[k], key)
    ensures IsStored(StateAt(st, es, j), key)
  {
    RunnablePrefix(st, es, j);
    var front := es[..j];
    forall k | 0 <= k < j ensures StateAt(st, front, k) == StateAt(st, es, k) && front[k] == es[k] {
      assert front[..k] == es[..k];
    }
    assert StoredAt(st, front, i, key) && KeptFrom(st, front, i + 1, key);
    StoredExactly(st, front, key);
  }

  /** As long as a committed configuration is not forgotten, no allocation gives its name away, and giving its name back
      does not free it. */
  lemma CommittedIsNotGivenAway(st: State, es: seq<Event>, i: nat, j: nat, key: Key)
    requires Runnable(st, es) && i < j < |es| && StoredAt(st, es, i, key)
    requires forall k :: i < k < j ==> !Forgets(StateAt(st, es, k), es[k], key)
    ensures es[j].Allocating? ==> (es[j].ctype, es[j].name) != key
    ensures es[j].Releasing? ==> IsStored(StateAt(st, es, j + 1), key)
  {
    StoredAtEvent(st, es, i, j, key);
    RunnablePrefix(st, es, j);
    if es[j].Allocating? { AllocatedIsNew(StateAt(st, es, j), es[j].ctype, es[j].prefix, es[j].name); }
    if es[j].Releasing? { StoredAtEvent(st, es, i, j + 1, key); }
  }

  /** Two allocations give different names, unless the first one has been given back or forgotten. */
  lemma AllocatedOnce(st: State, es: seq<Event>, i: nat, j: nat)
    requires Runnable(st, es) && i < j < |es| && es[i].Allocating? && es[j].Allocating?
    requires var key := (es[i].ctype, es[i].name);
             forall k :: i < k < j ==> !Forgets(StateAt(st, es, k), es[k], key) && es[k] != Releasing(key.0, key.1)
    ensures (es[i].ctype, es[i].name) != (es[j].ctype, es[j].name)
  {
    var key := (es[i].ctype, es[i].name);
    StateGrows(st, es, i);
    EventDecides(StateAt(st, es, i), es[i], key);
    StaysKnown(st, es, i + 1, j, key);
    RunnablePrefix(st, es, j);
    AllocatedIsNew(StateAt(st, es, j), es[j].ctype, es[j].prefix, es[j].name);
  }

  lemma {:induction false} RunMore(st: State, es: seq<Event>, e: Event)
    requires Runnable(st, es) && Possible(RunOf(st, es), e)
    ensures Runnable(st, es + [e]) && RunOf(st, es + [e]) == Next(RunOf(st, es), e)
    decreases es
  {
    if es == [] {
      assert es + [e] == [e] && [e][1..] == [];
      assert RunOf(Next(st, e), []) == Next(st, e);
    } else {
      assert (es + [e])[0] == es[0] && (es + [e])[1..] == es[1..] + [e];
      RunMore(Next(st, es[0]), es[1..], e);
    }
  }

  lemma StateGrows(st: State, es: seq<Event>, i: nat)
    requires Runnable(st, es) && i < |es|
    ensures Possible(StateAt(st, es, i), es[i]) && StateAt(st, es, i + 1) == Next(StateAt(st, es, i), es[i])
  {
    RunnablePrefix(st, es, i);
    RunMore(st, es[..i], es[i]);
    assert es[..i + 1] == es[..i] + [es[i]];
  }

  lemma {:induction false} StaysKnown(st: State, es: seq<Event>, i: nat, j: nat, key: Key)
    requires Runnable(st, es) && i <= j <= |es| && IsKnown(StateAt(st, es, i), key)
    requires forall k :: i <= k < j ==> !Forgets(StateAt(st, es, k), es[k], key) && es[k] != Releasing(key.0, key.1)
    ensures IsKnown(StateAt(st, es, j), key)
    decreases j - i
  {
    if i < j {
      StateGrows(st, es, i);
      EventDecides(StateAt(st, es, i), es[i], key);
      StaysKnown(st, es, i + 1, j, key);
    }
  }

  function Declarations(keys: seq<Key>): seq<Event>
  {
    if keys == [] then [] else [Declaring(keys[0].0, keys[0].1)] + Declarations(keys[1..])
  }

  lemma {:induction false} DeclaredOnly(st: State, keys: seq<Key>)
    requires forall key :: !IsStored(st, key)
    ensures Runnable(st, Declarations(keys))
    ensures forall key :: IsKnown(RunOf(st, Declarations(keys)), key) <==> IsKnown(st, key) || key in keys
    ensures forall key :: !IsStored(RunOf(st, Declarations(keys)), key)
    decreases keys
  {
    if keys != [] {
      var e := Declaring(keys[0].0, keys[0].1);
      var next := Next(st, e);
      assert Declarations(keys)[0] == e && Declarations(keys)[1..] == Declarations(keys[1..]);
      forall key ensures (IsKnown(next, key) <==> IsKnown(st, key) || key == keys[0]) && !IsStored(next, key) {
        EventDecides(st, e, key);
      }
      DeclaredOnly(next, keys[1..]);
      assert forall key :: key in keys <==> key == keys[0] || key in keys[1..];
    }
  }

  /** A new process declares the configurations that it loads: their names are known, so that none of them is given
      away, but none of them counts as stored before it is committed again. */
  lemma RestartForgetsMarks(st: State, loaded: seq<Key>)
    ensures Runnable(Restart(st), Declarations(loaded))
    ensures var end := RunOf(Restart(st), Declarations(loaded));
            forall key :: (IsKnown(end, key) <==> key in loaded) && !IsStored(end, key)
  {
    DeclaredOnly(Restart(st), loaded);
  }

  /** A commit that fails frees the name of the configuration even if a file of it is stored: the next allocation can
      give it away. */
  lemma FailedCommitFreesName(content: string, ctype: string)
    ensures var st := State(map["f" := content], map[], 0, map[(ctype, "1") := true]);
            var es := [Committing(Transaction(ctype, "1", "g", "f")), Allocating(ctype, "", "1")];
            && IsStored(st, (ctype, "1"))
            && Runnable(st, es)
            && "f" in RunOf(st, es).store && !IsStored(RunOf(st, es), (ctype, "1"))
  {
    var st := State(map["f" := content], map[], 0, map[(ctype, "1") := true]);
    var failed, given := Committing(Transaction(ctype, "1", "g", "f")), Allocating(ctype, "", "1");
    var next := Next(st, failed);
    assert next.names == map[];
    assert ConfigurationNames.Decimal(1) == "1" && Numbered("", 1) == "1";
    assert IsFree(next.names, ctype, "", 1);
    assert IsSmallestFree(next.names, ctype, "", 1, "1");
    assert Possible(next, given);
    assert [failed, given][1..] == [given] && [given][1..] == [];
    assert Runnable(Next(next, given), []);
    assert RunOf(next, [given]) == Next(next, given);
  }
}
