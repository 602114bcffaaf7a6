module ConfigurationStore {

  // The store of configurations: files in a directory, written under a temporary name and renamed.

  import opened Wrappers
  import opened ConfigurationNames

  type Files = map<string, string>
  type Key = (string, string)

  datatype Config = Config(ctype: string, name: string, restMethod: string, content: string)

  datatype Transaction = Transaction(ctype: string, name: string, failedName: string, fileName: string)

  /** The store directory, the directory with unfinished files, the counter and the known context names. */
  datatype State = State(store: Files, work: Files, counter: nat, names: map<Key, bool>)

  const EMPTY := State(map[], map[], 0, map[])

  function KeyOf(f: string): Key { (Part(f, 2), Part(f, 3)) }

  function WithEnding(files: Files, ext: string): set<string> { set f | f in files && EndsWith(f, ext) }

  ghost predicate IsGreatest(f: string, fs: set<string>)
  {
    f in fs && forall g :: g in fs ==> g == f || Less(g, f)
  }

  ghost function GreatestOf(fs: set<string>): (f: string)
    requires fs != {}
    ensures IsGreatest(f, fs)
    decreases |fs|
  {
    var x :| x in fs;
    if fs - {x} == {} then
      assert forall g :: g in fs && g != x ==> g in fs - {x};
      x
    else
      var g := GreatestOf(fs - {x});
      GreatestExtends(fs, x, g);
      if Less(g, x) then x else g
  }

  lemma GreatestExtends(fs: set<string>, x: string, g: string)
    requires x in fs && IsGreatest(g, fs - {x})
    ensures IsGreatest(if Less(g, x) then x else g, fs)
  {
    LessTrichotomy(g, x);
    forall h | h in fs && h != x ensures Less(g, x) ==> Less(h, x) {
      if Less(g, x) && h != g { LessTransitive(h, g, x); }
    }
  }

  lemma GreatestUnique(f: string, g: string, fs: set<string>)
    requires IsGreatest(f, fs) && IsGreatest(g, fs)
    ensures f == g
  {
    LessTrichotomy(f, g);
  }

  // ---- operations ----

  function NewFileName(st: State, config: Config, time: string): string
  {
    FileName(Stamp(time, st.counter), config.restMethod, config.ctype, config.name)
  }

  /** Writes the content under the temporary name and hands out a transaction with the final name. */
  function Begin(st: State, config: Config, time: string, file: string): (State, Transaction)
  {
    var failed := NewFileName(st, config, time) + ".failed";
    (st.(work := st.work[failed := config.content], counter := st.counter + 1),
     Transaction(config.ctype, config.name, failed, file))
  }

  function Store(st: State, config: Config, time: string): (State, Transaction)
  {
    Begin(st, config, time, NewFileName(st, config, time))
  }

  /** The newest file of a configuration; the empty name if there is none. */
  ghost function StoredFile(st: State, ctype: string, name: string): string
  {
    var fs := WithEnding(st.store, Extension(ctype, name));
    if fs == {} then "" else GreatestOf(fs)
  }

  /** A replacement is written over the newest file. Without one its final name is empty: if that name can be joined
      to the directory, then the commit fails, else there is no transaction. */
  ghost function StoreReplace(st: State, config: Config, time: string, joins: bool): (State, Option<Transaction>)
  {
    var file := StoredFile(st, config.ctype, config.name);
    if file == "" && !joins then (st.(counter := st.counter + 1), None)
    else var (next, tx) := Begin(st, config, time, file); (next, Some(tx))
  }

  /** Renames the temporary file; if that fails, the name of the configuration is forgotten. */
  function Commit(st: State, tx: Transaction): (State, bool)
  {
    var key := (tx.ctype, tx.name);
    if tx.failedName !in st.work || tx.fileName == "" then (st.(names := st.names - {key}), false)
    else (st.(store := st.store[tx.fileName := st.work[tx.failedName]],
              work := st.work - {tx.failedName},
              names := st.names[key := true]), true)
  }

  function Delete(st: State, ctype: string, name: string): State
  {
    st.(store := st.store - WithEnding(st.store, Extension(ctype, name)), names := st.names - {(ctype, name)})
  }

  function ClearUnfinished(st: State): State
  {
    st.(store := st.store - WithEnding(st.store, ".conf.failed"))
  }

  /** No other file of the same configuration has a greater name. */
  ghost predicate Newest(files: Files, f: string)
  {
    forall g :: g in files && EndsWith(g, ".conf") && KeyOf(g) == KeyOf(f) ==> g == f || Less(g, f)
  }

  ghost function Obsolete(files: Files): set<string>
  {
    set f | f in files && EndsWith(f, ".conf") && !Newest(files, f)
  }

  ghost function Purge(st: State): State { st.(store := st.store - Obsolete(st.store)) }

  function Restart(st: State): State { st.(counter := 0, names := map[]) }

  // the known context names: those of stored configurations are marked

  /** A name that is known keeps its mark. */
  function Declare(names: map<Key, bool>, key: Key): map<Key, bool>
  {
    if key in names then names else names[key := false]
  }

  /** A name is given back; that of a stored configuration stays. */
  function Release(names: map<Key, bool>, key: Key): map<Key, bool>
    requires key in names
  {
    if names[key] then names else names - {key}
  }

  /** A commit moves the content to its final name; it can be repeated only with a new unfinished file, and one that
      fails changes no file. */
  lemma CommitMoves(st: State, tx: Transaction)
    ensures var (next, ok) := Commit(st, tx);
            && (ok <==> tx.failedName in st.work && tx.fileName != "")
            && (forall f :: f in next.store <==> f in st.store || (ok && f == tx.fileName))
            && (forall f :: f in next.store ==>
                  next.store[f] == if ok && f == tx.fileName then st.work[tx.failedName] else st.store[f])
            && (forall f :: f in next.work <==> f in st.work && !(ok && f == tx.failedName))
            && (ok ==> !Commit(next, tx).1)
  {
  }

  /** Beginning a store writes one unfinished file and nothing else; its commit then succeeds. */
  lemma BegunIsCommitted(st: State, config: Config, time: string)
    ensures var (next, tx) := Store(st, config, time);
            && next.store == st.store && next.names == st.names && Commit(next, tx).1
            && tx.failedName == tx.fileName + ".failed"
            && (forall f :: f in next.work <==> f in st.work || f == tx.failedName)
            && (forall f :: f in next.work ==>
                  next.work[f] == if f == tx.failedName then config.content else st.work[f])
  {
    assert NewFileName(st, config, time) != "";
  }

  /** A replacement of a stored configuration writes its content over the newest file when it is committed. Of one that
      is not stored, the commit fails, or there is no transaction. */
  lemma ReplacementIsExact(st: State, config: Config, time: string, joins: bool)
    ensures var (next, tx) := StoreReplace(st, config, time, joins);
            var stored := WithEnding(st.store, Extension(config.ctype, config.name));
            && next.store == st.store && next.names == st.names
            && (tx.None? <==> stored == {} && !joins) && (tx.None? ==> next.work == st.work)
            && (tx.Some? ==>
                  && (Commit(next, tx.value).1 <==> stored != {})
                  && next.work == st.work[NewFileName(st, config, time) + ".failed" := config.content]
                  && (forall f :: f in stored && IsGreatest(f, stored) ==>
                        Commit(next, tx.value).0.store == st.store[f := config.content]))
  {
    var stored := WithEnding(st.store, Extension(config.ctype, config.name));
    if stored != {} {
      assert StoredFile(st, config.ctype, config.name) in stored;
      assert StoredFile(st, config.ctype, config.name) != "";
      forall f | f in stored && IsGreatest(f, stored) ensures f == GreatestOf(stored) {
        GreatestUnique(f, GreatestOf(stored), stored);
      }
    }
  }

  /** Clearing removes the unfinished files of the store directory and no others. */
  lemma ClearingIsExact(st: State)
    ensures var next := ClearUnfinished(st);
            && (forall f :: f in next.store <==> f in st.store && !EndsWith(f, ".conf.failed"))
            && (forall f :: f in next.store ==> next.store[f] == st.store[f])
            && next.work == st.work && next.names == st.names && next.counter == st.counter
  {
  }

  // ---- what is loaded at start ----

  predicate Ascending(fs: seq<string>) { forall i, j :: 0 <= i < j < |fs| ==> Less(fs[i], fs[j]) }

  /** The files that are loaded, in their order. */
  ghost predicate Recovered(files: Files, picked: seq<string>)
  {
    && Ascending(picked)
    && forall f :: f in picked <==> f in files && EndsWith(f, ".conf") && Newest(files, f)
  }

  function Describe(files: Files, f: string): Config
    requires f in files
  {
    Config(Part(f, 2), Part(f, 3), Part(f, 1), files[f])
  }

  function Descriptions(files: Files, picked: seq<string>): (r: seq<Config>)
    requires forall f :: f in picked ==> f in files
    ensures |r| == |picked|
  {
    seq(|picked|, i requires 0 <= i < |picked| => Describe(files, picked[i]))
  }

  /** No two loaded files belong to the same configuration. */
  lemma RecoveredOnce(files: Files, picked: seq<string>, i: nat, j: nat)
    requires Recovered(files, picked) && i < j < |picked|
    ensures KeyOf(picked[i]) != KeyOf(picked[j])
  {
    assert picked[i] in picked && picked[j] in picked;
    LessTrichotomy(picked[i], picked[j]);
  }

  /** Removing obsolete files does not change what is loaded, wherever the removal stops. */
  lemma CutPurgeIsInvisible(files: Files, removed: set<string>, picked: seq<string>)
    requires removed <= Obsolete(files)
    ensures Recovered(files, picked) <==> Recovered(files - removed, picked)
  {
    var kept := files - removed;
    forall f | f in files && EndsWith(f, ".conf") ensures Newest(files, f) <==> f in kept && Newest(kept, f) {
      var g := NewestOf(files, f);
      if f in kept && Newest(kept, f) { LessTrichotomy(f, g); }
    }
  }

  /** Purging leaves one file of each configuration and does not change what is loaded. */
  lemma PurgeIsInvisible(st: State, picked: seq<string>)
    ensures Recovered(st.store, picked) <==> Recovered(Purge(st).store, picked)
    ensures forall f, g :: f in WithEnding(Purge(st).store, ".conf") && g in WithEnding(Purge(st).store, ".conf") ==>
              KeyOf(f) == KeyOf(g) ==> f == g
    ensures forall f :: f in WithEnding(st.store, ".conf") ==>
              exists g :: g in WithEnding(Purge(st).store, ".conf") && KeyOf(g) == KeyOf(f)
    ensures forall f :: f in st.store && !EndsWith(f, ".conf") ==> f in Purge(st).store
    ensures forall f :: f in Purge(st).store ==> Purge(st).store[f] == st.store[f]
  {
    var files, kept := st.store, Purge(st).store;
    CutPurgeIsInvisible(files, Obsolete(files), picked);
    forall f | f in WithEnding(files, ".conf")
      ensures exists g :: g in WithEnding(kept, ".conf") && KeyOf(g) == KeyOf(f)
    {
      var g := NewestOf(files, f);
      assert g in WithEnding(kept, ".conf");
    }
    forall f, g | f in WithEnding(kept, ".conf") && g in WithEnding(kept, ".conf") && KeyOf(f) == KeyOf(g)
      ensures f == g
    {
      LessTrichotomy(f, g);
    }
  }

  lemma NewestOf(files: Files, f: string) returns (g: string)
    requires f in files && EndsWith(f, ".conf")
    ensures g in files && EndsWith(g, ".conf") && KeyOf(g) == KeyOf(f) && Newest(files, g)
    ensures g == f || Less(f, g)
  {
    var same := set g | g in files && EndsWith(g, ".conf") && KeyOf(g) == KeyOf(f);
    assert f in same;
    g := GreatestOf(same);
    assert g in same;
  }

  // ---- runs ----

  /** Operations; a cut one is a crash: before the rename, or after some of the files have been removed. */
  datatype Op =
    | StoreCommitted(config: Config, time: string)
    | StoreCut(config: Config, time: string)
    | ReplaceCommitted(config: Config, time: string, joins: bool)
    | ReplaceCut(config: Config, time: string, joins: bool)
    | Deletion(ctype: string, name: string)
    | DeletionCut(ctype: string, name: string, removed: set<string>)
    | Purging
    | PurgingCut(removed: set<string>)
    | Clearing
    | Restarting

  /** What was committed last under a key, and the file that holds it. */
  datatype Record = Record(file: string, content: string)

  /** A run: the state, what has been committed, and the last time and counter of a file name. */
  datatype Run = Run(st: State, committed: map<Key, Record>, time: string, last: nat)

  const START := Run(EMPTY, map[], "", 0)

  ghost predicate ValidConfig(c: Config) { DotFree(c.restMethod) && DotFree(c.ctype) && DotFree(c.name) }

  /** Names have no dots, times have their format, and what a cut operation removes it would have removed anyway. */
  ghost predicate WellFormed(r: Run, op: Op)
  {
    match op
    case StoreCommitted(c, time) => ValidConfig(c) && IsTime(time)
    case StoreCut(c, time) => ValidConfig(c) && IsTime(time)
    case ReplaceCommitted(c, time, _) => ValidConfig(c) && IsTime(time)
    case ReplaceCut(c, time, _) => ValidConfig(c) && IsTime(time)
    case Deletion(t, n) => DotFree(t) && DotFree(n)
    case DeletionCut(t, n, removed) => DotFree(t) && DotFree(n) && removed <= WithEnding(r.st.store, Extension(t, n))
    case PurgingCut(removed) => removed <= Obsolete(r.st.store)
    case _ => true
  }

  /** The name of a new file is not smaller than the one that holds the configuration. */
  ghost predicate NameFits(r: Run, c: Config, time: string)
  {
    var f, key := NewFileName(r.st, c, time), (c.ctype, c.name);
    key in r.committed ==> r.committed[key].file == f || Less(r.committed[key].file, f)
  }

  /** A deletion is cut before it removes the newest file, or when it has removed all of them. */
  ghost predicate CutFits(r: Run, ctype: string, name: string, removed: set<string>)
  {
    var key := (ctype, name);
    key in r.committed ==>
      r.committed[key].file !in removed || removed == WithEnding(r.st.store, Extension(ctype, name))
  }

  /** The condition under which an operation can be recovered from. */
  ghost predicate Fits(r: Run, op: Op)
  {
    match op
    case StoreCommitted(c, time) => NameFits(r, c, time)
    case DeletionCut(t, n, removed) => CutFits(r, t, n, removed)
    case _ => true
  }

  ghost predicate Allowed(r: Run, op: Op) { WellFormed(r, op) && Fits(r, op) }

  ghost function Step(r: Run, op: Op): Run
  {
    match op
    case StoreCommitted(c, time) =>
      var (st, tx) := Store(r.st, c, time);
      Run(Commit(st, tx).0, r.committed[(c.ctype, c.name) := Record(tx.fileName, c.content)], time, r.st.counter)
    case StoreCut(c, time) =>
      r.(st := Store(r.st, c, time).0, time := time, last := r.st.counter)
    case ReplaceCommitted(c, time, joins) =>
      var (st, tx) := StoreReplace(r.st, c, time, joins);
      var key := (c.ctype, c.name);
      Run(if tx.Some? then Commit(st, tx.value).0 else st,
          if key in r.committed then r.committed[key := Record(r.committed[key].file, c.content)] else r.committed,
          time, r.st.counter)
    case ReplaceCut(c, time, joins) =>
      r.(st := StoreReplace(r.st, c, time, joins).0, time := time, last := r.st.counter)
    case Deletion(t, n) => r.(st := Delete(r.st, t, n), committed := r.committed - {(t, n)})
    case DeletionCut(t, n, removed) =>
      r.(st := r.st.(store := r.st.store - removed),
         committed := if removed == WithEnding(r.st.store, Extension(t, n)) then r.committed - {(t, n)}
                      else r.committed)
    case Purging => r.(st := Purge(r.st))
    case PurgingCut(removed) => r.(st := r.st.(store := r.st.store - removed))
    case Clearing => r.(st := ClearUnfinished(r.st))
    case Restarting => r.(st := Restart(r.st))
  }

  ghost function RunOf(r: Run, ops: seq<Op>): Run
    decreases ops
  {
    if ops == [] then r else RunOf(Step(r, ops[0]), ops[1..])
  }

  ghost predicate Runnable(r: Run, ops: seq<Op>)
    decreases ops
  {
    ops == [] || (Allowed(r, ops[0]) && Runnable(Step(r, ops[0]), ops[1..]))
  }

  /** The record's file is the newest of its key and holds the record's content. */
  ghost predicate Holds(files: Files, key: Key, rec: Record)
  {
    && rec.file in files && KeyOf(rec.file) == key && files[rec.file] == rec.content
    && forall g :: g in files && KeyOf(g) == key ==> g == rec.file || Less(g, rec.file)
  }

  /** Every file belongs to a record, and every record holds. */
  ghost predicate Agree(files: Files, committed: map<Key, Record>)
  {
    && (forall f :: f in files ==> IsFileName(f) && KeyOf(f) in committed)
    && (forall key :: key in committed ==> Holds(files, key, committed[key]))
  }

  ghost predicate Inv(r: Run) { Agree(r.st.store, r.committed) }

  // how files and records change together

  ghost predicate NotSmaller(committed: map<Key, Record>, f: string)
  {
    KeyOf(f) in committed ==> committed[KeyOf(f)].file == f || Less(committed[KeyOf(f)].file, f)
  }

  /** A new file is the newest of its configuration exactly if its name is not smaller than the recorded one. */
  lemma NewFileHolds(files: Files, committed: map<Key, Record>, f: string, content: string)
    requires Agree(files, committed)
    ensures Holds(files[f := content], KeyOf(f), Record(f, content)) <==> NotSmaller(committed, f)
  {
    if KeyOf(f) in committed {
      var prior := committed[KeyOf(f)].file;
      assert Holds(files, KeyOf(f), committed[KeyOf(f)]);
      assert prior in files[f := content];
      forall g | g in files && KeyOf(g) == KeyOf(f) && Less(prior, f) ensures Less(g, f) {
        if g != prior { LessTransitive(g, prior, f); }
      }
    }
  }

  lemma OthersHold(files: Files, key: Key, rec: Record, f: string, content: string)
    requires Holds(files, key, rec) && KeyOf(f) != key
    ensures Holds(files[f := content], key, rec)
  {
  }

  lemma AddedFile(files: Files, committed: map<Key, Record>, f: string, content: string)
    requires Agree(files, committed) && IsFileName(f)
    ensures Agree(files[f := content], committed[KeyOf(f) := Record(f, content)]) <==> NotSmaller(committed, f)
  {
    hide IsFileName, KeyOf, Less;
    var files', committed' := files[f := content], committed[KeyOf(f) := Record(f, content)];
    NewFileHolds(files, committed, f, content);
    if NotSmaller(committed, f) {
      forall key | key in committed' ensures Holds(files', key, committed'[key]) {
        if key != KeyOf(f) { OthersHold(files, key, committed[key], f, content); }
      }
    } else {
      assert committed'[KeyOf(f)] == Record(f, content);
    }
  }

  /** New content for the newest file of a key. */
  lemma OverwrittenFile(files: Files, committed: map<Key, Record>, key: Key, content: string)
    requires Agree(files, committed) && key in committed
    ensures var f := committed[key].file;
            Agree(files[f := content], committed[key := Record(f, content)]) && f in files && KeyOf(f) == key
  {
    var f := committed[key].file;
    assert Holds(files, key, committed[key]);
    AddedFile(files, committed, f, content);
  }

  /** Removing files keeps the agreement with the same records exactly if none of them holds a record. */
  lemma RemovedFiles(files: Files, committed: map<Key, Record>, removed: set<string>)
    requires Agree(files, committed)
    ensures Agree(files - removed, committed) <==> forall key :: key in committed ==> committed[key].file !in removed
  {
    hide IsFileName, KeyOf, Less;
    forall key | key in committed && committed[key].file !in removed
      ensures Holds(files - removed, key, committed[key])
    {
      assert Holds(files, key, committed[key]);
    }
    forall key | key in committed && committed[key].file in removed
      ensures !Holds(files - removed, key, committed[key])
    {
    }
  }

  lemma DeletedFiles(files: Files, committed: map<Key, Record>, key: Key, all: set<string>)
    requires Agree(files, committed) && all == set f | f in files && KeyOf(f) == key
    ensures Agree(files - all, committed - {key})
  {
    forall k | k in committed - {key} ensures Holds(files - all, k, committed[k]) {
      assert Holds(files, k, committed[k]);
    }
  }

  // the operations

  lemma NewFileParts(st: State, c: Config, time: string)
    requires ValidConfig(c) && IsTime(time)
    ensures var f := NewFileName(st, c, time);
            && f != "" && IsFileName(f) && KeyOf(f) == (c.ctype, c.name)
            && Part(f, 0) == Stamp(time, st.counter) && Part(f, 1) == c.restMethod
  {
    StampIsStamp(time, st.counter);
    FileNameParts(Stamp(time, st.counter), c.restMethod, c.ctype, c.name);
  }

  /** What a committed store leaves: a new file. */
  lemma StoredUnder(r: Run, c: Config, time: string)
    requires ValidConfig(c) && IsTime(time)
    ensures var next, f := Step(r, StoreCommitted(c, time)), NewFileName(r.st, c, time);
            && next.st.store == r.st.store[f := c.content]
            && next.committed == r.committed[(c.ctype, c.name) := Record(f, c.content)]
            && next.time == time && next.last == r.st.counter && next.st.counter == r.st.counter + 1
  {
    NewFileParts(r.st, c, time);
  }

  /** A store keeps the invariant exactly if its name fits. */
  lemma StoreStep(r: Run, c: Config, time: string)
    requires Inv(r) && ValidConfig(c) && IsTime(time)
    ensures Inv(Step(r, StoreCommitted(c, time))) <==> NameFits(r, c, time)
  {
    NewFileParts(r.st, c, time);
    StoredUnder(r, c, time);
    AddedFile(r.st.store, r.committed, NewFileName(r.st, c, time), c.content);
  }

  /** The newest file of a configuration is the one of its record. */
  lemma StoredFileIsRecorded(r: Run, ctype: string, name: string)
    requires Inv(r) && DotFree(ctype) && DotFree(name)
    ensures WithEnding(r.st.store, Extension(ctype, name)) == set f | f in r.st.store && KeyOf(f) == (ctype, name)
    ensures StoredFile(r.st, ctype, name)
         == if (ctype, name) in r.committed then r.committed[(ctype, name)].file else ""
  {
    var fs := WithEnding(r.st.store, Extension(ctype, name));
    forall f | f in r.st.store ensures f in fs <==> KeyOf(f) == (ctype, name) { EndingOfFile(f, ctype, name); }
    if (ctype, name) in r.committed {
      var rec := r.committed[(ctype, name)];
      assert Holds(r.st.store, (ctype, name), rec);
      assert rec.file in fs;
      GreatestUnique(rec.file, GreatestOf(fs), fs);
    } else {
      forall f | f in r.st.store ensures f !in fs { assert KeyOf(f) in r.committed; }
      assert fs == {};
    }
  }

  /** What a committed replacement leaves: the newest file with the new content. */
  lemma ReplacedUnder(r: Run, c: Config, time: string, joins: bool)
    requires Inv(r) && DotFree(c.ctype) && DotFree(c.name)
    ensures var next, key := Step(r, ReplaceCommitted(c, time, joins)), (c.ctype, c.name);
            && next.time == time && next.last == r.st.counter && next.st.counter == r.st.counter + 1
            && if key in r.committed
               then next.st.store == r.st.store[r.committed[key].file := c.content]
                    && next.committed == r.committed[key := Record(r.committed[key].file, c.content)]
               else next.st.store == r.st.store && next.committed == r.committed
  {
    hide Inv, ValidConfig, StoredFile;
    StoredFileIsRecorded(r, c.ctype, c.name);
    if (c.ctype, c.name) in r.committed { NonEmptyFile(r, (c.ctype, c.name)); }
  }

  lemma NonEmptyFile(r: Run, key: Key)
    requires Inv(r) && key in r.committed
    ensures r.committed[key].file != ""
  {
    var rec := r.committed[key];
    assert Holds(r.st.store, key, rec);
    assert IsFileName(rec.file);
  }

  lemma ReplaceStep(r: Run, c: Config, time: string, joins: bool)
    requires Inv(r) && ValidConfig(c)
    ensures Inv(Step(r, ReplaceCommitted(c, time, joins)))
  {
    ReplacedUnder(r, c, time, joins);
    if (c.ctype, c.name) in r.committed {
      OverwrittenFile(r.st.store, r.committed, (c.ctype, c.name), c.content);
    }
  }

  /** Deleting a configuration removes all versions of it and no other file. */
  lemma DeletionIsExact(r: Run, ctype: string, name: string)
    requires Inv(r) && DotFree(ctype) && DotFree(name)
    ensures forall f :: f in Delete(r.st, ctype, name).store <==> f in r.st.store && KeyOf(f) != (ctype, name)
    ensures forall f :: f in Delete(r.st, ctype, name).store ==> Delete(r.st, ctype, name).store[f] == r.st.store[f]
  {
    StoredFileIsRecorded(r, ctype, name);
  }

  lemma DeletionStep(r: Run, ctype: string, name: string)
    requires Inv(r) && DotFree(ctype) && DotFree(name)
    ensures Inv(Step(r, Deletion(ctype, name)))
  {
    StoredFileIsRecorded(r, ctype, name);
    DeletedFiles(r.st.store, r.committed, (ctype, name), WithEnding(r.st.store, Extension(ctype, name)));
  }

  /** A deletion that is cut keeps the invariant exactly if it fits: else an older version comes back. */
  lemma CutDeletionStep(r: Run, ctype: string, name: string, removed: set<string>)
    requires Inv(r) && WellFormed(r, DeletionCut(ctype, name, removed))
    ensures Inv(Step(r, DeletionCut(ctype, name, removed))) <==> CutFits(r, ctype, name, removed)
  {
    var all := WithEnding(r.st.store, Extension(ctype, name));
    StoredFileIsRecorded(r, ctype, name);
    if removed == all {
      DeletedFiles(r.st.store, r.committed, (ctype, name), all);
    } else {
      RemovedFiles(r.st.store, r.committed, removed);
      OnlyOfKey(r.st.store, r.committed, (ctype, name), removed);
    }
  }

  lemma OnlyOfKey(files: Files, committed: map<Key, Record>, key: Key, removed: set<string>)
    requires Agree(files, committed) && removed <= set f | f in files && KeyOf(f) == key
    ensures forall k :: k in committed && k != key ==> committed[k].file !in removed
  {
    forall k | k in committed && k != key ensures committed[k].file !in removed {
      assert Holds(files, k, committed[k]);
    }
  }

  lemma PurgeStep(r: Run, removed: set<string>)
    requires Inv(r) && removed <= Obsolete(r.st.store)
    ensures Agree(r.st.store - removed, r.committed)
  {
    forall k | k in r.committed ensures r.committed[k].file !in removed {
      assert Holds(r.st.store, k, r.committed[k]);
      assert Newest(r.st.store, r.committed[k].file);
    }
    RemovedFiles(r.st.store, r.committed, removed);
  }

  lemma PurgingStep(r: Run, removed: set<string>)
    requires Inv(r)
    ensures Inv(Step(r, Purging))
    ensures removed <= Obsolete(r.st.store) ==> Inv(Step(r, PurgingCut(removed)))
  {
    hide Agree, Obsolete, Commit;
    PurgeStep(r, Obsolete(r.st.store));
    if removed <= Obsolete(r.st.store) { PurgeStep(r, removed); }
  }

  /** Unfinished files are not where they are looked for: nothing is cleared. */
  lemma ClearingDoesNothing(r: Run)
    requires Inv(r)
    ensures ClearUnfinished(r.st) == r.st && Inv(Step(r, Clearing))
  {
    hide IsFileName, KeyOf, EndsWith;
    forall f | f in r.st.store ensures !EndsWith(f, ".conf.failed") { EndingOfAll(f); }
    assert WithEnding(r.st.store, ".conf.failed") == {};
    assert r.st.store - {} == r.st.store;
  }

  /** Operations that neither add nor remove a file. */
  lemma QuietStep(r: Run, op: Op)
    requires Inv(r) && (op.StoreCut? || op.ReplaceCut? || op.Restarting?)
    ensures Inv(Step(r, op))
  {
  }

  /** Every operation keeps store and records in agreement exactly if it fits. */
  lemma StepIsExact(r: Run, op: Op)
    requires Inv(r) && WellFormed(r, op)
    ensures Inv(Step(r, op)) <==> Fits(r, op)
  {
    hide Inv, Step;
    match op
    case StoreCommitted(c, time) => StoreStep(r, c, time);
    case ReplaceCommitted(c, time, joins) => ReplaceStep(r, c, time, joins);
    case Deletion(t, n) => DeletionStep(r, t, n);
    case DeletionCut(t, n, removed) => CutDeletionStep(r, t, n, removed);
    case Purging => PurgingStep(r, {});
    case PurgingCut(removed) => PurgingStep(r, removed);
    case Clearing => ClearingDoesNothing(r);
    case _ => QuietStep(r, op);
  }

  lemma {:induction false} RunKeepsInvariant(r: Run, ops: seq<Op>)
    requires Inv(r) && Runnable(r, ops)
    ensures Inv(RunOf(r, ops))
    decreases ops
  {
    if ops != [] {
      StepIsExact(r, ops[0]);
      RunKeepsInvariant(Step(r, ops[0]), ops[1..]);
    }
  }

  /** What is loaded from a store that agrees with its records: each of them once, in the order of the names. */
  lemma LoadedIsCommitted(r: Run, picked: seq<string>)
    requires Inv(r) && Recovered(r.st.store, picked)
    ensures forall f :: f in picked ==> f in r.st.store
    ensures forall i :: 0 <= i < |picked| ==>
              var d := Descriptions(r.st.store, picked)[i];
              && (d.ctype, d.name) in r.committed
              && r.committed[(d.ctype, d.name)] == Record(picked[i], d.content)
    ensures forall key :: key in r.committed ==> r.committed[key].file in picked
  {
    forall f | f in picked ensures KeyOf(f) in r.committed && r.committed[KeyOf(f)] == Record(f, r.st.store[f]) {
      var rec := r.committed[KeyOf(f)];
      assert Holds(r.st.store, KeyOf(f), rec);
      EndingOfAll(rec.file);
      LessTrichotomy(f, rec.file);
    }
    forall i | 0 <= i < |picked|
      ensures var d := Descriptions(r.st.store, picked)[i];
              (d.ctype, d.name) in r.committed && r.committed[(d.ctype, d.name)] == Record(picked[i], d.content)
    {
      assert picked[i] in picked;
    }
    forall key | key in r.committed ensures r.committed[key].file in picked {
      assert Holds(r.st.store, key, r.committed[key]);
      EndingOfAll(r.committed[key].file);
    }
  }

  /** Main result: after any run of stores, replacements, deletions, purges and restarts, each of which may be cut
      by a crash, the configurations that are loaded are exactly the committed and not deleted ones, each once, with
      the content committed last, in ascending order of their files. Only the names of new files and the cuts of
      deletions have to fit, whatever counter and clock do. */
  lemma RecoveryIsExact(ops: seq<Op>, picked: seq<string>)
    requires Runnable(START, ops) && Recovered(RunOf(START, ops).st.store, picked)
    ensures var r := RunOf(START, ops);
            && (forall f :: f in picked ==> f in r.st.store)
            && (forall i :: 0 <= i < |picked| ==>
                  var d := Descriptions(r.st.store, picked)[i];
                  && (d.ctype, d.name) in r.committed
                  && r.committed[(d.ctype, d.name)] == Record(picked[i], d.content))
            && (forall key :: key in r.committed ==> r.committed[key].file in picked)
            && (forall i, j :: 0 <= i < j < |picked| ==>
                  Less(picked[i], picked[j]) && KeyOf(picked[i]) != KeyOf(picked[j]))
  {
    RunKeepsInvariant(START, ops);
    LoadedIsCommitted(RunOf(START, ops), picked);
    var store := RunOf(START, ops).st.store;
    forall i, j | 0 <= i < j < |picked| ensures KeyOf(picked[i]) != KeyOf(picked[j]) {
      RecoveredOnce(store, picked, i, j);
    }
  }

  /** Where a name does not fit, the store is lost: its content is not loaded, the old one still is. */
  lemma StaleIsLoaded(r: Run, c: Config, time: string, picked: seq<string>)
    requires Inv(r) && ValidConfig(c) && IsTime(time)
    requires Recovered(Step(r, StoreCommitted(c, time)).st.store, picked)
    ensures var f, key := NewFileName(r.st, c, time), (c.ctype, c.name);
            && (f in picked <==> NameFits(r, c, time))
            && (!NameFits(r, c, time) ==>
                  var prior := r.committed[key];
                  prior.file in picked && Step(r, StoreCommitted(c, time)).st.store[prior.file] == prior.content)
  {
    var f := NewFileName(r.st, c, time);
    NewFileParts(r.st, c, time);
    StoredUnder(r, c, time);
    GreaterIsLoaded(r.st.store, r.committed, f, c.content, picked);
  }

  /** Of a new file and the recorded one, the greater one is loaded. */
  lemma GreaterIsLoaded(files: Files, committed: map<Key, Record>, f: string, content: string, picked: seq<string>)
    requires Agree(files, committed) && IsFileName(f) && Recovered(files[f := content], picked)
    ensures f in picked <==> NotSmaller(committed, f)
    ensures !NotSmaller(committed, f) ==>
              var prior := committed[KeyOf(f)];
              prior.file in picked && prior.file in files && files[prior.file] == prior.content && prior.file != f
  {
    var now := files[f := content];
    forall g | g in now ensures EndsWith(g, ".conf") { EndingOfAll(g); }
    NewFileHolds(files, committed, f, content);
    assert Newest(now, f) <==> Holds(now, KeyOf(f), Record(f, content));
    if !NotSmaller(committed, f) { RecordedIsNewest(files, committed, f, content); }
  }

  lemma RecordedIsNewest(files: Files, committed: map<Key, Record>, f: string, content: string)
    requires Agree(files, committed) && !NotSmaller(committed, f)
    ensures var prior := committed[KeyOf(f)];
            && prior.file in files && files[prior.file] == prior.content && prior.file != f
            && Newest(files[f := content], prior.file)
  {
    assert Holds(files, KeyOf(f), committed[KeyOf(f)]);
    LessTrichotomy(committed[KeyOf(f)].file, f);
  }

  /** Where the cut of a deletion does not fit, a version older than the committed one is loaded. */
  lemma DeletedComesBack(r: Run, ctype: string, name: string, removed: set<string>, picked: seq<string>)
    requires Inv(r) && WellFormed(r, DeletionCut(ctype, name, removed)) && !CutFits(r, ctype, name, removed)
    requires Recovered(Step(r, DeletionCut(ctype, name, removed)).st.store, picked)
    ensures exists g :: g in picked && KeyOf(g) == (ctype, name) && Less(g, r.committed[(ctype, name)].file)
  {
    var key, rest := (ctype, name), r.st.store - removed;
    var rec := r.committed[key];
    StoredFileIsRecorded(r, ctype, name);
    var f :| f in WithEnding(r.st.store, Extension(ctype, name)) && f !in removed;
    EndingOfAll(f);
    var g := NewestOf(rest, f);
    assert Holds(r.st.store, key, rec);
    assert g in picked && KeyOf(g) == key;
  }

  /** A replacement is loaded with the method of the store before it, whatever its own method was. */
  lemma ReplacementKeepsMethod(r: Run, c: Config, time: string, joins: bool)
    requires Inv(r) && ValidConfig(c) && IsTime(time) && (c.ctype, c.name) in r.committed
    ensures var key := (c.ctype, c.name);
            var next := Step(r, ReplaceCommitted(c, time, joins));
            var file := r.committed[key].file;
            && file in next.st.store && next.st.store[file] == c.content
            && Describe(next.st.store, file) == Config(c.ctype, c.name, Part(file, 1), c.content)
  {
    ReplacedUnder(r, c, time, joins);
    assert Holds(r.st.store, (c.ctype, c.name), r.committed[(c.ctype, c.name)]);
  }

  // ---- the clock ----

  function LastStamp(r: Run): string { Stamp(r.time, r.last) }

  /** Times do not go back, a new process starts in a later second than its predecessor ended, and the counter is
      not printed with more digits than the one before it in the same second. */
  ghost predicate AllowedTime(r: Run, time: string)
  {
    && IsTime(time)
    && (Less(r.time, time)
        || (r.time == time && r.st.counter > 0 && Width(r.st.counter) == Width(r.st.counter - 1)))
  }

  /** No stored name is later than the last one that was given; the counter goes on from it or from zero. */
  ghost predicate ClockInv(r: Run)
  {
    && (r.time == "" ==> r.st.counter == 0 && r.st.store == map[])
    && (r.time != "" ==> IsTime(r.time))
    && (r.st.counter > 0 ==> r.time != "" && r.st.counter == r.last + 1)
    && forall f :: f in r.st.store ==> Issued(r, f)
  }

  ghost predicate Issued(r: Run, f: string)
  {
    IsStamp(Part(f, 0)) && (Part(f, 0) == LastStamp(r) || Less(Part(f, 0), LastStamp(r)))
  }

  /** The next stamp is greater than the last one exactly at the allowed times. */
  lemma NextStampIsGreater(r: Run, time: string)
    requires ClockInv(r) && IsTime(time) && r.time != ""
    ensures Less(LastStamp(r), Stamp(time, r.st.counter)) <==> AllowedTime(r, time)
  {
    StampOrder(r.time, r.last, time, r.st.counter);
    NextCounter(r.last);
    LessIrreflexive(time);
  }

  lemma StampChain(a: string, last: string, stamp: string)
    requires (a == last || Less(a, last)) && Less(last, stamp)
    ensures Less(a, stamp) && a != stamp
  {
    if a != last { LessTransitive(a, last, stamp); }
    LessIrreflexive(stamp);
  }

  lemma NextNameIsGreater(r: Run, c: Config, time: string, f: string)
    requires ClockInv(r) && ValidConfig(c) && AllowedTime(r, time) && f in r.st.store && IsFileName(f)
    ensures Less(f, NewFileName(r.st, c, time))
  {
    assert r.time != "" && IsTime(time) && Issued(r, f);
    NextStampIsGreater(r, time);
    StampChain(Part(f, 0), LastStamp(r), Stamp(time, r.st.counter));
    StampIsStamp(time, r.st.counter);
    NamesByStamp(f, Stamp(time, r.st.counter), c.restMethod, c.ctype, c.name);
  }

  lemma NamesByStamp(f: string, stamp: string, restMethod: string, ctype: string, name: string)
    requires IsFileName(f) && IsStamp(Part(f, 0)) && IsStamp(stamp) && Part(f, 0) != stamp
    ensures Less(f, FileName(stamp, restMethod, ctype, name)) <==> Less(Part(f, 0), stamp)
  {
    var x := Part(f, 1) + "." + (Part(f, 2) + "." + (Part(f, 3) + "." + "conf"));
    var y := restMethod + "." + (ctype + "." + (name + "." + "conf"));
    NameOrder(Part(f, 0), x, stamp, y);
  }

  function TimeOf(op: Op): Option<string>
  {
    match op
    case StoreCommitted(_, time) => Some(time)
    case StoreCut(_, time) => Some(time)
    case ReplaceCommitted(_, time, _) => Some(time)
    case ReplaceCut(_, time, _) => Some(time)
    case _ => None
  }

  /** Names without dots, allowed times, and deletions that are cut where they fit. */
  ghost predicate Timed(r: Run, op: Op)
  {
    && WellFormed(r, op) && (TimeOf(op).Some? ==> AllowedTime(r, TimeOf(op).value))
    && (op.DeletionCut? ==> Fits(r, op))
  }

  lemma IssuedLater(r: Run, next: Run, f: string)
    requires Issued(r, f) && Less(LastStamp(r), LastStamp(next))
    ensures Issued(next, f)
  {
    if Part(f, 0) != LastStamp(r) { LessTransitive(Part(f, 0), LastStamp(r), LastStamp(next)); }
  }

  /** A step that gives a name, and perhaps stores a file under it. */
  lemma ClockStep(r: Run, next: Run, time: string)
    requires ClockInv(r) && AllowedTime(r, time)
    requires next.time == time && next.last == r.st.counter && next.st.counter == r.st.counter + 1
    requires forall f :: f in next.st.store && f !in r.st.store ==> IsStamp(Part(f, 0)) && Part(f, 0) == LastStamp(next)
    ensures ClockInv(next)
  {
    if r.time != "" { NextStampIsGreater(r, time); }
    forall f | f in next.st.store ensures Issued(next, f) {
      if f in r.st.store { IssuedLater(r, next, f); }
    }
  }

  lemma TimedNameFits(r: Run, c: Config, time: string)
    requires Inv(r) && ClockInv(r) && ValidConfig(c) && AllowedTime(r, time)
    ensures NameFits(r, c, time)
  {
    var key := (c.ctype, c.name);
    if key in r.committed {
      assert Holds(r.st.store, key, r.committed[key]);
      NextNameIsGreater(r, c, time, r.committed[key].file);
    }
  }

  /** At allowed times, every store fits. */
  lemma TimedStep(r: Run, op: Op)
    requires Inv(r) && ClockInv(r) && Timed(r, op)
    ensures Fits(r, op) && ClockInv(Step(r, op))
  {
    match op
    case StoreCommitted(c, time) => TimedStore(r, c, time);
    case StoreCut(c, time) => ClockStep(r, Step(r, op), time);
    case ReplaceCommitted(c, time, joins) => TimedReplace(r, c, time, joins);
    case ReplaceCut(c, time, _) => ClockStep(r, Step(r, op), time);
    case _ => FewerFiles(r, Step(r, op));
  }

  lemma TimedStore(r: Run, c: Config, time: string)
    requires Inv(r) && ClockInv(r) && ValidConfig(c) && AllowedTime(r, time)
    ensures NameFits(r, c, time) && ClockInv(Step(r, StoreCommitted(c, time)))
  {
    TimedNameFits(r, c, time);
    NewFileParts(r.st, c, time);
    StoredUnder(r, c, time);
    StampIsStamp(time, r.st.counter);
    ClockStep(r, Step(r, StoreCommitted(c, time)), time);
  }

  lemma TimedReplace(r: Run, c: Config, time: string, joins: bool)
    requires Inv(r) && ClockInv(r) && ValidConfig(c) && AllowedTime(r, time)
    ensures ClockInv(Step(r, ReplaceCommitted(c, time, joins)))
  {
    ReplacedUnder(r, c, time, joins);
    var key := (c.ctype, c.name);
    if key in r.committed { assert Holds(r.st.store, key, r.committed[key]); }
    ClockStep(r, Step(r, ReplaceCommitted(c, time, joins)), time);
  }

  lemma FewerFiles(r: Run, next: Run)
    requires ClockInv(r) && next.time == r.time && next.last == r.last
    requires next.st.counter == r.st.counter || next.st.counter == 0
    requires forall f :: f in next.st.store ==> f in r.st.store
    ensures ClockInv(next)
  {
    forall f | f in next.st.store ensures Issued(next, f) { assert Issued(r, f); }
  }

  ghost predicate TimedRun(r: Run, ops: seq<Op>)
    decreases ops
  {
    ops == [] || (Timed(r, ops[0]) && TimedRun(Step(r, ops[0]), ops[1..]))
  }

  /** Any run at allowed times can be recovered from. */
  lemma {:induction false} ClockKeepsOrder(r: Run, ops: seq<Op>)
    requires Inv(r) && ClockInv(r) && TimedRun(r, ops)
    ensures Runnable(r, ops) && ClockInv(RunOf(r, ops))
    decreases ops
  {
    if ops != [] {
      TimedStep(r, ops[0]);
      StepIsExact(r, ops[0]);
      ClockKeepsOrder(Step(r, ops[0]), ops[1..]);
    }
  }

  /** And the allowed times are exactly those: when a configuration has just been stored, perhaps before a restart,
      then storing it again under another stamp can be recovered from only at an allowed time. */
  lemma StoredAgain(r: Run, c: Config, time: string, restarted: bool, d: Config, again: string)
    requires Inv(r) && ClockInv(r) && ValidConfig(c) && AllowedTime(r, time)
    requires ValidConfig(d) && (d.ctype, d.name) == (c.ctype, c.name) && IsTime(again)
    ensures var s := Step(r, StoreCommitted(c, time));
            var t := if restarted then Step(s, Restarting) else s;
            && Inv(t) && ClockInv(t)
            && (Stamp(again, t.st.counter) != LastStamp(t) ==> (NameFits(t, d, again) <==> AllowedTime(t, again)))
  {
    hide Inv, ClockInv, Step, AllowedTime, NameFits;
    var s := Step(r, StoreCommitted(c, time));
    var t := if restarted then Step(s, Restarting) else s;
    JustStored(r, c, time);
    RestartKeeps(s);
    if Stamp(again, t.st.counter) != LastStamp(t) { NextToTheLast(t, d, again); }
  }

  lemma JustStored(r: Run, c: Config, time: string)
    requires Inv(r) && ClockInv(r) && ValidConfig(c) && AllowedTime(r, time)
    ensures var s := Step(r, StoreCommitted(c, time));
            && Inv(s) && ClockInv(s) && s.time != "" && (c.ctype, c.name) in s.committed
            && s.committed[(c.ctype, c.name)] == Record(NewFileName(r.st, c, time), c.content)
            && Part(s.committed[(c.ctype, c.name)].file, 0) == LastStamp(s)
  {
    hide Inv, ClockInv, Step, NameFits;
    TimedStore(r, c, time);
    StoreStep(r, c, time);
    NewFileParts(r.st, c, time);
    StoredUnder(r, c, time);
  }

  lemma RestartKeeps(r: Run)
    requires Inv(r) && ClockInv(r)
    ensures Inv(Step(r, Restarting)) && ClockInv(Step(r, Restarting))
    ensures Step(r, Restarting).committed == r.committed && Step(r, Restarting).time == r.time
    ensures LastStamp(Step(r, Restarting)) == LastStamp(r) && Step(r, Restarting).st.counter == 0
  {
    QuietStep(r, Restarting);
    FewerFiles(r, Step(r, Restarting));
  }

  /** The name behind the last one, for the same configuration. */
  lemma NextToTheLast(r: Run, d: Config, again: string)
    requires Inv(r) && ClockInv(r) && ValidConfig(d) && IsTime(again)
    requires LastHolds(r, (d.ctype, d.name)) && Stamp(again, r.st.counter) != LastStamp(r)
    ensures NameFits(r, d, again) <==> AllowedTime(r, again)
  {
    var f := r.committed[(d.ctype, d.name)].file;
    assert Holds(r.st.store, (d.ctype, d.name), r.committed[(d.ctype, d.name)]);
    NextStampIsGreater(r, again);
    StampIsStamp(r.time, r.last);
    StampIsStamp(again, r.st.counter);
    NewFileParts(r.st, d, again);
    NamesByStamp(f, Stamp(again, r.st.counter), d.restMethod, d.ctype, d.name);
  }

  function Repeated(op: Op, n: nat): seq<Op> { seq(n, _ => op) }

  lemma {:induction false} RunConcat(r: Run, a: seq<Op>, b: seq<Op>)
    ensures RunOf(r, a + b) == RunOf(RunOf(r, a), b)
    decreases a
  {
    if a == [] {
      assert a + b == b;
    } else {
      assert (a + b)[1..] == a[1..] + b;
      RunConcat(Step(r, a[0]), a[1..], b);
    }
  }

  /** The last name given is the one that holds a configuration. */
  ghost predicate LastHolds(r: Run, key: Key)
  {
    r.time != "" && key in r.committed && Part(r.committed[key].file, 0) == LastStamp(r)
  }

  /** Storing a configuration again and again within a second. */
  lemma {:induction false} StoredOften(c: Config, time: string, n: nat)
    requires ValidConfig(c) && IsTime(time) && 1 <= n <= 1000
    ensures var r := RunOf(START, Repeated(StoreCommitted(c, time), n));
            && Inv(r) && ClockInv(r) && r.st.counter == n && r.time == time && LastHolds(r, (c.ctype, c.name))
    decreases n
  {
    hide Inv, Step, LastHolds, Allowed;
    var op := StoreCommitted(c, time);
    var before := RunOf(START, Repeated(op, n - 1));
    assert Repeated(op, n) == Repeated(op, n - 1) + [op];
    RunConcat(START, Repeated(op, n - 1), [op]);
    assert RunOf(before, [op]) == Step(before, op) by { assert [op][1..] == []; }
    if n > 1 {
      StoredOften(c, time, n - 1);
      SameWidth(n - 1);
    } else {
      EmptyStore();
    }
    JustStored(before, c, time);
    LaterCounter(before, c, time);
  }

  lemma EmptyStore()
    ensures Inv(START) && ClockInv(START)
  {
  }

  lemma LaterCounter(r: Run, c: Config, time: string)
    requires ValidConfig(c) && IsTime(time)
    requires var s := Step(r, StoreCommitted(c, time));
             (c.ctype, c.name) in s.committed && Part(s.committed[(c.ctype, c.name)].file, 0) == LastStamp(s)
    ensures var s := Step(r, StoreCommitted(c, time));
            s.time == time && s.st.counter == r.st.counter + 1 && LastHolds(s, (c.ctype, c.name))
  {
    StoredUnder(r, c, time);
  }

  lemma SameWidth(n: nat)
    requires 1 <= n < 1000
    ensures Width(n) == Width(n - 1)
  {
    NextCounter(n - 1);
    PaddedDigits(n - 1);
    Pow10Grows(3, Width(n - 1));
    assert Pow10(3) == 1000;
  }

  /** The counter is never reset: the thousand and first store within a second is lost. */
  lemma CounterOverflow(c: Config, d: Config, time: string, picked: seq<string>)
    requires ValidConfig(c) && ValidConfig(d) && (d.ctype, d.name) == (c.ctype, c.name) && IsTime(time)
    requires var ops := Repeated(StoreCommitted(c, time), 1000) + [StoreCommitted(d, time)];
             Recovered(RunOf(START, ops).st.store, picked)
    ensures var r := RunOf(START, Repeated(StoreCommitted(c, time), 1000));
            && NewFileName(r.st, d, time) !in picked
            && (c.ctype, c.name) in r.committed && r.committed[(c.ctype, c.name)].file in picked
  {
    hide Inv, ClockInv, Recovered, Step, NameFits;
    var ops := Repeated(StoreCommitted(c, time), 1000);
    var r, op := RunOf(START, ops), StoreCommitted(d, time);
    RunConcat(START, ops, [op]);
    assert RunOf(r, [op]) == Step(r, op) by { assert [op][1..] == []; }
    StoredOften(c, time, 1000);
    OverflowLoses(r, d, time);
    StaleIsLoaded(r, d, time, picked);
  }

  lemma OverflowLoses(r: Run, d: Config, time: string)
    requires Inv(r) && ClockInv(r) && ValidConfig(d) && IsTime(time) && r.time == time && r.st.counter == 1000
    requires LastHolds(r, (d.ctype, d.name))
    ensures !NameFits(r, d, time)
  {
    assert r.last == 999;
    hide Inv, ClockInv, NameFits;
    WiderAtThousand(time);
    NextToTheLast(r, d, time);
    LessIrreflexive(time);
  }

  lemma WiderAtThousand(time: string)
    ensures Width(1000) != Width(999) && Stamp(time, 1000) != Stamp(time, 999)
  {
    PaddedDigits(999);
    PaddedDigits(1000);
    assert Pow10(3) == 1000;
    assert |Stamp(time, 999)| == |time| + 1 + Width(999) && |Stamp(time, 1000)| == |time| + 1 + Width(1000);
  }

  /** A process that starts in the second of the last store loses a store of the same configuration, too. */
  lemma RestartedTooSoon(c: Config, d: Config, time: string, n: nat, picked: seq<string>)
    requires ValidConfig(c) && ValidConfig(d) && (d.ctype, d.name) == (c.ctype, c.name) && IsTime(time)
    requires 2 <= n <= 1000
    requires var t := Step(RunOf(START, Repeated(StoreCommitted(c, time), n)), Restarting);
             Recovered(Step(t, StoreCommitted(d, time)).st.store, picked)
    ensures var t := Step(RunOf(START, Repeated(StoreCommitted(c, time), n)), Restarting);
            && NewFileName(t.st, d, time) !in picked
            && (c.ctype, c.name) in t.committed && t.committed[(c.ctype, c.name)].file in picked
  {
    hide Inv, ClockInv, Recovered, Step, NameFits;
    var r := RunOf(START, Repeated(StoreCommitted(c, time), n));
    StoredOften(c, time, n);
    RestartKeeps(r);
    RestartLoses(r, d, time);
    StaleIsLoaded(Step(r, Restarting), d, time, picked);
  }

  lemma RestartLoses(r: Run, d: Config, time: string)
    requires Inv(r) && ClockInv(r) && ValidConfig(d) && IsTime(time) && r.time == time && r.st.counter > 1
    requires LastHolds(r, (d.ctype, d.name))
    ensures !NameFits(Step(r, Restarting), d, time)
  {
    assert r.st.counter == r.last + 1;
    hide Inv, ClockInv, NameFits, Step;
    RestartKeeps(r);
    FirstStampIsLeast(time, r.last);
    NextToTheLast(Step(r, Restarting), d, time);
    LessIrreflexive(time);
  }

  lemma FirstStampIsLeast(time: string, n: nat)
    requires 1 <= n
    ensures Stamp(time, 0) != Stamp(time, n)
  {
    PaddedDigits(n);
    PaddedDigits(0);
    if Width(n) == 3 { DigitsOrder(0, n, 3); }
    var s, t := Stamp(time, 0), Stamp(time, n);
    assert |s| == |time| + 1 + Width(0) && |t| == |time| + 1 + Width(n);
    assert s[|time| + 1..] == Padded(0) && t[|time| + 1..] == Padded(n);
    assert Pow10(3) == 1000;
    assert Width(0) == 3;
  }

  // ---- names with dots ----

  ghost predicate DotsInNameOnly(c: Config) { DotFree(c.restMethod) && DotFree(c.ctype) }

  function FileOf(stamp: string, c: Config): string { FileName(stamp, c.restMethod, c.ctype, c.name) }

  /** A configuration is loaded under what is in front of the first dot of its name: under its own name exactly if
      it has no dot. */
  lemma LoadedName(stamp: string, c: Config)
    requires DotFree(stamp) && DotsInNameOnly(c)
    ensures var f := FileOf(stamp, c);
            && Describe(map[f := c.content], f) == Config(c.ctype, FirstField(c.name), c.restMethod, c.content)
            && (KeyOf(f) == (c.ctype, c.name) <==> DotFree(c.name))
  {
    NameIsCut(stamp, c.restMethod, c.ctype, c.name);
  }

  /** Of two files with one key, the greater one is loaded, and a purge removes the other one. */
  lemma GreaterOfTwo(files: Files, f: string, g: string, picked: seq<string>)
    requires files.Keys == {f, g} && Less(f, g) && EndsWith(f, ".conf") && EndsWith(g, ".conf")
    requires Recovered(files, picked)
    ensures g in picked && (f in picked <==> KeyOf(f) != KeyOf(g)) && (f in Obsolete(files) <==> KeyOf(f) == KeyOf(g))
    ensures g !in Obsolete(files)
  {
    LessTrichotomy(f, g);
    assert Newest(files, f) <==> KeyOf(f) != KeyOf(g);
    assert Newest(files, g);
  }

  /** Two different configurations are both loaded, and both survive a purge, exactly if their types or their names
      in front of the first dot differ. */
  lemma TwoConfigurations(c: Config, d: Config, time: string, picked: seq<string>)
    requires DotsInNameOnly(c) && DotsInNameOnly(d) && (c.ctype, c.name) != (d.ctype, d.name) && IsTime(time)
    requires Recovered(RunOf(START, [StoreCommitted(c, time), StoreCommitted(d, time)]).st.store, picked)
    ensures var st := RunOf(START, [StoreCommitted(c, time), StoreCommitted(d, time)]).st;
            var f, g := FileOf(Stamp(time, 0), c), FileOf(Stamp(time, 1), d);
            && st.store.Keys == {f, g} && Less(f, g) && g in picked && g in Purge(st).store
            && (f in picked <==> f in Purge(st).store)
            && (f in picked <==> (c.ctype, FirstField(c.name)) != (d.ctype, FirstField(d.name)))
            && Describe(st.store, g) == Config(d.ctype, FirstField(d.name), d.restMethod, d.content)
  {
    hide Obsolete, Recovered, IsTime;
    var ops := [StoreCommitted(c, time), StoreCommitted(d, time)];
    var f, g := FileOf(Stamp(time, 0), c), FileOf(Stamp(time, 1), d);
    var st := RunOf(START, ops).st;
    FirstAndSecond(c, d, time);
    StampIsStamp(time, 0);
    StampIsStamp(time, 1);
    NameIsCut(Stamp(time, 0), c.restMethod, c.ctype, c.name);
    NameIsCut(Stamp(time, 1), d.restMethod, d.ctype, d.name);
    FileNameEnd(Stamp(time, 0), c.restMethod, c.ctype, c.name);
    FileNameEnd(Stamp(time, 1), d.restMethod, d.ctype, d.name);
    GreaterOfTwo(st.store, f, g, picked);
  }

  lemma FirstAndSecond(c: Config, d: Config, time: string)
    requires IsTime(time)
    ensures var f, g := FileOf(Stamp(time, 0), c), FileOf(Stamp(time, 1), d);
            && Less(f, g) && f != g
            && RunOf(START, [StoreCommitted(c, time), StoreCommitted(d, time)]).st.store
                 == map[f := c.content, g := d.content]
  {
    var f, g := FileOf(Stamp(time, 0), c), FileOf(Stamp(time, 1), d);
    StampOrder(time, 0, time, 1);
    LessIrreflexive(time);
    NextCounter(0);
    SameWidth(1);
    StampIsStamp(time, 0);
    StampIsStamp(time, 1);
    FirstStampIsLeast(time, 1);
    NameOrder(Stamp(time, 0), c.restMethod + "." + (c.ctype + "." + (c.name + "." + "conf")),
              Stamp(time, 1), d.restMethod + "." + (d.ctype + "." + (d.name + "." + "conf")));
    LessIrreflexive(f);
    var a, b := StoreCommitted(c, time), StoreCommitted(d, time);
    TwoSteps(START, a, b);
    StoredAny(START, c, time);
    StoredAny(Step(START, a), d, time);
    assert map[][f := c.content][g := d.content] == map[f := c.content, g := d.content];
  }

  lemma TwoSteps(r: Run, a: Op, b: Op)
    ensures RunOf(r, [a, b]) == Step(Step(r, a), b)
  {
    assert [a, b][1..] == [b] && [b][1..] == [];
    assert RunOf(Step(r, a), [b]) == RunOf(Step(Step(r, a), b), []);
  }

  lemma StoredAny(r: Run, c: Config, time: string)
    ensures var next := Step(r, StoreCommitted(c, time));
            next.st.store == r.st.store[FileOf(Stamp(time, r.st.counter), c) := c.content]
            && next.st.counter == r.st.counter + 1
  {
    assert FileOf(Stamp(time, r.st.counter), c) != "";
  }

  /** Exactly which configurations lose their files when another one is deleted. */
  lemma DeletionHits(st: State, stamp: string, c: Config, ctype: string, name: string)
    requires DotFree(stamp) && DotsInNameOnly(c) && DotFree(ctype) && FileOf(stamp, c) in st.store
    ensures FileOf(stamp, c) in Delete(st, ctype, name).store <==> !Hit(c.restMethod, c.ctype, c.name, ctype, name)
  {
    EndingHits(stamp, c.restMethod, c.ctype, c.name, ctype, name);
  }

  /** With dots in its name, a configuration is lost when another one is deleted. */
  lemma DottedNameIsHit(st: State, stamp: string, restMethod: string, ctype: string, a: string, b: string)
    requires FileName(stamp, restMethod, ctype, a + "." + b) in st.store
    ensures FileName(stamp, restMethod, ctype, a + "." + b) !in Delete(st, a, b).store
  {
    var f, ext := FileName(stamp, restMethod, ctype, a + "." + b), Extension(a, b);
    assert f == stamp + "." + restMethod + "." + ctype + ext;
    EndsWithLast(stamp + "." + restMethod + "." + ctype, ext);
  }
}
