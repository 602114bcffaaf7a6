module ConfigurationHandler {

  // The configuration handler as it runs: a directory of files is listed, sorted and scanned.

  import opened Wrappers
  import opened ConfigurationNames
  import opened ConfigurationStore

  predicate Descending(fs: seq<string>) { forall i, j :: 0 <= i < j < |fs| ==> Less(fs[j], fs[i]) }

  predicate Distinct(fs: seq<string>) { forall i, j :: 0 <= i < j < |fs| ==> fs[i] != fs[j] }

  /** The names in a directory with some ending, in whatever order the directory has them. */
  method ReadDirFiles(files: Files, ext: string) returns (names: seq<string>)
    ensures Distinct(names) && forall f :: f in names <==> f in WithEnding(files, ext)
  {
    names := [];
    var left := files.Keys;
    while left != {}
      invariant left <= files.Keys && Distinct(names)
      invariant forall f :: f in names <==> f in WithEnding(files, ext) && f !in left
      decreases |left|
    {
      var f :| f in left;
      if EndsWith(f, ext) { names := names + [f]; }
      left := left - {f};
    }
  }

  method SortDescending(names: seq<string>) returns (sorted: seq<string>)
    requires Distinct(names)
    ensures Descending(sorted) && forall f :: f in sorted <==> f in names
  {
    sorted := [];
    var i := 0;
    while i < |names|
      invariant 0 <= i <= |names| && Descending(sorted)
      invariant forall f :: f in sorted <==> f in names[..i]
    {
      var at := 0;
      while at < |sorted| && Less(names[i], sorted[at])
        invariant 0 <= at <= |sorted| && forall k :: 0 <= k < at ==> Less(names[i], sorted[k])
      {
        at := at + 1;
      }
      assert names[i] !in names[..i];
      InsertDescending(sorted, at, names[i]);
      sorted := sorted[..at] + [names[i]] + sorted[at..];
      i := i + 1;
    }
  }

  lemma InsertDescending(sorted: seq<string>, at: nat, f: string)
    requires Descending(sorted) && at <= |sorted| && f !in sorted
    requires forall k :: 0 <= k < at ==> Less(f, sorted[k])
    requires at < |sorted| ==> !Less(f, sorted[at])
    ensures Descending(sorted[..at] + [f] + sorted[at..])
    ensures forall g :: g in sorted[..at] + [f] + sorted[at..] <==> g == f || g in sorted
  {
    assert sorted[..at] + sorted[at..] == sorted;
    forall k | at <= k < |sorted| ensures Less(sorted[k], f) {
      LessTrichotomy(f, sorted[at]);
      if k > at { LessTransitive(sorted[k], sorted[at], f); }
    }
  }

  // ---- loading ----

  ghost predicate KeysOf(names: seq<string>, ci: nat, items: set<Key>)
    requires ci <= |names|
  {
    forall key :: key in items <==> exists i :: 0 <= i < ci && KeyOf(names[i]) == key
  }

  ghost predicate Picked(files: Files, names: seq<string>, ci: nat, picked: seq<string>)
    requires ci <= |names|
  {
    Descending(picked) && forall f :: f in picked <==> f in names[..ci] && Newest(files, f)
  }

  /** Scanning the names downwards: `picked` are the ones taken from the first `ci`, `items` their keys. */
  ghost predicate Scanned(files: Files, names: seq<string>, ci: nat, items: set<Key>, picked: seq<string>)
    requires ci <= |names|
  {
    KeysOf(names, ci, items) && Picked(files, names, ci, picked)
  }

  /** The files of a directory in descending order. */
  ghost predicate Listed(files: Files, names: seq<string>)
  {
    Descending(names) && forall f :: f in names <==> f in files && EndsWith(f, ".conf")
  }

  /** A name is the newest of its configuration if none of that configuration came before it. */
  lemma FirstIsNewest(files: Files, names: seq<string>, ci: nat)
    requires Listed(files, names) && ci < |names|
    ensures Newest(files, names[ci]) <==> forall i :: 0 <= i < ci ==> KeyOf(names[i]) != KeyOf(names[ci])
  {
    var f := names[ci];
    if Newest(files, f) {
      forall i | 0 <= i < ci ensures KeyOf(names[i]) != KeyOf(f) {
        assert names[i] in names;
        LessTrichotomy(names[i], f);
      }
    }
    if forall i :: 0 <= i < ci ==> KeyOf(names[i]) != KeyOf(f) {
      forall g | g in files && EndsWith(g, ".conf") && KeyOf(g) == KeyOf(f) ensures g == f || Less(g, f) {
        assert g in names;
        var j :| 0 <= j < |names| && names[j] == g;
      }
    }
  }

  lemma KeysStep(names: seq<string>, ci: nat, items: set<Key>)
    requires ci < |names| && KeysOf(names, ci, items)
    ensures KeysOf(names, ci + 1, items + {KeyOf(names[ci])})
    ensures KeyOf(names[ci]) in items ==> items + {KeyOf(names[ci])} == items
  {
    var f := names[ci];
    forall key | key in items + {KeyOf(f)} ensures exists i :: 0 <= i < ci + 1 && KeyOf(names[i]) == key {
      if key == KeyOf(f) { assert KeyOf(names[ci]) == key; }
    }
  }

  lemma PickStep(files: Files, names: seq<string>, ci: nat, picked: seq<string>)
    requires Listed(files, names) && ci < |names| && Picked(files, names, ci, picked)
    ensures Picked(files, names, ci + 1, if Newest(files, names[ci]) then picked + [names[ci]] else picked)
  {
    var f := names[ci];
    assert names[..ci + 1] == names[..ci] + [f];
    forall i | 0 <= i < |picked| ensures Less(f, picked[i]) {
      assert picked[i] in picked;
      var j :| 0 <= j < ci && names[j] == picked[i];
    }
  }

  lemma ScanStep(files: Files, names: seq<string>, ci: nat, items: set<Key>, picked: seq<string>)
    requires Listed(files, names) && ci < |names| && Scanned(files, names, ci, items, picked)
    ensures var f := names[ci];
            && (KeyOf(f) in items <==> !Newest(files, f))
            && Scanned(files, names, ci + 1, items + {KeyOf(f)}, if KeyOf(f) in items then picked else picked + [f])
            && (KeyOf(f) in items ==> items + {KeyOf(f)} == items)
  {
    FirstIsNewest(files, names, ci);
    KeysStep(names, ci, items);
    PickStep(files, names, ci, picked);
  }

  function Reversed<T>(s: seq<T>): (r: seq<T>)
    ensures |r| == |s| && forall i :: 0 <= i < |s| ==> r[i] == s[|s| - 1 - i]
  {
    seq(|s|, i requires 0 <= i < |s| => s[|s| - 1 - i])
  }

  /** A sequence of which the outer n elements on both sides have been swapped. */
  function Swapped<T>(s: seq<T>, n: nat): (r: seq<T>)
    ensures |r| == |s|
    ensures forall i :: 0 <= i < |s| ==> r[i] == if i < n || |s| - 1 - i < n then s[|s| - 1 - i] else s[i]
  {
    seq(|s|, i requires 0 <= i < |s| => if i < n || |s| - 1 - i < n then s[|s| - 1 - i] else s[i])
  }

  lemma SwapStep<T>(s: seq<T>, n: nat)
    requires n < |s| - 1 - n
    ensures Swapped(s, n)[n := s[|s| - 1 - n]][|s| - 1 - n := s[n]] == Swapped(s, n + 1)
    ensures Swapped(s, n)[n] == s[n] && Swapped(s, n)[|s| - 1 - n] == s[|s| - 1 - n]
  {
  }

  method Reverse(s: seq<Config>) returns (r: seq<Config>)
    ensures r == Reversed(s)
  {
    r := s;
    var lo, hi := 0, |s|;
    assert s == Swapped(s, 0);
    while lo + 1 < hi
      invariant lo <= hi && lo + hi == |s| && r == Swapped(s, lo)
    {
      SwapStep(s, lo);
      var first := r[lo];
      r := r[lo := r[hi - 1]];
      r := r[hi - 1 := first];
      lo, hi := lo + 1, hi - 1;
    }
    assert Swapped(s, lo) == Reversed(s);
  }

  lemma ScanEnd(files: Files, names: seq<string>, items: set<Key>, picked: seq<string>)
    requires Listed(files, names) && Scanned(files, names, |names|, items, picked)
    ensures Recovered(files, Reversed(picked))
  {
    assert names[..|names|] == names;
    var r := Reversed(picked);
    forall f ensures f in r <==> f in picked {
      if f in picked {
        var i :| 0 <= i < |picked| && picked[i] == f;
        assert r[|picked| - 1 - i] == f;
      }
    }
  }

  /** A restriction of the files that drops the obsolete ones among the first `ci` names. */
  ghost function Dropped(files: Files, names: seq<string>, ci: nat): Files
    requires ci <= |names|
  {
    files - (set f | f in files && f in names[..ci] && !Newest(files, f))
  }

  lemma DropStep(files: Files, names: seq<string>, ci: nat)
    requires Listed(files, names) && ci < |names|
    ensures names[ci] in Dropped(files, names, ci)
    ensures Dropped(files, names, ci + 1)
         == if Newest(files, names[ci]) then Dropped(files, names, ci) else Dropped(files, names, ci) - {names[ci]}
  {
    var f := names[ci];
    assert names[..ci + 1] == names[..ci] + [f];
    assert f !in names[..ci] by {
      forall i | 0 <= i < ci ensures names[i] != f { LessIrreflexive(f); }
    }
    assert f in names;
  }

  lemma DropEnd(files: Files, names: seq<string>)
    requires Listed(files, names)
    ensures Dropped(files, names, |names|) == files - Obsolete(files)
  {
    assert names[..|names|] == names;
    assert (set f | f in files && f in names[..|names|] && !Newest(files, f)) == Obsolete(files);
  }

  ghost predicate Described(files: Files, picked: seq<string>, rt: seq<Config>)
  {
    (forall f :: f in picked ==> f in files) && rt == Descriptions(files, picked)
  }

  lemma DescribeMore(files: Files, picked: seq<string>, rt: seq<Config>, f: string)
    requires f in files && Described(files, picked, rt)
    ensures Described(files, picked + [f], rt + [Describe(files, f)])
  {
  }

  lemma DescribeReversed(files: Files, picked: seq<string>, rt: seq<Config>)
    requires Described(files, picked, rt)
    ensures Described(files, Reversed(picked), Reversed(rt))
  {
    forall i | 0 <= i < |picked| ensures Reversed(picked)[i] in files { assert picked[|picked| - 1 - i] in picked; }
  }

  // ---- temporary names ----

  /** The name in a buffer of 64 characters. */
  function Numbered(prefix: string, idx: nat): string
  {
    var s := prefix + Decimal(idx);
    if |s| < 64 then s else s[..63]
  }

  lemma {:induction false} DecimalInjective(i: nat, j: nat)
    requires Decimal(i) == Decimal(j)
    ensures i == j
  {
    var s, t := Decimal(i), Decimal(j);
    assert s[|s| - 1] == Digit(i % 10) && t[|t| - 1] == Digit(j % 10);
    if i >= 10 && j >= 10 {
      assert Decimal(i / 10) == s[..|s| - 1] && Decimal(j / 10) == t[..|t| - 1];
      DecimalInjective(i / 10, j / 10);
    } else {
      DecimalNonEmpty(i / 10);
      DecimalNonEmpty(j / 10);
    }
  }

  lemma DecimalNonEmpty(i: nat)
    ensures |Decimal(i)| >= 1
  {
  }

  lemma {:induction false} DecimalLength(n: nat, digits: nat)
    requires n < Pow10(digits) && digits >= 1
    ensures |Decimal(n)| <= digits
    decreases digits
  {
    if n >= 10 { DecimalLength(n / 10, digits - 1); }
  }

  /** The beginning of a number is a smaller number. */
  lemma {:induction false} DecimalPrefix(n: nat, w: nat) returns (k: nat)
    requires 1 <= n && 1 <= w <= |Decimal(n)|
    ensures 1 <= k <= n && Decimal(n)[..w] == Decimal(k) && |Decimal(k)| == w && (w < |Decimal(n)| ==> k < n)
    decreases n
  {
    if w == |Decimal(n)| {
      k := n;
    } else {
      assert Decimal(n)[..w] == Decimal(n / 10)[..w];
      k := DecimalPrefix(n / 10, w);
    }
  }

  /** How many digits fit behind the prefix. */
  function Room(prefix: string): nat { if |prefix| < 63 then 63 - |prefix| else 0 }

  /** The name of a number is the prefix with the digits that fit: these are the number or the beginning of it. */
  lemma NumberedIsCut(prefix: string, idx: nat) returns (k: nat)
    requires 1 <= idx && |prefix| <= 62
    ensures 1 <= k <= idx && |Decimal(k)| <= Room(prefix) && Numbered(prefix, idx) == prefix + Decimal(k)
    ensures k == idx <==> |Decimal(idx)| <= Room(prefix)
  {
    var s, w := prefix + Decimal(idx), Room(prefix);
    if |Decimal(idx)| <= w {
      k := idx;
    } else {
      k := DecimalPrefix(idx, w);
      assert s[..63] == prefix + Decimal(idx)[..w];
    }
  }

  const INT_MAX := 0x7fff_ffff

  /** A number whose name is not used. */
  ghost predicate IsFree(names: map<Key, bool>, ctype: string, prefix: string, idx: int)
  {
    1 <= idx <= INT_MAX && (ctype, Numbered(prefix, idx)) !in names
  }

  ghost predicate HasFree(names: map<Key, bool>, ctype: string, prefix: string)
  {
    exists idx :: IsFree(names, ctype, prefix, idx)
  }

  /** A number that fits behind the prefix and whose name is not used. */
  ghost predicate FitsFree(names: map<Key, bool>, ctype: string, prefix: string, idx: int)
  {
    1 <= idx <= INT_MAX && |Decimal(idx)| <= Room(prefix) && (ctype, prefix + Decimal(idx)) !in names
  }

  /** Exactly when the search for a name ends: one of the numbers that fit behind the prefix is not used, or, if the
      prefix leaves no room for a number, the only name is not used. */
  lemma SearchEndsExactly(names: map<Key, bool>, ctype: string, prefix: string)
    ensures |prefix| <= 62 ==>
      (HasFree(names, ctype, prefix) <==> exists idx :: FitsFree(names, ctype, prefix, idx))
    ensures |prefix| >= 63 ==> (HasFree(names, ctype, prefix) <==> (ctype, prefix[..63]) !in names)
  {
    if |prefix| <= 62 {
      if idx :| IsFree(names, ctype, prefix, idx) {
        var k := NumberedIsCut(prefix, idx);
        assert FitsFree(names, ctype, prefix, k);
      }
      if idx :| FitsFree(names, ctype, prefix, idx) {
        var k := NumberedIsCut(prefix, idx);
        assert IsFree(names, ctype, prefix, idx);
      }
    } else {
      OneName(prefix);
      assert IsFree(names, ctype, prefix, 1) <==> (ctype, prefix[..63]) !in names;
    }
  }

  lemma OneName(prefix: string)
    requires |prefix| >= 63
    ensures forall idx: nat :: Numbered(prefix, idx) == prefix[..63]
  {
    forall idx: nat ensures Numbered(prefix, idx) == prefix[..63] {
      DecimalNonEmpty(idx);
      assert (prefix + Decimal(idx))[..63] == prefix[..63];
    }
  }

  /** The smallest number with a free name is not cut off. */
  lemma SmallestIsWhole(names: map<Key, bool>, ctype: string, prefix: string, idx: nat)
    requires |prefix| <= 62 && IsFree(names, ctype, prefix, idx)
    requires forall k :: 1 <= k < idx ==> !IsFree(names, ctype, prefix, k)
    ensures FitsFree(names, ctype, prefix, idx) && Numbered(prefix, idx) == prefix + Decimal(idx)
  {
    var k := NumberedIsCut(prefix, idx);
    if k < idx {
      var same := NumberedIsCut(prefix, k);
      assert IsFree(names, ctype, prefix, k);
    }
  }

  /** The name with the smallest number that is not used: the whole number, if there is room for it. */
  ghost predicate IsSmallestFree(names: map<Key, bool>, ctype: string, prefix: string, idx: int, name: string)
  {
    && IsFree(names, ctype, prefix, idx) && (forall k :: 1 <= k < idx ==> !IsFree(names, ctype, prefix, k))
    && name == if |prefix| <= 62 then prefix + Decimal(idx) else prefix[..63]
  }

  ghost function NamesOf(names: map<Key, bool>, ctype: string): set<Key>
  {
    set key | key in names && key.0 == ctype
  }

  ghost predicate IsNumbered(ctype: string, prefix: string, n: nat, key: Key)
  {
    exists k: nat :: 1 <= k <= n && key == (ctype, prefix + Decimal(k))
  }

  /** The used names among those of the first n numbers. */
  lemma {:induction false} UsedNumbers(names: map<Key, bool>, ctype: string, prefix: string, n: nat)
    returns (used: set<Key>)
    requires n <= INT_MAX && n < Pow10(Room(prefix)) && forall k :: 1 <= k <= n ==> !IsFree(names, ctype, prefix, k)
    ensures used <= NamesOf(names, ctype) && |used| == n
    ensures forall key :: key in used ==> IsNumbered(ctype, prefix, n, key)
  {
    if n == 0 {
      used := {};
    } else {
      var less := UsedNumbers(names, ctype, prefix, n - 1);
      var key := (ctype, prefix + Decimal(n));
      DecimalLength(n, Room(prefix));
      assert !IsFree(names, ctype, prefix, n);
      if key in less {
        assert IsNumbered(ctype, prefix, n - 1, key);
        var k: nat :| 1 <= k <= n - 1 && key == (ctype, prefix + Decimal(k));
        assert Decimal(k) == key.1[|prefix|..] == Decimal(n);
        DecimalInjective(n, k);
      }
      used := less + {key};
      forall other | other in used ensures IsNumbered(ctype, prefix, n, other) {
        if other in less { assert IsNumbered(ctype, prefix, n - 1, other); }
      }
    }
  }

  /** With fewer names of the type than numbers that fit, the search ends within one more step than there are names. */
  lemma FewNamesLeaveANumber(names: map<Key, bool>, ctype: string, prefix: string)
    requires |NamesOf(names, ctype)| < INT_MAX && |NamesOf(names, ctype)| + 1 < Pow10(Room(prefix))
    ensures exists idx :: 1 <= idx <= |NamesOf(names, ctype)| + 1 && IsFree(names, ctype, prefix, idx)
  {
    var n := |NamesOf(names, ctype)| + 1;
    if forall idx :: 1 <= idx <= n ==> !IsFree(names, ctype, prefix, idx) {
      var used := UsedNumbers(names, ctype, prefix, n);
      SubsetSize(used, NamesOf(names, ctype));
    }
  }

  /** The program passes the empty prefix only: then less than all names of the int range always leave one. */
  lemma EmptyPrefixHasNumber(names: map<Key, bool>, ctype: string)
    requires |NamesOf(names, ctype)| < INT_MAX
    ensures exists idx :: 1 <= idx <= |NamesOf(names, ctype)| + 1 && IsFree(names, ctype, "", idx)
  {
    assert Pow10(3) == 1000;
    assert Pow10(6) == 1000000;
    assert Pow10(9) == 1000000000;
    assert Pow10(10) == 10000000000;
    Pow10Grows(10, 63);
    FewNamesLeaveANumber(names, ctype, "");
  }

  function FirstNames(ctype: string, prefix: string, n: nat): map<Key, bool>
  {
    if n == 0 then map[] else FirstNames(ctype, prefix, n - 1)[(ctype, prefix + Decimal(n)) := false]
  }

  lemma {:induction false} FirstAreUsed(ctype: string, prefix: string, n: nat, k: nat)
    requires 1 <= k <= n
    ensures (ctype, prefix + Decimal(k)) in FirstNames(ctype, prefix, n)
    decreases n
  {
    if k < n { FirstAreUsed(ctype, prefix, n - 1, k); }
  }

  /** Two inputs on which the search fails: a prefix that leaves room for one digit, with nine names, and one that
      leaves no room, with one name. */
  lemma NoNumberLeft(ctype: string, prefix: string)
    ensures |prefix| == 62 ==> !HasFree(FirstNames(ctype, prefix, 9), ctype, prefix)
    ensures |prefix| >= 63 ==> !HasFree(map[(ctype, prefix[..63]) := false], ctype, prefix)
  {
    if |prefix| == 62 {
      var nine := FirstNames(ctype, prefix, 9);
      SearchEndsExactly(nine, ctype, prefix);
      forall idx ensures !FitsFree(nine, ctype, prefix, idx) {
        if 10 <= idx { DecimalNonEmpty(idx / 10); } else if 1 <= idx { FirstAreUsed(ctype, prefix, 9, idx); }
      }
    } else if |prefix| >= 63 {
      SearchEndsExactly(map[(ctype, prefix[..63]) := false], ctype, prefix);
    }
  }

  class Handler {
    var store: Files
    var work: Files
    var lastTimeStamp: string
    var counter: nat
    var names: map<Key, bool>

    ghost function Model(): State
      reads this
    {
      State(store, work, counter, names)
    }

    /** The time stamp that the counter belongs to is compared but never recorded. */
    ghost predicate Valid()
      reads this
    {
      lastTimeStamp == ""
    }

    constructor (store: Files, work: Files)
      ensures Valid() && Model() == State(store, work, 0, map[])
    {
      this.store := store;
      this.work := work;
      lastTimeStamp := "";
      counter := 0;
      names := map[];
    }

    method NewConfigStorageFilename(config: Config, time: string) returns (file: string)
      modifies `lastTimeStamp, `counter
      ensures lastTimeStamp == old(lastTimeStamp)
      ensures var from := if old(lastTimeStamp) == time then 0 else old(counter);
              file == NewFileName(old(Model()).(counter := from), config, time) && counter == from + 1
    {
      if lastTimeStamp == time {
        counter := 0;
        lastTimeStamp := time;
      }
      file := FileName(Stamp(time, counter), config.restMethod, config.ctype, config.name);
      counter := counter + 1;
    }

    method StoreConfiguration(config: Config, time: string) returns (tx: Transaction)
      requires Valid() && time != ""
      modifies this
      ensures Valid() && (Model(), tx) == Store(old(Model()), config, time)
    {
      var file := NewConfigStorageFilename(config, time);
      work := work[file + ".failed" := config.content];
      tx := Transaction(config.ctype, config.name, file + ".failed", file);
    }

    /** `joins` tells whether the empty name of a file can be joined to the directory. */
    method StoreConfigurationReplace(config: Config, time: string, joins: bool) returns (tx: Option<Transaction>)
      requires Valid() && time != ""
      modifies this
      ensures Valid() && (Model(), tx) == StoreReplace(old(Model()), config, time, joins)
    {
      var file := GetStoredConfigurationFile(config.ctype, config.name);
      var next := NewConfigStorageFilename(config, time);
      if file == "" && !joins { return None; }
      work := work[next + ".failed" := config.content];
      tx := Some(Transaction(config.ctype, config.name, next + ".failed", file));
    }

    method CommitStoreConfiguration(tx: Transaction) returns (ok: bool)
      requires Valid()
      modifies this
      ensures Valid() && (Model(), ok) == Commit(old(Model()), tx)
    {
      var key := (tx.ctype, tx.name);
      if key !in names { names := names[key := false]; }
      ok := tx.failedName in work && tx.fileName != "";
      if !ok {
        names := names - {key};
        assert names == old(names) - {key};
        return;
      }
      store := store[tx.fileName := work[tx.failedName]];
      work := work - {tx.failedName};
      names := names[key := true];
      assert names == old(names)[key := true];
    }

    method DeleteStoredConfiguration(ctype: string, name: string)
      requires Valid()
      modifies this
      ensures Valid() && Model() == Delete(old(Model()), ctype, name)
    {
      RemoveFiles(Extension(ctype, name));
      names := names - {(ctype, name)};
    }

    method ClearUnfinishedTransactions()
      requires Valid()
      modifies this
      ensures Valid() && Model() == ClearUnfinished(old(Model()))
    {
      RemoveFiles(".conf.failed");
    }

    /** Removes one file after the other. */
    method RemoveFiles(ext: string)
      modifies `store
      ensures store == old(store) - WithEnding(old(store), ext)
    {
      var files := ReadDirFiles(store, ext);
      var fi := 0;
      while fi < |files|
        invariant 0 <= fi <= |files| && store == old(store) - (set f | f in files[..fi])
      {
        assert files[..fi + 1] == files[..fi] + [files[fi]];
        store := store - {files[fi]};
        fi := fi + 1;
      }
      assert files[..fi] == files;
      assert (set f | f in files) == WithEnding(old(store), ext);
    }

    method GetStoredConfigurationFile(ctype: string, name: string) returns (file: string)
      ensures file == StoredFile(Model(), ctype, name)
    {
      ghost var fs := WithEnding(store, Extension(ctype, name));
      var files := ReadDirFiles(store, Extension(ctype, name));
      files := SortDescending(files);
      if files == [] {
        assert fs == {};
        return "";
      }
      file := files[0];
      assert file in files;
      assert IsGreatest(file, fs);
      GreatestUnique(file, GreatestOf(fs), fs);
    }

    /** The newest file of every configuration, oldest first; on demand the other files are removed. */
    method GetStoredConfigurations(doDeleteObsolete: bool) returns (rt: seq<Config>, ghost picked: seq<string>)
      requires Valid()
      modifies `store
      ensures Valid() && Recovered(old(store), picked)
      ensures (forall f :: f in picked ==> f in old(store)) && rt == Descriptions(old(store), picked)
      ensures Model() == if doDeleteObsolete then Purge(old(Model())) else old(Model())
    {
      hide EndsWith, Newest, Less, Part;
      ghost var files := store;
      var list := ReadDirFiles(store, ".conf");
      list := SortDescending(list);
      var items: set<Key> := {};
      rt, picked := [], [];
      var ci := 0;
      while ci < |list|
        modifies `store
        invariant 0 <= ci <= |list| && Listed(files, list) && Scanned(files, list, ci, items, picked)
        invariant Described(files, picked, rt)
        invariant store == if doDeleteObsolete then Dropped(files, list, ci) else files
      {
        ScanStep(files, list, ci, items, picked);
        DropStep(files, list, ci);
        if KeyOf(list[ci]) in items {
          if doDeleteObsolete { store := store - {list[ci]}; }
        } else {
          items := items + {KeyOf(list[ci])};
          DescribeMore(files, picked, rt, list[ci]);
          rt := rt + [Describe(store, list[ci])];
          picked := picked + [list[ci]];
        }
        ci := ci + 1;
      }
      ScanEnd(files, list, items, picked);
      DropEnd(files, list);
      DescribeReversed(files, picked, rt);
      rt := Reverse(rt);
      picked := Reversed(picked);
    }

    /** The prefix with the smallest number that is not used; without such a number the search leaves the range of
        an int, which is undefined. */
    method AllocTemporaryContextName(ctype: string, prefix: string) returns (name: Option<string>)
      requires Valid()
      modifies `names
      ensures Valid() && (name.Some? <==> HasFree(old(names), ctype, prefix))
      ensures name.Some? ==> exists idx :: IsSmallestFree(old(names), ctype, prefix, idx, name.value)
      ensures names == if name.Some? then old(names)[(ctype, name.value) := false] else old(names)
    {
      var idx := 1;
      while idx <= INT_MAX && (ctype, Numbered(prefix, idx)) in names
        invariant 1 <= idx <= INT_MAX + 1 && forall k :: 1 <= k < idx ==> !IsFree(names, ctype, prefix, k)
      {
        idx := idx + 1;
      }
      if idx > INT_MAX { return None; }
      assert IsFree(names, ctype, prefix, idx);
      if |prefix| <= 62 { SmallestIsWhole(names, ctype, prefix, idx); } else { OneName(prefix); }
      name := Some(Numbered(prefix, idx));
      assert IsSmallestFree(names, ctype, prefix, idx, name.value);
      names := names[(ctype, name.value) := false];
    }

    /** Gives a temporary name back; a stored configuration keeps its name. */
    method ReleaseTemporaryContextName(ctype: string, name: string)
      requires Valid() && (ctype, name) in names
      modifies `names
      ensures Valid() && names == Release(old(names), (ctype, name))
    {
      if !names[(ctype, name)] { names := names - {(ctype, name)}; }
    }

    /** Makes a name known. */
    method DeclareSubConfiguration(ctype: string, name: string)
      requires Valid()
      modifies `names
      ensures Valid() && names == Declare(old(names), (ctype, name))
    {
      if (ctype, name) !in names { names := names[(ctype, name) := false]; }
    }
  }

  lemma {:induction false} SubsetSize<T>(a: set<T>, b: set<T>)
    requires a <= b
    ensures |a| <= |b|
    decreases a
  {
    if a != {} {
      var x :| x in a;
      SubsetSize(a - {x}, b - {x});
    }
  }
}
