/** Names of stored configuration files: their order, their parts and their endings. */
module ConfigurationNames {
  import opened Wrappers

  // ---- string order ----

  predicate Less(a: string, b: string)
  {
    b != [] && (a == [] || a[0] < b[0] || (a[0] == b[0] && Less(a[1..], b[1..])))
  }

  lemma {:induction false} LessTrichotomy(a: string, b: string)
    ensures Less(a, b) || a == b || Less(b, a)
    ensures !(Less(a, b) && Less(b, a)) && !Less(a, a)
  {
    if a != [] && b != [] {
      LessTrichotomy(a[1..], b[1..]);
      assert a == [a[0]] + a[1..] && b == [b[0]] + b[1..];
    }
    if a != [] { LessIrreflexive(a); }
  }

  lemma {:induction false} LessIrreflexive(a: string)
    ensures !Less(a, a)
  {
    if a != [] { LessIrreflexive(a[1..]); }
  }

  lemma {:induction false} LessTransitive(a: string, b: string, c: string)
    requires Less(a, b) && Less(b, c)
    ensures Less(a, c)
  {
    if a != [] && a[0] == b[0] && b[0] == c[0] { LessTransitive(a[1..], b[1..], c[1..]); }
  }

  /** Names with beginnings of the same length are ordered by them first. */
  lemma {:induction false} LessByPrefix(p: string, q: string, x: string, y: string)
    requires |p| == |q|
    ensures Less(p + x, q + y) <==> Less(p, q) || (p == q && Less(x, y))
  {
    if p == [] {
      assert p + x == x && q + y == y;
    } else {
      assert (p + x)[1..] == p[1..] + x && (q + y)[1..] == q[1..] + y;
      assert p == [p[0]] + p[1..] && q == [q[0]] + q[1..];
      LessByPrefix(p[1..], q[1..], x, y);
    }
  }

  // ---- time stamps ----

  function Digit(d: nat): (c: char)
    requires d < 10
  {
    (d + '0' as int) as char
  }

  function Decimal(n: nat): string
  {
    if n < 10 then [Digit(n)] else Decimal(n / 10) + [Digit(n % 10)]
  }

  /** At least three digits. */
  function Padded(n: nat): string
  {
    if n < 10 then ['0', '0'] + Decimal(n) else if n < 100 then ['0'] + Decimal(n) else Decimal(n)
  }

  function Stamp(time: string, counter: nat): string { time + "_" + Padded(counter) }

  const TIME_LENGTH := 15

  /** A time as it is formatted: date and time of day in digits with an underscore between them. */
  predicate IsTime(time: string)
  {
    |time| == TIME_LENGTH && forall i :: 0 <= i < |time| ==> time[i] == '_' || '0' <= time[i] <= '9'
  }

  /** Number of digits of a printed counter. */
  function Width(n: nat): nat { |Padded(n)| }

  function Pow10(e: nat): (p: nat)
    ensures p > 0
  {
    if e == 0 then 1 else 10 * Pow10(e - 1)
  }

  /** The last w digits of a number. */
  function Digits(n: nat, w: nat): (s: string)
    ensures |s| == w
  {
    if w == 0 then "" else Digits(n / 10, w - 1) + [Digit(n % 10)]
  }

  lemma {:induction false} DecimalDigits(n: nat)
    ensures Decimal(n) == Digits(n, |Decimal(n)|) && n < Pow10(|Decimal(n)|) && |Decimal(n)| > 0
    ensures |Decimal(n)| > 1 ==> Pow10(|Decimal(n)| - 1) <= n
  {
    if n >= 10 {
      DecimalDigits(n / 10);
    } else {
      assert Digits(n, 1) == Digits(0, 0) + [Digit(n)];
    }
  }

  lemma PaddedDigits(n: nat)
    ensures Padded(n) == Digits(n, Width(n)) && Width(n) >= 3 && n < Pow10(Width(n))
    ensures Width(n) > 3 ==> Pow10(Width(n) - 1) <= n
  {
    DecimalDigits(n);
    assert Digit(0) == '0';
    assert Pow10(1) == 10 && Pow10(2) == 100 && Pow10(3) == 1000;
    if n < 10 {
      assert Digits(0, 2) == Digits(0, 1) + ['0'] && Digits(0, 1) == ['0'];
      assert Digits(n, 3) == Digits(0, 2) + [Digit(n)];
    } else if n < 100 {
      assert Digits(0, 1) == ['0'] && Digits(n / 10, 2) == ['0'] + [Digit(n / 10)];
      assert Decimal(n) == [Digit(n / 10)] + [Digit(n % 10)];
      assert Digits(n, 3) == Digits(n / 10, 2) + [Digit(n % 10)];
    }
  }

  lemma {:induction false} Pow10Grows(a: nat, b: nat)
    requires a <= b
    ensures Pow10(a) <= Pow10(b) && (a < b ==> 10 * Pow10(a) <= Pow10(b))
    decreases b
  {
    if a < b { Pow10Grows(a, b - 1); }
  }

  /** Texts with the same number of digits are ordered as their numbers. */
  lemma {:induction false} DigitsOrder(i: nat, j: nat, w: nat)
    requires i < Pow10(w) && j < Pow10(w)
    ensures Less(Digits(i, w), Digits(j, w)) <==> i < j
    ensures Digits(i, w) == Digits(j, w) <==> i == j
    decreases w
  {
    if w > 0 {
      DigitsOrder(i / 10, j / 10, w - 1);
      var p, q := Digits(i / 10, w - 1), Digits(j / 10, w - 1);
      LessByPrefix(p, q, [Digit(i % 10)], [Digit(j % 10)]);
      assert Less([Digit(i % 10)], [Digit(j % 10)]) <==> i % 10 < j % 10;
      assert Digits(i, w)[w - 1] == Digit(i % 10) && Digits(j, w)[w - 1] == Digit(j % 10);
      assert Digits(i, w)[..w - 1] == p && Digits(j, w)[..w - 1] == q;
    }
  }

  /** A number without its last d digits. */
  function Cut(n: nat, d: nat): (c: nat)
    ensures c <= n && (d > 0 ==> c <= n / 10)
    decreases d
  {
    if d == 0 then n else Cut(n / 10, d - 1)
  }

  lemma {:induction false} DigitsPrefix(n: nat, w: nat, d: nat)
    ensures Digits(n, w + d)[..w] == Digits(Cut(n, d), w)
    ensures n < Pow10(w + d) ==> Cut(n, d) < Pow10(w)
    decreases d
  {
    if d == 0 {
      assert Digits(n, w)[..w] == Digits(n, w);
    } else {
      DigitsPrefix(n / 10, w, d - 1);
      assert Digits(n, w + d)[..w] == Digits(n / 10, w + d - 1)[..w];
    }
  }

  /** The order of printed counters, in terms of numbers: the longer one is cut to the length of the other. */
  predicate CounterBefore(i: nat, j: nat)
  {
    if Width(i) < Width(j) then i <= Cut(j, Width(j) - Width(i)) else Cut(i, Width(i) - Width(j)) < j
  }

  /** A text of digits against a longer one. */
  lemma CutOrder(i: nat, w: nat, j: nat, d: nat)
    requires i < Pow10(w) && j < Pow10(w + d)
    ensures Less(Digits(i, w), Digits(j, w + d)) <==> i < Cut(j, d) || (i == Cut(j, d) && d > 0)
    ensures Less(Digits(j, w + d), Digits(i, w)) <==> Cut(j, d) < i
  {
    DigitsPrefix(j, w, d);
    DigitsOrder(i, Cut(j, d), w);
    DigitsOrder(Cut(j, d), i, w);
    var long := Digits(j, w + d);
    assert long == long[..w] + long[w..] && Digits(i, w) == Digits(i, w) + "";
    LessByPrefix(Digits(i, w), long[..w], "", long[w..]);
    LessByPrefix(long[..w], Digits(i, w), long[w..], "");
  }

  lemma PaddedOrder(i: nat, j: nat)
    ensures Less(Padded(i), Padded(j)) <==> CounterBefore(i, j)
  {
    PaddedDigits(i);
    PaddedDigits(j);
    if Width(i) < Width(j) {
      CutOrder(i, Width(i), j, Width(j) - Width(i));
    } else {
      CutOrder(j, Width(j), i, Width(i) - Width(j));
    }
  }

  /** Exactly when a stamp is smaller than another: its time is earlier, or it is the same and the printed counter
      is smaller. */
  lemma StampOrder(time: string, i: nat, later: string, j: nat)
    requires |time| == |later|
    ensures Less(Stamp(time, i), Stamp(later, j))
       <==> Less(time, later) || (time == later && CounterBefore(i, j))
  {
    LessByPrefix(time, later, "_" + Padded(i), "_" + Padded(j));
    LessByPrefix("_", "_", Padded(i), Padded(j));
    LessIrreflexive("_");
    Assoc(time, "_", Padded(i));
    Assoc(later, "_", Padded(j));
    PaddedOrder(i, j);
  }

  /** Counting on keeps the order of the names of a second, unless the printed counter gets longer: at 1000,
      10000 and so on. */
  lemma NextCounter(n: nat)
    ensures CounterBefore(n, n + 1) <==> Width(n + 1) == Width(n)
    ensures Width(n + 1) == Width(n) <==> n + 1 != Pow10(Width(n))
    ensures !CounterBefore(n, 0)
  {
    PaddedDigits(n);
    PaddedDigits(n + 1);
    PaddedDigits(0);
    if Width(n + 1) < Width(n) { Pow10Grows(Width(n + 1), Width(n) - 1); }
    if Width(n + 1) > Width(n) {
      Pow10Grows(Width(n), Width(n + 1) - 1);
    }
    Pow10Grows(3, Width(n));
    assert Pow10(3) == 1000;
  }

  // ---- stamps in front of the other fields ----

  predicate DotFree(s: string) { '.' !in s }

  /** All characters are greater than the dot that ends a field. */
  predicate IsStamp(s: string) { forall i :: 0 <= i < |s| ==> '.' < s[i] }

  lemma {:induction false} DigitsAreDigits(n: nat, w: nat)
    ensures forall i :: 0 <= i < w ==> '0' <= Digits(n, w)[i] <= '9'
    decreases w
  {
    if w > 0 { DigitsAreDigits(n / 10, w - 1); }
  }

  lemma StampIsStamp(time: string, counter: nat)
    requires IsTime(time)
    ensures IsStamp(Stamp(time, counter)) && DotFree(Stamp(time, counter))
  {
    PaddedDigits(counter);
    DigitsAreDigits(counter, Width(counter));
  }

  lemma {:induction false} StampFirst(a: string, x: string, b: string, y: string)
    requires IsStamp(b) && Less(a, b)
    ensures Less(a + "." + x, b + "." + y)
    decreases a
  {
    var p, q := a + "." + x, b + "." + y;
    if a != [] && a[0] == b[0] {
      assert p[1..] == a[1..] + "." + x && q[1..] == b[1..] + "." + y;
      StampFirst(a[1..], x, b[1..], y);
    }
  }

  /** Names with different stamps are ordered by them, even where one stamp is longer. */
  lemma NameOrder(a: string, x: string, b: string, y: string)
    requires IsStamp(a) && IsStamp(b) && a != b
    ensures Less(a + "." + x, b + "." + y) <==> Less(a, b)
  {
    LessTrichotomy(a, b);
    if Less(a, b) { StampFirst(a, x, b, y); } else { StampFirst(b, y, a, x); }
    LessTrichotomy(a + "." + x, b + "." + y);
  }

  // ---- parts of a name ----

  /** Position of the first dot from i, or the length. */
  function Dot(s: string, i: nat): (d: nat)
    requires i <= |s|
    ensures i <= d <= |s| && (d < |s| ==> s[d] == '.') && '.' !in s[i..d]
    decreases |s| - i
  {
    if i == |s| || s[i] == '.' then i else Dot(s, i + 1)
  }

  /** The part of the name behind k dots and in front of the next one. */
  function Part(s: string, k: nat): string
    decreases k
  {
    var d := Dot(s, 0);
    if d == |s| then "" else if k == 0 then s[..d] else Part(s[d + 1..], k - 1)
  }

  /** A part, counted from a position. */
  lemma PartFrom(s: string, si: nat, k: nat)
    requires si <= |s|
    ensures var d := si + Dot(s[si..], 0);
            && d <= |s|
            && Part(s[si..], k) == if d == |s| then "" else if k == 0 then s[si..d] else Part(s[d + 1..], k - 1)
  {
    var t, d := s[si..], Dot(s[si..], 0);
    assert t[..d] == s[si..si + d];
    if d < |t| { assert t[d + 1..] == s[si + d + 1..]; }
  }

  method FilenamePart(filename: string, k: nat) returns (part: string)
    ensures part == Part(filename, k)
  {
    hide Part, Dot;
    var si := 0;
    var left := k;
    assert filename[0..] == filename;
    while left > 0
      invariant si <= |filename| && Part(filename, k) == Part(filename[si..], left)
    {
      var d := FindDot(filename, si);
      PartFrom(filename, si, left);
      if d == |filename| { return ""; }
      si := d + 1;
      left := left - 1;
    }
    var se := FindDot(filename, si);
    PartFrom(filename, si, 0);
    return if se == |filename| then "" else filename[si..se];
  }

  method FindDot(s: string, si: nat) returns (d: nat)
    requires si <= |s|
    ensures si <= d <= |s| && d - si == Dot(s[si..], 0)
  {
    d := si;
    while d < |s| && s[d] != '.'
      invariant si <= d <= |s| && Dot(s[si..], 0) == Dot(s[si..], d - si)
    {
      d := d + 1;
    }
  }

  lemma {:induction false} DotBehind(a: string, rest: string, i: nat)
    requires DotFree(a) && i <= |a|
    ensures Dot(a + "." + rest, i) == |a|
    decreases |a| - i
  {
    var s := a + "." + rest;
    assert s[|a|] == '.';
    if i < |a| {
      assert s[i] == a[i];
      DotBehind(a, rest, i + 1);
    }
  }

  lemma PartsOf(a: string, rest: string)
    requires DotFree(a)
    ensures Part(a + "." + rest, 0) == a
    ensures forall k: nat :: Part(a + "." + rest, k + 1) == Part(rest, k)
  {
    DotBehind(a, rest, 0);
    var s := a + "." + rest;
    assert s[..|a|] == a && s[|a| + 1..] == rest;
  }

  function FileName(stamp: string, restMethod: string, ctype: string, name: string): string
  {
    stamp + "." + (restMethod + "." + (ctype + "." + (name + "." + "conf")))
  }

  lemma FileNameParts(stamp: string, restMethod: string, ctype: string, name: string)
    requires DotFree(stamp) && DotFree(restMethod) && DotFree(ctype) && DotFree(name)
    ensures var f := FileName(stamp, restMethod, ctype, name);
            Part(f, 0) == stamp && Part(f, 1) == restMethod && Part(f, 2) == ctype && Part(f, 3) == name
  {
    var r3 := name + "." + "conf";
    var r2 := ctype + "." + r3;
    var r1 := restMethod + "." + r2;
    PartsOf(stamp, r1);
    PartsOf(restMethod, r2);
    PartsOf(ctype, r3);
    PartsOf(name, "conf");
    var f := stamp + "." + r1;
    assert Part(f, 1) == Part(r1, 0);
    assert Part(f, 2) == Part(r1, 1) == Part(r2, 0);
    assert Part(f, 3) == Part(r1, 2) == Part(r2, 1) == Part(r3, 0);
  }

  lemma {:induction false} PartIsDotFree(s: string, k: nat)
    ensures DotFree(Part(s, k))
    decreases k
  {
    var d := Dot(s, 0);
    if d < |s| && k > 0 { PartIsDotFree(s[d + 1..], k - 1); }
  }

  /** Behind a stamp, the fields of a name are read back exactly if none of them holds a dot. */
  lemma FieldsAreReadExactly(stamp: string, restMethod: string, ctype: string, name: string)
    requires DotFree(stamp)
    ensures var f := FileName(stamp, restMethod, ctype, name);
            Part(f, 1) == restMethod && Part(f, 2) == ctype && Part(f, 3) == name
            <==> DotFree(restMethod) && DotFree(ctype) && DotFree(name)
  {
    var f := FileName(stamp, restMethod, ctype, name);
    PartIsDotFree(f, 1);
    PartIsDotFree(f, 2);
    PartIsDotFree(f, 3);
    if DotFree(restMethod) && DotFree(ctype) && DotFree(name) { FileNameParts(stamp, restMethod, ctype, name); }
  }

  /** What is in front of the first dot of a name. */
  function FirstField(name: string): (r: string)
    ensures r <= name && DotFree(r) && (r == name <==> DotFree(name))
  {
    name[..Dot(name, 0)]
  }

  lemma {:induction false} DotInFront(s: string, rest: string, i: nat)
    requires i <= |s| && Dot(s, i) < |s|
    ensures Dot(s + rest, i) == Dot(s, i)
    decreases |s| - i
  {
    assert (s + rest)[i] == s[i];
    if s[i] != '.' { DotInFront(s, rest, i + 1); }
  }

  /** A name is read back up to its first dot. */
  lemma NameIsCut(stamp: string, restMethod: string, ctype: string, name: string)
    requires DotFree(stamp) && DotFree(restMethod) && DotFree(ctype)
    ensures var f := FileName(stamp, restMethod, ctype, name);
            && Part(f, 0) == stamp && Part(f, 1) == restMethod && Part(f, 2) == ctype
            && Part(f, 3) == FirstField(name)
  {
    var r3 := name + "." + "conf";
    var r2 := ctype + "." + r3;
    var r1 := restMethod + "." + r2;
    PartsOf(stamp, r1);
    PartsOf(restMethod, r2);
    PartsOf(ctype, r3);
    var f := stamp + "." + r1;
    assert Part(f, 1) == Part(r1, 0);
    assert Part(f, 2) == Part(r1, 1) == Part(r2, 0);
    assert Part(f, 3) == Part(r1, 2) == Part(r2, 1) == Part(r3, 0);
    CutAtDot(name, "conf");
  }

  lemma CutAtDot(name: string, rest: string)
    ensures Part(name + "." + rest, 0) == FirstField(name)
  {
    if DotFree(name) {
      PartsOf(name, rest);
    } else {
      var s := name + ("." + rest);
      assert name + "." + rest == s;
      DotInFront(name, "." + rest, 0);
      assert s[..Dot(name, 0)] == name[..Dot(name, 0)];
    }
  }

  /** A name as this program gives it. */
  predicate IsFileName(f: string)
  {
    var stamp, restMethod, ctype, name := Part(f, 0), Part(f, 1), Part(f, 2), Part(f, 3);
    && DotFree(stamp) && DotFree(restMethod) && DotFree(ctype) && DotFree(name)
    && f == FileName(stamp, restMethod, ctype, name)
  }

  // ---- endings of a name ----

  predicate EndsWith(s: string, ext: string) { |ext| <= |s| && s[|s| - |ext|..] == ext }

  function Extension(ctype: string, name: string): string { "." + ctype + "." + name + ".conf" }

  lemma DotFreeBehind(p: string, a: string, k: nat)
    requires DotFree(a)
    ensures |p| < k <= |p| + |a| ==> (p + "." + a)[k] != '.'
  {
    if |p| < k <= |p| + |a| { assert (p + "." + a)[k] == a[k - |p| - 1]; }
  }

  lemma LastField(p: string, a: string, q: string, b: string)
    requires DotFree(a) && DotFree(b) && p + "." + a == q + "." + b
    ensures p == q && a == b
  {
    var s, t := p + "." + a, q + "." + b;
    assert s[|p|] == '.' && t[|q|] == '.';
    DotFreeBehind(p, a, |q|);
    DotFreeBehind(q, b, |p|);
    assert p == s[..|p|] && q == t[..|p|];
    assert a == s[|p| + 1..] && b == t[|p| + 1..];
  }

  lemma Grouped(p: string, ctype: string, name: string)
    ensures p + Extension(ctype, name) == p + "." + ctype + "." + name + ".conf"
  {
  }

  lemma SameEnding(front: string, a: string, b: string, p: string, a': string, b': string)
    requires DotFree(a) && DotFree(b) && DotFree(a') && DotFree(b')
    requires front + "." + a + "." + b + ".conf" == p + "." + a' + "." + b' + ".conf"
    ensures a == a' && b == b'
  {
    var s, t := front + "." + a + "." + b, p + "." + a' + "." + b';
    assert s == (s + ".conf")[..|s|] && t == (t + ".conf")[..|t|];
    LastField(front + "." + a, b, p + "." + a', b');
    LastField(front, a, p, a');
  }

  /** Looking for the files of a configuration by the ending of their names finds its files and no others. */
  lemma EndingIsExact(stamp: string, restMethod: string, ctype: string, name: string, ctype': string, name': string)
    requires DotFree(ctype) && DotFree(name) && DotFree(ctype') && DotFree(name')
    ensures EndsWith(FileName(stamp, restMethod, ctype, name), Extension(ctype', name'))
       <==> ctype == ctype' && name == name'
  {
    var f, ext := FileName(stamp, restMethod, ctype, name), Extension(ctype', name');
    var front := stamp + "." + restMethod;
    assert f == front + Extension(ctype, name);
    if EndsWith(f, ext) {
      var p := f[..|f| - |ext|];
      assert f == p + ext;
      Grouped(front, ctype, name);
      Grouped(p, ctype', name');
      SameEnding(front, ctype, name, p, ctype', name');
    } else if ctype == ctype' && name == name' {
      EndsWithLast(front, ext);
    }
  }

  lemma EndsWithLast(rest: string, ext: string)
    ensures EndsWith(rest + ext, ext)
  {
  }

  lemma EndsWithMore(s: string, ext: string, more: string)
    ensures EndsWith(s + more, ext + more) <==> EndsWith(s, ext)
  {
    if |ext| <= |s| {
      var p, q := s[..|s| - |ext|], s[|s| - |ext|..];
      assert (s + more)[|s| - |ext|..] == q + more;
      assert |q| == |ext| && (q + more)[..|q|] == q && (ext + more)[..|ext|] == ext;
    }
  }

  /** The fields of a name in front of its ending. */
  function Fields(stamp: string, restMethod: string, ctype: string, name: string): string
  {
    stamp + "." + restMethod + "." + ctype + "." + name
  }

  /** For all fields: a name has the ending of a configuration exactly if its fields have the one without ".conf". */
  lemma EndingOfFields(stamp: string, restMethod: string, ctype: string, name: string, ctype': string, name': string)
    ensures EndsWith(FileName(stamp, restMethod, ctype, name), Extension(ctype', name'))
       <==> EndsWith(Fields(stamp, restMethod, ctype, name), "." + ctype' + "." + name')
  {
    assert FileName(stamp, restMethod, ctype, name) == Fields(stamp, restMethod, ctype, name) + ".conf";
    EndsWithMore(Fields(stamp, restMethod, ctype, name), "." + ctype' + "." + name', ".conf");
  }

  /** The files of this configuration have the ending of another one, or of the same one. */
  ghost predicate Hit(restMethod: string, ctype: string, name: string, ctype': string, name': string)
  {
    || (ctype' == ctype && name' == name)
    || (ctype' == restMethod && name' == ctype + "." + name)
    || EndsWith("." + name, "." + ctype' + "." + name')
  }

  lemma OneInFront(c: char, s: string, ext: string)
    ensures EndsWith([c] + s, ext) <==> [c] + s == ext || EndsWith(s, ext)
  {
    var t := [c] + s;
    if |ext| <= |s| {
      assert t[|t| - |ext|..] == s[|s| - |ext|..];
    } else if |ext| == |t| {
      assert t[0..] == t;
    }
  }

  /** An ending that begins with a dot does not begin in a text without dots. */
  lemma {:induction false} DotFreeInFront(a: string, s: string, x: string)
    requires DotFree(a)
    ensures EndsWith(a + s, "." + x) <==> EndsWith(s, "." + x)
    decreases a
  {
    if a == [] {
      assert a + s == s;
    } else {
      assert a + s == [a[0]] + (a[1..] + s);
      assert (a + s)[0] != ("." + x)[0];
      OneInFront(a[0], a[1..] + s, "." + x);
      DotFreeInFront(a[1..], s, x);
    }
  }

  lemma SameFields(a: string, rest: string, first: string, behind: string)
    requires DotFree(a) && DotFree(first) && a + "." + rest == first + "." + behind
    ensures a == first && rest == behind
  {
    DotBehind(a, rest, 0);
    DotBehind(first, behind, 0);
    var s, t := a + "." + rest, first + "." + behind;
    assert a == s[..|a|] && first == t[..|first|];
    assert rest == s[|a| + 1..] && behind == t[|first| + 1..];
  }

  /** An ending of two parts begins in front of the first field or behind it. */
  lemma EndingBehind(a: string, rest: string, first: string, behind: string)
    requires DotFree(a) && DotFree(first)
    ensures EndsWith("." + (a + "." + rest), "." + (first + "." + behind))
       <==> (first == a && behind == rest) || EndsWith("." + rest, "." + (first + "." + behind))
  {
    var s, ext := a + "." + rest, first + "." + behind;
    OneInFront('.', s, "." + ext);
    assert s == a + ("." + rest);
    DotFreeInFront(a, "." + rest, ext);
    if "." + s == "." + ext {
      assert s == ("." + s)[1..] == ("." + ext)[1..] == ext;
      SameFields(a, rest, first, behind);
    }
  }

  /** With dots in names only: exactly which configurations are found by the ending of another one. */
  lemma EndingHits(stamp: string, restMethod: string, ctype: string, name: string, ctype': string, name': string)
    requires DotFree(stamp) && DotFree(restMethod) && DotFree(ctype) && DotFree(ctype')
    ensures EndsWith(FileName(stamp, restMethod, ctype, name), Extension(ctype', name'))
       <==> Hit(restMethod, ctype, name, ctype', name')
  {
    hide EndsWith;
    EndingOfFields(stamp, restMethod, ctype, name, ctype', name');
    var r2, x := ctype + "." + name, ctype' + "." + name';
    var r1 := restMethod + "." + r2;
    assert "." + ctype' + "." + name' == "." + x;
    assert Fields(stamp, restMethod, ctype, name) == stamp + ("." + r1);
    DotFreeInFront(stamp, "." + r1, x);
    EndingBehind(restMethod, r2, ctype', name');
    EndingBehind(ctype, name, ctype', name');
  }

  lemma EndsDifferently(s: string, ext: string)
    requires s != [] && ext != [] && s[|s| - 1] != ext[|ext| - 1]
    ensures !EndsWith(s, ext)
  {
    if |ext| <= |s| { assert s[|s| - |ext|..][|ext| - 1] == s[|s| - 1]; }
  }

  lemma EndingOfFile(f: string, ctype: string, name: string)
    requires IsFileName(f) && DotFree(ctype) && DotFree(name)
    ensures EndsWith(f, Extension(ctype, name)) <==> Part(f, 2) == ctype && Part(f, 3) == name
  {
    EndingIsExact(Part(f, 0), Part(f, 1), Part(f, 2), Part(f, 3), ctype, name);
  }

  lemma EndingOfAll(f: string)
    requires IsFileName(f)
    ensures EndsWith(f, ".conf") && !EndsWith(f, ".conf.failed")
  {
    FileNameEnd(Part(f, 0), Part(f, 1), Part(f, 2), Part(f, 3));
  }

  lemma FileNameEnd(stamp: string, restMethod: string, ctype: string, name: string)
    ensures EndsWith(FileName(stamp, restMethod, ctype, name), ".conf")
    ensures !EndsWith(FileName(stamp, restMethod, ctype, name), ".conf.failed")
  {
    var rest := stamp + "." + restMethod + "." + ctype + "." + name;
    var f := FileName(stamp, restMethod, ctype, name);
    assert f == rest + ".conf";
    EndsWithLast(rest, ".conf");
    assert f[|f| - 1] == 'f';
    EndsDifferently(f, ".conf.failed");
  }
}
