/** What patterns and templates mean: a pattern is spelled by its tokens and matches a text word by word, and a
    template prints its own text with the values of its variables. */
module TypePatternWords {
  import opened Wrappers
  import opened TypePattern

  // ---- characters ----

  const OPERATORS := "<>()*&:,=\""

  /** Every character is white space, a letter or digit, an operator, or of no use but for dollar and tilde. */
  lemma CharacterClasses(c: char)
    ensures IsOperator(c) <==> c in OPERATORS
    ensures IsAlnum(c) <==> '0' <= c <= '9' || 'a' <= c <= 'z' || 'A' <= c <= 'Z' || c == '_'
    ensures IsAlpha(c) <==> IsAlnum(c) && !('0' <= c <= '9')
    ensures IsSpace(c) <==> c <= ' '
    ensures !(IsOperator(c) && IsAlnum(c)) && !(IsOperator(c) && IsSpace(c)) && !(IsAlnum(c) && IsSpace(c))
  {
  }

  // ---- words ----

  /** The next word of a text, and where it ends: letters and digits as far as they go, or any other character. */
  function NextWord(text: string, j: nat): (r: Option<(string, nat)>)
    requires j <= |text|
    ensures r.Some? ==> j < r.value.1 <= |text| && r.value.0 != ""
  {
    var b := SkipSpaces(text, j);
    if b == |text| then None
    else if IsAlnum(text[b]) then Some((text[b..IdentEnd(text, b)], IdentEnd(text, b)))
    else Some(([text[b]], b + 1))
  }

  function WordsFrom(text: string, j: nat): seq<(string, nat)>
    requires j <= |text|
    decreases |text| - j
  {
    match NextWord(text, j)
    case None => []
    case Some(w) => [w] + WordsFrom(text, w.1)
  }

  /** Whether the first step of some tokens stands for a word. */
  predicate Fits(toks: seq<Token>, w: string)
    requires toks != []
  {
    match toks[0]
    case Operator(c) => w == [c]
    case Identifier(s) => w == s
    case Variable(_) => w != "" && IsAlpha(w[0]) && (StepSize(toks) == 2 ==> Ends(w, toks[1].s))
    case Suffix(_) => false
  }

  /** A variable stands for its word without the suffix. */
  function Bind(toks: seq<Token>, w: string, bound: Bindings): Bindings
    requires toks != [] && Fits(toks, w)
  {
    if !toks[0].Variable? then bound
    else bound[toks[0].s := if StepSize(toks) == 2 then w[..|w| - |toks[1].s|] else w]
  }

  lemma IdentifierIsWord(text: string, b: nat, s: string)
    requires b < |text| && IsIdent(s)
    ensures HasAt(text, b, s) && (b + |s| < |text| ==> !IsAlnum(text[b + |s|]))
       <==> IsAlnum(text[b]) && text[b..IdentEnd(text, b)] == s
  {
    if HasAt(text, b, s) && (b + |s| < |text| ==> !IsAlnum(text[b + |s|])) {
      forall i | b <= i < b + |s| ensures IsAlnum(text[i]) { assert text[b..b + |s|][i - b] == s[i - b]; }
      IdentUpTo(text, b, b + |s|);
    }
  }

  /** One step of a match takes one word, or none. */
  lemma StepIsWord(toks: seq<Token>, text: string, j: nat, bound: Bindings)
    requires toks != [] && Plain(toks) && !toks[0].Suffix? && j <= |text|
    ensures FirstMatch(toks, text, j, bound)
         == match NextWord(text, j)
            case None => Refused
            case Some((w, end)) => if Fits(toks, w) then Taken(StepSize(toks), end, Bind(toks, w, bound)) else Refused
  {
    var b := SkipSpaces(text, j);
    if b < |text| {
      match toks[0]
      case Operator(c) =>
        assert IsOperator(c) && !IsAlnum(c);
        if IsAlnum(text[b]) { assert text[b..IdentEnd(text, b)][0] == text[b]; }
      case Identifier(s) =>
        assert IsIdent(s);
        IdentifierIsWord(text, b, s);
        assert IsAlnum(s[0]);
      case Variable(_) => VariableIsWord(toks, text, j, bound);
    }
  }

  lemma VariableIsWord(toks: seq<Token>, text: string, j: nat, bound: Bindings)
    requires toks != [] && toks[0].Variable? && j <= |text| && SkipSpaces(text, j) < |text|
    ensures FirstMatch(toks, text, j, bound)
         == match NextWord(text, j)
            case None => Refused
            case Some((w, end)) => if Fits(toks, w) then Taken(StepSize(toks), end, Bind(toks, w, bound)) else Refused
  {
    var b := SkipSpaces(text, j);
    if IsAlnum(text[b]) { assert text[b..IdentEnd(text, b)][0] == text[b]; }
  }

  /** Tokens against words. */
  function FitAll(toks: seq<Token>, words: seq<(string, nat)>, bound: Bindings): Option<Bindings>
    decreases |toks|
  {
    if toks == [] then Some(bound)
    else if words != [] && Fits(toks, words[0].0)
    then FitAll(toks[StepSize(toks)..], words[1..], Bind(toks, words[0].0, bound))
    else None
  }

  function Steps(toks: seq<Token>): nat
    decreases |toks|
  {
    if toks == [] then 0 else 1 + Steps(toks[StepSize(toks)..])
  }

  /** What is left of the tokens behind k steps. */
  function Behind(toks: seq<Token>, k: nat): seq<Token>
    decreases k
  {
    if k == 0 || toks == [] then toks else Behind(toks[StepSize(toks)..], k - 1)
  }

  lemma {:induction false} StillThere(toks: seq<Token>, k: nat)
    requires k < Steps(toks)
    ensures Behind(toks, k) != []
    decreases k
  {
    if k > 0 { StillThere(toks[StepSize(toks)..], k - 1); }
  }

  ghost predicate StepFits(toks: seq<Token>, k: nat, words: seq<(string, nat)>)
    requires k < Steps(toks) && k < |words|
  {
    StillThere(toks, k);
    Fits(Behind(toks, k), words[k].0)
  }

  /** Tokens fit words exactly if there are as many words as steps, and each step fits its word. */
  lemma {:induction false} FitsExactly(toks: seq<Token>, words: seq<(string, nat)>, bound: Bindings)
    ensures FitAll(toks, words, bound).Some?
       <==> Steps(toks) <= |words| && forall k: nat :: k < Steps(toks) ==> StepFits(toks, k, words)
    decreases |toks|
  {
    if toks != [] {
      var rest, n := toks[StepSize(toks)..], Steps(toks);
      if words != [] {
        forall k: nat | k + 1 < n && k + 1 < |words|
          ensures StepFits(toks, k + 1, words) == StepFits(rest, k, words[1..])
        {
        }
        if n <= |words| {
          assert StepFits(toks, 0, words) == Fits(toks, words[0].0);
          forall k: nat | 0 < k < n ensures StepFits(toks, k, words) == StepFits(rest, k - 1, words[1..]) {
            assert StepFits(toks, (k - 1) + 1, words) == StepFits(rest, k - 1, words[1..]);
          }
          AllButFirst(toks, words);
        }
        if Fits(toks, words[0].0) { FitsExactly(rest, words[1..], Bind(toks, words[0].0, bound)); }
      }
    }
  }

  lemma AllButFirst(toks: seq<Token>, words: seq<(string, nat)>)
    requires toks != [] && words != [] && Steps(toks) <= |words|
    requires var rest := toks[StepSize(toks)..];
             forall k: nat :: 0 < k < Steps(toks) ==> StepFits(toks, k, words) == StepFits(rest, k - 1, words[1..])
    ensures (forall k: nat :: k < Steps(toks) ==> StepFits(toks, k, words))
       <==> StepFits(toks, 0, words)
            && forall k: nat :: k < Steps(toks[StepSize(toks)..]) ==> StepFits(toks[StepSize(toks)..], k, words[1..])
  {
    var rest := toks[StepSize(toks)..];
    if forall k: nat :: k < Steps(toks) ==> StepFits(toks, k, words) {
      forall k: nat | k < Steps(rest) ensures StepFits(rest, k, words[1..]) {
        assert StepFits(toks, k + 1, words) == StepFits(rest, (k + 1) - 1, words[1..]);
      }
    }
  }

  /** Main result: matching is by words. A pattern matches a text exactly if its steps fit the words that follow, one
      after the other, and ends behind the last of them. */
  lemma {:induction false} MatchesByWords(toks: seq<Token>, text: string, j: nat, bound: Bindings)
    requires Plain(toks) && Legal(toks) && j <= |text|
    ensures Match(toks, text, j, bound)
         == match FitAll(toks, WordsFrom(text, j), bound)
            case None => NoMatch
            case Some(m) => Matched(m, EndOfWords(text, j, Steps(toks)))
    decreases |toks|
  {
    hide NextWord, Fits, Bind, FirstMatch, Plain, Legal, Match, FitAll, WordsFrom, EndOfWords, Steps;
    if toks == [] {
      NoSteps(toks, text, j, bound);
    } else {
      LegalBehind(toks);
      StepIsWord(toks, text, j, bound);
      FirstWord(toks, text, j, bound);
      if NextWord(text, j).Some? {
        var (w, end) := NextWord(text, j).value;
        if Fits(toks, w) {
          MatchStep(toks, text, j, bound, StepSize(toks), end, Bind(toks, w, bound));
          MatchesByWords(toks[StepSize(toks)..], text, end, Bind(toks, w, bound));
        }
      }
    }
  }

  lemma NoSteps(toks: seq<Token>, text: string, j: nat, bound: Bindings)
    requires toks == [] && j <= |text|
    ensures Match(toks, text, j, bound) == Matched(bound, j) && Steps(toks) == 0 && EndOfWords(text, j, 0) == j
    ensures FitAll(toks, WordsFrom(text, j), bound) == Some(bound)
  {
  }

  lemma FirstWord(toks: seq<Token>, text: string, j: nat, bound: Bindings)
    requires toks != [] && j <= |text|
    ensures Steps(toks) == 1 + Steps(toks[StepSize(toks)..])
    ensures FirstMatch(toks, text, j, bound).Refused? ==> Match(toks, text, j, bound) == NoMatch
    ensures NextWord(text, j).None? ==> FitAll(toks, WordsFrom(text, j), bound).None?
    ensures NextWord(text, j).Some? ==>
              var (w, end) := NextWord(text, j).value;
              && EndOfWords(text, j, Steps(toks)) == EndOfWords(text, end, Steps(toks[StepSize(toks)..]))
              && FitAll(toks, WordsFrom(text, j), bound)
                 == if Fits(toks, w) then FitAll(toks[StepSize(toks)..], WordsFrom(text, end), Bind(toks, w, bound))
                    else None
  {
    hide NextWord, Fits, Bind, FirstMatch;
    if NextWord(text, j).Some? {
      var (w, end) := NextWord(text, j).value;
      var words := WordsFrom(text, j);
      assert words == [(w, end)] + WordsFrom(text, end) && words[1..] == WordsFrom(text, end);
    }
  }

  /** Where the n-th word from a position ends. */
  function EndOfWords(text: string, j: nat, n: nat): nat
    requires j <= |text|
    decreases n
  {
    if n == 0 then j
    else match NextWord(text, j)
         case None => j
         case Some((_, end)) => EndOfWords(text, end, n - 1)
  }

  /** For patterns: no pattern raises an error, and it matches exactly word by word. */
  lemma PatternMatches(p: string, text: string, j: nat)
    requires Tokenize(p, 0).Some? && j <= |text|
    ensures var toks, words := Tokenize(p, 0).value, WordsFrom(text, j);
            && (Match(toks, text, j, map[]).Matched?
                <==> Steps(toks) <= |words| && forall k: nat :: k < Steps(toks) ==> StepFits(toks, k, words))
            && !Match(toks, text, j, map[]).IllegalPattern?
  {
    PatternIsLegal(p, 0);
    PatternIsPlain(p, 0);
    MatchesByWords(Tokenize(p, 0).value, text, j, map[]);
    FitsExactly(Tokenize(p, 0).value, WordsFrom(text, j), map[]);
  }

  // ---- the tokens of a pattern ----

  function SpellToken(t: Token): string
  {
    match t
    case Operator(c) => [c]
    case Identifier(s) => s
    case Variable(x) => "$" + x
    case Suffix(s) => "~" + s
  }

  function Spell(toks: seq<Token>): string { if toks == [] then "" else SpellToken(toks[0]) + Spell(toks[1..]) }

  lemma {:induction false} SpellConcat(a: seq<Token>, b: seq<Token>)
    ensures Spell(a + b) == Spell(a) + Spell(b)
    decreases a
  {
    if a == [] {
      Unit(b);
      Unit(Spell(b));
    } else {
      assert (a + b)[1..] == a[1..] + b;
      SpellConcat(a[1..], b);
      Assoc(SpellToken(a[0]), Spell(a[1..]), Spell(b));
    }
  }

  lemma {:induction false} StripNothing(s: string)
    requires forall k :: 0 <= k < |s| ==> !IsSpace(s[k])
    ensures Strip(s) == s
    decreases s
  {
    if s != "" {
      StripNothing(s[1..]);
      assert s == [s[0]] + s[1..];
    }
  }

  /** The first tokens of a pattern position spell what they were read from. */
  lemma FirstSpelled(p: string, b: nat)
    requires b < |p| && FirstTokens(p, b).Some?
    ensures var (first, next) := FirstTokens(p, b).value;
            Spell(first) == p[b..next] && Strip(p[b..next]) == p[b..next]
  {
    var (first, next) := FirstTokens(p, b).value;
    NoSpaces(p, b);
    StripNothing(p[b..next]);
    hide Strip, Spell, IdentEnd;
    if IsAlnum(p[b]) {
      SpellOne(first[0]);
    } else if IsOperator(p[b]) {
      SpellOne(first[0]);
      assert p[b..next] == [p[b]];
    } else {
      DollarSpelled(p, b);
    }
  }

  lemma DollarSpelled(p: string, b: nat)
    requires b < |p| && FirstTokens(p, b).Some? && !IsAlnum(p[b]) && !IsOperator(p[b])
    ensures var (first, next) := FirstTokens(p, b).value; Spell(first) == p[b..next]
  {
    hide Spell, IdentEnd;
    var (first, next) := FirstTokens(p, b).value;
    var e := IdentEnd(p, b + 1);
    assert p[b..e] == "$" + p[b + 1..e];
    if next == e {
      SpellOne(Variable(p[b + 1..e]));
    } else {
      SpellTwo(p[b + 1..e], p[e + 1..next]);
      assert p[b..next] == p[b..e] + ("~" + p[e + 1..next]);
      Assoc("$" + p[b + 1..e], "~", p[e + 1..next]);
    }
  }

  lemma NoSpaces(p: string, b: nat)
    requires b < |p| && FirstTokens(p, b).Some?
    ensures var piece := p[b..FirstTokens(p, b).value.1]; forall k :: 0 <= k < |piece| ==> !IsSpace(piece[k])
  {
    var next := FirstTokens(p, b).value.1;
    forall k | b <= k < next ensures !IsSpace(p[k]) {}
  }

  lemma SpellOne(t: Token)
    ensures Spell([t]) == SpellToken(t)
  {
    assert [t][1..] == [];
    Unit(SpellToken(t));
  }

  lemma SpellTwo(x: string, tail: string)
    ensures Spell([Variable(x), Suffix(tail)]) == "$" + x + "~" + tail
  {
    assert [Variable(x), Suffix(tail)][1..] == [Suffix(tail)];
    SpellOne(Suffix(tail));
  }

  lemma NoTokens(p: string, i: nat)
    requires i <= |p| && SkipSpaces(p, i) == |p|
    ensures Tokenize(p, i) == Some([]) && Spell([]) == ""
  {
  }

  lemma SomeTokens(p: string, i: nat)
    requires i <= |p| && SkipSpaces(p, i) < |p| && Tokenize(p, i).Some?
    ensures FirstTokens(p, SkipSpaces(p, i)).Some?
  {
  }

  /** The tokens spell the pattern, up to white space. */
  lemma {:induction false} SpelledBack(p: string, i: nat)
    requires i <= |p| && Tokenize(p, i).Some?
    ensures Spell(Tokenize(p, i).value) == Strip(p[i..])
    decreases |p| - i
  {
    hide Strip, Spell, FirstTokens, SkipSpaces, Tokenize;
    var b := SkipSpaces(p, i);
    if b == |p| {
      StripSpaces(p[i..]);
      NoTokens(p, i);
    } else {
      SomeTokens(p, i);
      var (first, next) := FirstTokens(p, b).value;
      TokenizeStep(p, i, b, first, next);
      FirstSpelled(p, b);
      SpelledBack(p, next);
      SpellConcat(first, Tokenize(p, next).value);
      StripThree(p, i, b, next, |p|);
      assert p[i..] == p[i..|p|] && p[next..] == p[next..|p|];
    }
  }

  /** Names begin with a letter. */
  predicate IsName(s: string) { IsIdent(s) && IsAlpha(s[0]) }

  /** Tokens as a pattern can have them. */
  predicate Writable(toks: seq<Token>)
  {
    && Legal(toks)
    && forall i :: 0 <= i < |toks| ==>
         match toks[i]
         case Operator(c) => c in OPERATORS
         case Identifier(s) => IsIdent(s)
         case Variable(x) => IsName(x)
         case Suffix(s) => IsName(s)
  }

  lemma WritableBehind(toks: seq<Token>)
    requires toks != [] && Writable(toks)
    ensures !toks[0].Suffix? && Writable(toks[StepSize(toks)..])
  {
    forall i | 0 <= i < |toks| && toks[i].Operator? ensures IsOperator(toks[i].c) { CharacterClasses(toks[i].c); }
  }

  lemma {:induction false} IdentEndInFront(a: string, b: string, i: nat)
    requires i <= |a| && (b != "" ==> !IsAlnum(b[0]) || IdentEnd(a, i) < |a|)
    ensures IdentEnd(a + b, i) == IdentEnd(a, i)
    decreases |a| - i
  {
    if i < |a| {
      assert (a + b)[i] == a[i];
      if IsAlnum(a[i]) { IdentEndInFront(a, b, i + 1); }
    } else if b != "" {
      assert (a + b)[i] == b[0];
    }
  }

  lemma {:induction false} SpacesInFront(a: string, b: string, i: nat)
    requires i <= |a| && SkipSpaces(a, i) < |a|
    ensures SkipSpaces(a + b, i) == SkipSpaces(a, i)
    decreases |a| - i
  {
    assert (a + b)[i] == a[i];
    if IsSpace(a[i]) { SpacesInFront(a, b, i + 1); }
  }

  /** Where nothing runs over from one text into the other. */
  predicate Parted(a: string, b: string)
  {
    || b == "" || (!IsAlnum(b[0]) && b[0] != '~')
    || a == "" || IsSpace(a[|a| - 1]) || IsOperator(a[|a| - 1])
  }

  lemma FirstInFront(a: string, b: string, i: nat)
    requires i < |a| && Parted(a, b)
    ensures FirstTokens(a + b, i) == FirstTokens(a, i)
  {
    hide IdentEnd, Parted;
    var p := a + b;
    assert p[i] == a[i];
    if IsAlnum(a[i]) {
      EndParted(a, b, i);
      assert p[i..IdentEnd(a, i)] == a[i..IdentEnd(a, i)];
    } else if a[i] == '$' {
      DollarInFront(a, b, i);
    }
  }

  lemma DollarInFront(a: string, b: string, i: nat)
    requires i < |a| && Parted(a, b) && a[i] == '$'
    ensures FirstTokens(a + b, i) == FirstTokens(a, i)
  {
    hide IdentEnd;
    var p := a + b;
    assert p[i] == '$';
    if i + 1 < |a| {
      assert p[i + 1] == a[i + 1];
      if IsAlpha(a[i + 1]) {
        EndParted(a, b, i + 1);
        var e := IdentEnd(a, i + 1);
        assert p[i + 1..e] == a[i + 1..e];
        if e < |a| {
          assert p[e] == a[e];
          if a[e] == '~' { SuffixInFront(a, b, e); }
        } else if b != "" {
          assert p[e] == b[0];
        }
      }
    } else if b != "" {
      assert p[i + 1] == b[0];
    }
  }

  /** An identifier does not go on behind the parting. */
  lemma EndParted(a: string, b: string, i: nat)
    requires i < |a| && Parted(a, b) && IsAlnum(a[i])
    ensures IdentEnd(a + b, i) == IdentEnd(a, i)
    ensures IdentEnd(a, i) == |a| && b != "" ==> b[0] != '~'
  {
    if IdentEnd(a, i) == |a| { assert IsAlnum(a[|a| - 1]); }
    IdentEndInFront(a, b, i);
  }

  lemma SuffixInFront(a: string, b: string, e: nat)
    requires e < |a| && Parted(a, b) && a[e] == '~'
    ensures e + 1 < |a + b| && IsAlpha((a + b)[e + 1]) <==> e + 1 < |a| && IsAlpha(a[e + 1])
    ensures e + 1 < |a| && IsAlpha(a[e + 1]) ==>
              IdentEnd(a + b, e + 1) == IdentEnd(a, e + 1)
              && (a + b)[e + 1..IdentEnd(a, e + 1)] == a[e + 1..IdentEnd(a, e + 1)]
  {
    var p := a + b;
    if e + 1 < |a| {
      assert p[e + 1] == a[e + 1];
      if IsAlpha(a[e + 1]) { EndParted(a, b, e + 1); }
    } else if b != "" {
      assert p[e + 1] == b[0];
    }
  }

  function Both(r: Option<seq<Token>>, s: Option<seq<Token>>): Option<seq<Token>>
  {
    if r.Some? && s.Some? then Some(r.value + s.value) else None
  }

  lemma {:induction false} ShiftedSpaces(a: string, b: string, i: nat)
    requires i <= |b|
    ensures SkipSpaces(a + b, |a| + i) == |a| + SkipSpaces(b, i)
    ensures IdentEnd(a + b, |a| + i) == |a| + IdentEnd(b, i)
    decreases |b| - i
  {
    if i < |b| {
      assert (a + b)[|a| + i] == b[i];
      ShiftedSpaces(a, b, i + 1);
    }
  }

  lemma ShiftedFirst(a: string, b: string, i: nat)
    requires i < |b|
    ensures FirstTokens(a + b, |a| + i)
         == match FirstTokens(b, i) case None => None case Some((first, next)) => Some((first, |a| + next))
  {
    hide IdentEnd, SkipSpaces;
    assert (a + b)[|a| + i] == b[i];
    if b[i] == '$' {
      ShiftedDollar(a, b, i);
    } else {
      ShiftedSpaces(a, b, i);
      ShiftedSlice(a, b, i, IdentEnd(b, i));
    }
  }

  lemma ShiftedDollar(a: string, b: string, i: nat)
    requires i < |b| && b[i] == '$'
    ensures FirstTokens(a + b, |a| + i)
         == match FirstTokens(b, i) case None => None case Some((first, next)) => Some((first, |a| + next))
  {
    hide IdentEnd, SkipSpaces;
    var p := a + b;
    assert p[|a| + i] == '$' && |p| == |a| + |b|;
    if i + 1 < |b| {
      assert p[|a| + (i + 1)] == b[i + 1];
      ShiftedSpaces(a, b, i + 1);
      var e := IdentEnd(b, i + 1);
      ShiftedSlice(a, b, i + 1, e);
      if e < |b| { ShiftedSuffix(a, b, e); }
    }
  }

  lemma ShiftedSlice(a: string, b: string, i: nat, j: nat)
    requires i <= j <= |b|
    ensures (a + b)[|a| + i..|a| + j] == b[i..j]
  {
  }

  lemma ShiftedSuffix(a: string, b: string, e: nat)
    requires e < |b|
    ensures var p := a + b;
            && p[|a| + e] == b[e]
            && (e + 1 < |b| ==>
                  && p[|a| + e + 1] == b[e + 1] && IdentEnd(p, |a| + e + 1) == |a| + IdentEnd(b, e + 1)
                  && p[|a| + e + 1..|a| + IdentEnd(b, e + 1)] == b[e + 1..IdentEnd(b, e + 1)])
  {
    if e + 1 < |b| {
      assert (a + b)[|a| + (e + 1)] == b[e + 1];
      ShiftedSpaces(a, b, e + 1);
      ShiftedSlice(a, b, e + 1, IdentEnd(b, e + 1));
    }
  }

  lemma {:induction false} Shifted(a: string, b: string, i: nat)
    requires i <= |b|
    ensures Tokenize(a + b, |a| + i) == Tokenize(b, i)
    decreases |b| - i
  {
    hide FirstTokens, SkipSpaces, IdentEnd;
    ShiftedSpaces(a, b, i);
    var s := SkipSpaces(b, i);
    if s < |b| {
      ShiftedFirst(a, b, s);
      match FirstTokens(b, s)
      case None =>
      case Some((first, next)) => Shifted(a, b, next);
    }
  }

  lemma {:induction false} PassedSpaces(a: string, b: string, i: nat)
    requires i <= |a| && SkipSpaces(a, i) == |a|
    ensures Tokenize(a + b, i) == Tokenize(a + b, |a|)
    decreases |a| - i
  {
    if i < |a| {
      assert (a + b)[i] == a[i];
      PassedSpaces(a, b, i + 1);
      assert SkipSpaces(a + b, i) == SkipSpaces(a + b, i + 1);
    }
  }

  /** The tokens of two texts one behind the other are the tokens of both, where nothing runs over. */
  lemma {:induction false} Juxtaposed(a: string, b: string, i: nat)
    requires i <= |a| && Parted(a, b)
    ensures Tokenize(a + b, i) == Both(Tokenize(a, i), Tokenize(b, 0))
    decreases |a| - i
  {
    var s := SkipSpaces(a, i);
    if s == |a| {
      PassedSpaces(a, b, i);
      Shifted(a, b, 0);
      if Tokenize(b, 0).Some? { Unit(Tokenize(b, 0).value); }
    } else {
      SpacesInFront(a, b, i);
      FirstInFront(a, b, s);
      match FirstTokens(a, s)
      case None =>
      case Some((first, next)) =>
        Juxtaposed(a, b, next);
        var r, t := Tokenize(a, next), Tokenize(b, 0);
        if r.Some? && t.Some? { Assoc(first, r.value, t.value); }
    }
  }

  lemma WholeIdent(s: string)
    requires IsIdent(s)
    ensures IdentEnd(s, 0) == |s| && SkipSpaces(s, 0) == 0
  {
    IdentUpTo(s, 0, |s|);
    assert IsAlnum(s[0]);
  }

  /** One step of tokens is read from its spelling. */
  lemma StepIsRead(toks: seq<Token>)
    requires toks != [] && Writable(toks)
    ensures var step := toks[..StepSize(toks)];
            && Tokenize(Spell(step), 0) == Some(step) && Spell(step) != ""
            && (toks[0].Operator? ==> IsOperator(Spell(step)[|Spell(step)| - 1]))
  {
    WritableBehind(toks);
    var step := toks[..StepSize(toks)];
    match toks[0]
    case Operator(c) =>
      CharacterClasses(c);
      assert step == [toks[0]] && step[1..] == [];
      Unit([c]);
      assert Tokenize([c], 1) == Some([]);
      Unit(step);
    case Identifier(s) =>
      WholeIdent(s);
      assert step == [toks[0]] && step[1..] == [];
      Unit(s);
      assert s[0..|s|] == s && Tokenize(s, |s|) == Some([]);
      Unit(step);
    case Variable(x) => VariableIsRead(toks);
  }

  lemma VariableIsRead(toks: seq<Token>)
    requires toks != [] && Writable(toks) && toks[0].Variable?
    ensures var step := toks[..StepSize(toks)];
            Tokenize(Spell(step), 0) == Some(step) && Spell(step) != ""
  {
    var step, x := toks[..StepSize(toks)], toks[0].s;
    assert IsName(x);
    if StepSize(toks) == 2 {
      var tail := toks[1].s;
      assert IsName(tail) && step == [Variable(x), Suffix(tail)];
      SpellTwo(x, tail);
      DollarTilde(x, tail);
      OnlyFirst("$" + x + "~" + tail, step);
    } else {
      assert step == [Variable(x)];
      SpellOne(Variable(x));
      Dollar(x);
      OnlyFirst("$" + x, step);
    }
  }

  lemma OnlyFirst(p: string, first: seq<Token>)
    requires p != "" && p[0] == '$' && FirstTokens(p, 0) == Some((first, |p|))
    ensures Tokenize(p, 0) == Some(first)
  {
    assert SkipSpaces(p, 0) == 0 && Tokenize(p, |p|) == Some([]);
    Unit(first);
  }

  lemma Dollar(x: string)
    requires IsName(x)
    ensures FirstTokens("$" + x, 0) == Some(([Variable(x)], |"$" + x|))
  {
    var p := "$" + x;
    assert p[1] == x[0] && p[1..|p|] == x;
    forall i | 1 <= i < |p| ensures IsAlnum(p[i]) { assert p[i] == x[i - 1]; }
    IdentUpTo(p, 1, |p|);
  }

  lemma DollarTilde(x: string, tail: string)
    requires IsName(x) && IsName(tail)
    ensures FirstTokens("$" + x + "~" + tail, 0) == Some(([Variable(x), Suffix(tail)], |"$" + x + "~" + tail|))
  {
    var p, e := "$" + x + "~" + tail, 1 + |x|;
    assert p[1] == x[0] && p[e] == '~' && p[e + 1] == tail[0] && p[1..e] == x && p[e + 1..|p|] == tail;
    forall i | 1 <= i < e ensures IsAlnum(p[i]) { assert p[i] == x[i - 1]; }
    IdentUpTo(p, 1, e);
    forall i | e + 1 <= i < |p| ensures IsAlnum(p[i]) { assert p[i] == tail[i - e - 1]; }
    IdentUpTo(p, e + 1, |p|);
  }

  /** Tokens with a space in front of every step. */
  function Write(toks: seq<Token>): (s: string)
    ensures s != "" ==> s[0] == ' '
    decreases |toks|
  {
    if toks == [] then "" else " " + Spell(toks[..StepSize(toks)]) + Write(toks[StepSize(toks)..])
  }

  /** All tokens that a pattern can have are read back from what is written for them. */
  lemma {:induction false} WrittenIsRead(toks: seq<Token>)
    requires Writable(toks)
    ensures Tokenize(Write(toks), 0) == Some(toks)
    decreases |toks|
  {
    if toks != [] {
      var step, rest := toks[..StepSize(toks)], toks[StepSize(toks)..];
      assert SkipSpaces(" ", 0) == SkipSpaces(" ", 1) == 1 && Tokenize(" ", 0) == Some([]);
      hide Writable, Spell, Tokenize, Legal;
      WritableBehind(toks);
      StepIsRead(toks);
      WrittenIsRead(rest);
      Juxtaposed(" ", Spell(step), 0);
      Unit(step);
      assert !IsAlnum(' ') && ' ' != '~';
      Juxtaposed(" " + Spell(step), Write(rest), 0);
      assert step + rest == toks;
    }
  }

  // ---- templates ----

  /** A name or value that is given is a binding of the variable with this name. */
  function WithGiven(defmap: Bindings, name: string, value: string): Bindings
  {
    var named := if name != "" then defmap["name" := name] else defmap;
    if value != "" then named["value" := value] else named
  }

  lemma {:induction false} GivenIsBound(chunks: seq<Chunk>, defmap: Bindings, name: string, value: string)
    ensures Print(chunks, defmap, name, value) == Print(chunks, WithGiven(defmap, name, value), "", "")
    decreases |chunks|
  {
    if chunks != [] { GivenIsBound(chunks[1..], defmap, name, value); }
  }

  /** Giving a name and a value prints what binding "name" and "value" to them prints. */
  lemma ExpandGiven(p: string, i: nat, defmap: Bindings, name: string, value: string)
    requires i <= |p|
    ensures Expand(p, i, defmap, name, value) == Expand(p, i, WithGiven(defmap, name, value), "", "")
  {
    if Template(p, i, "").Some? { GivenIsBound(Template(p, i, "").value, defmap, name, value); }
  }

  /** Printing fails exactly if a variable has no binding and is not given. */
  lemma {:induction false} PrintsExactly(chunks: seq<Chunk>, defmap: Bindings, name: string, value: string)
    ensures Print(chunks, defmap, name, value).Some?
       <==> forall c :: c in chunks && c.OutputVariable? ==>
              c.s in defmap || (c.s == "name" && name != "") || (c.s == "value" && value != "")
    decreases |chunks|
  {
    if chunks != [] {
      PrintsExactly(chunks[1..], defmap, name, value);
      assert forall c :: c in chunks <==> c == chunks[0] || c in chunks[1..];
    }
  }

  /** The pieces of a template: text without dollar signs, and variables, perhaps with a tilde behind them. */
  datatype Piece = Literal(s: string) | Reference(x: string, tilde: bool)

  function WritePiece(t: Piece): string
  {
    match t
    case Literal(s) => s
    case Reference(x, tilde) => "$" + x + if tilde then "~" else ""
  }

  function WritePieces(ts: seq<Piece>): string
  {
    if ts == [] then "" else WritePiece(ts[0]) + WritePieces(ts[1..])
  }

  /** Names are names, and what follows one does not go on with it. */
  predicate WellParted(ts: seq<Piece>)
  {
    ts == []
    || (WellParted(ts[1..])
        && match ts[0]
           case Literal(s) => '$' !in s
           case Reference(x, tilde) =>
             && IsName(x)
             && (var rest := WritePieces(ts[1..]);
                 !tilde && rest != "" ==> !IsAlnum(rest[0]) && rest[0] != '~'))
  }

  /** What a piece stands for. */
  function PieceText(t: Piece, defmap: Bindings): Option<string>
  {
    match t
    case Literal(s) => Some(s)
    case Reference(x, _) => if x in defmap then Some(defmap[x]) else None
  }

  function PiecesText(ts: seq<Piece>, defmap: Bindings): Option<string>
  {
    if ts == [] then Some("")
    else if PieceText(ts[0], defmap).None? then None
    else Prepend(PieceText(ts[0], defmap).value, PiecesText(ts[1..], defmap))
  }

  lemma ExpandBehind(a: string, p: string, defmap: Bindings)
    ensures Expand(a + p, |a|, defmap, "", "") == Expand(p, 0, defmap, "", "")
  {
    TemplateShifted(a, p, 0, "");
  }

  lemma {:induction false} TemplateShifted(a: string, p: string, i: nat, v: string)
    requires i <= |p|
    ensures Template(a + p, |a| + i, v) == Template(p, i, v)
    decreases |p| - i
  {
    if i < |p| {
      var q := a + p;
      assert q[|a| + i] == p[i];
      if p[i] != '$' {
        TemplateShifted(a, p, i + 1, v + [p[i]]);
      } else if i + 1 < |p| && IsAlpha(p[i + 1]) {
        assert q[|a| + (i + 1)] == p[i + 1];
        ShiftedSpaces(a, p, i + 1);
        var e := IdentEnd(p, i + 1);
        assert q[|a| + (i + 1)..|a| + e] == p[i + 1..e];
        if e < |p| { assert q[|a| + e] == p[e]; }
        TemplateShifted(a, p, if e < |p| && p[e] == '~' then e + 1 else e, "");
      }
    }
  }

  /** Main result on templates: a template prints its text as it stands, with the value of every variable in its place;
      it fails exactly if one has no value. */
  lemma {:induction false} TemplateMeaning(ts: seq<Piece>, defmap: Bindings)
    requires WellParted(ts)
    ensures Expand(WritePieces(ts), 0, defmap, "", "") == PiecesText(ts, defmap)
    decreases |ts|
  {
    if ts != [] {
      var head, rest := WritePiece(ts[0]), WritePieces(ts[1..]);
      var p := head + rest;
      TemplateMeaning(ts[1..], defmap);
      ExpandBehind(head, rest, defmap);
      match ts[0]
      case Literal(s) =>
        forall k | 0 <= k < |s| ensures p[k] != '$' { assert s[k] in s; }
        ExpandChars(p, 0, |s|, defmap, "", "");
        assert p[0..|s|] == s;
      case Reference(x, tilde) => ReferenceMeaning(x, tilde, rest, defmap);
    }
  }

  lemma ReferenceMeaning(x: string, tilde: bool, rest: string, defmap: Bindings)
    requires IsName(x) && (!tilde && rest != "" ==> !IsAlnum(rest[0]) && rest[0] != '~')
    ensures var head := WritePiece(Reference(x, tilde));
            Expand(head + rest, 0, defmap, "", "")
              == if x in defmap then Prepend(defmap[x], Expand(head + rest, |head|, defmap, "", "")) else None
  {
    var head := WritePiece(Reference(x, tilde));
    var p, e := head + rest, 1 + |x|;
    assert p[0] == '$' && p[1] == x[0];
    forall i | 1 <= i < e ensures IsAlnum(p[i]) { assert p[i] == x[i - 1]; }
    assert !IsAlnum('~');
    if tilde { assert p[e] == '~'; } else if rest != "" { assert p[e] == rest[0]; }
    IdentUpTo(p, 1, e);
    assert p[1..e] == x;
    if x in defmap {
      ExpandVariable(p, 0, defmap, "", "");
    } else {
      var r := Template(p, |head|, "");
      assert Template(p, 0, "") == Prepend(Flush("") + [OutputVariable(x)], r);
      Unit([OutputVariable(x)]);
      if r.Some? { assert ([OutputVariable(x)] + r.value)[0] == OutputVariable(x); }
    }
  }
}
