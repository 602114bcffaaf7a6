/** Type patterns of the interface generator: they match source text and are templates of output text. */
module TypePattern {
  import opened Wrappers

  // ---- characters ----

  predicate IsSpace(c: char) { c as int <= 32 }

  predicate IsAlpha(c: char) { c == '_' || 'a' <= c <= 'z' || 'A' <= c <= 'Z' }

  predicate IsAlnum(c: char) { IsAlpha(c) || '0' <= c <= '9' }

  predicate IsOperator(c: char)
  {
    c == '<' || c == '>' || c == '(' || c == ')' || c == '*' || c == '&' || c == ':' || c == ',' || c == '=' || c == '"'
  }

  function SkipSpaces(s: string, i: nat): (j: nat)
    requires i <= |s|
    ensures i <= j <= |s| && (forall k :: i <= k < j ==> IsSpace(s[k])) && (j < |s| ==> !IsSpace(s[j]))
    decreases |s| - i
  {
    if i < |s| && IsSpace(s[i]) then SkipSpaces(s, i + 1) else i
  }

  /** End of the identifier that begins at i. */
  function IdentEnd(s: string, i: nat): (j: nat)
    requires i <= |s|
    ensures i <= j <= |s| && (forall k :: i <= k < j ==> IsAlnum(s[k])) && (j < |s| ==> !IsAlnum(s[j]))
    decreases |s| - i
  {
    if i < |s| && IsAlnum(s[i]) then IdentEnd(s, i + 1) else i
  }

  // ---- patterns ----

  datatype Token = Operator(c: char) | Identifier(s: string) | Variable(s: string) | Suffix(s: string)

  /** The tokens at position b of a pattern and the position behind them: a variable may have a suffix with it. */
  function FirstTokens(p: string, b: nat): (r: Option<(seq<Token>, nat)>)
    requires b < |p|
    ensures r.Some? ==> b < r.value.1 <= |p| && 1 <= |r.value.0| <= 2
  {
    if IsAlnum(p[b]) then Some(([Identifier(p[b..IdentEnd(p, b)])], IdentEnd(p, b)))
    else if IsOperator(p[b]) then Some(([Operator(p[b])], b + 1))
    else if p[b] == '$' && b + 1 < |p| && IsAlpha(p[b + 1]) then
      var e := IdentEnd(p, b + 1);
      if e < |p| && p[e] == '~' then
        if e + 1 < |p| && IsAlpha(p[e + 1])
        then Some(([Variable(p[b + 1..e]), Suffix(p[e + 1..IdentEnd(p, e + 1)])], IdentEnd(p, e + 1)))
        else None
      else Some(([Variable(p[b + 1..e])], e))
    else None
  }

  /** The tokens of a pattern from position i; none if it is not well-formed. */
  function Tokenize(p: string, i: nat): (r: Option<seq<Token>>)
    requires i <= |p|
    decreases |p| - i
  {
    var b := SkipSpaces(p, i);
    if b == |p| then Some([])
    else match FirstTokens(p, b)
         case None => None
         case Some((first, next)) => Prepend(first, Tokenize(p, next))
  }

  function Prepend<T>(a: seq<T>, r: Option<seq<T>>): Option<seq<T>>
  {
    match r case None => None case Some(b) => Some(a + b)
  }

  // ---- matching ----

  type Bindings = map<string, string>

  datatype MatchResult = Matched(defmap: Bindings, end: nat) | NoMatch | IllegalPattern

  predicate Ends(ident: string, tail: string) { |tail| <= |ident| && ident[|ident| - |tail|..] == tail }

  predicate HasAt(text: string, j: nat, s: string) { j + |s| <= |text| && text[j..j + |s|] == s }

  /** What the first token takes of the text, with the suffix behind a variable: how many tokens, up to where. */
  datatype Step = Taken(n: nat, pos: nat, bound: Bindings) | Refused | Illegal

  function FirstMatch(toks: seq<Token>, text: string, j: nat, bound: Bindings): (r: Step)
    requires toks != [] && j <= |text|
    ensures r.Taken? ==> 1 <= r.n <= |toks| && j <= r.pos <= |text|
  {
    var b := SkipSpaces(text, j);
    if b == |text| then Refused
    else match toks[0]
         case Operator(c) => if text[b] == c then Taken(1, b + 1, bound) else Refused
         case Identifier(s) =>
           if HasAt(text, b, s) && (b + |s| < |text| ==> !IsAlnum(text[b + |s|]))
           then Taken(1, b + |s|, bound) else Refused
         case Variable(x) =>
           if !IsAlpha(text[b]) then Refused
           else
             var e := IdentEnd(text, b);
             var ident := text[b..e];
             if |toks| > 1 && toks[1].Suffix? then
               if Ends(ident, toks[1].s) then Taken(2, e, bound[x := ident[..|ident| - |toks[1].s|]]) else Refused
             else Taken(1, e, bound[x := ident])
         case Suffix(_) => Illegal
  }

  /** Matching the tokens against the text from position j. */
  function Match(toks: seq<Token>, text: string, j: nat, bound: Bindings): (r: MatchResult)
    requires j <= |text|
    ensures r.Matched? ==> j <= r.end <= |text|
    decreases |toks|
  {
    if toks == [] then Matched(bound, j)
    else match FirstMatch(toks, text, j, bound)
         case Refused => NoMatch
         case Illegal => IllegalPattern
         case Taken(n, pos, more) => Match(toks[n..], text, pos, more)
  }

  // ---- output templates ----

  datatype Chunk = OutputString(s: string) | OutputVariable(s: string)

  function Flush(value: string): seq<Chunk> { if value == "" then [] else [OutputString(value)] }

  /** The chunks of a template from position i, with the characters collected for the current string. */
  function Template(p: string, i: nat, value: string): (r: Option<seq<Chunk>>)
    requires i <= |p|
    decreases |p| - i
  {
    if i == |p| then Some(Flush(value))
    else if p[i] == '$' then
      if i + 1 == |p| || !IsAlpha(p[i + 1]) then None
      else
        var e := IdentEnd(p, i + 1);
        var next := if e < |p| && p[e] == '~' then e + 1 else e;
        Prepend(Flush(value) + [OutputVariable(p[i + 1..e])], Template(p, next, ""))
    else Template(p, i + 1, value + [p[i]])
  }

  /** The text of a variable: an explicit name or value goes before the bindings. */
  function Lookup(x: string, defmap: Bindings, name: string, value: string): Option<string>
  {
    if x == "name" && name != "" then Some(name)
    else if x == "value" && value != "" then Some(value)
    else if x in defmap then Some(defmap[x])
    else None
  }

  function ChunkText(c: Chunk, defmap: Bindings, name: string, value: string): Option<string>
  {
    match c
    case OutputString(s) => Some(s)
    case OutputVariable(x) => Lookup(x, defmap, name, value)
  }

  function Print(chunks: seq<Chunk>, defmap: Bindings, name: string, value: string): Option<string>
    decreases |chunks|
  {
    if chunks == [] then Some("")
    else
      match ChunkText(chunks[0], defmap, name, value)
      case None => None
      case Some(s) => Prepend(s, Print(chunks[1..], defmap, name, value))
  }

  /** What a pattern prints as its own template from position i. */
  function Expand(p: string, i: nat, defmap: Bindings, name: string, value: string): Option<string>
    requires i <= |p|
  {
    match Template(p, i, "")
    case None => None
    case Some(chunks) => Print(chunks, defmap, name, value)
  }

  lemma {:induction false} PrintConcat(a: seq<Chunk>, b: seq<Chunk>, defmap: Bindings, name: string, value: string)
    ensures Print(a + b, defmap, name, value)
         == match Print(a, defmap, name, value)
            case None => None
            case Some(s) => Prepend(s, Print(b, defmap, name, value))
    decreases a
  {
    if a == [] {
      Unit(b);
      if Print(b, defmap, name, value).Some? { Unit(Print(b, defmap, name, value).value); }
    } else {
      assert (a + b)[1..] == a[1..] + b;
      PrintConcat(a[1..], b, defmap, name, value);
      var s := ChunkText(a[0], defmap, name, value);
      var r, t := Print(a[1..], defmap, name, value), Print(b, defmap, name, value);
      if s.Some? && r.Some? && t.Some? { Assoc(s.value, r.value, t.value); }
    }
  }

  /** Collected characters are printed in front of the rest. */
  lemma {:induction false} TemplateValue(p: string, i: nat, v: string, defmap: Bindings, name: string, value: string)
    requires i <= |p|
    ensures Template(p, i, v).Some? <==> Template(p, i, "").Some?
    ensures Template(p, i, v).Some? ==>
              Print(Template(p, i, v).value, defmap, name, value) == Prepend(v, Expand(p, i, defmap, name, value))
    decreases |p| - i
  {
    if i == |p| {
      assert Flush(v)[..] == Flush(v);
      Unit(v);
    } else if p[i] == '$' {
      if i + 1 < |p| && IsAlpha(p[i + 1]) {
        var e := IdentEnd(p, i + 1);
        var next := if e < |p| && p[e] == '~' then e + 1 else e;
        var r := Template(p, next, "");
        if r.Some? {
          var rest := [OutputVariable(p[i + 1..e])] + r.value;
          Assoc(Flush(v), [OutputVariable(p[i + 1..e])], r.value);
          Assoc(Flush(""), [OutputVariable(p[i + 1..e])], r.value);
          Unit(rest);
          PrintConcat(Flush(v), rest, defmap, name, value);
          FlushPrinted(v, defmap, name, value);
        }
      }
    } else {
      TemplateValue(p, i + 1, v + [p[i]], defmap, name, value);
      TemplateValue(p, i + 1, "" + [p[i]], defmap, name, value);
      var x := Expand(p, i + 1, defmap, name, value);
      Unit([p[i]]);
      if x.Some? { Assoc(v, [p[i]], x.value); }
    }
  }

  lemma FlushPrinted(v: string, defmap: Bindings, name: string, value: string)
    ensures Print(Flush(v), defmap, name, value) == Some(v)
  {
    if v != "" {
      assert Flush(v)[1..] == [];
      Unit(v);
    }
  }

  lemma ExpandChar(p: string, i: nat, defmap: Bindings, name: string, value: string)
    requires i < |p| && p[i] != '$'
    ensures Expand(p, i, defmap, name, value) == Prepend([p[i]], Expand(p, i + 1, defmap, name, value))
  {
    Unit([p[i]]);
    TemplateValue(p, i + 1, "" + [p[i]], defmap, name, value);
  }

  lemma {:induction false} ExpandChars(p: string, i: nat, j: nat, defmap: Bindings, name: string, value: string)
    requires i <= j <= |p| && forall k :: i <= k < j ==> p[k] != '$'
    ensures Expand(p, i, defmap, name, value) == Prepend(p[i..j], Expand(p, j, defmap, name, value))
    decreases j - i
  {
    var x := Expand(p, j, defmap, name, value);
    if i == j {
      assert p[i..j] == [];
      if x.Some? { Unit(x.value); }
    } else {
      ExpandChar(p, i, defmap, name, value);
      ExpandChars(p, i + 1, j, defmap, name, value);
      assert p[i..j] == [p[i]] + p[i + 1..j];
      if x.Some? { Assoc([p[i]], p[i + 1..j], x.value); }
    }
  }

  lemma ExpandVariable(p: string, i: nat, defmap: Bindings, name: string, value: string)
    requires i + 1 < |p| && p[i] == '$' && IsAlpha(p[i + 1])
    ensures var e := IdentEnd(p, i + 1);
            var next := if e < |p| && p[e] == '~' then e + 1 else e;
            var text := Lookup(p[i + 1..e], defmap, name, value);
            text.Some? ==>
              Expand(p, i, defmap, name, value) == Prepend(text.value, Expand(p, next, defmap, name, value))
  {
    var e := IdentEnd(p, i + 1);
    var next := if e < |p| && p[e] == '~' then e + 1 else e;
    var variable := OutputVariable(p[i + 1..e]);
    Unit([variable]);
    var r := Template(p, next, "");
    if r.Some? {
      assert ([variable] + r.value)[1..] == r.value;
    }
  }

  // ---- matching and printing undo each other ----

  /** The text without its white space. */
  function Strip(s: string): string
  {
    if s == "" then "" else (if IsSpace(s[0]) then "" else [s[0]]) + Strip(s[1..])
  }

  lemma {:induction false} StripConcat(a: string, b: string)
    ensures Strip(a + b) == Strip(a) + Strip(b)
    decreases a
  {
    if a == "" {
      Unit(b);
      Unit(Strip(b));
    } else {
      assert (a + b)[1..] == a[1..] + b;
      StripConcat(a[1..], b);
      Assoc(if IsSpace(a[0]) then "" else [a[0]], Strip(a[1..]), Strip(b));
    }
  }

  lemma {:induction false} StripSpaces(s: string)
    requires forall k :: 0 <= k < |s| ==> IsSpace(s[k])
    ensures Strip(s) == ""
    decreases s
  {
    if s != "" { StripSpaces(s[1..]); }
  }

  /** White space in front of a part of a text, then a piece of it, then the rest. */
  lemma StripThree(s: string, i: nat, b: nat, e: nat, end: nat)
    requires i <= b <= e <= end <= |s| && forall k :: i <= k < b ==> IsSpace(s[k])
    ensures Strip(s[i..end]) == Strip(s[b..e]) + Strip(s[e..end])
  {
    assert s[i..end] == s[i..b] + s[b..end] && s[b..end] == s[b..e] + s[e..end];
    StripConcat(s[i..b], s[b..end]);
    StripConcat(s[b..e], s[e..end]);
    StripSpaces(s[i..b]);
    Unit(Strip(s[b..end]));
  }

  function VariablesOf(toks: seq<Token>): set<string>
  {
    if toks == [] then {}
    else (if toks[0].Variable? then {toks[0].s} else {}) + VariablesOf(toks[1..])
  }

  /** No variable occurs twice. */
  predicate DistinctVariables(toks: seq<Token>)
  {
    toks == []
    || (DistinctVariables(toks[1..]) && (toks[0].Variable? ==> toks[0].s !in VariablesOf(toks[1..])))
  }

  lemma BehindSuffix(toks: seq<Token>)
    requires |toks| > 1 && toks[1].Suffix?
    ensures VariablesOf(toks[1..]) == VariablesOf(toks[2..])
    ensures DistinctVariables(toks[1..]) == DistinctVariables(toks[2..])
  {
    assert toks[1..][1..] == toks[2..];
  }

  /** The variables behind the first step of a match. */
  lemma FirstVariables(toks: seq<Token>, text: string, j: nat, bound: Bindings)
    requires j <= |text| && toks != [] && FirstMatch(toks, text, j, bound).Taken?
    ensures var st := FirstMatch(toks, text, j, bound);
            && VariablesOf(toks) == (if toks[0].Variable? then {toks[0].s} else {}) + VariablesOf(toks[st.n..])
            && (DistinctVariables(toks) ==>
                  && DistinctVariables(toks[st.n..])
                  && (toks[0].Variable? ==> toks[0].s !in VariablesOf(toks[st.n..])))
            && (forall x :: x in bound && toks[0] != Variable(x) ==> x in st.bound && st.bound[x] == bound[x])
            && (toks[0].Variable? ==> toks[0].s in st.bound)
  {
    if FirstMatch(toks, text, j, bound).n == 2 { BehindSuffix(toks); }
  }

  /** Matching leaves the bindings of other variables. */
  lemma {:induction false} MatchKeeps(toks: seq<Token>, text: string, j: nat, bound: Bindings, x: string)
    requires j <= |text| && Match(toks, text, j, bound).Matched? && x !in VariablesOf(toks) && x in bound
    ensures x in Match(toks, text, j, bound).defmap && Match(toks, text, j, bound).defmap[x] == bound[x]
    decreases |toks|
  {
    if toks != [] {
      var st := FirstMatch(toks, text, j, bound);
      FirstVariables(toks, text, j, bound);
      MatchKeeps(toks[st.n..], text, st.pos, st.bound, x);
    }
  }

  /** The bindings that are printed hold what the match has bound. */
  ghost predicate Prints(toks: seq<Token>, found: Bindings, defmap: Bindings, name: string, value: string)
  {
    forall x :: x in VariablesOf(toks) ==> x in found && Lookup(x, defmap, name, value) == Some(found[x])
  }

  /** What is printed from a pattern position, without white space. */
  function Printed(p: string, i: nat, defmap: Bindings, name: string, value: string): Option<string>
    requires i <= |p|
  {
    match Expand(p, i, defmap, name, value) case None => None case Some(s) => Some(Strip(s))
  }

  lemma PrintedChars(p: string, i: nat, b: nat, e: nat, defmap: Bindings, name: string, value: string)
    requires i <= b <= e <= |p| && (forall k :: i <= k < b ==> IsSpace(p[k])) && forall k :: i <= k < e ==> p[k] != '$'
    ensures Printed(p, i, defmap, name, value)
         == Prepend(Strip(p[b..e]), Printed(p, e, defmap, name, value))
  {
    ExpandChars(p, i, e, defmap, name, value);
    var x := Expand(p, e, defmap, name, value);
    StripThree(p, i, b, e, e);
    assert p[e..e] == "";
    Unit(Strip(p[b..e]));
    if x.Some? { StripConcat(p[i..e], x.value); }
  }

  /** A variable at b, its text and what stands behind it; a tilde is passed. */
  lemma PrintedVariable(p: string, i: nat, b: nat, e: nat, next: nat, text: string,
                        defmap: Bindings, name: string, value: string)
    requires i <= b < |p| - 1 && (forall k :: i <= k < b ==> IsSpace(p[k])) && p[b] == '$' && IsAlpha(p[b + 1])
    requires e == IdentEnd(p, b + 1) && next == if e < |p| && p[e] == '~' then e + 1 else e
    requires Lookup(p[b + 1..e], defmap, name, value) == Some(text)
    ensures Printed(p, i, defmap, name, value) == Prepend(Strip(text), Printed(p, next, defmap, name, value))
  {
    PrintedChars(p, i, b, b, defmap, name, value);
    assert p[b..b] == "";
    var x, y := Printed(p, b, defmap, name, value), Expand(p, next, defmap, name, value);
    if x.Some? { Unit(x.value); }
    ExpandVariable(p, b, defmap, name, value);
    if y.Some? { StripConcat(text, y.value); }
  }

  // what the tokens of a pattern print, without white space

  function TokenText(t: Token, defmap: Bindings, name: string, value: string): Option<string>
  {
    match t
    case Operator(c) => Some([c])
    case Identifier(s) => Some(s)
    case Variable(x) => Lookup(x, defmap, name, value)
    case Suffix(s) => Some(s)
  }

  function TokensText(toks: seq<Token>, defmap: Bindings, name: string, value: string): Option<string>
  {
    if toks == [] then Some("")
    else match TokenText(toks[0], defmap, name, value)
         case None => None
         case Some(s) => Prepend(Strip(s), TokensText(toks[1..], defmap, name, value))
  }

  lemma {:induction false} TextConcat(a: seq<Token>, b: seq<Token>, defmap: Bindings, name: string, value: string)
    ensures TokensText(a + b, defmap, name, value)
         == match TokensText(a, defmap, name, value)
            case None => None
            case Some(s) => Prepend(s, TokensText(b, defmap, name, value))
    decreases a
  {
    var r := TokensText(b, defmap, name, value);
    if a == [] {
      Unit(b);
      if r.Some? { Unit(r.value); }
    } else {
      assert (a + b)[1..] == a[1..] + b;
      TextConcat(a[1..], b, defmap, name, value);
      var s, t := TokenText(a[0], defmap, name, value), TokensText(a[1..], defmap, name, value);
      if s.Some? && t.Some? && r.Some? { Assoc(Strip(s.value), t.value, r.value); }
    }
  }

  lemma TextOne(t: Token, defmap: Bindings, name: string, value: string)
    requires TokenText(t, defmap, name, value).Some?
    ensures TokensText([t], defmap, name, value) == Some(Strip(TokenText(t, defmap, name, value).value))
  {
    Unit(Strip(TokenText(t, defmap, name, value).value));
  }

  lemma TextTwo(t: Token, u: Token, defmap: Bindings, name: string, value: string)
    requires TokenText(t, defmap, name, value).Some? && TokenText(u, defmap, name, value).Some?
    ensures TokensText([t, u], defmap, name, value)
         == Some(Strip(TokenText(t, defmap, name, value).value) + Strip(TokenText(u, defmap, name, value).value))
  {
    TextOne(t, defmap, name, value);
    TextOne(u, defmap, name, value);
    assert [t, u] == [t] + [u];
    TextConcat([t], [u], defmap, name, value);
  }

  lemma EndsSplit(ident: string, tail: string)
    requires Ends(ident, tail)
    ensures Strip(ident) == Strip(ident[..|ident| - |tail|]) + Strip(tail)
  {
    assert ident == ident[..|ident| - |tail|] + tail;
    StripConcat(ident[..|ident| - |tail|], tail);
  }

  lemma VariableText(toks: seq<Token>, text: string, j: nat, bound: Bindings,
                     defmap: Bindings, name: string, value: string)
    requires j <= |text| && toks != [] && toks[0].Variable? && FirstMatch(toks, text, j, bound).Taken?
    requires Lookup(toks[0].s, defmap, name, value) == Some(FirstMatch(toks, text, j, bound).bound[toks[0].s])
    ensures var st := FirstMatch(toks, text, j, bound);
            && SkipSpaces(text, j) <= st.pos
            && TokensText(toks[..st.n], defmap, name, value) == Some(Strip(text[SkipSpaces(text, j)..st.pos]))
  {
    var st, c := FirstMatch(toks, text, j, bound), SkipSpaces(text, j);
    if st.n == 2 {
      assert toks[..2] == [toks[0], toks[1]];
      TextTwo(toks[0], toks[1], defmap, name, value);
      EndsSplit(text[c..st.pos], toks[1].s);
    } else {
      assert toks[..1] == [toks[0]];
      TextOne(toks[0], defmap, name, value);
    }
  }

  /** The tokens of one step print what the step took, if the bound variable is printed. */
  lemma FirstText(toks: seq<Token>, text: string, j: nat, bound: Bindings, end: nat,
                  defmap: Bindings, name: string, value: string)
    requires j <= |text| && toks != [] && FirstMatch(toks, text, j, bound).Taken?
    requires FirstMatch(toks, text, j, bound).pos <= end <= |text|
    requires toks[0].Variable? ==>
               Lookup(toks[0].s, defmap, name, value) == Some(FirstMatch(toks, text, j, bound).bound[toks[0].s])
    ensures var st := FirstMatch(toks, text, j, bound);
            && TokensText(toks[..st.n], defmap, name, value).Some?
            && Strip(text[j..end]) == TokensText(toks[..st.n], defmap, name, value).value + Strip(text[st.pos..end])
  {
    var st, c := FirstMatch(toks, text, j, bound), SkipSpaces(text, j);
    StripThree(text, j, c, st.pos, end);
    if toks[0].Variable? {
      VariableText(toks, text, j, bound, defmap, name, value);
    } else {
      assert toks[..1] == [toks[0]];
      TextOne(toks[0], defmap, name, value);
      if toks[0].Operator? { assert text[c..c + 1] == [toks[0].c]; }
    }
  }

  /** Matching tokens and printing them. */
  lemma {:induction false} MatchedText(toks: seq<Token>, text: string, j: nat, bound: Bindings,
                                       defmap: Bindings, name: string, value: string)
    requires j <= |text| && DistinctVariables(toks) && Match(toks, text, j, bound).Matched?
    requires Prints(toks, Match(toks, text, j, bound).defmap, defmap, name, value)
    ensures TokensText(toks, defmap, name, value)
         == Some(Strip(text[j..Match(toks, text, j, bound).end]))
    decreases |toks|
  {
    if toks == [] {
      assert text[j..j] == "";
    } else {
      var st, end := FirstMatch(toks, text, j, bound), Match(toks, text, j, bound).end;
      FirstVariables(toks, text, j, bound);
      var rest := toks[st.n..];
      if toks[0].Variable? { MatchKeeps(rest, text, st.pos, st.bound, toks[0].s); }
      FirstText(toks, text, j, bound, end, defmap, name, value);
      MatchedText(rest, text, st.pos, st.bound, defmap, name, value);
      TextConcat(toks[..st.n], rest, defmap, name, value);
      assert toks[..st.n] + rest == toks;
    }
  }

  lemma TokenizeStep(p: string, i: nat, b: nat, first: seq<Token>, next: nat)
    requires i <= |p| && b == SkipSpaces(p, i) && b < |p| && FirstTokens(p, b) == Some((first, next))
    requires Tokenize(p, i).Some?
    ensures Tokenize(p, next).Some?
    ensures Tokenize(p, i).value == first + Tokenize(p, next).value
  {
  }

  lemma LiteralPrinted(p: string, i: nat, b: nat, next: nat, t: Token, defmap: Bindings, name: string, value: string)
    requires i <= |p| && b == SkipSpaces(p, i) && b < |p| && FirstTokens(p, b) == Some(([t], next))
    requires IsAlnum(p[b]) || IsOperator(p[b])
    ensures Printed(p, i, defmap, name, value)
         == Prepend(Strip(TokenText(t, defmap, name, value).value), Printed(p, next, defmap, name, value))
  {
    if IsOperator(p[b]) { assert p[b..next] == [p[b]]; }
    PrintedChars(p, i, b, next, defmap, name, value);
  }

  lemma SuffixPrinted(p: string, i: nat, b: nat, e: nat, next: nat, text: string,
                      defmap: Bindings, name: string, value: string)
    requires i <= b < |p| - 1 && (forall k :: i <= k < b ==> IsSpace(p[k])) && p[b] == '$' && IsAlpha(p[b + 1])
    requires e == IdentEnd(p, b + 1) && e < |p| && p[e] == '~' && next == IdentEnd(p, e + 1)
    requires Lookup(p[b + 1..e], defmap, name, value) == Some(text)
    ensures Printed(p, i, defmap, name, value)
         == Prepend(Strip(text) + Strip(p[e + 1..next]), Printed(p, next, defmap, name, value))
  {
    PrintedVariable(p, i, b, e, e + 1, text, defmap, name, value);
    PrintedTail(p, e + 1, next, Some(text), defmap, name, value);
  }

  /** The first tokens of a pattern position are printed by its template. */
  lemma FirstPrinted(p: string, i: nat, b: nat, first: seq<Token>, next: nat,
                     defmap: Bindings, name: string, value: string)
    requires i <= |p| && b == SkipSpaces(p, i) && b < |p| && FirstTokens(p, b) == Some((first, next))
    requires TokensText(first, defmap, name, value).Some?
    ensures Printed(p, i, defmap, name, value)
         == Prepend(TokensText(first, defmap, name, value).value, Printed(p, next, defmap, name, value))
  {
    if |first| == 2 {
      assert first == [first[0], first[1]];
      var e := IdentEnd(p, b + 1);
      SuffixPrinted(p, i, b, e, next, TokenText(first[0], defmap, name, value).value, defmap, name, value);
      TextTwo(first[0], first[1], defmap, name, value);
    } else {
      assert first == [first[0]];
      TextOne(first[0], defmap, name, value);
      if IsAlnum(p[b]) || IsOperator(p[b]) {
        LiteralPrinted(p, i, b, next, first[0], defmap, name, value);
      } else {
        var text := TokenText(first[0], defmap, name, value).value;
        PrintedVariable(p, i, b, next, next, text, defmap, name, value);
      }
    }
  }

  lemma PrintedTail(p: string, i: nat, next: nat, stem: Option<string>, defmap: Bindings, name: string, value: string)
    requires i <= |p| && next == IdentEnd(p, i) && stem.Some?
    ensures Prepend(Strip(stem.value), Printed(p, i, defmap, name, value))
         == Prepend(Strip(stem.value) + Strip(p[i..next]), Printed(p, next, defmap, name, value))
  {
    PrintedChars(p, i, i, next, defmap, name, value);
    var r := Printed(p, next, defmap, name, value);
    if r.Some? { Assoc(Strip(stem.value), Strip(p[i..next]), r.value); }
  }

  /** The template of a pattern prints the texts of its tokens. */
  lemma {:induction false} TokensPrinted(p: string, i: nat, defmap: Bindings, name: string, value: string)
    requires i <= |p| && Tokenize(p, i).Some? && TokensText(Tokenize(p, i).value, defmap, name, value).Some?
    ensures Printed(p, i, defmap, name, value) == TokensText(Tokenize(p, i).value, defmap, name, value)
    decreases |p| - i
  {
    var b := SkipSpaces(p, i);
    if b == |p| {
      PrintedChars(p, i, b, b, defmap, name, value);
      assert p[b..b] == "" && Printed(p, b, defmap, name, value) == Some("");
      Unit("");
    } else {
      var (first, next) := FirstTokens(p, b).value;
      TokenizeStep(p, i, b, first, next);
      TextConcat(first, Tokenize(p, next).value, defmap, name, value);
      TokensPrinted(p, next, defmap, name, value);
      FirstPrinted(p, i, b, first, next, defmap, name, value);
    }
  }

  /** A suffix never begins the tokens of a pattern. */
  lemma NoSuffixFirst(p: string, i: nat)
    requires i <= |p|
    ensures Tokenize(p, i).Some? && Tokenize(p, i).value != [] ==> !Tokenize(p, i).value[0].Suffix?
  {
  }

  /** Main result: for every pattern with distinct variables and every text it matches, printing the pattern's own
      template with the bindings of the match gives the consumed text up to white space. A name or value that is
      given when printing must not be a variable of the pattern. */
  lemma PatternRoundTrip(p: string, text: string, j: nat, name: string, value: string)
    requires j <= |text| && Tokenize(p, 0).Some? && DistinctVariables(Tokenize(p, 0).value)
    requires "name" in VariablesOf(Tokenize(p, 0).value) ==> name == ""
    requires "value" in VariablesOf(Tokenize(p, 0).value) ==> value == ""
    requires Match(Tokenize(p, 0).value, text, j, map[]).Matched?
    ensures var m := Match(Tokenize(p, 0).value, text, j, map[]);
            && Expand(p, 0, m.defmap, name, value).Some?
            && Strip(Expand(p, 0, m.defmap, name, value).value) == Strip(text[j..m.end])
  {
    var toks := Tokenize(p, 0).value;
    var m := Match(toks, text, j, map[]);
    forall x | x in VariablesOf(toks) ensures x in m.defmap { MatchBinds(toks, text, j, map[], x); }
    MatchedText(toks, text, j, map[], m.defmap, name, value);
    TokensPrinted(p, 0, m.defmap, name, value);
  }

  /** A match binds every variable of its pattern. */
  lemma {:induction false} MatchBinds(toks: seq<Token>, text: string, j: nat, bound: Bindings, x: string)
    requires j <= |text| && Match(toks, text, j, bound).Matched? && (x in VariablesOf(toks) || x in bound)
    ensures x in Match(toks, text, j, bound).defmap
    decreases |toks|
  {
    if toks != [] {
      var st := FirstMatch(toks, text, j, bound);
      FirstVariables(toks, text, j, bound);
      MatchBinds(toks[st.n..], text, st.pos, st.bound, x);
    }
  }

  /** Whether a suffix stands behind a variable everywhere. */
  predicate Legal(toks: seq<Token>)
    decreases |toks|
  {
    toks == []
    || (!toks[0].Suffix? && Legal(if toks[0].Variable? && |toks| > 1 && toks[1].Suffix? then toks[2..] else toks[1..]))
  }

  lemma {:induction false} PatternIsLegal(p: string, i: nat)
    requires i <= |p| && Tokenize(p, i).Some?
    ensures Legal(Tokenize(p, i).value)
    decreases |p| - i
  {
    var b := SkipSpaces(p, i);
    var toks := Tokenize(p, i).value;
    if b < |p| {
      var (first, next) := FirstTokens(p, b).value;
      TokenizeStep(p, i, b, first, next);
      PatternIsLegal(p, next);
      NoSuffixFirst(p, next);
      assert toks[0] == first[0];
      if |first| == 2 { assert toks[1] == first[1] && toks[2..] == Tokenize(p, next).value; }
    }
  }

  lemma {:induction false} LegalMatches(toks: seq<Token>, text: string, j: nat, bound: Bindings)
    requires j <= |text| && Legal(toks)
    ensures !Match(toks, text, j, bound).IllegalPattern?
    decreases |toks|
  {
    if toks != [] {
      var st := FirstMatch(toks, text, j, bound);
      if st.Taken? { LegalMatches(toks[st.n..], text, st.pos, st.bound); }
    }
  }

  /** The tokens of a pattern never raise the error of a misplaced suffix. */
  lemma PatternNeverRaises(p: string, text: string, j: nat)
    requires j <= |text| && Tokenize(p, 0).Some?
    ensures !Match(Tokenize(p, 0).value, text, j, map[]).IllegalPattern?
  {
    PatternIsLegal(p, 0);
    LegalMatches(Tokenize(p, 0).value, text, j, map[]);
  }

  // ---- patterns with repeated variables ----

  /** Number of tokens that match together: a variable has its suffix with it. */
  function StepSize(toks: seq<Token>): (n: nat)
    requires toks != []
    ensures 1 <= n <= |toks|
  {
    if toks[0].Variable? && |toks| > 1 && toks[1].Suffix? then 2 else 1
  }

  predicate IsIdent(s: string) { s != "" && forall i :: 0 <= i < |s| ==> IsAlnum(s[i]) }

  /** The texts that a pattern has in its tokens. */
  predicate Plain(toks: seq<Token>)
  {
    forall i :: 0 <= i < |toks| ==>
      match toks[i]
      case Operator(c) => IsOperator(c)
      case Identifier(s) => IsIdent(s)
      case Variable(_) => true
      case Suffix(s) => IsIdent(s)
  }

  lemma {:induction false} PatternIsPlain(p: string, i: nat)
    requires i <= |p| && Tokenize(p, i).Some?
    ensures Plain(Tokenize(p, i).value)
    decreases |p| - i
  {
    var b := SkipSpaces(p, i);
    if b < |p| {
      var (first, next) := FirstTokens(p, b).value;
      TokenizeStep(p, i, b, first, next);
      PatternIsPlain(p, next);
      FirstIsPlain(p, b);
    }
  }

  lemma FirstIsPlain(p: string, b: nat)
    requires b < |p| && FirstTokens(p, b).Some?
    ensures Plain(FirstTokens(p, b).value.0)
  {
  }

  /** What the first tokens match if their variable is bound to one character. */
  function Piece(toks: seq<Token>, stem: char): string
    requires toks != []
  {
    match toks[0]
    case Operator(c) => [c]
    case Identifier(s) => s
    case Variable(_) => [stem] + if StepSize(toks) == 2 then toks[1].s else ""
    case Suffix(s) => s
  }

  function Next(k: int): int { if k < 0 then -1 else k - 1 }

  function Stem(k: int): char { if k == 0 then 'a' else 'b' }

  /** A text that the tokens match: the variable in step k stands for "a", the others for "b". */
  function Sample(toks: seq<Token>, k: int): (s: string)
    ensures s != "" ==> s[0] == ' '
    decreases |toks|
  {
    if toks == [] then ""
    else " " + Piece(toks, Stem(k)) + Sample(toks[StepSize(toks)..], Next(k))
  }

  /** The variable of step k occurs again behind it. */
  predicate RepeatedAt(toks: seq<Token>, k: int)
    decreases |toks|
  {
    && toks != [] && k >= 0
    && if k == 0 then toks[0].Variable? && toks[0].s in VariablesOf(toks[StepSize(toks)..])
       else RepeatedAt(toks[StepSize(toks)..], k - 1)
  }

  lemma {:induction false} FindRepeated(toks: seq<Token>) returns (k: nat)
    requires Legal(toks) && !DistinctVariables(toks)
    ensures RepeatedAt(toks, k)
    decreases |toks|
  {
    var n := StepSize(toks);
    if n == 2 { BehindSuffix(toks); }
    if toks[0].Variable? && toks[0].s in VariablesOf(toks[n..]) {
      k := 0;
    } else {
      k := FindRepeated(toks[n..]);
      k := k + 1;
    }
  }

  lemma IdentUpTo(text: string, b: nat, e: nat)
    requires b <= e <= |text| && (forall i :: b <= i < e ==> IsAlnum(text[i])) && (e < |text| ==> !IsAlnum(text[e]))
    ensures IdentEnd(text, b) == e
    decreases e - b
  {
    if b < e { IdentUpTo(text, b + 1, e); }
  }

  /** Where the next character is, and that the piece behind it is whole. */
  lemma PieceAt(text: string, j: nat, piece: string, rest: string)
    requires j <= |text| && text[j..] == " " + piece + rest && piece != "" && !IsSpace(piece[0])
    requires rest != "" ==> rest[0] == ' '
    ensures SkipSpaces(text, j) == j + 1 && j + 1 + |piece| <= |text|
    ensures text[j + 1..j + 1 + |piece|] == piece && text[j + 1 + |piece|..] == rest
    ensures j + 1 + |piece| < |text| ==> text[j + 1 + |piece|] == ' '
    ensures IsIdent(piece) ==> IdentEnd(text, j + 1) == j + 1 + |piece|
  {
    var all := " " + piece + rest;
    forall i | 0 <= i < |all| ensures text[j + i] == all[i] { assert text[j..][i] == text[j + i]; }
    assert SkipSpaces(text, j) == SkipSpaces(text, j + 1);
    assert text[j + 1..j + 1 + |piece|] == piece by {
      forall i | 0 <= i < |piece| ensures text[j + 1 + i] == piece[i] { assert all[1 + i] == piece[i]; }
    }
    assert text[j + 1 + |piece|..] == rest by {
      forall i | 0 <= i < |rest| ensures text[j + 1 + |piece| + i] == rest[i] {
        assert all[1 + |piece| + i] == rest[i];
      }
    }
    if IsIdent(piece) {
      forall i | j + 1 <= i < j + 1 + |piece| ensures IsAlnum(text[i]) { assert all[i - j] == piece[i - j - 1]; }
      IdentUpTo(text, j + 1, j + 1 + |piece|);
    }
  }

  lemma SampleStep(toks: seq<Token>, text: string, j: nat, bound: Bindings, stem: char, rest: string)
    requires toks != [] && Plain(toks) && !toks[0].Suffix? && (stem == 'a' || stem == 'b') && j <= |text|
    requires text[j..] == " " + Piece(toks, stem) + rest && (rest != "" ==> rest[0] == ' ')
    ensures FirstMatch(toks, text, j, bound)
         == Taken(StepSize(toks), j + 1 + |Piece(toks, stem)|,
                  if toks[0].Variable? then bound[toks[0].s := [stem]] else bound)
    ensures text[j + 1 + |Piece(toks, stem)|..] == rest
  {
    var piece := Piece(toks, stem);
    PieceIsText(toks, stem);
    PieceAt(text, j, piece, rest);
    assert text[j + 1] == piece[0] by { assert text[j + 1..j + 1 + |piece|][0] == text[j + 1]; }
    if toks[0].Variable? {
      VariableStep(toks, text, j, bound, stem);
    } else {
      hide SkipSpaces, IdentEnd, IsIdent, Plain;
      assert HasAt(text, j + 1, piece);
      assert IsSpace(' ') && !IsAlnum(' ');
    }
  }

  lemma VariableStep(toks: seq<Token>, text: string, j: nat, bound: Bindings, stem: char)
    requires toks != [] && toks[0].Variable? && j + 1 < |text| && SkipSpaces(text, j) == j + 1
    requires var piece := Piece(toks, stem);
             var e := j + 1 + |piece|;
             && e <= |text| && IdentEnd(text, j + 1) == e && text[j + 1..e] == piece && IsAlpha(text[j + 1])
    ensures FirstMatch(toks, text, j, bound)
         == Taken(StepSize(toks), j + 1 + |Piece(toks, stem)|, bound[toks[0].s := [stem]])
  {
    hide SkipSpaces, IdentEnd;
    var piece := Piece(toks, stem);
    if StepSize(toks) == 2 {
      var tail := toks[1].s;
      assert piece[|piece| - |tail|..] == tail && piece[..|piece| - |tail|] == [stem];
    } else {
      Unit([stem]);
    }
  }

  lemma PieceIsText(toks: seq<Token>, stem: char)
    requires toks != [] && Plain(toks) && !toks[0].Suffix? && (stem == 'a' || stem == 'b')
    ensures var piece := Piece(toks, stem);
            && piece != "" && !IsSpace(piece[0]) && (!toks[0].Operator? ==> IsIdent(piece))
            && (toks[0].Variable? ==> piece[0] == stem)
  {
    if StepSize(toks) == 2 { assert IsIdent(toks[1].s); }
  }

  /** The sample is matched whole, and if its "a" stands for a variable that comes again, every variable is bound to
      "b" in the end. */
  lemma {:induction false} SampleMatches(toks: seq<Token>, text: string, j: nat, bound: Bindings, k: int)
    requires Legal(toks) && Plain(toks) && j <= |text| && text[j..] == Sample(toks, k)
    requires k < 0 || RepeatedAt(toks, k)
    ensures var m := Match(toks, text, j, bound);
            && m.Matched? && m.end == |text|
            && forall x :: x in VariablesOf(toks) ==> x in m.defmap && m.defmap[x] == "b"
    decreases |toks|
  {
    if toks != [] {
      hide *;
      LegalBehind(toks);
      RepeatedBehind(toks, k);
      var n, pos, more := SampleHead(toks, text, j, bound, k);
      NextOf(k);
      SampleMatches(toks[n..], text, pos, more, Next(k));
      MatchStep(toks, text, j, bound, n, pos, more);
      BoundInTheEnd(toks, text, pos, more, k);
    }
  }

  lemma NextOf(k: int)
    ensures Next(k) == if k < 0 then -1 else k - 1
    ensures [Stem(k)] == if k == 0 then "a" else "b"
  {
  }

  /** The first step of a sample. */
  lemma SampleHead(toks: seq<Token>, text: string, j: nat, bound: Bindings, k: int)
    returns (n: nat, pos: nat, more: Bindings)
    requires toks != [] && Legal(toks) && Plain(toks) && j <= |text| && text[j..] == Sample(toks, k)
    ensures n == StepSize(toks) && pos <= |text| && FirstMatch(toks, text, j, bound) == Taken(n, pos, more)
    ensures text[pos..] == Sample(toks[n..], Next(k))
    ensures more == if toks[0].Variable? then bound[toks[0].s := [Stem(k)]] else bound
  {
    n, pos := StepSize(toks), j + 1 + |Piece(toks, Stem(k))|;
    more := if toks[0].Variable? then bound[toks[0].s := [Stem(k)]] else bound;
    LegalBehind(toks);
    SampleSplit(toks, k);
    SampleStep(toks, text, j, bound, Stem(k), Sample(toks[n..], Next(k)));
    assert pos <= |text|;
  }

  lemma SampleSplit(toks: seq<Token>, k: int)
    requires toks != []
    ensures Sample(toks, k) == " " + Piece(toks, Stem(k))
                               + Sample(toks[StepSize(toks)..], Next(k))
  {
  }

  lemma RepeatedBehind(toks: seq<Token>, k: int)
    requires toks != [] && (k < 0 || RepeatedAt(toks, k))
    ensures k > 0 ==> RepeatedAt(toks[StepSize(toks)..], k - 1)
    ensures k == 0 ==> toks[0].Variable? && toks[0].s in VariablesOf(toks[StepSize(toks)..])
  {
  }

  lemma LegalBehind(toks: seq<Token>)
    requires toks != [] && Legal(toks) && Plain(toks)
    ensures !toks[0].Suffix? && Legal(toks[StepSize(toks)..]) && Plain(toks[StepSize(toks)..])
    ensures VariablesOf(toks) == (if toks[0].Variable? then {toks[0].s} else {}) + VariablesOf(toks[StepSize(toks)..])
  {
    if StepSize(toks) == 2 { BehindSuffix(toks); }
  }

  lemma MatchStep(toks: seq<Token>, text: string, j: nat, bound: Bindings, n: nat, pos: nat, more: Bindings)
    requires toks != [] && j <= |text| && FirstMatch(toks, text, j, bound) == Taken(n, pos, more)
    ensures n <= |toks| && pos <= |text| && Match(toks, text, j, bound) == Match(toks[n..], text, pos, more)
  {
  }

  /** A variable that is not bound behind the first step keeps its binding from there. */
  lemma BoundInTheEnd(toks: seq<Token>, text: string, pos: nat, more: Bindings, k: int)
    requires toks != [] && pos <= |text| && Match(toks[StepSize(toks)..], text, pos, more).Matched?
    requires VariablesOf(toks) == (if toks[0].Variable? then {toks[0].s} else {}) + VariablesOf(toks[StepSize(toks)..])
    requires toks[0].Variable? ==> toks[0].s in more && more[toks[0].s] == (if k == 0 then "a" else "b")
    requires k == 0 ==> toks[0].Variable? && toks[0].s in VariablesOf(toks[StepSize(toks)..])
    requires var m := Match(toks[StepSize(toks)..], text, pos, more);
             forall x :: x in VariablesOf(toks[StepSize(toks)..]) ==> x in m.defmap && m.defmap[x] == "b"
    ensures var m := Match(toks[StepSize(toks)..], text, pos, more);
            forall x :: x in VariablesOf(toks) ==> x in m.defmap && m.defmap[x] == "b"
  {
    hide Match, VariablesOf;
    if toks[0].Variable? && toks[0].s !in VariablesOf(toks[StepSize(toks)..]) {
      MatchKeeps(toks[StepSize(toks)..], text, pos, more, toks[0].s);
    }
  }

  lemma StripPiece(piece: string, rest: string)
    ensures Strip(" " + piece + rest) == Strip(piece) + Strip(rest)
  {
    StripConcat(" " + piece, rest);
    StripConcat(" ", piece);
    StripSpaces(" ");
    Unit(Strip(piece));
  }

  lemma StripOne(c: char)
    requires !IsSpace(c)
    ensures Strip([c]) == [c]
  {
    assert [c][1..] == "";
  }

  lemma StripStem(stem: char, tail: string)
    requires !IsSpace(stem)
    ensures Strip([stem] + tail) == [stem] + Strip(tail)
  {
    StripOne(stem);
    StripConcat([stem], tail);
  }

  lemma PieceText(toks: seq<Token>, defmap: Bindings)
    requires toks != [] && (toks[0].Variable? ==> toks[0].s in defmap && defmap[toks[0].s] == "b")
    ensures TokensText(toks[..StepSize(toks)], defmap, "", "") == Some(Strip(Piece(toks, 'b')))
  {
    if StepSize(toks) == 2 {
      assert toks[..2] == [toks[0], toks[1]];
      TextTwo(toks[0], toks[1], defmap, "", "");
      StripConcat("b", toks[1].s);
    } else {
      assert toks[..1] == [toks[0]];
      TextOne(toks[0], defmap, "", "");
      Unit("b");
    }
  }

  /** With every variable bound to "b", the tokens print the sample without an "a". */
  lemma {:induction false} SampleText(toks: seq<Token>, defmap: Bindings)
    requires Legal(toks) && forall x :: x in VariablesOf(toks) ==> x in defmap && defmap[x] == "b"
    ensures TokensText(toks, defmap, "", "") == Some(Strip(Sample(toks, -1)))
    decreases |toks|
  {
    if toks != [] {
      var n := StepSize(toks);
      assert toks[..n] + toks[n..] == toks;
      if n == 2 { BehindSuffix(toks); }
      SampleText(toks[n..], defmap);
      PieceText(toks, defmap);
      TextConcat(toks[..n], toks[n..], defmap, "", "");
      StripPiece(Piece(toks, 'b'), Sample(toks[n..], -1));
    }
  }

  lemma {:induction false} SampleDiffers(toks: seq<Token>, k: nat)
    requires RepeatedAt(toks, k)
    ensures Strip(Sample(toks, k)) != Strip(Sample(toks, -1))
    decreases |toks|
  {
    var n := StepSize(toks);
    var rest, more := Sample(toks[n..], k - 1), Sample(toks[n..], -1);
    StripPiece(Piece(toks, 'b'), more);
    if k == 0 {
      var tail := if n == 2 then toks[1].s else "";
      StripPiece(Piece(toks, 'a'), more);
      StripStem('a', tail);
      StripStem('b', tail);
      assert (['a'] + Strip(tail) + Strip(more))[0] == 'a' && (['b'] + Strip(tail) + Strip(more))[0] == 'b';
    } else {
      StripPiece(Piece(toks, 'b'), rest);
      SampleDiffers(toks[n..], k - 1);
      DifferentBehind(Strip(Piece(toks, 'b')), Strip(rest), Strip(more));
    }
  }

  lemma DifferentBehind(a: string, b: string, c: string)
    requires b != c
    ensures a + b != a + c
  {
    assert (a + b)[|a|..] == b && (a + c)[|a|..] == c;
  }

  /** What is matched is printed again, up to white space. */
  predicate PrintsBack(p: string, text: string, j: nat)
    requires j <= |text| && Tokenize(p, 0).Some?
  {
    var m := Match(Tokenize(p, 0).value, text, j, map[]);
    m.Matched? ==> Printed(p, 0, m.defmap, "", "") == Some(Strip(text[j..m.end]))
  }

  /** A repeated variable spoils the round trip of some text. */
  lemma RepeatedIsLost(p: string) returns (text: string)
    requires Tokenize(p, 0).Some? && !DistinctVariables(Tokenize(p, 0).value)
    ensures Match(Tokenize(p, 0).value, text, 0, map[]).Matched? && !PrintsBack(p, text, 0)
  {
    var toks := Tokenize(p, 0).value;
    PatternIsLegal(p, 0);
    PatternIsPlain(p, 0);
    var k := FindRepeated(toks);
    text := Sample(toks, k);
    assert text[0..] == text;
    SampleMatches(toks, text, 0, map[], k);
    var m := Match(toks, text, 0, map[]);
    SampleText(toks, m.defmap);
    TokensPrinted(p, 0, m.defmap, "", "");
    SampleDiffers(toks, k);
    assert text[0..m.end] == text;
  }

  /** Matching and printing undo each other for every text exactly if no variable occurs twice in the pattern. */
  lemma RoundTripIsExact(p: string)
    requires Tokenize(p, 0).Some?
    ensures DistinctVariables(Tokenize(p, 0).value)
       <==> forall text: string, j: nat :: j <= |text| ==> PrintsBack(p, text, j)
  {
    if DistinctVariables(Tokenize(p, 0).value) {
      forall text: string, j: nat | j <= |text| ensures PrintsBack(p, text, j) {
        if Match(Tokenize(p, 0).value, text, j, map[]).Matched? { PatternRoundTrip(p, text, j, "", ""); }
      }
    } else {
      var text := RepeatedIsLost(p);
      assert !PrintsBack(p, text, 0);
    }
  }

  lemma DuplicateTokens()
    ensures Tokenize("$x $x", 0) == Some([Variable("x"), Variable("x")])
  {
    var p := "$x $x";
    assert IdentEnd(p, 1) == IdentEnd(p, 2) == 2 && IdentEnd(p, 4) == IdentEnd(p, 5) == 5;
    assert SkipSpaces(p, 0) == 0 && SkipSpaces(p, 2) == SkipSpaces(p, 3) == 3;
    assert p[1..2] == "x" && p[4..5] == "x";
    assert FirstTokens(p, 0) == Some(([Variable("x")], 2));
    assert FirstTokens(p, 3) == Some(([Variable("x")], 5));
    assert Tokenize(p, 5) == Some([]);
    assert Tokenize(p, 2) == Some([Variable("x")] + []);
    assert [Variable("x")] + [] == [Variable("x")];
    assert [Variable("x")] + [Variable("x")] == [Variable("x"), Variable("x")];
  }

  lemma DuplicateMatch()
    ensures Match([Variable("x"), Variable("x")], "a b", 0, map[]) == Matched(map["x" := "b"], 3)
  {
    var t, toks := "a b", [Variable("x"), Variable("x")];
    assert IdentEnd(t, 0) == IdentEnd(t, 1) == 1 && IdentEnd(t, 2) == IdentEnd(t, 3) == 3;
    assert SkipSpaces(t, 0) == 0 && SkipSpaces(t, 1) == SkipSpaces(t, 2) == 2;
    assert t[0..1] == "a" && t[2..3] == "b";
    assert FirstMatch(toks, t, 0, map[]) == Taken(1, 1, map["x" := "a"]);
    assert toks[1..] == [Variable("x")] && toks[1..][1..] == [];
    assert FirstMatch(toks[1..], t, 1, map["x" := "a"]) == Taken(1, 3, map["x" := "b"]) by {
      assert map["x" := "a"]["x" := "b"] == map["x" := "b"];
    }
    assert Match(toks[1..], t, 1, map["x" := "a"]) == Match([], t, 3, map["x" := "b"]);
  }

  /** For example: the last binding wins, and the printed text is another one. */
  lemma DuplicateVariable()
    ensures var toks := Tokenize("$x $x", 0);
            && toks.Some? && Match(toks.value, "a b", 0, map[]) == Matched(map["x" := "b"], 3)
            && Printed("$x $x", 0, map["x" := "b"], "", "") == Some("bb") && Strip("a b") == "ab"
  {
    DuplicateTokens();
    DuplicateMatch();
    DuplicateText();
    TokensPrinted("$x $x", 0, map["x" := "b"], "", "");
    StripPair('a', 'b');
    assert "a b" == ['a'] + " " + ['b'] && "ab" == ['a', 'b'];
  }

  lemma StripPair(c: char, d: char)
    requires !IsSpace(c) && !IsSpace(d)
    ensures Strip([c] + " " + [d]) == [c, d]
  {
    StripConcat([c] + " ", [d]);
    StripConcat([c], " ");
    StripSpaces(" ");
    StripOne(c);
    StripOne(d);
  }

  lemma DuplicateText()
    ensures TokensText([Variable("x"), Variable("x")], map["x" := "b"], "", "") == Some("bb")
  {
    StripOne('b');
    TextTwo(Variable("x"), Variable("x"), map["x" := "b"], "", "");
    assert "b" + "b" == "bb";
  }

  // ---- the type ----

  method ParseIdentifier(s: string, si: nat) returns (ident: string, end: nat)
    requires si <= |s|
    ensures end == IdentEnd(s, si) && ident == s[si..end]
  {
    ident := "";
    end := si;
    while end < |s| && IsAlnum(s[end])
      invariant si <= end <= |s| && ident == s[si..end] && IdentEnd(s, si) == IdentEnd(s, end)
    {
      ident := ident + [s[end]];
      end := end + 1;
    }
  }

  method ParsePattern(p: string) returns (r: Option<seq<Token>>)
    ensures r == Tokenize(p, 0)
  {
    var toks: seq<Token> := [];
    var si := SkipSpaces(p, 0);
    SkipSpacesOnce(p, 0);
    PrependNothing(Tokenize(p, 0));
    while si < |p|
      invariant 0 <= si <= |p| && SkipSpaces(p, si) == si
      invariant Tokenize(p, 0) == Prepend(toks, Tokenize(p, si))
      decreases |p| - si
    {
      ghost var at, first := si, FirstTokens(p, si);
      var more, next := ParseTokens(p, si);
      if more.None? { return None; }
      AppendTokens(p, at, toks);
      toks := toks + more.value;
      si := SkipSpaces(p, next);
      SkipSpacesOnce(p, next);
    }
    Unit(toks);
    return Some(toks);
  }

  lemma PrependNothing<T>(r: Option<seq<T>>)
    ensures Prepend([], r) == r
  {
    if r.Some? { Unit(r.value); }
  }

  lemma SkipSpacesOnce(p: string, i: nat)
    requires i <= |p|
    ensures SkipSpaces(p, SkipSpaces(p, i)) == SkipSpaces(p, i)
    ensures Tokenize(p, SkipSpaces(p, i)) == Tokenize(p, i)
  {
  }

  lemma AppendTokens(p: string, i: nat, toks: seq<Token>)
    requires i < |p| && SkipSpaces(p, i) == i && FirstTokens(p, i).Some?
    ensures var (first, next) := FirstTokens(p, i).value;
            Prepend(toks, Tokenize(p, i)) == Prepend(toks + first, Tokenize(p, next))
  {
    var (first, next) := FirstTokens(p, i).value;
    var r := Tokenize(p, next);
    if r.Some? { Assoc(toks, first, r.value); }
  }

  method ParseTokens(p: string, si: nat) returns (r: Option<seq<Token>>, next: nat)
    requires si < |p|
    ensures match FirstTokens(p, si)
            case None => r == None
            case Some(f) => r == Some(f.0) && next == f.1
  {
    next := si;
    if IsAlnum(p[si]) {
      var ident;
      ident, next := ParseIdentifier(p, si);
      return Some([Identifier(ident)]), next;
    }
    if IsOperator(p[si]) { return Some([Operator(p[si])]), si + 1; }
    if p[si] != '$' || si + 1 == |p| || !IsAlpha(p[si + 1]) { return None, next; }
    var variable;
    variable, next := ParseIdentifier(p, si + 1);
    if next < |p| && p[next] == '~' {
      next := next + 1;
      if next == |p| || !IsAlpha(p[next]) { return None, next; }
      var tail;
      tail, next := ParseIdentifier(p, next);
      return Some([Variable(variable), Suffix(tail)]), next;
    }
    return Some([Variable(variable)]), next;
  }

  method ParseTemplate(src: string) returns (r: Option<seq<Chunk>>)
    ensures r == Template(src, 0, "")
  {
    var chunks: seq<Chunk> := [];
    var value := "";
    var oi := 0;
    PrependNothing(Template(src, 0, ""));
    while oi < |src|
      invariant 0 <= oi <= |src| && Template(src, 0, "") == Prepend(chunks, Template(src, oi, value))
      decreases |src| - oi
    {
      if src[oi] == '$' {
        AppendChunks(src, oi, value, chunks);
        Unit(chunks);
        if value != "" {
          chunks := chunks + [OutputString(value)];
          value := "";
        }
        oi := oi + 1;
        if oi == |src| || !IsAlpha(src[oi]) { return None; }
        var ident;
        ident, oi := ParseIdentifier(src, oi);
        chunks := chunks + [OutputVariable(ident)];
        if oi < |src| && src[oi] == '~' { oi := oi + 1; }
      } else {
        value := value + [src[oi]];
        oi := oi + 1;
      }
    }
    Unit(chunks);
    if value != "" { chunks := chunks + [OutputString(value)]; }
    return Some(chunks);
  }

  lemma AppendChunks(p: string, i: nat, v: string, chunks: seq<Chunk>)
    requires i < |p|
    ensures p[i] == '$' && i + 1 < |p| && IsAlpha(p[i + 1]) ==>
              var e := IdentEnd(p, i + 1);
              var next := if e < |p| && p[e] == '~' then e + 1 else e;
              Prepend(chunks, Template(p, i, v))
              == Prepend(chunks + Flush(v) + [OutputVariable(p[i + 1..e])], Template(p, next, ""))
  {
    if p[i] == '$' && i + 1 < |p| && IsAlpha(p[i + 1]) {
      var e := IdentEnd(p, i + 1);
      var r := Template(p, if e < |p| && p[e] == '~' then e + 1 else e, "");
      var variable := [OutputVariable(p[i + 1..e])];
      Assoc(chunks, Flush(v), variable);
      if r.Some? { Assoc(chunks, Flush(v) + variable, r.value); }
    }
  }

  method PrintChunks(chunks: seq<Chunk>, defmap: Bindings, name: string, value: string) returns (r: Option<string>)
    ensures r == Print(chunks, defmap, name, value)
  {
    var out := "";
    var ci := 0;
    assert chunks[0..] == chunks;
    PrependNothing(Print(chunks, defmap, name, value));
    while ci < |chunks|
      invariant 0 <= ci <= |chunks|
      invariant Print(chunks, defmap, name, value) == Prepend(out, Print(chunks[ci..], defmap, name, value))
    {
      assert chunks[ci..][1..] == chunks[ci + 1..];
      var text := ChunkText(chunks[ci], defmap, name, value);
      if text.None? { return None; }
      ghost var rest := Print(chunks[ci + 1..], defmap, name, value);
      if rest.Some? { Assoc(out, text.value, rest.value); }
      out := out + text.value;
      ci := ci + 1;
    }
    Unit(out);
    return Some(out);
  }

  lemma HasAtEach(text: string, j: nat, s: string, k: nat)
    requires k < |s| && j + k < |text|
    ensures HasAt(text, j, s) ==> text[j + k] == s[k]
  {
    if HasAt(text, j, s) { assert text[j..j + |s|][k] == s[k]; }
  }

  lemma OneMore(text: string, j: nat, s: string, k: nat)
    requires k < |s| && j + k < |text| && text[j..j + k] == s[..k] && text[j + k] == s[k]
    ensures text[j..j + (k + 1)] == s[..k + 1]
  {
    assert text[j..j + (k + 1)] == text[j..j + k] + [text[j + k]];
    assert s[..k + 1] == s[..k] + [s[k]];
  }

  /** A type of the interface description: its tokens and the templates of its events. */
  class VariableType {
    const source: string
    const tokendefs: seq<Token>
    var output: map<string, seq<Chunk>>

    constructor (source: string, tokendefs: seq<Token>)
      ensures this.source == source && this.tokendefs == tokendefs && output == map[]
    {
      this.source := source;
      this.tokendefs := tokendefs;
      output := map[];
    }

    /** Defines the text of an event; an ill-formed template is an error. */
    method DefineOutput(event: string, template: string) returns (ok: bool)
      modifies this
      ensures ok <==> Template(template, 0, "").Some?
      ensures output == if ok then old(output)[event := Template(template, 0, "").value] else old(output)
    {
      var chunks := ParseTemplate(template);
      if chunks.None? { return false; }
      output := output[event := chunks.value];
      return true;
    }

    /** Matches source text from a position; without a match, nothing changes for the caller. */
    method Parse(text: string, si: nat) returns (r: MatchResult)
      requires si <= |text|
      ensures r == Match(tokendefs, text, si, map[])
    {
      var bound: Bindings := map[];
      var pos: nat, ti: nat := si, 0;
      assert tokendefs[0..] == tokendefs;
      while ti < |tokendefs|
        invariant 0 <= ti <= |tokendefs| && pos <= |text|
        invariant Match(tokendefs, text, si, map[]) == Match(tokendefs[ti..], text, pos, bound)
        decreases |tokendefs| - ti
      {
        ghost var rest := tokendefs[ti..];
        var st := ParseToken(text, pos, ti, bound);
        if st == Refused { return NoMatch; }
        if st == Illegal { return IllegalPattern; }
        assert rest[st.n..] == tokendefs[ti + st.n..];
        pos, bound, ti := st.pos, st.bound, ti + st.n;
      }
      return Matched(bound, pos);
    }

    method ParseToken(text: string, at: nat, ti: nat, bound: Bindings) returns (r: Step)
      requires at <= |text| && ti < |tokendefs|
      ensures r == FirstMatch(tokendefs[ti..], text, at, bound)
    {
      var si := SkipSpaces(text, at);
      if si == |text| { return Refused; }
      match tokendefs[ti] {
        case Operator(c) =>
          return if text[si] == c then Taken(1, si + 1, bound) else Refused;
        case Identifier(s) =>
          var vi := 0;
          while vi < |s| && si + vi < |text|
            invariant 0 <= vi <= |s| && si + vi <= |text| && text[si..si + vi] == s[..vi]
          {
            if text[si + vi] != s[vi] {
              HasAtEach(text, si, s, vi);
              return Refused;
            }
            OneMore(text, si, s, vi);
            vi := vi + 1;
          }
          if vi < |s| { return Refused; }
          assert s[..vi] == s;
          if si + vi < |text| && IsAlnum(text[si + vi]) { return Refused; }
          return Taken(1, si + vi, bound);
        case Variable(x) =>
          if !IsAlpha(text[si]) { return Refused; }
          var ident, e := ParseIdentifier(text, si);
          if ti + 1 < |tokendefs| && tokendefs[ti + 1].Suffix? {
            var tail := tokendefs[ti + 1].s;
            if !Ends(ident, tail) { return Refused; }
            return Taken(2, e, bound[x := ident[..|ident| - |tail|]]);
          }
          return Taken(1, e, bound[x := ident]);
        case Suffix(_) =>
          return Illegal;
      }
    }

    /** The text of an event; the empty text for an event that is not defined. */
    method ExpandEvent(event: string, defmap: Bindings, name: string, value: string) returns (r: Option<string>)
      ensures r == if event in output then Print(output[event], defmap, name, value) else Some("")
    {
      if event !in output { return Some(""); }
      r := PrintChunks(output[event], defmap, name, value);
    }
  }

  /** A new type whose own pattern is the template of its "type" and its "scopedtype". */
  method Define(pattern: string) returns (r: VariableType?)
    ensures r != null <==> Tokenize(pattern, 0).Some? && Template(pattern, 0, "").Some?
    ensures r != null ==> fresh(r) && r.source == pattern && r.tokendefs == Tokenize(pattern, 0).value
    ensures r != null ==> r.output == map["scopedtype" := Template(pattern, 0, "").value,
                                          "type" := Template(pattern, 0, "").value]
  {
    var toks := ParsePattern(pattern);
    if toks.None? { return null; }
    var t := new VariableType(pattern, toks.value);
    var ok := t.DefineOutput("scopedtype", pattern);
    if !ok { return null; }
    ok := t.DefineOutput("type", pattern);
    return t;
  }
}
