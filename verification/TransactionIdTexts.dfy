/** Which texts are identifiers of transactions, and of which indices: beyond what is printed, two hexadecimal
    numbers of at most eight characters with white space, a sign and a prefix in front of their digits. */
module TransactionIdTexts {
  import opened Wrappers
  import opened TransactionId

  datatype HexDigit = HexDigit(v: nat, upper: bool)

  datatype Sign = NoSign | Plus | Minus

  datatype Number = Number(space: string, sign: Sign, prefix: Option<char>, digits: seq<HexDigit>)

  function Spell(d: HexDigit): char
    requires d.v < 16
  {
    if d.v < 10 then '0' + d.v as char else if d.upper then 'A' + (d.v - 10) as char else 'a' + (d.v - 10) as char
  }

  predicate AreDigits(ds: seq<HexDigit>) { forall i :: 0 <= i < |ds| ==> ds[i].v < 16 }

  function SpellAll(ds: seq<HexDigit>): (s: string)
    requires AreDigits(ds)
    ensures |s| == |ds|
  {
    seq(|ds|, i requires 0 <= i < |ds| => Spell(ds[i]))
  }

  /** The number with these digits. */
  function Meaning(ds: seq<HexDigit>): nat
  {
    if ds == [] then 0 else 16 * Meaning(ds[..|ds| - 1]) + ds[|ds| - 1].v
  }

  function SignText(s: Sign): string
  {
    match s
    case NoSign => ""
    case Plus => "+"
    case Minus => "-"
  }

  function PrefixText(p: Option<char>): string { if p.Some? then "0" + [p.value] else "" }

  function Text(n: Number): string
    requires AreDigits(n.digits)
  {
    n.space + (SignText(n.sign) + (PrefixText(n.prefix) + SpellAll(n.digits)))
  }

  /** White space, and then at most eight characters with at least one digit. */
  predicate Fits(n: Number)
  {
    && (forall i :: 0 <= i < |n.space| ==> n.space[i] == ' ' || '\t' <= n.space[i] <= '\r')
    && (n.prefix.Some? ==> n.prefix.value == 'x' || n.prefix.value == 'X')
    && AreDigits(n.digits)
    && 1 <= |n.digits| && |SignText(n.sign)| + |PrefixText(n.prefix)| + |n.digits| <= 8
  }

  predicate IsDigit(c: char) { '0' <= c <= '9' || 'a' <= c <= 'f' || 'A' <= c <= 'F' }

  /** What follows does not belong to the number: it begins with no digit unless the number is full, and it does not
      make a prefix of a single zero. */
  predicate Ends(n: Number, tail: string)
  {
    tail != "" ==>
      && (IsDigit(tail[0]) ==> |SignText(n.sign)| + |PrefixText(n.prefix)| + |n.digits| == 8)
      && (tail[0] == 'x' || tail[0] == 'X' ==> !(n.prefix.None? && |n.digits| == 1 && n.digits[0].v == 0))
  }

  /** A minus sign gives the complement to 32 bits. */
  function ValueOf(n: Number): nat
    requires Fits(n)
  {
    if n.sign == Minus then (MOD32 - Small(n.digits)) % MOD32 else Small(n.digits)
  }

  /** Eight digits fit into 32 bits. */
  function Small(ds: seq<HexDigit>): (v: nat)
    requires AreDigits(ds) && |ds| <= 8
    ensures v < MOD32
  {
    MeaningFits(ds);
    Meaning(ds)
  }

  lemma {:induction false} MeaningBelow(ds: seq<HexDigit>)
    requires AreDigits(ds)
    ensures Meaning(ds) < Pow16(|ds|)
  {
    if ds != [] { MeaningBelow(ds[..|ds| - 1]); }
  }

  lemma {:induction false} Pow16Grows(e: nat, f: nat)
    requires e <= f
    ensures Pow16(e) <= Pow16(f)
    decreases f
  {
    if e < f { Pow16Grows(e, f - 1); }
  }

  lemma MeaningFits(ds: seq<HexDigit>)
    requires AreDigits(ds) && |ds| <= 8
    ensures Meaning(ds) < MOD32
  {
    MeaningBelow(ds);
    Pow16Grows(|ds|, 8);
    Pow16Is32Bit();
  }

  // ---- reading digits ----

  lemma DigitIsSpelled(c: char)
    ensures DigitValue(c).Some? <==> IsDigit(c)
    ensures DigitValue(c).Some? ==>
              var d := HexDigit(DigitValue(c).value, 'A' <= c <= 'F'); d.v < 16 && Spell(d) == c
  {
  }

  lemma SpelledIsDigit(d: HexDigit)
    requires d.v < 16
    ensures IsDigit(Spell(d)) && DigitValue(Spell(d)) == Some(d.v)
  {
  }

  lemma {:induction false} MeaningAppend(d: HexDigit, ds: seq<HexDigit>)
    ensures Meaning([d] + ds) == d.v * Pow16(|ds|) + Meaning(ds)
  {
    var all := [d] + ds;
    if ds == [] {
      assert all[..0] == [];
    } else {
      var front := ds[..|ds| - 1];
      MeaningAppend(d, front);
      assert all[..|all| - 1] == [d] + front;
    }
  }

  /** At most `width` digits are read in front of something that is no digit. */
  lemma {:induction false} DigitsRead(ds: seq<HexDigit>, tail: string, width: nat, acc: nat)
    requires AreDigits(ds) && |ds| <= width && (tail != "" && IsDigit(tail[0]) ==> |ds| == width)
    ensures ScanHex(SpellAll(ds) + tail, width, acc) == (acc * Pow16(|ds|) + Meaning(ds), |ds|, tail)
    decreases ds
  {
    var s := SpellAll(ds) + tail;
    if ds == [] {
      assert s == tail;
      if tail != "" { DigitIsSpelled(tail[0]); }
    } else {
      SpelledIsDigit(ds[0]);
      var next := 16 * acc + ds[0].v;
      assert ds == [ds[0]] + ds[1..];
      assert s[1..] == SpellAll(ds[1..]) + tail;
      DigitsRead(ds[1..], tail, width - 1, next);
      MeaningAppend(ds[0], ds[1..]);
      Distribute(acc, ds[0].v, Pow16(|ds| - 1));
    }
  }

  lemma Distribute(acc: nat, v: nat, p: nat)
    ensures (16 * acc + v) * p == acc * (16 * p) + v * p
  {
  }

  lemma {:induction false} SpacesSkipped(space: string, rest: string)
    requires forall i :: 0 <= i < |space| ==> space[i] == ' ' || '\t' <= space[i] <= '\r'
    requires rest != "" ==> !IsSpace(rest[0])
    ensures SkipSpace(space + rest) == rest
  {
    if space == "" {
      assert space + rest == rest;
    } else {
      assert (space + rest)[1..] == space[1..] + rest;
      SpacesSkipped(space[1..], rest);
    }
  }

  lemma SpelledBegins(ds: seq<HexDigit>, tail: string)
    requires AreDigits(ds)
    ensures var body := SpellAll(ds) + tail;
            && (ds != [] ==> IsDigit(body[0]) && (body[0] == '0' <==> ds[0].v == 0))
            && (|ds| > 1 ==> IsDigit(body[1]))
            && (|ds| == 1 && tail != "" ==> body[1] == tail[0])
  {
    var body := SpellAll(ds) + tail;
    if ds != [] {
      assert body[0] == Spell(ds[0]);
      SpelledIsDigit(ds[0]);
      if |ds| > 1 {
        assert body[1] == Spell(ds[1]);
        SpelledIsDigit(ds[1]);
      }
    }
  }

  /** The conversion of a text whose sign has been taken off. */
  function Unsigned(sign: Sign, body: string): Option<(nat, string)>
  {
    var prefix := if |body| > 1 && body[0] == '0' && (body[1] == 'x' || body[1] == 'X') then 2 else 0;
    var (v, n, rest) := ScanHex(body[prefix..], 8 - (if sign.NoSign? then 0 else 1) - prefix, 0);
    if n == 0 then None else Some((Word32(if sign.Minus? then 0 - v as int else v), rest))
  }

  lemma SignRead(sign: Sign, body: string)
    requires sign.NoSign? ==> body == "" || !(IsSpace(body[0]) || body[0] == '-' || body[0] == '+')
    ensures ScanNumber(SignText(sign) + body) == Unsigned(sign, body)
  {
    hide ScanHex;
    var text := SignText(sign) + body;
    assert SkipSpace(text) == text;
    assert text[|SignText(sign)|..] == body;
  }

  lemma PrefixRead(n: Number, tail: string)
    requires Fits(n) && Ends(n, tail)
    ensures var body := PrefixText(n.prefix) + (SpellAll(n.digits) + tail);
            && Unsigned(n.sign, body) == Some((ValueOf(n), tail))
            && IsDigit(body[0])
  {
    hide ScanHex, SpellAll, Meaning, Pow16;
    var digits := SpellAll(n.digits) + tail;
    var body := PrefixText(n.prefix) + digits;
    SpelledBegins(n.digits, tail);
    assert body[|PrefixText(n.prefix)|..] == digits;
    DigitsRead(n.digits, tail, 8 - |SignText(n.sign)| - |PrefixText(n.prefix)|, 0);
    MeaningFits(n.digits);
  }

  /** A number in any of its forms is read as its value, and what follows is left. */
  lemma NumberRead(n: Number, tail: string)
    requires Fits(n) && Ends(n, tail)
    ensures ScanNumber(Text(n) + tail) == Some((ValueOf(n), tail))
  {
    var body := PrefixText(n.prefix) + (SpellAll(n.digits) + tail);
    var text := SignText(n.sign) + body;
    PrefixRead(n, tail);
    SignRead(n.sign, body);
    assert Text(n) + tail == n.space + text by {
      TextParts(n.space, SignText(n.sign), PrefixText(n.prefix), SpellAll(n.digits), tail);
    }
    assert text != "" && !IsSpace(text[0]);
    hide Ends, ValueOf, ScanHex, SpellAll, Unsigned;
    SpacesSkipped(n.space, text);
    assert SkipSpace(text) == text;
    BehindSpaces(n.space, text);
  }

  lemma TextParts(a: string, b: string, c: string, d: string, e: string)
    ensures a + (b + (c + d)) + e == a + (b + (c + (d + e)))
  {
  }

  lemma BehindSpaces(space: string, text: string)
    requires SkipSpace(space + text) == text == SkipSpace(text)
    ensures ScanNumber(space + text) == ScanNumber(text)
  {
    hide ScanHex;
  }

  // ---- nothing else is read ----

  lemma {:induction false} SpacesFound(s: string) returns (space: string)
    ensures s == space + SkipSpace(s)
    ensures forall i :: 0 <= i < |space| ==> space[i] == ' ' || '\t' <= space[i] <= '\r'
    ensures SkipSpace(s) != "" ==> !IsSpace(SkipSpace(s)[0])
  {
    if s != "" && IsSpace(s[0]) {
      var more := SpacesFound(s[1..]);
      space := [s[0]] + more;
      assert s == [s[0]] + s[1..];
    } else {
      space := "";
    }
  }

  lemma {:induction false} DigitsFound(s: string, width: nat, acc: nat) returns (ds: seq<HexDigit>)
    ensures var (_, n, rest) := ScanHex(s, width, acc);
            && |ds| == n <= width && AreDigits(ds) && s == SpellAll(ds) + rest
            && (rest != "" && IsDigit(rest[0]) ==> n == width)
    decreases s
  {
    ds := [];
    if s != "" { DigitIsSpelled(s[0]); }
    if width > 0 && s != "" && DigitValue(s[0]).Some? {
      var more := DigitsFound(s[1..], width - 1, 16 * acc + DigitValue(s[0]).value);
      var d := HexDigit(DigitValue(s[0]).value, 'A' <= s[0] <= 'F');
      ds := [d] + more;
      assert s == [s[0]] + s[1..];
      assert SpellAll(ds) == [Spell(d)] + SpellAll(more);
    }
  }

  function PrefixOf(body: string): Option<char>
  {
    if |body| > 1 && body[0] == '0' && (body[1] == 'x' || body[1] == 'X') then Some(body[1]) else None
  }

  lemma UnsignedParts(sign: Sign, body: string)
    ensures var prefix := PrefixText(PrefixOf(body));
            && |prefix| <= |body| && |prefix| <= 2 && body == prefix + body[|prefix|..]
            && (Unsigned(sign, body).Some? <==>
                  ScanHex(body[|prefix|..], 8 - (if sign.NoSign? then 0 else 1) - |prefix|, 0).1 > 0)
  {
    hide ScanHex;
  }

  lemma BodyFound(sign: Sign, body: string) returns (n: Number, tail: string)
    requires Unsigned(sign, body).Some?
    ensures n.space == "" && n.sign == sign && Fits(n) && Ends(n, tail)
    ensures body == PrefixText(n.prefix) + SpellAll(n.digits) + tail
  {
    UnsignedParts(sign, body);
    hide SpellAll, Fits, Ends, Unsigned, PrefixOf;
    var prefix := PrefixOf(body);
    var rest := body[|PrefixText(prefix)|..];
    var width := 8 - (if sign.NoSign? then 0 else 1) - |PrefixText(prefix)|;
    var ds := DigitsFound(rest, width, 0);
    tail := ScanHex(rest, width, 0).2;
    n := Number("", sign, prefix, ds);
    hide ScanHex;
    assert body == PrefixText(prefix) + (SpellAll(ds) + tail) == PrefixText(prefix) + SpellAll(ds) + tail;
    FoundFits(n, tail);
  }

  lemma FoundFits(n: Number, tail: string)
    requires AreDigits(n.digits) && n.digits != [] && n.space == ""
    requires |SignText(n.sign)| + |PrefixText(n.prefix)| + |n.digits| <= 8
    requires n.prefix == PrefixOf(PrefixText(n.prefix) + (SpellAll(n.digits) + tail))
    requires tail != "" && IsDigit(tail[0]) ==> |SignText(n.sign)| + |PrefixText(n.prefix)| + |n.digits| == 8
    ensures Fits(n) && Ends(n, tail)
  {
    hide SpellAll;
    SpelledBegins(n.digits, tail);
    var body := PrefixText(n.prefix) + (SpellAll(n.digits) + tail);
    assert n.prefix.None? ==> body == SpellAll(n.digits) + tail;
  }

  /** Whatever is read as a number is one of these texts. */
  lemma NumberFound(s: string) returns (n: Number, tail: string)
    requires ScanNumber(s).Some?
    ensures Fits(n) && Ends(n, tail) && s == Text(n) + tail
  {
    var text := SkipSpace(s);
    var space := SpacesFound(s);
    var sign := if text != "" && text[0] == '-' then Minus else if text != "" && text[0] == '+' then Plus else NoSign;
    var body := text[|SignText(sign)|..];
    assert text == SignText(sign) + body;
    SignTaken(s, sign, body);
    var m: Number;
    m, tail := BodyFound(sign, body);
    n := m.(space := space);
    hide Unsigned, ScanNumber, SpellAll;
    TextParts(space, SignText(sign), PrefixText(n.prefix), SpellAll(n.digits), tail);
    Assoc(PrefixText(n.prefix), SpellAll(n.digits), tail);
  }

  lemma SignTaken(s: string, sign: Sign, body: string)
    requires SkipSpace(s) == SignText(sign) + body
    requires sign == var text := SkipSpace(s);
                     if text != "" && text[0] == '-' then Minus
                     else if text != "" && text[0] == '+' then Plus
                     else NoSign
    ensures ScanNumber(s) == Unsigned(sign, body)
  {
    hide ScanHex;
    assert (SignText(sign) + body)[|SignText(sign)|..] == body;
  }

  /** Two numbers are the halves of an index, which is a signed number of 64 bits; what follows them is ignored. */
  lemma TextIsParsed(high: Number, low: Number, tail: string)
    requires Fits(high) && Fits(low) && Ends(high, Text(low) + tail) && Ends(low, tail)
    ensures var word := ValueOf(high) * MOD32 + ValueOf(low);
            Parse(Text(high) + (Text(low) + tail))
              == Some(if word < 0x8000_0000_0000_0000 then word else word - 0x1_0000_0000_0000_0000)
  {
    hide ScanNumber, Text, Ends;
    NumberRead(high, Text(low) + tail);
    NumberRead(low, tail);
  }

  /** An identifier is accepted only if it begins with two numbers. */
  lemma ParsedIsText(tid: string) returns (high: Number, low: Number, tail: string)
    requires Parse(tid).Some?
    ensures Fits(high) && Fits(low) && Ends(high, Text(low) + tail) && Ends(low, tail)
    ensures tid == Text(high) + (Text(low) + tail)
  {
    hide ScanNumber, Text, Ends;
    var more: string;
    high, more := NumberFound(tid);
    NumberRead(high, more);
    low, tail := NumberFound(more);
  }
}
