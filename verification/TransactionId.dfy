/** The printed form of a transaction index: sixteen lower-case hexadecimal digits. */
module TransactionId {
  import opened Wrappers

  const MOD32 := 0x1_0000_0000
  const INDEX_LIMIT := 0x8000_0000_0000_0000

  function Digit(v: nat): char
    requires v < 16
  {
    if v < 10 then '0' + v as char else 'a' + (v - 10) as char
  }

  function DigitValue(c: char): (v: Option<nat>)
    ensures v.Some? ==> v.value < 16
  {
    if '0' <= c <= '9' then Some((c - '0') as nat)
    else if 'a' <= c <= 'f' then Some((c - 'a') as nat + 10)
    else if 'A' <= c <= 'F' then Some((c - 'A') as nat + 10)
    else None
  }

  /** 16 to the power of e. */
  function Pow16(e: nat): (p: nat)
    ensures p > 0
  {
    if e == 0 then 1 else 16 * Pow16(e - 1)
  }

  /** The conversion "%0<width>x" of a number that fits into the width. */
  function PrintHex(v: nat, width: nat): (s: string)
    requires v < Pow16(width)
    ensures |s| == width
  {
    if width == 0 then "" else PrintHex(v / 16, width - 1) + [Digit(v % 16)]
  }

  /** The conversion "%<width>x": the value of the longest run of at most `width` digits after `acc`,
      the number of digits read and the rest of the text. */
  function ScanHex(s: string, width: nat, acc: nat): (r: (nat, nat, string))
    ensures |r.2| <= |s|
  {
    if width == 0 || s == "" || DigitValue(s[0]).None? then (acc, 0, s)
    else
      var (v, n, rest) := ScanHex(s[1..], width - 1, 16 * acc + DigitValue(s[0]).value);
      (v, n + 1, rest)
  }

  predicate IsSpace(c: char) { c == ' ' || '\t' <= c <= '\r' }

  function SkipSpace(s: string): string
  {
    if s != "" && IsSpace(s[0]) then SkipSpace(s[1..]) else s
  }

  function Word32(v: int): (w: nat)
    ensures w < MOD32 && (0 <= v < MOD32 ==> w == v)
  {
    v % MOD32
  }

  /** An unsigned word of two halves as a signed number of 64 bits. */
  function Signed(hi: nat, lo: nat): (i: int)
    requires hi < MOD32 && lo < MOD32
    ensures -INDEX_LIMIT <= i < INDEX_LIMIT
    ensures hi * MOD32 + lo < INDEX_LIMIT ==> i == hi * MOD32 + lo
  {
    var word := hi * MOD32 + lo;
    if word < INDEX_LIMIT then word else word - 2 * INDEX_LIMIT
  }

  /** The conversion "%8x" behind white space: a sign and a prefix "0x" count for the width, and a minus sign gives
      the complement to 32 bits. The value and the rest of the text; none if there are no digits. */
  function ScanNumber(s: string): (r: Option<(nat, string)>)
    ensures r.Some? ==> r.value.0 < MOD32
  {
    var text := SkipSpace(s);
    var sign := if text != "" && (text[0] == '-' || text[0] == '+') then 1 else 0;
    var body := text[sign..];
    var prefix := if |body| > 1 && body[0] == '0' && (body[1] == 'x' || body[1] == 'X') then 2 else 0;
    var (v, n, rest) := ScanHex(body[prefix..], 8 - sign - prefix, 0);
    if n == 0 then None else Some((Word32(if sign == 1 && text[0] == '-' then 0 - v as int else v), rest))
  }

  /** The identifier of the transaction with index `tidx`. */
  function Print(tidx: nat): string
    requires tidx < INDEX_LIMIT
  {
    Pow16Is32Bit();
    PrintHex(tidx / MOD32, 8) + PrintHex(tidx % MOD32, 8)
  }

  /** The index named by an identifier; an identifier without two hexadecimal numbers is refused. The index is a
      signed number of 64 bits. */
  function Parse(tid: string): (r: Option<int>)
    ensures r.Some? ==> -INDEX_LIMIT <= r.value < INDEX_LIMIT
  {
    match ScanNumber(tid)
    case None => None
    case Some((hi, more)) =>
      match ScanNumber(more)
      case None => None
      case Some((lo, _)) => Some(Signed(hi, lo))
  }

  /** Eight digits are a whole number, whatever follows. */
  lemma ScanPrinted(v: nat, tail: string)
    requires v < Pow16(8)
    ensures ScanNumber(PrintHex(v, 8) + tail) == Some((v, tail))
  {
    var digits := PrintHex(v, 8);
    var text := digits + tail;
    Pow16Is32Bit();
    PrintedValue(v, 8);
    assert text[0] == digits[0] && DigitValue(digits[0]).Some?;
    assert text[1] == digits[1] && DigitValue(digits[1]).Some?;
    assert SkipSpace(text) == text && text[0..] == text;
    ScanDigits(digits, tail, 0);
  }

  lemma Pow16Is32Bit()
    ensures Pow16(8) == MOD32
  {
    assert Pow16(4) == 0x1_0000;
    assert Pow16(6) == 16 * (16 * Pow16(4));
  }

  lemma {:induction false} PrintedDigits(v: nat, width: nat)
    requires v < Pow16(width)
    ensures forall i :: 0 <= i < width ==> DigitValue(PrintHex(v, width)[i]).Some?
  {
    if width > 0 { PrintedDigits(v / 16, width - 1); }
  }

  /** The value of a text of digits that continues the number `acc`. */
  function Value(digits: string, acc: nat): nat
    requires forall i :: 0 <= i < |digits| ==> DigitValue(digits[i]).Some?
  {
    if digits == "" then acc else Value(digits[1..], 16 * acc + DigitValue(digits[0]).value)
  }

  lemma {:induction false} ValueAppend(s: string, c: char, acc: nat)
    requires DigitValue(c).Some? && forall i :: 0 <= i < |s| ==> DigitValue(s[i]).Some?
    ensures Value(s + [c], acc) == 16 * Value(s, acc) + DigitValue(c).value
  {
    if s == "" {
      assert (s + [c])[1..] == "";
    } else {
      assert (s + [c])[1..] == s[1..] + [c];
      ValueAppend(s[1..], c, 16 * acc + DigitValue(s[0]).value);
    }
  }

  lemma {:induction false} PrintedValue(v: nat, width: nat)
    requires v < Pow16(width)
    ensures forall i :: 0 <= i < width ==> DigitValue(PrintHex(v, width)[i]).Some?
    ensures Value(PrintHex(v, width), 0) == v
  {
    PrintedDigits(v, width);
    if width > 0 {
      PrintedValue(v / 16, width - 1);
      ValueAppend(PrintHex(v / 16, width - 1), Digit(v % 16), 0);
    }
  }

  lemma {:induction false} ScanDigits(s: string, tail: string, acc: nat)
    requires forall i :: 0 <= i < |s| ==> DigitValue(s[i]).Some?
    ensures ScanHex(s + tail, |s|, acc) == (Value(s, acc), |s|, tail)
  {
    if s == "" {
      assert s + tail == tail;
    } else {
      assert (s + tail)[1..] == s[1..] + tail;
      ScanDigits(s[1..], tail, 16 * acc + DigitValue(s[0]).value);
    }
  }

  /** Every index that the pool can draw survives printing and parsing. */
  lemma RoundTrip(tidx: nat)
    requires tidx < INDEX_LIMIT
    ensures |Print(tidx)| == 16 && Parse(Print(tidx)) == Some(tidx)
  {
    Halves(tidx);
    Pow16Is32Bit();
    TwoWords(tidx / MOD32, tidx % MOD32);
  }

  lemma Halves(tidx: nat)
    requires tidx < INDEX_LIMIT
    ensures tidx / MOD32 < MOD32 && tidx % MOD32 < MOD32 && Signed(tidx / MOD32, tidx % MOD32) == tidx
  {
  }

  lemma TwoWords(hi: nat, lo: nat)
    requires hi < Pow16(8) && lo < Pow16(8) && hi < MOD32 && lo < MOD32
    ensures Parse(PrintHex(hi, 8) + PrintHex(lo, 8)) == Some(Signed(hi, lo))
  {
    var low := PrintHex(lo, 8);
    ScanPrinted(hi, low);
    ScanPrinted(lo, "");
    assert low + "" == low;
  }

  /** Different indices have different identifiers. */
  lemma PrintIsInjective(a: nat, b: nat)
    requires a < INDEX_LIMIT && b < INDEX_LIMIT && Print(a) == Print(b)
    ensures a == b
  {
    RoundTrip(a);
    RoundTrip(b);
  }
}
