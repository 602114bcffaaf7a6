/** Serialized values: a flat list of tokens, read from the front.

    Readers are functions from the tokens to a value and the rest of the tokens. The last part says
    what it means that a reader consumes brackets in pairs. */
module Serialization {
  import opened Wrappers
  import SNM = StructureNameMap

  datatype Value =
    | Str(s: string)
    | Int(i: int)
    | Real(r: real)
    | Void
    | Ser(toks: seq<Token>)      // a nested serialization

  datatype Token =
    | Open
    | Close
    | Name(name: string)
    | Val(v: Value)

  type Tokens = seq<Token>

  datatype Tag = TagOpen | TagClose | TagName | TagValue

  /** The tag of the next token; past the end it reads as a close. */
  function TagOf(ts: Tokens): Tag
  {
    if ts == [] then TagClose
    else match ts[0]
         case Open => TagOpen
         case Close => TagClose
         case Name(_) => TagName
         case Val(_) => TagValue
  }

  /** Result of a reader: a value and the rest of the tokens, an exception, or a reader that runs forever. */
  datatype Outcome<+T> = Done(value: T, rest: Tokens) | Fail | Stuck

  /** The conversions of values, as far as the readers need them. */
  datatype Conversions = Conversions(
    text: Value -> Option<string>,
    int32: Value -> Option<int>,
    uint32: Value -> Option<nat>,
    numeric: Value -> Option<Value>)

  const INT_MIN: int := -0x8000_0000
  const INT_MAX: int := 0x7fff_ffff
  const UINT_MAX: int := 0xffff_ffff

  /** Conversions that keep strings and integers. */
  ghost predicate Faithful(cv: Conversions)
  {
    && (forall s :: cv.text(Str(s)) == Some(s))
    && (forall i :: INT_MIN <= i <= INT_MAX ==> cv.int32(Int(i)) == Some(i))
    && (forall i :: 0 <= i <= UINT_MAX ==> cv.uint32(Int(i)) == Some(i))
  }

  function GetText(cv: Conversions, ts: Tokens): (r: Outcome<string>)
    ensures r.Done? ==> ts != [] && r.rest == ts[1..] && ts[0].Val?
    ensures !r.Stuck?
  {
    if TagOf(ts) == TagValue && cv.text(ts[0].v).Some? then Done(cv.text(ts[0].v).value, ts[1..]) else Fail
  }

  function GetInt(cv: Conversions, ts: Tokens): (r: Outcome<int>)
    ensures r.Done? ==> ts != [] && r.rest == ts[1..] && ts[0].Val?
    ensures !r.Stuck?
  {
    if TagOf(ts) == TagValue && cv.int32(ts[0].v).Some? then Done(cv.int32(ts[0].v).value, ts[1..]) else Fail
  }

  function GetUint(cv: Conversions, ts: Tokens): (r: Outcome<nat>)
    ensures r.Done? ==> ts != [] && r.rest == ts[1..] && ts[0].Val?
    ensures !r.Stuck?
  {
    if TagOf(ts) == TagValue && cv.uint32(ts[0].v).Some? then Done(cv.uint32(ts[0].v).value, ts[1..]) else Fail
  }

  /** A close token; the end of the tokens is not accepted as one. */
  function ConsumeClose(ts: Tokens): (r: Outcome<()>)
    ensures r.Done? <==> ts != [] && ts[0] == Close
    ensures r.Done? ==> r.rest == ts[1..]
    ensures !r.Stuck?
  {
    if ts != [] && ts[0] == Close then Done((), ts[1..]) else Fail
  }

  /** A range of positions or documents. */
  datatype Range = Range(start: int, end: int)

  predicate RangeInRange(r: Range) { INT_MIN <= r.start <= INT_MAX && INT_MIN <= r.end <= INT_MAX }

  function PrintRange(r: Range): Tokens { [Open, Val(Int(r.start)), Val(Int(r.end)), Close] }

  /** Number of a member of a range: its start or its end. */
  function RangeMember(name: string): int { SNM.Index(SNM.Join(["start", "end"], ','), ',', name) }

  datatype RangeMembers = RangeMembers(start: Option<int>, end: Option<int>)

  /** Named members of a range, each at most once. */
  function ReadRangeMembers(cv: Conversions, ts: Tokens, m: RangeMembers): (r: Outcome<RangeMembers>)
    ensures r.Done? ==> |r.rest| <= |ts|
    ensures !r.Stuck?
    decreases |ts|
  {
    if TagOf(ts) != TagName then Done(m, ts)
    else
      var idx, n := RangeMember(ts[0].name), GetInt(cv, ts[1..]);
      if idx == 0 && m.start.None? && n.Done? then ReadRangeMembers(cv, n.rest, m.(start := Some(n.value)))
      else if idx == 1 && m.end.None? && n.Done? then ReadRangeMembers(cv, n.rest, m.(end := Some(n.value)))
      else Fail
  }

  /** What is missing of a range with named members is zero. */
  function RangeOf(m: RangeMembers): Range
  {
    Range(if m.start.Some? then m.start.value else 0, if m.end.Some? then m.end.value else 0)
  }

  /** A range as structure with two values, or with named members. */
  function ReadRange(cv: Conversions, ts: Tokens): (r: Outcome<Range>)
    ensures r.Done? ==> |r.rest| < |ts|
    ensures !r.Stuck?
  {
    if TagOf(ts) != TagOpen then Fail
    else if TagOf(ts[1..]) == TagName then
      var m := ReadRangeMembers(cv, ts[1..], RangeMembers(None, None));
      if m.Done? && ConsumeClose(m.rest).Done? then Done(RangeOf(m.value), m.rest[1..]) else Fail
    else
      var start := GetInt(cv, ts[1..]);
      if !start.Done? then Fail
      else
        var end := GetInt(cv, start.rest);
        if end.Done? && ConsumeClose(end.rest).Done?
        then Done(Range(start.value, end.value), end.rest[1..]) else Fail
  }

  lemma RangeRead(cv: Conversions, r: Range, more: Tokens)
    requires Faithful(cv) && RangeInRange(r)
    ensures TagOf(PrintRange(r) + more) == TagOpen
    ensures ReadRange(cv, PrintRange(r) + more) == Done(r, more)
  {
    var ts := PrintRange(r) + more;
    assert ts[1..][1..][1..] == [Close] + more && ([Close] + more)[1..] == more;
  }

  /** What has been read in front of what is still to be read. */
  function After<T>(a: seq<T>, r: Outcome<seq<T>>): Outcome<seq<T>>
  {
    match r
    case Done(b, rest) => Done(a + b, rest)
    case o => o
  }

  lemma AfterTwice<T>(a: seq<T>, b: seq<T>, r: Outcome<seq<T>>)
    ensures After(a, After(b, r)) == After(a + b, r)
    ensures After([], r) == r
  {
    if r.Done? {
      Assoc(a, b, r.value);
      Unit(r.value);
    }
  }

  /** Of a list, `acc` has been read and has made what was there before grow to what is there now. */
  ghost predicate Progress<T>(all: Outcome<seq<T>>, before: seq<T>, now: seq<T>, acc: seq<T>, r: Outcome<seq<T>>)
  {
    now == before + acc && all == After(acc, r)
  }

  lemma ProgressStart<T>(all: Outcome<seq<T>>, before: seq<T>)
    ensures Progress(all, before, before, [], all)
  {
    Unit(before);
    AfterTwice([], [], all);
  }

  lemma ProgressStep<T>(all: Outcome<seq<T>>, before: seq<T>, now: seq<T>, acc: seq<T>, more: seq<T>,
                        r: Outcome<seq<T>>)
    requires Progress(all, before, now, acc, After(more, r))
    ensures Progress(all, before, now + more, acc + more, r)
  {
    Assoc(before, acc, more);
    AfterTwice(acc, more, r);
  }

  lemma ProgressEnd<T>(all: Outcome<seq<T>>, before: seq<T>, now: seq<T>, acc: seq<T>, rest: Tokens)
    requires Progress(all, before, now, acc, Done([], rest))
    ensures all == Done(acc, rest) && now == before + acc
  {
    Unit(acc);
  }

  /** The rest after a single value or a structure. */
  function SkipStructure(ts: Tokens): (r: Option<Tokens>)
    ensures r.Some? ==> |r.value| < |ts|
  {
    match TagOf(ts)
    case TagValue => Some(ts[1..])
    case TagOpen => SkipBrackets(ts[1..], 1)
    case _ => None
  }

  function SkipBrackets(ts: Tokens, depth: nat): (r: Option<Tokens>)
    ensures r.Some? ==> |r.value| <= |ts|
    decreases |ts|
  {
    if depth == 0 then Some(ts)
    else if ts == [] then None
    else if ts[0] == Open then SkipBrackets(ts[1..], depth + 1)
    else if ts[0] == Close then SkipBrackets(ts[1..], depth - 1)
    else SkipBrackets(ts[1..], depth)
  }

  /** Nested serializations put between brackets. */
  function Flatten(ts: Tokens): Tokens
    decreases ts, 0
  {
    if ts == [] then [] else FlattenToken(ts[0]) + Flatten(ts[1..])
  }

  function FlattenToken(t: Token): Tokens
    decreases t, 1
  {
    match t
    case Val(Ser(toks)) => [Open] + Flatten(toks) + [Close]
    case _ => [t]
  }

  lemma {:induction false} FlattenConcat(a: Tokens, b: Tokens)
    ensures Flatten(a + b) == Flatten(a) + Flatten(b)
  {
    if a == [] {
      assert a + b == b;
    } else {
      assert (a + b)[1..] == a[1..] + b;
      FlattenConcat(a[1..], b);
    }
  }

  // ---- bracket balance ----

  /** Reading on from a nesting depth, the rest is reached with all brackets closed. */
  ghost predicate Reaches(ts: Tokens, depth: nat, rest: Tokens)
    decreases |ts|
  {
    || (depth == 0 && ts == rest)
    || (ts != [] &&
        match ts[0]
        case Open => Reaches(ts[1..], depth + 1, rest)
        case Close => depth > 0 && Reaches(ts[1..], depth - 1, rest)
        case _ => Reaches(ts[1..], depth, rest))
  }

  /** The rest is what is left after a bracket-balanced beginning. */
  ghost predicate Leaves(ts: Tokens, rest: Tokens) { Reaches(ts, 0, rest) }

  lemma {:induction false} ReachesTrans(a: Tokens, depth: nat, b: Tokens, extra: nat, c: Tokens)
    requires Reaches(a, depth, b) && Reaches(b, extra, c)
    ensures Reaches(a, depth + extra, c)
    decreases |a|
  {
    if !(depth == 0 && a == b) {
      match a[0]
      case Open => ReachesTrans(a[1..], depth + 1, b, extra, c);
      case Close => ReachesTrans(a[1..], depth - 1, b, extra, c);
      case _ => ReachesTrans(a[1..], depth, b, extra, c);
    }
  }

  lemma LeavesTrans(a: Tokens, b: Tokens, c: Tokens)
    requires Leaves(a, b) && Leaves(b, c)
    ensures Leaves(a, c)
  {
    ReachesTrans(a, 0, b, 0, c);
  }

  lemma LeavesOne(ts: Tokens)
    requires ts != [] && (ts[0].Val? || ts[0].Name?)
    ensures Leaves(ts, ts[1..])
  {
    assert Reaches(ts[1..], 0, ts[1..]);
  }

  lemma LeavesTwo(ts: Tokens)
    requires |ts| >= 2 && (ts[0].Val? || ts[0].Name?) && (ts[1].Val? || ts[1].Name?)
    ensures Leaves(ts, ts[1..][1..])
  {
    LeavesOne(ts[1..]);
    LeavesOne(ts);
    LeavesTrans(ts, ts[1..], ts[1..][1..]);
  }

  /** An opened structure whose content is balanced, with its close. */
  lemma LeavesBracket(ts: Tokens, rest: Tokens)
    requires ts != [] && ts[0] == Open && rest != [] && rest[0] == Close && Leaves(ts[1..], rest)
    ensures Leaves(ts, rest[1..])
  {
    assert Reaches(rest[1..], 0, rest[1..]);
    assert Reaches(rest, 1, rest[1..]);
    ReachesTrans(ts[1..], 0, rest, 1, rest[1..]);
  }

  /** Nesting depth after some tokens; none if it falls below zero. */
  function Depth(ts: Tokens, depth: nat): Option<nat>
  {
    if ts == [] then Some(depth)
    else match ts[0]
         case Open => Depth(ts[1..], depth + 1)
         case Close => if depth == 0 then None else Depth(ts[1..], depth - 1)
         case _ => Depth(ts[1..], depth)
  }

  /** In terms of the consumed tokens: their depth returns to zero and never falls below it. */
  lemma {:induction false} ReachedPrefix(ts: Tokens, depth: nat, rest: Tokens) returns (n: nat)
    requires Reaches(ts, depth, rest)
    ensures n <= |ts| && ts[n..] == rest && Depth(ts[..n], depth) == Some(0)
    decreases |ts|
  {
    if depth == 0 && ts == rest {
      n := 0;
    } else {
      match ts[0] {
        case Open => n := ReachedPrefix(ts[1..], depth + 1, rest);
        case Close => n := ReachedPrefix(ts[1..], depth - 1, rest);
        case _ => n := ReachedPrefix(ts[1..], depth, rest);
      }
      assert ts[..n + 1][1..] == ts[1..][..n];
      n := n + 1;
    }
  }
}
