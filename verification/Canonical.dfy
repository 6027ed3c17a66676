/**
 Canonical form and identity (ref/groundholdlib/canonical.py): a printer for document trees,
 a parser that inverts it, and the hashes built on it.
 */
module Canonical {
  import opened Prelude

  /**
   A parsed document. `Dict` is a mapping all of whose keys are strings; `OddDict` is a mapping with
   at least one other key, shown by its witness; `Foreign` is a value of any type the printer refuses.
   */
  datatype Value =
    | Null
    | Bool(b: bool)
    | Int(n: int)
    | Real(r: real)
    | Str(s: string)
    | List(items: seq<Value>)
    | Dict(entries: map<string, Value>)
    | OddDict(witnessKey: Value, rest: map<string, Value>)
    | Foreign(typeName: string)

  // ---- numbers -------------------------------------------------------------

  const MAX_SAFE_INTEGER: int := 0x20_0000_0000_0000

  const MAX_PLACES: nat := 17

  /** `r * 10^p`. */
  function Scaled(r: real, p: nat): real {
    if p == 0 then r else 10.0 * Scaled(r, p - 1)
  }

  function DigitChar(d: nat): (c: char)
    requires d < 10
    ensures '0' <= c <= '9'
    ensures DigitVal(c) == d
  {
    '0' + (d as char)
  }

  function DigitVal(c: char): int {
    (c as int) - ('0' as int)
  }

  /** Decimal digits of a natural number, no leading zeros. */
  function Digits(n: nat): (s: string)
    ensures |s| > 0 && AllDigits(s) && Val(s) == n
  {
    if n < 10 then [DigitChar(n)] else Digits(n / 10) + [DigitChar(n % 10)]
  }

  /** The last `p` decimal digits of `n`. */
  function Pad(n: nat, p: nat): (s: string)
    ensures |s| == p && AllDigits(s)
  {
    if p == 0 then "" else Pad(n / 10, p - 1) + [DigitChar(n % 10)]
  }

  predicate AllDigits(s: string) {
    forall i :: 0 <= i < |s| ==> '0' <= s[i] <= '9'
  }

  function Val(s: string): int {
    if |s| == 0 then 0 else 10 * Val(s[..|s| - 1]) + DigitVal(s[|s| - 1])
  }

  function IntStr(n: int): string {
    Sign(n) + Digits(Abs(n))
  }

  /** `n` without its last `p` decimal digits. */
  function Chop(n: nat, p: nat): nat {
    if p == 0 then n else Chop(n / 10, p - 1)
  }

  function Sign(n: int): string {
    if n < 0 then "-" else ""
  }

  function Abs(n: int): nat {
    if n < 0 then -n else n
  }

  /** `n / 10^p` written with exactly `p` decimals. */
  function FixedStr(n: int, p: nat): string {
    Sign(n) + Digits(Chop(Abs(n), p)) + "." + Pad(Abs(n), p)
  }

  // ---- reading a number back -----------------------------------------------

  /** `x / 10^p`. */
  function Unscaled(x: real, p: nat): real
    decreases p
  {
    if p == 0 then x else Unscaled(x / 10.0, p - 1)
  }

  /** Where the first point is, or the length of the text. */
  function PointAt(s: string): (k: nat)
    ensures k <= |s| && (k < |s| ==> s[k] == '.')
    ensures forall i :: 0 <= i < k ==> s[i] != '.'
  {
    if s == "" || s[0] == '.' then 0 else 1 + PointAt(s[1..])
  }

  function ReadUnsigned(s: string): Option<real> {
    var k := PointAt(s);
    var whole, part := s[..k], if k < |s| then s[k + 1..] else "";
    if whole != "" && AllDigits(whole) && (k < |s| ==> part != "") && AllDigits(part)
    then Some(Unscaled(Val(whole + part) as real, |part|))
    else None
  }

  /** The number a decimal text denotes: an optional sign, digits, and optionally a point and more digits. */
  function ReadDecimal(s: string): Option<real> {
    if s != "" && s[0] == '-' then
      match ReadUnsigned(s[1..])
      case None => None
      case Some(x) => Some(-x)
    else ReadUnsigned(s)
  }

  lemma {:induction false} UnscaledOfScaled(x: real, p: nat)
    ensures Unscaled(Scaled(x, p), p) == x
  {
    if p > 0 {
      UnscaledOfScaled(x, p - 1);
      assert 10.0 * Scaled(x, p - 1) / 10.0 == Scaled(x, p - 1);
    }
  }

  lemma {:induction false} ScaledOfUnscaled(x: real, p: nat)
    ensures Scaled(Unscaled(x, p), p) == x
    decreases p
  {
    if p > 0 {
      ScaledOfUnscaled(x / 10.0, p - 1);
      assert Unscaled(x, p) == Unscaled(x / 10.0, p - 1);
    }
  }

  lemma {:induction false} UnscaledNegates(x: real, p: nat)
    ensures Unscaled(-x, p) == -Unscaled(x, p)
    decreases p
  {
    if p > 0 {
      UnscaledNegates(x / 10.0, p - 1);
      assert (-x) / 10.0 == -(x / 10.0);
    }
  }

  lemma {:induction false} ValOfSplit(n: nat, p: nat)
    ensures Val(Digits(Chop(n, p)) + Pad(n, p)) == n
  {
    if p == 0 {
      assert Digits(n) + "" == Digits(n);
    } else {
      var text := Digits(Chop(n, p)) + Pad(n, p);
      assert text == (Digits(Chop(n / 10, p - 1)) + Pad(n / 10, p - 1)) + [DigitChar(n % 10)];
      ValOfSplit(n / 10, p - 1);
      assert text[..|text| - 1] == Digits(Chop(n / 10, p - 1)) + Pad(n / 10, p - 1);
    }
  }

  lemma ReadWhole(whole: string)
    requires whole != "" && AllDigits(whole)
    ensures ReadUnsigned(whole) == Some(Val(whole) as real)
  {
    assert PointAt(whole) == |whole| && whole[..|whole|] + "" == whole;
  }

  lemma PointFound(whole: string, part: string)
    requires AllDigits(whole)
    ensures PointAt(whole + "." + part) == |whole|
  {
    var s := whole + "." + part;
    assert s[|whole|] == '.' && forall i :: 0 <= i < |whole| ==> s[i] == whole[i];
  }

  lemma ReadPoint(whole: string, part: string)
    requires whole != "" && AllDigits(whole) && part != "" && AllDigits(part)
    ensures ReadUnsigned(whole + "." + part) == Some(Unscaled(Val(whole + part) as real, |part|))
  {
    hide PointAt, AllDigits, Val, Unscaled;
    PointFound(whole, part);
    var s := whole + "." + part;
    assert s[..|whole|] == whole && s[|whole| + 1..] == part;
  }

  function Negated(x: Option<real>): Option<real> {
    match x
    case None => None
    case Some(y) => Some(-y)
  }

  lemma ReadSigned(n: int, text: string)
    requires text != "" && text[0] != '-'
    ensures ReadDecimal(Sign(n) + text) == if n < 0 then Negated(ReadUnsigned(text)) else ReadUnsigned(text)
  {
    hide ReadUnsigned;
    assert ("-" + text)[1..] == text && "" + text == text;
  }

  lemma FixedParts(n: int, p: nat) returns (whole: string, part: string)
    requires p > 0
    ensures FixedStr(n, p) == Sign(n) + (whole + "." + part)
    ensures whole != "" && AllDigits(whole) && |part| == p && AllDigits(part)
    ensures whole + "." + part != "" && (whole + "." + part)[0] != '-'
    ensures Val(whole + part) == Abs(n)
  {
    whole, part := Digits(Chop(Abs(n), p)), Pad(Abs(n), p);
    ValOfSplit(Abs(n), p);
    hide Val, Digits, Pad, Chop;
    assert (whole + "." + part)[0] == whole[0];
  }

  /** The fixed-point text of `n / 10^p` reads back as exactly that. */
  lemma FixedReadsBack(n: int, p: nat)
    requires p > 0
    ensures ReadDecimal(FixedStr(n, p)) == Some(Unscaled(n as real, p))
  {
    hide ReadUnsigned, ReadDecimal, FixedStr, AllDigits, Val, Unscaled, Sign;
    var whole, part := FixedParts(n, p);
    ReadPoint(whole, part);
    ReadSigned(n, whole + "." + part);
    UnscaledNegates(n as real, p);
    assert Abs(n) as real == if n < 0 then -(n as real) else n as real;
  }

  lemma IntReadsBack(n: int)
    ensures ReadDecimal(IntStr(n)) == Some(n as real)
  {
    var whole := Digits(Abs(n));
    hide ReadUnsigned, ReadDecimal;
    ReadWhole(whole);
    ReadSigned(n, whole);
  }

  /** A fixed-point text reads back as `r` exactly when it is the text of `r * 10^p`, written without rounding. */
  lemma ReadsBackIffExact(r: real, n: int, p: nat)
    requires p > 0
    ensures ReadDecimal(FixedStr(n, p)) == Some(r) <==> n as real == Scaled(r, p)
  {
    hide ReadDecimal, FixedStr;
    FixedReadsBack(n, p);
    UnscaledOfScaled(r, p);
    ScaledOfUnscaled(n as real, p);
  }

  // ---- the number rule -----------------------------------------------------

  /** The integer a number equals, if it is one. */
  function Integral(r: real): Option<int> {
    if r.Floor as real == r then Some(r.Floor) else None
  }

  /** The first number of places, from `p` up to 17, whose fixed-point form reads back as `r`. */
  function LeastPlaces(r: real, p: nat): (q: Option<nat>)
    ensures q.Some? ==> p <= q.value <= MAX_PLACES && Integral(Scaled(r, q.value)).Some?
    decreases MAX_PLACES + 1 - p
  {
    if p > MAX_PLACES then None
    else if Integral(Scaled(r, p)).Some? then Some(p)
    else LeastPlaces(r, p + 1)
  }

  lemma {:induction false} ExactPlacesFound(r: real, p: nat, k: nat)
    requires p <= k <= MAX_PLACES && Integral(Scaled(r, k)).Some?
    ensures LeastPlaces(r, p).Some? && LeastPlaces(r, p).value <= k
    decreases k - p
  {
    if Integral(Scaled(r, p)).None? { ExactPlacesFound(r, p + 1, k); }
  }

  /** No fixed-point text of up to 17 decimals that reads back as the number is shorter than the one found. */
  lemma LeastPlacesIsLeast(r: real, n: int, k: nat)
    requires 1 <= k <= 17 && ReadDecimal(FixedStr(n, k)) == Some(r)
    ensures LeastPlaces(r, 1).Some? && LeastPlaces(r, 1).value <= k
  {
    ReadsBackIffExact(r, n, k);
    ExactPlacesFound(r, 1, k);
  }

  function IntNumStr(n: int): Option<string> {
    if n >= MAX_SAFE_INTEGER || n <= -MAX_SAFE_INTEGER then None else Some(IntStr(n))
  }

  function RealNumStr(r: real): Option<string> {
    match Integral(r)
    case Some(n) => IntNumStr(n)
    case None => FixedNumStr(r, LeastPlaces(r, 1))
  }

  function FixedNumStr(r: real, places: Option<nat>): Option<string>
    requires places.Some? ==> Integral(Scaled(r, places.value)).Some?
  {
    match places
    case None => None
    case Some(p) => Some(FixedStr(Integral(Scaled(r, p)).value, p))
  }

  /** The shared number rule: `None` where the source refuses the number. */
  function NumStr(v: Value): Option<string>
    requires v.Int? || v.Real?
  {
    match v
    case Int(n) => IntNumStr(n)
    case Real(r) => RealNumStr(r)
  }

  function NumberOf(v: Value): real
    requires v.Int? || v.Real?
  {
    match v
    case Int(n) => n as real
    case Real(r) => r
  }

  /** The loop of `_num_str` over 1 to 17 places: the first fixed-point text that reads back as the number, or none. */
  method FormatNumber(r: real) returns (s: Option<string>)
    ensures s == RealNumStr(r)
    ensures s.Some? ==> ReadDecimal(s.value) == Some(r)
  {
    hide ReadDecimal, FixedStr;
    if Integral(r).Some? {
      IntReadsBack(r.Floor);
      return IntNumStr(r.Floor);
    }
    var p := 1;
    while p <= MAX_PLACES
      invariant 1 <= p <= MAX_PLACES + 1
      invariant LeastPlaces(r, 1) == LeastPlaces(r, p)
    {
      var n := Nearest(Scaled(r, p));
      var text := FixedStr(n, p);
      NearestIsExact(Scaled(r, p));
      ReadsBackIffExact(r, n, p);
      if ReadDecimal(text) == Some(r) { return Some(text); }
      p := p + 1;
    }
    return None;
  }

  /** The integer a number is rounded to. */
  function Nearest(x: real): int {
    (x + 0.5).Floor
  }

  lemma NearestIsExact(x: real)
    ensures Nearest(x) as real == x <==> Integral(x).Some?
    ensures Integral(x).Some? ==> Nearest(x) == Integral(x).value
  {
  }

  /** The text of an accepted number reads back as the number. */
  lemma NumStrReadsBack(v: Value)
    requires (v.Int? || v.Real?) && NumStr(v).Some?
    ensures ReadDecimal(NumStr(v).value) == Some(NumberOf(v))
  {
    var r := NumberOf(v);
    NumStrOfNumber(v);
    if Integral(r).Some? {
      IntReadsBack(r.Floor);
    } else {
      var p := LeastPlaces(r, 1).value;
      ReadsBackIffExact(r, Integral(Scaled(r, p)).value, p);
    }
  }

  /** Distinct numbers never share a NUMSTR; an integer and the float equal to it do. */
  lemma NumStrInjective(a: Value, b: Value)
    requires (a.Int? || a.Real?) && (b.Int? || b.Real?)
    requires NumStr(a).Some? && NumStr(b).Some?
    ensures NumStr(a) == NumStr(b) <==> NumberOf(a) == NumberOf(b)
  {
    NumStrOfNumber(a);
    NumStrOfNumber(b);
    NumStrReadsBack(a);
    NumStrReadsBack(b);
  }

  lemma NumStrOfNumber(v: Value)
    requires v.Int? || v.Real?
    ensures NumStr(v) == RealNumStr(NumberOf(v))
  {
    if v.Int? { assert Integral(v.n as real) == Some(v.n); }
  }

  // ---- strings -------------------------------------------------------------

  function HexChar(d: nat): (c: char)
    requires d < 16
    ensures HexVal(c) == d
  {
    if d < 10 then '0' + (d as char) else 'a' + ((d - 10) as char)
  }

  function HexVal(c: char): int {
    if c <= '9' then (c as int) - ('0' as int) else (c as int) - ('a' as int) + 10
  }

  function ControlHex(c: char): string
    requires (c as int) < 0x20
  {
    [HexChar(c as int / 16), HexChar(c as int % 16)]
  }

  /** One character of a quoted string, escaped as section 7 of RFC 8259 allows. */
  function EscapeChar(c: char): string {
    if c == '"' then "\\\""
    else if c == '\\' then "\\\\"
    else if c == '\n' then "\\n"
    else if c == '\r' then "\\r"
    else if c == '\t' then "\\t"
    else if (c as int) < 0x20 then "\\u00" + ControlHex(c)
    else [c]
  }

  function Escape(s: string): string {
    if |s| == 0 then "" else EscapeChar(s[0]) + Escape(s[1..])
  }

  function Quote(s: string): string {
    "\"" + Escape(s) + "\""
  }

  lemma {:induction false} EscapeAppend(s: string, c: char)
    ensures Escape(s + [c]) == Escape(s) + EscapeChar(c)
  {
    if |s| > 0 {
      assert (s + [c])[1..] == s[1..] + [c];
      EscapeAppend(s[1..], c);
    } else {
      assert [c][1..] == "";
    }
  }

  /** `_quote` appends escaped characters to a growing list and closes the quote. */
  method QuoteText(s: string) returns (text: string)
    ensures text == Quote(s)
  {
    text := "\"";
    assert Escape(s[..0]) == "";
    hide Escape, EscapeChar;
    for i := 0 to |s|
      invariant text == "\"" + Escape(s[..i])
    {
      text := text + EscapeChar(s[i]);
      EscapeAppend(s[..i], s[i]);
      assert s[..i] + [s[i]] == s[..i + 1];
    }
    assert s[..|s|] == s;
    text := text + "\"";
  }

  // ---- trees ---------------------------------------------------------------

  /** The trees the printer accepts; every other tree is refused with an error. */
  predicate Accepts(v: Value)
    decreases v
  {
    match v
    case Int(_) => NumStr(v).Some?
    case Real(_) => NumStr(v).Some?
    case List(items) => forall x :: x in items ==> Accepts(x)
    case Dict(m) => forall k :: k in m ==> Accepts(m[k])
    case OddDict(_, _) => false
    case Foreign(_) => false
    case _ => true
  }

  function Print(v: Value): string
    requires Accepts(v)
    decreases v, 1
  {
    match v
    case Null => "null"
    case Bool(b) => if b then "true" else "false"
    case Int(_) => "\"" + NumStr(v).value + "\""
    case Real(_) => "\"" + NumStr(v).value + "\""
    case Str(s) => Quote(s)
    case List(items) => "[" + PrintItems(v, items) + "]"
    case Dict(m) => "{" + PrintMembers(v, SortedKeys(m.Keys)) + "}"
  }

  /** The items of a list, printed with `,` between them. */
  function PrintItems(parent: Value, items: seq<Value>): string
    requires forall x :: x in items ==> x < parent && Accepts(x)
    decreases parent, 0, |items|
  {
    if |items| == 0 then ""
    else if |items| == 1 then Print(items[0])
    else
      assert forall x :: x in items[1..] ==> x in items;
      Print(items[0]) + "," + PrintItems(parent, items[1..])
  }

  function Member(k: string, text: string): string {
    Quote(k) + ":" + text
  }

  /** The members of a mapping under the given keys, printed with `,` between them. */
  function PrintMembers(parent: Value, ks: seq<string>): string
    requires parent.Dict? && forall k :: k in ks ==> k in parent.entries && Accepts(parent.entries[k])
    decreases parent, 0, |ks|
  {
    if |ks| == 0 then ""
    else
      var head := Member(ks[0], Print(parent.entries[ks[0]]));
      if |ks| == 1 then head else head + "," + PrintMembers(parent, ks[1..])
  }

  /** `canon`: the canonical text, or `None` where the source raises ContractError. */
  function Canon(v: Value): Option<string> {
    if Accepts(v) then Some(Print(v)) else None
  }

  // ---- the parser: it accepts canonical text and nothing else -----------------

  /** A tree with every number replaced by its NUMSTR: all that canonical text keeps of it. */
  function Norm(v: Value): Value
    requires Accepts(v)
    decreases v, 1
  {
    match v
    case Int(_) => Str(NumStr(v).value)
    case Real(_) => Str(NumStr(v).value)
    case List(items) => List(NormItems(v, items))
    case Dict(m) => Dict(map k | k in m :: Norm(m[k]))
    case _ => v
  }

  function NormItems(parent: Value, items: seq<Value>): (r: seq<Value>)
    requires forall x :: x in items ==> x < parent && Accepts(x)
    ensures |r| == |items| && forall i :: 0 <= i < |items| ==> r[i] == Norm(items[i])
    decreases parent, 0, |items|
  {
    if |items| == 0 then []
    else
      assert forall x :: x in items[1..] ==> x in items;
      [Norm(items[0])] + NormItems(parent, items[1..])
  }

  function NormMembers(parent: Value, ks: seq<string>): map<string, Value>
    requires parent.Dict? && forall k :: k in ks ==> k in parent.entries && Accepts(parent.entries[k])
  {
    map k | k in ks :: Norm(parent.entries[k])
  }

  datatype Parsed<+T> = Fail | Parsed(value: T, rest: string)

  /** A control character without an escape of its own, from its two digits as the printer writes them. */
  function ParseHex(s: string): Option<char>
    requires |s| == 2
  {
    var n := 16 * HexVal(s[0]) + HexVal(s[1]);
    if 0 <= n < 0x20 && (n as char) !in "\n\r\t" && ControlHex(n as char) == s then Some(n as char) else None
  }

  /** The body of a quoted string, up to and including the closing quote. */
  function ParseString(s: string): (r: Parsed<string>)
    ensures r.Parsed? ==> |r.rest| < |s|
  {
    if |s| == 0 then Fail
    else if s[0] == '"' then Parsed("", s[1..])
    else if s[0] != '\\' then if (s[0] as int) < 0x20 then Fail else Prepend(s[0], ParseString(s[1..]))
    else if |s| < 2 then Fail
    else if s[1] == '"' || s[1] == '\\' then Prepend(s[1], ParseString(s[2..]))
    else if s[1] == 'n' then Prepend('\n', ParseString(s[2..]))
    else if s[1] == 'r' then Prepend('\r', ParseString(s[2..]))
    else if s[1] == 't' then Prepend('\t', ParseString(s[2..]))
    else if s[1] == 'u' && |s| >= 6 && s[2..4] == "00" && ParseHex(s[4..6]).Some? then
      Prepend(ParseHex(s[4..6]).value, ParseString(s[6..]))
    else Fail
  }

  function Prepend(c: char, p: Parsed<string>): Parsed<string> {
    match p
    case Fail => Fail
    case Parsed(t, rest) => Parsed([c] + t, rest)
  }

  function ParseWord(word: string, v: Value, s: string): Parsed<Value> {
    if |word| <= |s| && s[..|word|] == word then Parsed(v, s[|word|..]) else Fail
  }

  function ParseValue(s: string): (r: Parsed<Value>)
    ensures r.Parsed? ==> |r.rest| < |s|
    decreases |s|, 1
  {
    if |s| == 0 then Fail
    else if s[0] == 'n' then ParseWord("null", Null, s)
    else if s[0] == 't' then ParseWord("true", Bool(true), s)
    else if s[0] == 'f' then ParseWord("false", Bool(false), s)
    else if s[0] == '"' then
      match ParseString(s[1..])
      case Fail => Fail
      case Parsed(t, rest) => Parsed(Str(t), rest)
    else if s[0] == '[' then
      if |s| > 1 && s[1] == ']' then Parsed(List([]), s[2..])
      else match ParseItems(s[1..])
        case Fail => Fail
        case Parsed(items, rest) => Parsed(List(items), rest)
    else if s[0] == '{' then
      if |s| > 1 && s[1] == '}' then Parsed(Dict(map[]), s[2..])
      else match ParseMembers(s[1..])
        case Fail => Fail
        case Parsed(entries, rest) => Parsed(Dict(entries), rest)
    else Fail
  }

  function ParseItems(s: string): (r: Parsed<seq<Value>>)
    ensures r.Parsed? ==> |r.rest| < |s|
    decreases |s|, 2
  {
    match ParseValue(s)
    case Fail => Fail
    case Parsed(v, rest) =>
      if |rest| > 0 && rest[0] == ']' then Parsed([v], rest[1..])
      else if |rest| > 0 && rest[0] == ',' then
        match ParseItems(rest[1..])
        case Fail => Fail
        case Parsed(vs, rest') => Parsed([v] + vs, rest')
      else Fail
  }

  function ParseMembers(s: string): (r: Parsed<map<string, Value>>)
    ensures r.Parsed? ==> |r.rest| < |s|
    decreases |s|, 2
  {
    if |s| == 0 || s[0] != '"' then Fail
    else match ParseString(s[1..])
      case Fail => Fail
      case Parsed(k, afterKey) =>
        if |afterKey| == 0 || afterKey[0] != ':' then Fail
        else match ParseValue(afterKey[1..])
          case Fail => Fail
          case Parsed(v, rest) =>
            if |rest| > 0 && rest[0] == '}' then Parsed(map[k := v], rest[1..])
            else if |rest| > 0 && rest[0] == ',' then
              match ParseMembers(rest[1..])
              case Fail => Fail
              case Parsed(m, rest') =>
                if forall j :: j in m ==> StrLess(k, j) then Parsed(m[k := v], rest') else Fail
            else Fail
  }

  /** A whole document: one value and nothing after it. */
  function Parse(s: string): Option<Value> {
    match ParseValue(s)
    case Fail => None
    case Parsed(v, rest) => if rest == "" then Some(v) else None
  }

  // ---- the round trip ------------------------------------------------------

  lemma HexRoundTrip(c: char)
    requires (c as int) < 0x20 && c !in "\n\r\t"
    ensures ParseHex(ControlHex(c)) == Some(c)
  {
  }

  lemma ControlCharRoundTrip(c: char, more: string)
    requires (c as int) < 0x20 && c !in "\n\r\t"
    ensures ParseString("\\u00" + ControlHex(c) + more) == Prepend(c, ParseString(more))
  {
    var text := "\\u00" + ControlHex(c) + more;
    HexRoundTrip(c);
    assert text[0] == '\\' && text[1] == 'u';
    assert text[2..4] == "00" && text[4..6] == ControlHex(c) && text[6..] == more;
  }

  lemma EscapedCharRoundTrip(c: char, more: string)
    ensures ParseString(EscapeChar(c) + more) == Prepend(c, ParseString(more))
  {
    if (c as int) < 0x20 && c !in "\n\r\t" {
      ControlCharRoundTrip(c, more);
    } else {
      ShortEscapeRoundTrip(c, more);
    }
  }

  lemma ShortEscapeRoundTrip(c: char, more: string)
    requires (c as int) >= 0x20 || c in "\n\r\t"
    ensures ParseString(EscapeChar(c) + more) == Prepend(c, ParseString(more))
  {
    hide Prepend;
    var e := EscapeChar(c);
    assert |e| == 1 || |e| == 2;
    assert (e + more)[0] == e[0] && (|e| == 2 ==> (e + more)[1] == e[1]);
    assert (e + more)[|e|..] == more;
  }

  lemma {:induction false} StringRoundTrip(s: string, rest: string)
    ensures ParseString(Escape(s) + "\"" + rest) == Parsed(s, rest)
  {
    if |s| == 0 {
      var text := Escape(s) + "\"" + rest;
      assert text == "\"" + rest;
      assert text[1..] == rest;
    } else {
      var more := Escape(s[1..]) + "\"" + rest;
      assert Escape(s) + "\"" + rest == EscapeChar(s[0]) + more;
      EscapedCharRoundTrip(s[0], more);
      StringRoundTrip(s[1..], rest);
      assert s == [s[0]] + s[1..];
    }
  }

  predicate Plain(s: string) {
    forall i :: 0 <= i < |s| ==> s[i] == '-' || s[i] == '.' || '0' <= s[i] <= '9'
  }

  lemma {:induction false} PlainIsUnescaped(s: string)
    requires Plain(s)
    ensures Escape(s) == s
  {
    if |s| > 0 {
      PlainIsUnescaped(s[1..]);
      assert EscapeChar(s[0]) == [s[0]];
      assert s == [s[0]] + s[1..];
    }
  }

  lemma RealNumStrPlain(r: real)
    requires RealNumStr(r).Some?
    ensures Plain(RealNumStr(r).value)
  {
    if Integral(r).None? {
      var p := LeastPlaces(r, 1).value;
      var n := Integral(Scaled(r, p)).value;
      assert Plain(Sign(n)) && Plain(Digits(Chop(Abs(n), p))) && Plain(Pad(Abs(n), p));
    }
  }

  lemma NumStrPlain(v: Value)
    requires (v.Int? || v.Real?) && NumStr(v).Some?
    ensures Plain(NumStr(v).value)
  {
    RealNumStrPlain(NumberOf(v));
    NumStrOfNumber(v);
  }

  lemma {:induction false} ValueRoundTrip(v: Value, rest: string)
    requires Accepts(v)
    ensures ParseValue(Print(v) + rest) == Parsed(Norm(v), rest)
    decreases v, 1
  {
    match v {
      case Null => WordRoundTrip(v, rest);
      case Bool(_) => WordRoundTrip(v, rest);
      case Int(_) => NumStrPlain(v); PlainRoundTrip(NumStr(v).value, rest);
      case Real(_) => NumStrPlain(v); PlainRoundTrip(NumStr(v).value, rest);
      case Str(s) =>
        StringRoundTrip(s, rest);
        ParseQuoted(Escape(s) + "\"" + rest, s, rest);
        Bracket("\"", Escape(s), "\"", rest);
      case List(items) =>
        if |items| == 0 {
          EmptyRoundTrip(v, rest);
        } else {
          ItemsRoundTrip(v, items, rest);
          ParseList(PrintItems(v, items) + "]" + rest, NormItems(v, items), rest);
          Bracket("[", PrintItems(v, items), "]", rest);
        }
      case Dict(m) =>
        var ks := SortedKeys(m.Keys);
        if |ks| == 0 {
          EmptyRoundTrip(v, rest);
        } else {
          MembersRoundTrip(v, ks, rest);
          ParseDict(PrintMembers(v, ks) + "}" + rest, NormMembers(v, ks), rest);
          assert NormMembers(v, ks) == Norm(v).entries;
          Bracket("{", PrintMembers(v, ks), "}", rest);
        }
    }
  }

  lemma Bracket(open: string, body: string, close: string, rest: string)
    ensures open + body + close + rest == open + (body + close + rest)
  {
  }

  lemma EmptyRoundTrip(v: Value, rest: string)
    requires v == List([]) || (v.Dict? && SortedKeys(v.entries.Keys) == [] && Accepts(v))
    ensures ParseValue(Print(v) + rest) == Parsed(Norm(v), rest)
  {
    var text := Print(v) + rest;
    assert Print(v) == if v.List? then "[]" else "{}";
    assert text[2..] == rest;
    if v.Dict? { assert Norm(v).entries == map[]; }
  }

  lemma ParseList(body: string, items: seq<Value>, rest: string)
    requires ParseItems(body) == Parsed(items, rest)
    ensures ParseValue("[" + body) == Parsed(List(items), rest)
  {
    assert ("[" + body)[1..] == body;
    assert ParseValue(body).Parsed?;
  }

  lemma ParseDict(body: string, entries: map<string, Value>, rest: string)
    requires ParseMembers(body) == Parsed(entries, rest)
    ensures ParseValue("{" + body) == Parsed(Dict(entries), rest)
  {
    assert ("{" + body)[1..] == body;
  }

  lemma ParseQuoted(body: string, t: string, rest: string)
    requires ParseString(body) == Parsed(t, rest)
    ensures ParseValue("\"" + body) == Parsed(Str(t), rest)
  {
    assert ("\"" + body)[1..] == body;
  }

  lemma WordRoundTrip(v: Value, rest: string)
    requires v.Null? || v.Bool?
    ensures ParseValue(Print(v) + rest) == Parsed(v, rest)
  {
    var word := Print(v);
    assert ParseWord(word, v, word + rest) == Parsed(v, rest);
    assert (word + rest)[0] == word[0];
  }

  lemma PlainRoundTrip(n: string, rest: string)
    requires Plain(n)
    ensures ParseValue("\"" + n + "\"" + rest) == Parsed(Str(n), rest)
  {
    PlainIsUnescaped(n);
    StringRoundTrip(n, rest);
    ParseQuoted(Escape(n) + "\"" + rest, n, rest);
    assert "\"" + n + "\"" + rest == "\"" + (Escape(n) + "\"" + rest);
  }

  lemma ParseLastItem(s: string, v: Value, rest: string)
    requires ParseValue(s) == Parsed(v, "]" + rest)
    ensures ParseItems(s) == Parsed([v], rest)
  {
    assert ("]" + rest)[1..] == rest;
  }

  lemma ParseNextItem(s: string, v: Value, more: string, vs: seq<Value>, rest: string)
    requires ParseValue(s) == Parsed(v, "," + more) && ParseItems(more) == Parsed(vs, rest)
    ensures ParseItems(s) == Parsed([v] + vs, rest)
  {
    assert ("," + more)[1..] == more;
  }

  lemma {:induction false} ItemsRoundTrip(parent: Value, items: seq<Value>, rest: string)
    requires forall x :: x in items ==> x < parent && Accepts(x)
    requires |items| > 0
    ensures ParseItems(PrintItems(parent, items) + "]" + rest) == Parsed(NormItems(parent, items), rest)
    decreases parent, 0, |items|
  {
    hide *;
    ItemsUnfold(parent, items);
    var text := PrintItems(parent, items) + "]" + rest;
    if |items| == 1 {
      ValueRoundTrip(items[0], "]" + rest);
      RegroupLast(Print(items[0]), rest);
      ParseLastItem(text, Norm(items[0]), rest);
    } else {
      var more := PrintItems(parent, items[1..]) + "]" + rest;
      ValueRoundTrip(items[0], "," + more);
      RegroupItem(Print(items[0]), PrintItems(parent, items[1..]), rest);
      ItemsRoundTrip(parent, items[1..], rest);
      ParseNextItem(text, Norm(items[0]), more, NormItems(parent, items[1..]), rest);
    }
  }

  lemma RegroupLast(item: string, rest: string)
    ensures item + "]" + rest == item + ("]" + rest)
  {
  }

  lemma RegroupItem(item: string, more: string, rest: string)
    ensures item + "," + more + "]" + rest == item + ("," + (more + "]" + rest))
  {
  }

  /** The text and the normal form of a list, one item at a time. */
  lemma ItemsUnfold(parent: Value, items: seq<Value>)
    requires forall x :: x in items ==> x < parent && Accepts(x)
    requires |items| > 0
    ensures items[0] in items && forall x :: x in items[1..] ==> x in items
    ensures PrintItems(parent, items)
      == if |items| == 1 then Print(items[0]) else Print(items[0]) + "," + PrintItems(parent, items[1..])
    ensures NormItems(parent, items)
      == if |items| == 1 then [Norm(items[0])] else [Norm(items[0])] + NormItems(parent, items[1..])
  {
  }

  lemma MemberSplit(k: string, text: string, more: string)
    ensures Member(k, text) + more == "\"" + (Escape(k) + "\"" + (":" + (text + more)))
    ensures (Member(k, text) + more)[1..] == Escape(k) + "\"" + (":" + (text + more))
  {
  }

  lemma ParseLastMember(k: string, text: string, v: Value, rest: string)
    requires ParseValue(text + ("}" + rest)) == Parsed(v, "}" + rest)
    ensures ParseMembers(Member(k, text) + ("}" + rest)) == Parsed(map[k := v], rest)
  {
    var s := text + ("}" + rest);
    MemberSplit(k, text, "}" + rest);
    StringRoundTrip(k, ":" + s);
    assert (":" + s)[1..] == s && ("}" + rest)[1..] == rest;
  }

  lemma ParseNextMember(k: string, text: string, v: Value, more: string, m: map<string, Value>, rest: string)
    requires ParseValue(text + ("," + more)) == Parsed(v, "," + more)
    requires ParseMembers(more) == Parsed(m, rest) && forall j :: j in m ==> StrLess(k, j)
    ensures ParseMembers(Member(k, text) + ("," + more)) == Parsed(m[k := v], rest)
  {
    var s := text + ("," + more);
    MemberSplit(k, text, "," + more);
    StringRoundTrip(k, ":" + s);
    assert (":" + s)[1..] == s && ("," + more)[1..] == more;
  }

  lemma Regroup(a: string, b: string, c: string)
    ensures a + b + c == a + (b + c)
  {
  }

  lemma PrintMembersCons(parent: Value, ks: seq<string>, tail: string)
    requires parent.Dict? && forall k :: k in ks ==> k in parent.entries && Accepts(parent.entries[k])
    requires |ks| > 0
    ensures PrintMembers(parent, ks) + tail == Member(ks[0], Print(parent.entries[ks[0]]))
      + if |ks| == 1 then tail else "," + (PrintMembers(parent, ks[1..]) + tail)
  {
    if |ks| > 1 {
      var head := Member(ks[0], Print(parent.entries[ks[0]]));
      Regroup(head, ",", PrintMembers(parent, ks[1..]));
      Regroup(head, "," + PrintMembers(parent, ks[1..]), tail);
      Regroup(",", PrintMembers(parent, ks[1..]), tail);
    }
  }

  lemma NormMembersCons(parent: Value, ks: seq<string>)
    requires parent.Dict? && forall k :: k in ks ==> k in parent.entries && Accepts(parent.entries[k])
    requires |ks| > 0
    ensures NormMembers(parent, ks) == NormMembers(parent, ks[1..])[ks[0] := Norm(parent.entries[ks[0]])]
  {
  }

  lemma {:induction false} MembersRoundTrip(parent: Value, ks: seq<string>, rest: string)
    requires parent.Dict? && forall k :: k in ks ==> k in parent.entries && Accepts(parent.entries[k])
    requires |ks| > 0 && forall i, j :: 0 <= i < j < |ks| ==> StrLess(ks[i], ks[j])
    ensures ParseMembers(PrintMembers(parent, ks) + "}" + rest) == Parsed(NormMembers(parent, ks), rest)
    decreases parent, 0, |ks|
  {
    var k, v := ks[0], parent.entries[ks[0]];
    Regroup(PrintMembers(parent, ks), "}", rest);
    if |ks| == 1 {
      ValueRoundTrip(v, "}" + rest);
      ParseLastMember(k, Print(v), Norm(v), rest);
      PrintMembersCons(parent, ks, "}" + rest);
      NormMembersCons(parent, ks);
      assert NormMembers(parent, []) == map[];
    } else {
      var more := PrintMembers(parent, ks[1..]) + ("}" + rest);
      Regroup(PrintMembers(parent, ks[1..]), "}", rest);
      ValueRoundTrip(v, "," + more);
      MembersRoundTrip(parent, ks[1..], rest);
      assert forall j :: j in NormMembers(parent, ks[1..]) ==> StrLess(k, j) by {
        assert forall j :: j in ks[1..] ==> exists i :: 0 < i < |ks| && ks[i] == j;
      }
      ParseNextMember(k, Print(v), Norm(v), more, NormMembers(parent, ks[1..]), rest);
      PrintMembersCons(parent, ks, "}" + rest);
      NormMembersCons(parent, ks);
    }
  }

  /** The parser inverts the printer on every tree the printer accepts, up to numbers becoming their NUMSTR. */
  lemma CanonRoundTrip(v: Value)
    requires Canon(v).Some?
    ensures Parse(Canon(v).value) == Some(Norm(v))
  {
    ValueRoundTrip(v, "");
    assert Print(v) + "" == Print(v);
  }

  /** Equal canonical text means, and is meant by, equal trees up to number-to-NUMSTR. */
  lemma CanonInjective(v: Value, w: Value)
    requires Canon(v).Some? && Canon(w).Some?
    ensures Canon(v) == Canon(w) <==> Norm(v) == Norm(w)
  {
    CanonRoundTrip(v);
    CanonRoundTrip(w);
    if Norm(v) == Norm(w) {
      PrintOfNorm(v);
      PrintOfNorm(w);
    }
  }

  /** Printing only sees the normal form: the numbers it quotes are the strings the normal form holds. */
  lemma {:induction false} PrintOfNorm(v: Value)
    requires Accepts(v)
    ensures Accepts(Norm(v)) && Print(v) == Print(Norm(v))
    decreases v, 1
  {
    match v {
      case Int(_) => NumStrPlain(v); PlainIsUnescaped(NumStr(v).value);
      case Real(_) => NumStrPlain(v); PlainIsUnescaped(NumStr(v).value);
      case List(items) => PrintOfNormItems(v, items, Norm(v));
      case Dict(m) =>
        forall k | k in m
          ensures Accepts(Norm(m[k]))
        {
          PrintOfNorm(m[k]);
        }
        assert Norm(v).entries.Keys == m.Keys;
        PrintOfNormMembers(v, SortedKeys(m.Keys), Norm(v));
      case _ =>
    }
  }

  lemma {:induction false} PrintOfNormItems(parent: Value, items: seq<Value>, parent': Value)
    requires forall x :: x in items ==> x < parent && Accepts(x)
    requires forall x :: x in items ==> Norm(x) < parent'
    ensures forall x :: x in NormItems(parent, items) ==> x < parent' && Accepts(x)
    ensures PrintItems(parent', NormItems(parent, items)) == PrintItems(parent, items)
    decreases parent, 0, |items|
  {
    if |items| > 0 {
      assert forall x :: x in items[1..] ==> x in items;
      assert items[0] in items;
      PrintOfNorm(items[0]);
      PrintOfNormItems(parent, items[1..], parent');
      assert NormItems(parent, items)[1..] == NormItems(parent, items[1..]);
    }
  }

  lemma {:induction false} PrintOfNormMembers(parent: Value, ks: seq<string>, parent': Value)
    requires parent.Dict? && forall k :: k in ks ==> k in parent.entries && Accepts(parent.entries[k])
    requires parent'.Dict? && forall k :: k in ks ==>
      k in parent'.entries && Accepts(parent'.entries[k]) && parent'.entries[k] == Norm(parent.entries[k])
    ensures PrintMembers(parent', ks) == PrintMembers(parent, ks)
    decreases parent, 0, |ks|
  {
    if |ks| > 0 {
      PrintOfNorm(parent.entries[ks[0]]);
      PrintOfNormMembers(parent, ks[1..], parent');
    }
  }

  // ---- identity ------------------------------------------------------------

  const GENESIS := "genesis"

  const EVENT_DOMAIN := "groundhold/canon/v1:event"

  /** SHA-256 idealised: injective, and never equal to the genesis marker. */
  function Digest(data: string): string {
    "sha256:" + data
  }

  lemma DigestInjective(a: string, b: string)
    ensures Digest(a) == Digest(b) <==> a == b
    ensures Digest(a) != GENESIS
  {
    assert Digest(a)[7..] == a && Digest(b)[7..] == b;
    assert Digest(a)[0] == 's';
  }

  /** `_hash`: identity of a model under its domain, or `None` where it has no canonical form. */
  function Hash(domain: string, v: Value): Option<string> {
    match Canon(v)
    case None => None
    case Some(text) => Some(Digest(domain + "\n" + text))
  }

  /** `hash_event`: the detached signature is not part of the identity. */
  function HashEvent(doc: map<string, Value>): Option<string> {
    Hash(EVENT_DOMAIN, Dict(doc - {"sig"}))
  }

  /** Two hashes agree exactly when the domains and the trees (up to number-to-NUMSTR) do. */
  lemma HashIdentity(d: string, v: Value, e: string, w: Value)
    requires '\n' !in d && '\n' !in e
    requires Hash(d, v).Some? && Hash(e, w).Some?
    ensures Hash(d, v) == Hash(e, w) <==> d == e && Norm(v) == Norm(w)
    ensures Hash(d, v).value != GENESIS
  {
    var s, t := Canon(v).value, Canon(w).value;
    CanonInjective(v, w);
    DigestInjective(d + "\n" + s, e + "\n" + t);
    if d + "\n" + s == e + "\n" + t { DomainSplits(d, s, e, t); }
  }

  lemma {:induction false} DomainSplits(d: string, s: string, e: string, t: string)
    requires '\n' !in d && '\n' !in e
    requires d + "\n" + s == e + "\n" + t
    ensures d == e && s == t
  {
    var x, y := d + "\n" + s, e + "\n" + t;
    assert x[0] == if |d| > 0 then d[0] else '\n';
    assert y[0] == if |e| > 0 then e[0] else '\n';
    if |d| > 0 {
      assert x[1..] == d[1..] + "\n" + s && y[1..] == e[1..] + "\n" + t;
      DomainSplits(d[1..], s, e[1..], t);
    } else {
      assert x[1..] == s && y[1..] == t;
    }
  }

  /** Signed and unsigned copies of one event share one hash, and no other document does. */
  lemma EventIdentity(d: map<string, Value>, e: map<string, Value>)
    requires HashEvent(d).Some? && HashEvent(e).Some?
    ensures HashEvent(d) == HashEvent(e) <==> Norm(Dict(d - {"sig"})) == Norm(Dict(e - {"sig"}))
    ensures HashEvent(d).value != GENESIS
  {
    HashIdentity(EVENT_DOMAIN, Dict(d - {"sig"}), EVENT_DOMAIN, Dict(e - {"sig"}));
  }
}
