/**
 Canonical text is unique: whatever the parser accepts is, character by character, the text the printer writes for what
 it reads, so a document has one text and a text one document. Numbers, which are printed as strings, have one spelling
 each.
 */
module CanonicalText {
  import opened Prelude
  import opened Canonical

  // ---- strings ---------------------------------------------------------------

  /** A quoted text is the printer's own quoting of what it reads as: no other escape of a character is accepted. */
  lemma {:induction false} QuotedTextIsUnique(s: string, t: string, rest: string)
    requires ParseString(s) == Parsed(t, rest)
    ensures s == Escape(t) + "\"" + rest
    decreases |s|
  {
    if s[0] == '"' {
      assert s == [s[0]] + s[1..];
    } else if s[0] != '\\' {
      EscapedFirst(s, 1, s[0], t, rest);
    } else if s[1] == '"' || s[1] == '\\' {
      EscapedFirst(s, 2, s[1], t, rest);
    } else if s[1] == 'n' {
      EscapedFirst(s, 2, '\n', t, rest);
    } else if s[1] == 'r' {
      EscapedFirst(s, 2, '\r', t, rest);
    } else if s[1] == 't' {
      EscapedFirst(s, 2, '\t', t, rest);
    } else {
      var c := ParseHex(s[4..6]).value;
      assert s[..6] == [s[0], s[1]] + s[2..4] + s[4..6] == "\\u00" + ControlHex(c);
      EscapedFirst(s, 6, c, t, rest);
    }
  }

  lemma {:induction false} EscapedFirst(s: string, n: nat, c: char, t: string, rest: string)
    requires 1 <= n <= |s| && s[..n] == EscapeChar(c)
    requires Prepend(c, ParseString(s[n..])) == Parsed(t, rest)
    ensures s == Escape(t) + "\"" + rest
    decreases |s|, 0
  {
    hide ParseString, EscapeChar;
    var more := ParseString(s[n..]).value;
    QuotedTextIsUnique(s[n..], more, rest);
    assert t == [c] + more && t[1..] == more;
    assert s == s[..n] + s[n..];
  }

  /** What is escaped is a quote, a backslash or a control character; no escape has an upper-case letter. */
  lemma EscapesAreMinimal(c: char)
    ensures EscapeChar(c) == [c] <==> c != '"' && c != '\\' && (c as int) >= 0x20
    ensures EscapeChar(c) != [c] ==> EscapeChar(c)[0] == '\\' && forall x :: x in EscapeChar(c) ==> !('A' <= x <= 'Z')
    ensures |EscapeChar(c)| == 6 <==> (c as int) < 0x20 && c !in "\n\r\t"
  {
  }

  // ---- trees -----------------------------------------------------------------

  /** The items of a list print alike whatever list they are in. */
  lemma {:induction false} ItemsPrintAlike(p: Value, q: Value, items: seq<Value>)
    requires forall x :: x in items ==> x < p && x < q && Accepts(x)
    ensures PrintItems(p, items) == PrintItems(q, items)
    decreases |items|
  {
    if |items| > 1 {
      assert forall x :: x in items[1..] ==> x in items;
      ItemsPrintAlike(p, q, items[1..]);
    }
  }

  lemma {:induction false} MembersPrintAlike(p: Value, q: Value, ks: seq<string>)
    requires p.Dict? && q.Dict? && forall k :: k in ks ==>
      k in p.entries && k in q.entries && p.entries[k] == q.entries[k] && Accepts(p.entries[k])
    ensures PrintMembers(p, ks) == PrintMembers(q, ks)
    decreases |ks|
  {
    if |ks| > 1 { MembersPrintAlike(p, q, ks[1..]); }
  }

  lemma WordText(s: string, v: Value, rest: string)
    requires ParseValue(s) == Parsed(v, rest) && s[0] in "ntf"
    ensures Accepts(v) && s == Print(v) + rest
  {
    hide ParseString, ParseItems, ParseMembers;
    var word := if s[0] == 'n' then "null" else if s[0] == 't' then "true" else "false";
    assert s == s[..|word|] + s[|word|..];
  }

  lemma QuotedUnfold(s: string, v: Value, rest: string)
    requires ParseValue(s) == Parsed(v, rest) && s[0] == '"'
    ensures v.Str? && s == "\"" + s[1..] && ParseString(s[1..]) == Parsed(v.s, rest)
  {
    hide ParseString, ParseItems, ParseMembers;
  }

  lemma ListUnfold(s: string, v: Value, rest: string)
    requires ParseValue(s) == Parsed(v, rest) && s[0] == '['
    ensures v.List? && s == "[" + s[1..]
    ensures (v.items == [] && s == "[]" + rest) || ParseItems(s[1..]) == Parsed(v.items, rest)
  {
    hide ParseString, ParseItems, ParseMembers;
    if |s| > 1 && s[1] == ']' { assert s == [s[0], s[1]] + s[2..]; }
  }

  lemma DictUnfold(s: string, v: Value, rest: string)
    requires ParseValue(s) == Parsed(v, rest) && s[0] !in "ntf\"["
    ensures v.Dict? && s == "{" + s[1..]
    ensures (v.entries == map[] && s == "{}" + rest) || ParseMembers(s[1..]) == Parsed(v.entries, rest)
  {
    hide ParseString, ParseItems, ParseMembers;
    if |s| > 1 && s[1] == '}' { assert s == [s[0], s[1]] + s[2..]; }
  }

  lemma ListText(items: seq<Value>, rest: string)
    requires forall x :: x in items ==> Accepts(x)
    ensures Accepts(List(items))
    ensures Print(List(items)) + rest == "[" + (PrintItems(List(items), items) + "]" + rest)
    ensures items == [] ==> Print(List(items)) == "[]"
  {
    hide PrintItems;
    Regroup("[", PrintItems(List(items), items) + "]", rest);
    if items == [] { assert PrintItems(List(items), items) == "" by { EmptyItems(items); } }
  }

  lemma EmptyItems(items: seq<Value>)
    requires items == []
    ensures PrintItems(List(items), items) == ""
  {
  }

  lemma DictText(m: map<string, Value>, rest: string)
    requires forall k :: k in m ==> Accepts(m[k])
    ensures Accepts(Dict(m))
    ensures Print(Dict(m)) + rest == "{" + (PrintMembers(Dict(m), SortedKeys(m.Keys)) + "}" + rest)
    ensures m == map[] ==> Print(Dict(m)) == "{}"
  {
    hide PrintMembers, SortedKeys;
    Regroup("{", PrintMembers(Dict(m), SortedKeys(m.Keys)) + "}", rest);
    if m == map[] { assert PrintMembers(Dict(m), SortedKeys(m.Keys)) == "" by { EmptyMembers(m); } }
  }

  lemma EmptyMembers(m: map<string, Value>)
    requires m == map[]
    ensures PrintMembers(Dict(m), SortedKeys(m.Keys)) == ""
  {
    SortedOnce([], m.Keys);
  }

  lemma QuotedText(t: string, rest: string)
    ensures Accepts(Str(t)) && Print(Str(t)) + rest == "\"" + (Escape(t) + "\"" + rest)
  {
    hide Escape;
  }

  lemma NotEmpty(s: string)
    requires ParseValue(s).Parsed?
    ensures s != ""
  {
  }

  /** Whatever reads as a value is the text of that value. */
  lemma {:induction false} ValueTextIsUnique(s: string, v: Value, rest: string)
    requires ParseValue(s) == Parsed(v, rest)
    ensures Accepts(v) && s == Print(v) + rest
    decreases |s|, 1
  {
    hide *;
    NotEmpty(s);
    if s[0] in "ntf" {
      WordText(s, v, rest);
    } else if s[0] == '"' {
      QuotedUnfold(s, v, rest);
      QuotedTextIsUnique(s[1..], v.s, rest);
      QuotedText(v.s, rest);
    } else if s[0] == '[' {
      ListUnfold(s, v, rest);
      if ParseItems(s[1..]) == Parsed(v.items, rest) { ItemsTextIsUnique(s[1..], v.items, rest); }
      ListText(v.items, rest);
    } else {
      DictUnfold(s, v, rest);
      if ParseMembers(s[1..]) == Parsed(v.entries, rest) { MembersTextIsUnique(s[1..], v.entries, rest); }
      DictText(v.entries, rest);
    }
  }

  /** What a text that reads as items consists of: a value, and the end or more items. */
  lemma ItemsUnfold(s: string, items: seq<Value>, rest: string) returns (v: Value, tail: string)
    requires ParseItems(s) == Parsed(items, rest)
    ensures ParseValue(s) == Parsed(v, tail) && tail != "" && |tail| < |s|
    ensures (tail == "]" + rest && items == [v])
      || (tail == "," + tail[1..] && |items| > 1 && items == [v] + items[1..]
          && ParseItems(tail[1..]) == Parsed(items[1..], rest))
  {
    hide ParseValue;
    var first := ParseValue(s);
    v, tail := first.value, first.rest;
    if tail[0] != ']' { ItemsNotEmpty(tail[1..]); }
  }

  lemma ItemsNotEmpty(s: string)
    ensures ParseItems(s).Parsed? ==> ParseItems(s).value != []
  {
    hide ParseValue;
  }

  lemma {:induction false} ItemsTextIsUnique(s: string, items: seq<Value>, rest: string)
    requires ParseItems(s) == Parsed(items, rest)
    ensures items != [] && (forall x :: x in items ==> Accepts(x))
    ensures s == PrintItems(List(items), items) + "]" + rest
    decreases |s|, 2
  {
    hide *;
    var v, tail := ItemsUnfold(s, items, rest);
    ValueTextIsUnique(s, v, tail);
    if tail == "]" + rest && items == [v] {
      OneItem(items, v);
      RegroupLast(Print(v), rest);
    } else {
      ItemsTextIsUnique(tail[1..], items[1..], rest);
      NextItem(items, v);
      RegroupItem(Print(v), PrintItems(List(items[1..]), items[1..]), rest);
    }
  }

  lemma OneItem(items: seq<Value>, v: Value)
    requires items == [v] && Accepts(v)
    ensures forall x :: x in items ==> Accepts(x)
    ensures PrintItems(List(items), items) == Print(v)
  {
  }

  lemma NextItem(items: seq<Value>, first: Value)
    requires |items| > 1 && items == [first] + items[1..]
    requires Accepts(first) && forall x :: x in items[1..] ==> Accepts(x)
    ensures (forall x :: x in items ==> Accepts(x)) && forall x :: x in items[1..] ==> x in items
    ensures PrintItems(List(items), items) == Print(first) + "," + PrintItems(List(items[1..]), items[1..])
  {
    var p, q := List(items), List(items[1..]);
    forall x | x in items[1..]
      ensures x < p && x < q && x in items
    {
    }
    ItemsPrintAlike(p, q, items[1..]);
  }

  lemma {:induction false} SortedOnce(ks: seq<string>, s: set<string>)
    requires forall k :: k in ks <==> k in s
    requires forall i, j :: 0 <= i < j < |ks| ==> StrLess(ks[i], ks[j])
    ensures SortedKeys(s) == ks
    decreases |ks|
  {
    if ks == [] {
      assert s == {};
    } else {
      var rest := s - {ks[0]};
      forall k | k in ks[1..]
        ensures k in rest
      {
        var i :| 0 < i < |ks| && ks[i] == k;
        StrLessIrreflexive(k);
      }
      SortedOnce(ks[1..], rest);
      assert IsLeast(ks[0], s);
      LeastIsUnique(s);
    }
  }

  lemma LeastComesFirst(m: map<string, Value>, k: string, v: Value)
    requires forall j :: j in m ==> StrLess(k, j)
    ensures SortedKeys(m[k := v].Keys) == [k] + SortedKeys(m.Keys)
  {
    var ks := [k] + SortedKeys(m.Keys);
    forall i, j | 0 <= i < j < |ks|
      ensures StrLess(ks[i], ks[j])
    {
      if i == 0 { assert ks[j] == SortedKeys(m.Keys)[j - 1] && ks[j] in SortedKeys(m.Keys); }
    }
    SortedOnce(ks, m[k := v].Keys);
  }

  /** What a text that reads as members consists of: a key, its value, and the end or more members under greater
      keys. */
  lemma MembersUnfold(s: string, m: map<string, Value>, rest: string)
    returns (k: string, afterKey: string, v: Value, tail: string, more: map<string, Value>)
    requires ParseMembers(s) == Parsed(m, rest)
    ensures s != "" && s == "\"" + s[1..] && ParseString(s[1..]) == Parsed(k, afterKey)
    ensures afterKey != "" && afterKey == ":" + afterKey[1..] && ParseValue(afterKey[1..]) == Parsed(v, tail)
    ensures |tail| < |afterKey| < |s| && tail != ""
    ensures (tail == "}" + rest && m == map[k := v])
      || (tail == "," + tail[1..] && ParseMembers(tail[1..]) == Parsed(more, rest)
          && m == more[k := v] && forall j :: j in more ==> StrLess(k, j))
  {
    hide ParseString, ParseValue, StrLess;
    var key := ParseString(s[1..]);
    k, afterKey := key.value, key.rest;
    var first := ParseValue(afterKey[1..]);
    v, tail := first.value, first.rest;
    more := map[];
    if tail[0] != '}' { more := ParseMembers(tail[1..]).value; }
  }

  lemma {:induction false} MembersTextIsUnique(s: string, m: map<string, Value>, rest: string)
    requires ParseMembers(s) == Parsed(m, rest)
    ensures m != map[] && (forall k :: k in m ==> Accepts(m[k]))
    ensures s == PrintMembers(Dict(m), SortedKeys(m.Keys)) + "}" + rest
    decreases |s|, 2
  {
    hide *;
    var k, afterKey, v, tail, more := MembersUnfold(s, m, rest);
    QuotedTextIsUnique(s[1..], k, afterKey);
    ValueTextIsUnique(afterKey[1..], v, tail);
    MemberText(s, k, Print(v), tail, afterKey);
    var text := Member(k, Print(v));
    if tail == "}" + rest && m == map[k := v] {
      LastMember(m, k, v);
      RejoinLast(text, rest);
    } else {
      MembersTextIsUnique(tail[1..], more, rest);
      LeastComesFirst(more, k, v);
      NextMember(more, k, v);
      Rejoin(text, PrintMembers(Dict(more), SortedKeys(more.Keys)), rest);
    }
  }

  lemma RejoinLast(head: string, rest: string)
    ensures head + ("}" + rest) == head + "}" + rest
  {
  }

  lemma Rejoin(head: string, more: string, rest: string)
    ensures head + ("," + (more + "}" + rest)) == head + "," + more + "}" + rest
  {
  }

  lemma MemberText(s: string, k: string, text: string, rest: string, afterKey: string)
    requires s != "" && s == "\"" + s[1..] && s[1..] == Escape(k) + "\"" + afterKey
    requires afterKey != "" && afterKey == ":" + afterKey[1..] && afterKey[1..] == text + rest
    ensures s == Member(k, text) + rest
  {
  }

  lemma LastMember(m: map<string, Value>, k: string, v: Value)
    requires m == map[k := v] && Accepts(v)
    ensures m != map[] && forall j :: j in m ==> Accepts(m[j])
    ensures PrintMembers(Dict(m), SortedKeys(m.Keys)) == Member(k, Print(v))
  {
    SortedOnce([k], m.Keys);
    assert k in m;
  }

  lemma NextMember(rest: map<string, Value>, k: string, v: Value)
    requires rest != map[] && Accepts(v) && forall j :: j in rest ==> StrLess(k, j) && Accepts(rest[j])
    requires SortedKeys(rest[k := v].Keys) == [k] + SortedKeys(rest.Keys)
    ensures var m := rest[k := v];
      && m != map[] && (forall j :: j in m ==> Accepts(m[j]))
      && PrintMembers(Dict(m), SortedKeys(m.Keys))
        == Member(k, Print(v)) + "," + PrintMembers(Dict(rest), SortedKeys(rest.Keys))
  {
    var m, ks := rest[k := v], SortedKeys(rest.Keys);
    StrLessIrreflexive(k);
    assert ks != [] by { var j :| j in rest; assert j in ks; }
    assert ([k] + ks)[1..] == ks;
    assert k in m;
    MembersPrintAlike(Dict(m), Dict(rest), ks);
  }

  /**
   One text for each document: a text that can be read back at all is the canonical text of what it reads as. With the
   round trip, canonical texts and trees in normal form correspond one to one: keys in increasing order, the short
   escape of a character where it has one, no space, nothing after the end.
   */
  lemma ReadTextIsCanonical(s: string)
    requires Parse(s).Some?
    ensures Canon(Parse(s).value) == Some(s)
  {
    var r := ParseValue(s);
    ValueTextIsUnique(s, r.value, r.rest);
    assert Print(r.value) + "" == Print(r.value);
  }

  // ---- numbers ---------------------------------------------------------------

  /** No sign but a minus, no leading zero, no trailing zero after a point, and no negative zero. */
  predicate Tidy(s: string) {
    s != "-0" && TidyUnsigned(if s != "" && s[0] == '-' then s[1..] else s)
  }

  predicate TidyUnsigned(t: string) {
    var k := PointAt(t);
    && k > 0 && AllDigits(t[..k]) && (t[0] == '0' ==> k == 1)
    && (k < |t| ==> k + 1 < |t| && AllDigits(t[k + 1..]) && t[|t| - 1] != '0')
  }

  lemma {:induction false} DigitsLead(n: nat)
    ensures Digits(n)[0] == '0' <==> n == 0
    ensures n < 10 ==> |Digits(n)| == 1
  {
    if n >= 10 { DigitsLead(n / 10); }
  }

  lemma WholeIsTidy(n: int)
    ensures Tidy(IntStr(n))
  {
    var t := Digits(Abs(n));
    DigitsLead(Abs(n));
    hide Digits;
    assert PointAt(t) == |t| && t[..|t|] == t;
    if n < 0 {
      assert IntStr(n) == "-" + t && IntStr(n)[1..] == t;
      assert t[0] != '0';
    } else {
      assert IntStr(n) == t;
    }
  }

  /** The last decimal of a shortest fixed-point text is not a zero. */
  lemma LastDecimal(r: real, p: nat)
    requires Integral(r).None? && LeastPlaces(r, 1) == Some(p)
    ensures p > 0 && Abs(Integral(Scaled(r, p)).value) % 10 != 0
  {
    ShortestIsExact(r, 1, p);
    var n := Integral(Scaled(r, p)).value;
    if Abs(n) % 10 == 0 {
      OnePlaceLess(r, p, n);
      if p > 1 { ExactPlacesFound(r, 1, p - 1); }
      assert false;
    }
  }

  lemma {:induction false} ShortestIsExact(r: real, from: nat, p: nat)
    requires LeastPlaces(r, from) == Some(p)
    ensures from <= p <= MAX_PLACES && Integral(Scaled(r, p)).Some?
    decreases MAX_PLACES + 1 - from
  {
  }

  lemma OnePlaceLess(r: real, p: nat, n: int)
    requires p > 0 && Scaled(r, p) == n as real && Abs(n) % 10 == 0
    ensures Integral(Scaled(r, p - 1)).Some?
  {
    var m := n / 10;
    assert n == 10 * m;
    assert 10.0 * Scaled(r, p - 1) == 10.0 * (m as real);
  }

  lemma FixedIsTidy(n: int, p: nat)
    requires p > 0 && Abs(n) % 10 != 0
    ensures Tidy(FixedStr(n, p))
  {
    var whole, part := Digits(Chop(Abs(n), p)), Pad(Abs(n), p);
    LeadIsAlone(Chop(Abs(n), p));
    assert part[|part| - 1] == DigitChar(Abs(n) % 10) && part[|part| - 1] != '0';
    assert FixedStr(n, p) == Sign(n) + (whole + "." + part) by { hide Digits, Pad, Chop; }
    hide *;
    JoinedIsTidy(Sign(n), whole, part, n);
  }

  lemma JoinedIsTidy(sign: string, whole: string, part: string, n: int)
    requires sign == Sign(n) && whole != "" && AllDigits(whole) && (whole[0] == '0' ==> |whole| == 1)
    requires part != "" && AllDigits(part) && part[|part| - 1] != '0'
    ensures Tidy(sign + (whole + "." + part))
  {
    var t := whole + "." + part;
    UnsignedIsTidy(whole, part);
    FirstIsDigit(whole);
    hide TidyUnsigned, AllDigits, Tidy;
    assert t[0] == whole[0] && |t| > 1;
    EitherSign(t);
    assert "" + t == t;
  }

  lemma EitherSign(t: string)
    requires |t| > 1 && t[0] != '-' && TidyUnsigned(t)
    ensures Tidy(t) && Tidy("-" + t)
  {
    hide TidyUnsigned;
    var s := "-" + t;
    assert s[1..] == t && |s| > 2 && s[0] == '-';
    assert |"-0"| == 2 && "-0"[0] == '-';
  }

  lemma FirstIsDigit(whole: string)
    requires whole != "" && AllDigits(whole)
    ensures whole[0] != '-'
  {
  }

  lemma UnsignedIsTidy(whole: string, part: string)
    requires whole != "" && AllDigits(whole) && (whole[0] == '0' ==> |whole| == 1)
    requires part != "" && AllDigits(part) && part[|part| - 1] != '0'
    ensures TidyUnsigned(whole + "." + part)
  {
    var t := whole + "." + part;
    PointFound(whole, part);
    hide PointAt, AllDigits;
    assert t[..|whole|] == whole && t[|whole| + 1..] == part && t[|t| - 1] == part[|part| - 1];
    assert t[0] == whole[0];
  }

  lemma LeadIsAlone(n: nat)
    ensures Digits(n)[0] == '0' ==> |Digits(n)| == 1
  {
    DigitsLead(n);
  }

  /** An accepted number is written in one way only: without a leading zero, without a trailing one after its point, and
      never as minus zero. */
  lemma NumbersAreTidy(v: Value)
    requires (v.Int? || v.Real?) && NumStr(v).Some?
    ensures Tidy(NumStr(v).value)
  {
    var r := NumberOf(v);
    NumStrOfNumber(v);
    if Integral(r).Some? {
      WholeIsTidy(r.Floor);
    } else {
      var p := LeastPlaces(r, 1).value;
      LastDecimal(r, p);
      FixedIsTidy(Integral(Scaled(r, p)).value, p);
    }
  }

  /** A number is accepted exactly when it is an integer below 2 to the 53rd in size, or some text with 1 to 17 decimals
      reads back as it. */
  lemma AcceptedNumbers(r: real)
    ensures RealNumStr(r).Some? <==>
      if r.Floor as real == r then -9007199254740992.0 < r < 9007199254740992.0
      else exists n, k: nat :: 1 <= k <= 17 && ReadDecimal(FixedStr(n, k)) == Some(r)
  {
    hide ReadDecimal, FixedStr, IntStr, LeastPlaces;
    if r.Floor as real != r {
      assert Integral(r).None?;
      if RealNumStr(r).Some? {
        var p := LeastPlaces(r, 1).value;
        ShortestIsExact(r, 1, p);
        ReadsBackIffExact(r, Integral(Scaled(r, p)).value, p);
      }
      if n, k: nat :| 1 <= k <= 17 && ReadDecimal(FixedStr(n, k)) == Some(r) { LeastPlacesIsLeast(r, n, k); }
    }
  }
}
