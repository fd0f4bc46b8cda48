/** The canonical serialiser loses nothing the integrity hash depends on:
    each piece of its output (an escaped character, a string literal, a
    number, a whole value) can be told apart from any other piece by the
    text alone, so two objects with the same canonical text have the same
    keys with the same serialised values. */
module CanonicalUnique {
  import opened Wrappers
  import opened Text
  import opened Json

  // ---------------------------------------------------------------------
  // Escaped characters

  /** How many characters the escape at the start of `s` takes: one for a
      plain character, two for a backslash escape, six for `\uXXXX`, and
      twelve when those four digits are a leading surrogate (a pair follows). */
  function TokenLength(s: string): nat
    requires |s| >= 1
  {
    if s[0] != '\\' then 1
    else if |s| < 2 || s[1] != 'u' then 2
    else if |s| >= 6 && 0xD800 <= ValueOf(s[2..6], 16) < 0xDC00 then 12
    else 6
  }

  /** The code point an escape stands for, read back from its text. */
  function Unescape(e: string): int
    requires |e| >= 1
  {
    if |e| == 1 then e[0] as int
    else if |e| == 2 then
      (if e[1] == '"' then 0x22 else if e[1] == '\\' then 0x5C else if e[1] == 'n' then 0x0A
       else if e[1] == 'r' then 0x0D else if e[1] == 't' then 0x09 else if e[1] == 'b' then 0x08 else 0x0C)
    else if |e| < 6 then 0
    else if |e| < 12 then ValueOf(e[2..6], 16)
    else 0x10000 + (ValueOf(e[2..6], 16) - 0xD800) * 1024 + (ValueOf(e[8..12], 16) - 0xDC00)
  }

  lemma Associative(a: string, b: string, c: string)
    ensures (a + b) + c == a + (b + c)
  {
  }

  lemma Cancel(a: string, x: string, y: string)
    requires a + x == a + y
    ensures x == y
  {
    assert x == (a + x)[|a|..] && y == (a + y)[|a|..];
  }

  /** The characters with a two-character backslash escape. */
  predicate ShortEscaped(c: char) {
    c == '"' || c == '\\' || c == '\n' || c == '\r' || c == '\t' || c as int == 0x08 || c as int == 0x0C
  }

  /** `\uXXXX` followed by anything: a backslash, a `u`, then four digits
      that read back as the code unit. */
  lemma UEscapeParts(n: nat, rest: string)
    requires n < 0x10000
    ensures var s := "\\u" + Hex4(n) + rest;
            |s| >= 6 && s[0] == '\\' && s[1] == 'u' && s[2..6] == Hex4(n) && ValueOf(s[2..6], 16) == n
  {
    var s := "\\u" + Hex4(n) + rest;
    assert s[2..6] == Hex4(n);
    Hex4Value(n);
  }

  /** The escape of a character beyond the Basic Multilingual Plane: the
      two surrogates, each as `\uXXXX`. */
  lemma SupplementaryShape(c: char)
    requires c as int >= 0x10000
    ensures var v := c as int - 0x10000;
            v / 1024 < 1024 && v % 1024 < 1024 &&
            EscapeChar(c) == "\\u" + Hex4(0xD800 + v / 1024) + ("\\u" + Hex4(0xDC00 + v % 1024))
  {
    var v := c as int - 0x10000;
    assert v / 1024 < 1024 && v % 1024 < 1024;
  }

  /** The escapes of the characters outside space..tilde with no short form:
      `\uXXXX` of the code point. */
  lemma BmpShape(c: char)
    requires (c as int < 0x20 || 0x7E < c as int < 0x10000) && !ShortEscaped(c)
    ensures EscapeChar(c) == "\\u" + Hex4(c as int)
  {
  }

  lemma SixToken(s: string)
    requires |s| >= 6 && s[0] == '\\' && s[1] == 'u' && !(0xD800 <= ValueOf(s[2..6], 16) < 0xDC00)
    ensures TokenLength(s) == 6
  {
  }

  lemma TwelveToken(s: string)
    requires |s| >= 6 && s[0] == '\\' && s[1] == 'u' && 0xD800 <= ValueOf(s[2..6], 16) < 0xDC00
    ensures TokenLength(s) == 12
  {
  }

  lemma SixValue(e: string)
    requires |e| == 6
    ensures Unescape(e) == ValueOf(e[2..6], 16)
  {
  }

  lemma TwelveValue(e: string)
    requires |e| == 12
    ensures Unescape(e) == 0x10000 + (ValueOf(e[2..6], 16) - 0xD800) * 1024 + (ValueOf(e[8..12], 16) - 0xDC00)
  {
  }

  /** `\\uXXXX` for a code unit that is not a leading surrogate takes six
      characters and reads back as the unit. */
  lemma BmpToken(n: nat, rest: string)
    requires n < 0x10000 && !(0xD800 <= n < 0xDC00)
    ensures |"\\u" + Hex4(n)| == 6 && ("\\u" + Hex4(n))[0] == '\\'
    ensures TokenLength("\\u" + Hex4(n) + rest) == 6
    ensures Unescape("\\u" + Hex4(n)) == n
  {
    var e := "\\u" + Hex4(n);
    UEscapeParts(n, rest);
    SixToken(e + rest);
    UEscapeParts(n, "");
    assert e + "" == e;
    SixValue(e);
  }

  /** A surrogate pair takes twelve characters and reads back as the code
      point it encodes. */
  lemma PairToken(hi: nat, lo: nat, rest: string)
    requires 0xD800 <= hi < 0xDC00 && 0xDC00 <= lo < 0xE000
    ensures |"\\u" + Hex4(hi) + ("\\u" + Hex4(lo))| == 12
    ensures ("\\u" + Hex4(hi) + ("\\u" + Hex4(lo)))[0] == '\\'
    ensures TokenLength("\\u" + Hex4(hi) + ("\\u" + Hex4(lo)) + rest) == 12
    ensures Unescape("\\u" + Hex4(hi) + ("\\u" + Hex4(lo))) == 0x10000 + (hi - 0xD800) * 1024 + (lo - 0xDC00)
  {
    PairLength(hi, lo, rest);
    PairValue(hi, lo);
  }

  lemma PairLength(hi: nat, lo: nat, rest: string)
    requires 0xD800 <= hi < 0xDC00 && lo < 0x10000
    ensures TokenLength("\\u" + Hex4(hi) + ("\\u" + Hex4(lo)) + rest) == 12
  {
    var a, b := "\\u" + Hex4(hi), "\\u" + Hex4(lo);
    UEscapeParts(hi, b + rest);
    Associative(a, b, rest);
    TwelveToken(a + (b + rest));
  }

  lemma PairValue(hi: nat, lo: nat)
    requires hi < 0x10000 && lo < 0x10000
    ensures |"\\u" + Hex4(hi) + ("\\u" + Hex4(lo))| == 12
    ensures ("\\u" + Hex4(hi) + ("\\u" + Hex4(lo)))[0] == '\\'
    ensures Unescape("\\u" + Hex4(hi) + ("\\u" + Hex4(lo))) == 0x10000 + (hi - 0xD800) * 1024 + (lo - 0xDC00)
  {
    var a, b := "\\u" + Hex4(hi), "\\u" + Hex4(lo);
    var e := a + b;
    UEscapeParts(hi, b);
    UEscapeParts(lo, "");
    assert b + "" == b;
    SecondHalf(a, b);
    TwelveValue(e);
  }

  lemma SecondHalf(a: string, b: string)
    requires |a| == 6 && |b| == 6
    ensures (a + b)[8..12] == b[2..6]
  {
    var e := a + b;
    forall k | 0 <= k < 4 ensures e[8..12][k] == b[2..6][k] {
      assert e[8 + k] == b[2 + k];
    }
  }

  /** The facts about one escape the prefix argument needs: it is not
      empty, does not start with a quote, its length is read off its start
      whatever follows, and it reads back as the character. */
  predicate GoodEscape(c: char, rest: string) {
    var e := EscapeChar(c);
    |e| >= 1 && e[0] != '"' && TokenLength(e + rest) == |e| && Unescape(e) == c as int
  }

  lemma ShortGood(c: char, rest: string)
    requires ShortEscaped(c)
    ensures GoodEscape(c, rest)
  {
  }

  lemma PlainGood(c: char, rest: string)
    requires 0x20 <= c as int <= 0x7E && !ShortEscaped(c)
    ensures GoodEscape(c, rest)
  {
  }

  lemma BmpGood(c: char, rest: string)
    requires (c as int < 0x20 || 0x7E < c as int < 0x10000) && !ShortEscaped(c)
    ensures GoodEscape(c, rest)
  {
    BmpShape(c);
    BmpToken(c as int, rest);
  }

  lemma SupplementaryGood(c: char, rest: string)
    requires c as int >= 0x10000
    ensures GoodEscape(c, rest)
  {
    SupplementaryShape(c);
    var v := c as int - 0x10000;
    var hi, lo := 0xD800 + v / 1024, 0xDC00 + v % 1024;
    PairToken(hi, lo, rest);
    SurrogateSum(v);
    assert EscapeChar(c) == "\\u" + Hex4(hi) + ("\\u" + Hex4(lo));
  }

  /** The two surrogates of `v` add back up to `v`. */
  lemma SurrogateSum(v: nat)
    ensures ((0xD800 + v / 1024) - 0xD800) * 1024 + ((0xDC00 + v % 1024) - 0xDC00) == v
  {
  }

  /** Every escape is non-empty, never starts with a quote, its length is
      read off its first characters whatever follows it, and it reads back
      as the character it escapes. */
  lemma EscapeCharToken(c: char, rest: string)
    ensures GoodEscape(c, rest)
  {
    var n := c as int;
    if ShortEscaped(c) {
      ShortGood(c, rest);
    } else if 0x20 <= n <= 0x7E {
      PlainGood(c, rest);
    } else if n < 0x10000 {
      BmpGood(c, rest);
    } else {
      SupplementaryGood(c, rest);
    }
  }

  /** No escape is a prefix of another: if two escapes followed by anything
      give the same text, they escape the same character. */
  lemma EscapePrefix(c1: char, c2: char, x: string, y: string)
    requires EscapeChar(c1) + x == EscapeChar(c2) + y
    ensures c1 == c2 && x == y
  {
    var e1, e2 := EscapeChar(c1), EscapeChar(c2);
    EscapeCharToken(c1, x);
    EscapeCharToken(c2, y);
    assert e1 == (e1 + x)[..|e1|] && e2 == (e2 + y)[..|e2|];
    assert x == (e1 + x)[|e1|..] && y == (e2 + y)[|e2|..];
  }

  // ---------------------------------------------------------------------
  // String literals and numbers

  /** An escaped string, followed by `z`, starts with `z` when empty and
      otherwise with the first escape, which is not a quote. */
  lemma EscapeStringFirst(s: string, z: string)
    ensures |s| == 0 ==> EscapeString(s) + z == z
    ensures |s| > 0 ==> |EscapeString(s) + z| >= 1 && (EscapeString(s) + z)[0] != '"'
  {
    if |s| > 0 {
      var e, w := EscapeChar(s[0]), EscapeString(s[1..]);
      EscapeCharToken(s[0], w);
      assert EscapeString(s) == e + w;
      assert (e + w + z)[0] == e[0];
    }
  }

  /** The first escapes of two escaped strings followed by the same text
      agree, and so does what follows them. */
  lemma EscapeStringCons(s1: string, s2: string, x: string, y: string)
    requires |s1| > 0 && |s2| > 0
    requires EscapeString(s1) + x == EscapeString(s2) + y
    ensures s1[0] == s2[0] && EscapeString(s1[1..]) + x == EscapeString(s2[1..]) + y
  {
    var t1, t2 := EscapeString(s1[1..]), EscapeString(s2[1..]);
    var e1, e2 := EscapeChar(s1[0]), EscapeChar(s2[0]);
    assert EscapeString(s1) == e1 + t1 && EscapeString(s2) == e2 + t2;
    Associative(e1, t1, x);
    Associative(e2, t2, y);
    EscapePrefix(s1[0], s2[0], t1 + x, t2 + y);
  }

  /** An escaped string body ends at the first unescaped quote: two bodies
      followed by a quote give the same text only for the same string, with
      the same text after. */
  lemma {:induction false} EscapeStringPrefix(s1: string, s2: string, x: string, y: string)
    requires EscapeString(s1) + ("\"" + x) == EscapeString(s2) + ("\"" + y)
    ensures s1 == s2 && x == y
    decreases |s1|
  {
    EscapeStringFirst(s1, "\"" + x);
    EscapeStringFirst(s2, "\"" + y);
    if |s1| == 0 && |s2| == 0 {
      Cancel("\"", x, y);
    } else if |s1| == 0 || |s2| == 0 {
      assert false;
    } else {
      EscapeStringCons(s1, s2, "\"" + x, "\"" + y);
      EscapeStringPrefix(s1[1..], s2[1..], x, y);
      assert s1 == [s1[0]] + s1[1..] && s2 == [s2[0]] + s2[1..];
    }
  }

  lemma QuoteSplit(s: string, x: string)
    ensures Quote(s) + x == "\"" + (EscapeString(s) + ("\"" + x))
  {
    var q, b := "\"", EscapeString(s);
    assert Quote(s) == q + b + q;
    Associative(q + b, q, x);
    Associative(q, b, q + x);
  }

  /** A string literal ends where it ends: two literals followed by
      anything give the same text only for the same string. */
  lemma QuotePrefix(s1: string, s2: string, x: string, y: string)
    requires Quote(s1) + x == Quote(s2) + y
    ensures s1 == s2 && x == y
  {
    QuoteSplit(s1, x);
    QuoteSplit(s2, y);
    Cancel("\"", EscapeString(s1) + ("\"" + x), EscapeString(s2) + ("\"" + y));
    EscapeStringPrefix(s1, s2, x, y);
  }

  /** Where a character of a concatenation comes from. */
  lemma CharAt(a: string, x: string, k: int)
    ensures 0 <= k < |a| ==> (a + x)[k] == a[k]
    ensures |a| <= k < |a| + |x| ==> (a + x)[k] == x[k - |a|]
  {
  }

  predicate IsDigit(c: char) { '0' <= c <= '9' }

  /** Nothing follows, or something that is not a digit. */
  predicate NoDigitFirst(x: string) { x == [] || !IsDigit(x[0]) }

  /** A number ends at its last digit: two numbers followed by text that does
      not start with a digit give the same text only for the same number. */
  lemma DecimalPrefix(i: int, j: int, x: string, y: string)
    requires Decimal(i) + x == Decimal(j) + y
    requires NoDigitFirst(x) && NoDigitFirst(y)
    ensures i == j && x == y
  {
    var a, b := Decimal(i), Decimal(j);
    var t := a + x;
    CharAt(a, x, |a|);
    CharAt(a, x, |b|);
    CharAt(b, y, |a|);
    CharAt(b, y, |b|);
    if |a| != |b| {
      assert false;
    } else {
      assert a == t[..|a|] && b == (b + y)[..|b|];
      DecimalInjective(i, j);
      assert x == t[|a|..] && y == (b + y)[|b|..];
    }
  }

  // ---------------------------------------------------------------------
  // Whole values

  /** What a value's canonical text starts with tells its kind. */
  lemma CanonicalFirst(v: Json)
    ensures |Canonical(v)| >= 1
    ensures var c := Canonical(v)[0];
            (v.JNull? ==> c == 'n') && (v.JBool? ==> c == (if v.b then 't' else 'f')) &&
            (v.JInt? ==> c == '-' || IsDigit(c)) && (v.JStr? ==> c == '"') &&
            (v.JArr? ==> c == '[') && (v.JObj? ==> c == '{')
  {
    match v
    case JNull =>
    case JBool(b) =>
    case JInt(i) =>
    case JStr(t) =>
    case JArr(items) =>
    case JObj(es) =>
  }

  /** What may follow a value inside canonical text: nothing, a comma, or
      the bracket or brace that closes the enclosing array or object. */
  predicate Delim(x: string) {
    x == [] || x[0] == ',' || x[0] == ']' || x[0] == '}'
  }

  /** `s` is the canonical text of some value. */
  ghost predicate IsSerialised(s: string) {
    exists v :: s == Canonical(v)
  }

  /** Every value of a member list is the canonical text of some value. */
  ghost predicate Serialised(ms: seq<Member>) {
    forall k :: 0 <= k < |ms| ==> IsSerialised(ms[k].1)
  }

  /** What follows the first part of a comma join, then `x`. */
  function Rest(e: seq<string>, x: string): string
    requires |e| >= 1
  {
    if |e| > 1 then [','] + (Join(e[1..], ',') + x) else x
  }

  lemma JoinHead(e: seq<string>, x: string)
    requires |e| >= 1
    ensures Join(e, ',') + x == e[0] + Rest(e, x)
    ensures |e| > 1 ==> Rest(e, x)[0] == ','
    ensures |e| == 1 ==> Rest(e, x) == x
  {
    if |e| > 1 {
      Associative(e[0] + [','], Join(e[1..], ','), x);
      Associative(e[0], [','], Join(e[1..], ',') + x);
    }
  }

  /** A join followed by `x` starts with the first part's first character,
      or is `x` when there are no parts. */
  lemma JoinFirstChar(e: seq<string>, x: string)
    ensures |e| == 0 ==> Join(e, ',') + x == x
    ensures |e| >= 1 && |e[0]| >= 1 ==> (Join(e, ',') + x)[0] == e[0][0]
  {
  }

  lemma ArrText(xs: seq<Json>, x: string)
    ensures Canonical(JArr(xs)) + x == "[" + (Join(Elements(xs), ',') + ("]" + x))
  {
    var j := Join(Elements(xs), ',');
    Associative("[", j, "]");
    Associative("[" + j, "]", x);
    Associative("[", j, "]" + x);
  }

  lemma ObjText(es: Entries, x: string)
    ensures forall k :: 0 <= k < |SortByKey(Members(es))| ==> IsPrintableAscii(SortByKey(Members(es))[k].1)
    ensures Serialised(SortByKey(Members(es)))
    ensures Canonical(JObj(es)) + x == "{" + (Join(MemberTexts(SortByKey(Members(es))), ',') + ("}" + x))
  {
    SortedSerialised(es);
    var j := Join(MemberTexts(SortByKey(Members(es))), ',');
    assert Canonical(JObj(es)) == "{" + j + "}";
    Associative("{", j, "}");
    Associative("{" + j, "}", x);
    Associative("{", j, "}" + x);
  }

  /** The sorted members of an object carry serialised values. */
  lemma SortedSerialised(es: Entries)
    ensures forall k :: 0 <= k < |SortByKey(Members(es))| ==> IsPrintableAscii(SortByKey(Members(es))[k].1)
    ensures Serialised(SortByKey(Members(es)))
  {
    var ms := Members(es);
    var sorted := SortByKey(ms);
    forall k | 0 <= k < |sorted|
      ensures IsPrintableAscii(sorted[k].1) && IsSerialised(sorted[k].1)
    {
      assert sorted[k] in ms;
      var j :| 0 <= j < |ms| && ms[j] == sorted[k];
      assert sorted[k].1 == Canonical(es[j].1);
    }
  }

  /** A value's text ends where it ends: two values followed by what may
      follow a value give the same text only if their texts are equal, with
      the same text after. */
  lemma {:induction false} CanonicalPrefix(v: Json, w: Json, x: string, y: string)
    requires Canonical(v) + x == Canonical(w) + y
    requires Delim(x) && Delim(y)
    ensures Canonical(v) == Canonical(w) && x == y
    decreases |Canonical(v)|, 1
  {
    CanonicalFirst(v);
    CanonicalFirst(w);
    var cv, cw := Canonical(v), Canonical(w);
    assert (cv + x)[0] == cv[0] && (cw + y)[0] == cw[0];
    match v
    case JNull =>
      assert w.JNull?;
      Cancel(cv, x, y);
    case JBool(b) =>
      assert w.JBool? && w.b == b;
      Cancel(cv, x, y);
    case JInt(i) =>
      assert w.JInt?;
      DecimalPrefix(i, w.i, x, y);
    case JStr(t) =>
      assert w.JStr?;
      QuotePrefix(t, w.s, x, y);
    case JArr(xs) =>
      ArrPrefix(xs, w.items, x, y);
    case JObj(a) =>
      ObjPrefix(a, w.entries, x, y);
  }

  lemma {:induction false} ArrPrefix(xs: seq<Json>, ys: seq<Json>, x: string, y: string)
    requires Canonical(JArr(xs)) + x == Canonical(JArr(ys)) + y
    requires Delim(x) && Delim(y)
    ensures Canonical(JArr(xs)) == Canonical(JArr(ys)) && x == y
    decreases |Canonical(JArr(xs))|, 0
  {
    ArrText(xs, x);
    ArrText(ys, y);
    var j1, j2 := Join(Elements(xs), ','), Join(Elements(ys), ',');
    Cancel("[", j1 + ("]" + x), j2 + ("]" + y));
    ElementsPrefix(xs, ys, "]" + x, "]" + y);
    Cancel("]", x, y);
  }

  lemma {:induction false} ObjPrefix(a: Entries, b: Entries, x: string, y: string)
    requires Canonical(JObj(a)) + x == Canonical(JObj(b)) + y
    requires Delim(x) && Delim(y)
    ensures Canonical(JObj(a)) == Canonical(JObj(b)) && x == y
    decreases |Canonical(JObj(a))|, 0
  {
    ObjText(a, x);
    ObjText(b, y);
    var sa, sb := SortByKey(Members(a)), SortByKey(Members(b));
    var j1, j2 := Join(MemberTexts(sa), ','), Join(MemberTexts(sb), ',');
    Cancel("{", j1 + ("}" + x), j2 + ("}" + y));
    MembersPrefix(sa, sb, "}" + x, "}" + y);
    Cancel("}", x, y);
  }

  /** The elements of an array, followed by its closing bracket, are read
      back one by one. */
  lemma {:induction false} ElementsPrefix(xs: seq<Json>, ys: seq<Json>, x: string, y: string)
    requires Join(Elements(xs), ',') + x == Join(Elements(ys), ',') + y
    requires |x| > 0 && x[0] == ']' && |y| > 0 && y[0] == ']'
    ensures Elements(xs) == Elements(ys) && x == y
    decreases |Join(Elements(xs), ',')|, 3
  {
    JoinFirstChar(Elements(xs), x);
    JoinFirstChar(Elements(ys), y);
    if |xs| == 0 && |ys| == 0 {
    } else if |xs| == 0 {
      CanonicalFirst(ys[0]);
      assert false;
    } else if |ys| == 0 {
      CanonicalFirst(xs[0]);
      assert false;
    } else {
      ElementsConsPrefix(xs, ys, x, y);
    }
  }

  lemma {:induction false} ElementsConsPrefix(xs: seq<Json>, ys: seq<Json>, x: string, y: string)
    requires |xs| >= 1 && |ys| >= 1
    requires Join(Elements(xs), ',') + x == Join(Elements(ys), ',') + y
    requires |x| > 0 && x[0] == ']' && |y| > 0 && y[0] == ']'
    ensures Elements(xs) == Elements(ys) && x == y
    decreases |Join(Elements(xs), ',')|, 2
  {
    var e1, e2 := Elements(xs), Elements(ys);
    JoinHead(e1, x);
    JoinHead(e2, y);
    CanonicalPrefix(xs[0], ys[0], Rest(e1, x), Rest(e2, y));
    if |xs| > 1 && |ys| > 1 {
      Cancel([','], Join(e1[1..], ',') + x, Join(e2[1..], ',') + y);
      ElementsTail(xs);
      ElementsTail(ys);
      ElementsPrefix(xs[1..], ys[1..], x, y);
      assert e1 == [e1[0]] + e1[1..] && e2 == [e2[0]] + e2[1..];
    } else if |xs| == 1 && |ys| == 1 {
      assert e1 == [e1[0]] && e2 == [e2[0]];
    }
  }

  /** The members of an object, followed by its closing brace, are read
      back one by one, key and value. */
  lemma {:induction false} MembersPrefix(ms1: seq<Member>, ms2: seq<Member>, x: string, y: string)
    requires forall k :: 0 <= k < |ms1| ==> IsPrintableAscii(ms1[k].1)
    requires forall k :: 0 <= k < |ms2| ==> IsPrintableAscii(ms2[k].1)
    requires Serialised(ms1) && Serialised(ms2)
    requires Join(MemberTexts(ms1), ',') + x == Join(MemberTexts(ms2), ',') + y
    requires |x| > 0 && x[0] == '}' && |y| > 0 && y[0] == '}'
    ensures ms1 == ms2 && x == y
    decreases |Join(MemberTexts(ms1), ',')|, 3
  {
    JoinFirstChar(MemberTexts(ms1), x);
    JoinFirstChar(MemberTexts(ms2), y);
    MemberTextsFirst(ms1);
    MemberTextsFirst(ms2);
    if |ms1| == 0 && |ms2| == 0 {
    } else if |ms1| == 0 || |ms2| == 0 {
      assert false;
    } else {
      MembersConsPrefix(ms1, ms2, x, y);
    }
  }

  lemma {:induction false} MembersConsPrefix(ms1: seq<Member>, ms2: seq<Member>, x: string, y: string)
    requires |ms1| >= 1 && |ms2| >= 1
    requires forall k :: 0 <= k < |ms1| ==> IsPrintableAscii(ms1[k].1)
    requires forall k :: 0 <= k < |ms2| ==> IsPrintableAscii(ms2[k].1)
    requires Serialised(ms1) && Serialised(ms2)
    requires Join(MemberTexts(ms1), ',') + x == Join(MemberTexts(ms2), ',') + y
    requires |x| > 0 && x[0] == '}' && |y| > 0 && y[0] == '}'
    ensures ms1 == ms2 && x == y
    decreases |Join(MemberTexts(ms1), ',')|, 2
  {
    var e1, e2 := MemberTexts(ms1), MemberTexts(ms2);
    JoinHead(e1, x);
    JoinHead(e2, y);
    MemberPrefix(ms1[0], ms2[0], Rest(e1, x), Rest(e2, y), |Join(e1, ',')|);
    if |ms1| > 1 && |ms2| > 1 {
      Cancel([','], Join(e1[1..], ',') + x, Join(e2[1..], ',') + y);
      MemberTextsTail(ms1);
      MemberTextsTail(ms2);
      SerialisedTail(ms1);
      SerialisedTail(ms2);
      MembersPrefix(ms1[1..], ms2[1..], x, y);
      assert ms1 == [ms1[0]] + ms1[1..] && ms2 == [ms2[0]] + ms2[1..];
    } else if |ms1| == 1 && |ms2| == 1 {
      assert ms1 == [ms1[0]] && ms2 == [ms2[0]];
    }
  }

  lemma MemberTextSplit(m: Member, r: string)
    requires IsPrintableAscii(m.1)
    ensures MemberText(m) + r == Quote(m.0) + (":" + (m.1 + r))
    ensures |m.1| < |MemberText(m)| && MemberText(m)[0] == '"'
  {
    var q := Quote(m.0);
    assert MemberText(m) == (q + ":") + m.1;
    Associative(q + ":", m.1, r);
    Associative(q, ":", m.1 + r);
  }

  lemma MemberTextsFirst(ms: seq<Member>)
    requires forall k :: 0 <= k < |ms| ==> IsPrintableAscii(ms[k].1)
    ensures |ms| >= 1 ==> |MemberTexts(ms)[0]| >= 1 && MemberTexts(ms)[0][0] == '"'
  {
    if |ms| >= 1 {
      MemberTextSplit(ms[0], "");
    }
  }

  lemma SerialisedTail(ms: seq<Member>)
    requires |ms| >= 1 && Serialised(ms)
    ensures Serialised(ms[1..])
  {
    var t := ms[1..];
    forall k | 0 <= k < |t| ensures IsSerialised(t[k].1) {
      assert t[k] == ms[k + 1];
    }
  }

  lemma MemberTextsTail(ms: seq<Member>)
    requires |ms| >= 1
    requires forall k :: 0 <= k < |ms| ==> IsPrintableAscii(ms[k].1)
    ensures MemberTexts(ms[1..]) == MemberTexts(ms)[1..]
  {
    var a, b := MemberTexts(ms[1..]), MemberTexts(ms)[1..];
    forall k | 0 <= k < |a| ensures a[k] == b[k] {
      assert ms[1..][k] == ms[k + 1];
    }
  }

  lemma ElementsTail(xs: seq<Json>)
    requires |xs| >= 1
    ensures Elements(xs[1..]) == Elements(xs)[1..]
  {
    var a, b := Elements(xs[1..]), Elements(xs)[1..];
    forall k | 0 <= k < |a| ensures a[k] == b[k] {
      assert xs[1..][k] == xs[k + 1];
    }
  }

  /** One `"key":value` member followed by what may follow a value. */
  lemma {:induction false} MemberPrefix(m1: Member, m2: Member, r1: string, r2: string, bound: nat)
    requires IsPrintableAscii(m1.1) && IsPrintableAscii(m2.1)
    requires IsSerialised(m1.1) && IsSerialised(m2.1)
    requires MemberText(m1) + r1 == MemberText(m2) + r2
    requires Delim(r1) && Delim(r2)
    requires |MemberText(m1)| <= bound
    ensures m1 == m2 && r1 == r2
    decreases bound, 1
  {
    MemberTextSplit(m1, r1);
    MemberTextSplit(m2, r2);
    QuotePrefix(m1.0, m2.0, ":" + (m1.1 + r1), ":" + (m2.1 + r2));
    Cancel(":", m1.1 + r1, m2.1 + r2);
    var v1 :| m1.1 == Canonical(v1);
    var v2 :| m2.1 == Canonical(v2);
    CanonicalPrefix(v1, v2, r1, r2);
  }

  // ---------------------------------------------------------------------
  // What equal canonical texts tell about two objects

  /** Objects with the same canonical text have the same sorted members. */
  lemma CanonicalObjectMembers(a: Entries, b: Entries)
    requires Canonical(JObj(a)) == Canonical(JObj(b))
    ensures SortByKey(Members(a)) == SortByKey(Members(b))
  {
    ObjText(a, "");
    ObjText(b, "");
    var sa, sb := SortByKey(Members(a)), SortByKey(Members(b));
    var j1, j2 := Join(MemberTexts(sa), ','), Join(MemberTexts(sb), ',');
    var c := Canonical(JObj(a));
    assert c + "" == c;
    Cancel("{", j1 + ("}" + ""), j2 + ("}" + ""));
    MembersPrefix(sa, sb, "}" + "", "}" + "");
  }

  /** In a dictionary, the member carrying a key is the one `get` finds. */
  lemma LookupMember(es: Entries, k: string, v: Json)
    requires DistinctKeys(es)
    requires (k, v) in es
    ensures Lookup(es, k) == Some(v)
  {
    var i :| 0 <= i < |es| && es[i] == (k, v);
    assert HasKey(es, k);
    var r := Lookup(es, k);
    var j :| 0 <= j < |es| && es[j] == (k, r.value);
    assert i == j;
  }

  lemma MembersLookup(a: Entries, b: Entries, k: string)
    requires DistinctKeys(b)
    requires forall q :: q in Members(a) ==> q in Members(b)
    requires Lookup(a, k).Some?
    ensures Lookup(b, k).Some? && Canonical(Lookup(b, k).value) == Canonical(Lookup(a, k).value)
  {
    var va := Lookup(a, k).value;
    var i :| 0 <= i < |a| && a[i] == (k, va);
    var ma, mb := Members(a), Members(b);
    assert ma[i] == (k, Canonical(va));
    assert ma[i] in mb;
    var j :| 0 <= j < |mb| && mb[j] == ma[i];
    assert b[j] in b;
    LookupMember(b, k, b[j].1);
  }

  /** Two dictionaries with the same canonical text hold the same keys, and
      under each key values with the same canonical text. */
  lemma CanonicalDetermines(a: Entries, b: Entries, k: string)
    requires DistinctKeys(a) && DistinctKeys(b)
    requires Canonical(JObj(a)) == Canonical(JObj(b))
    ensures Lookup(a, k).Some? <==> Lookup(b, k).Some?
    ensures Lookup(a, k).Some? ==> Canonical(Lookup(a, k).value) == Canonical(Lookup(b, k).value)
  {
    CanonicalObjectMembers(a, b);
    var s := SortByKey(Members(a));
    assert forall q :: q in Members(a) <==> q in s;
    if Lookup(a, k).Some? {
      MembersLookup(a, b, k);
    } else if Lookup(b, k).Some? {
      MembersLookup(b, a, k);
    }
  }

  /** Canonical texts are ASCII, and UTF-8 keeps ASCII text apart. */
  lemma Utf8CanonicalInjective(v: Json, w: Json)
    requires Utf8Encode(Canonical(v)) == Utf8Encode(Canonical(w))
    ensures Canonical(v) == Canonical(w)
  {
    var s, t := Canonical(v), Canonical(w);
    assert IsAscii(s) && IsAscii(t);
    var bs := Utf8Encode(s);
    assert |s| == |t|;
    forall i | 0 <= i < |s| ensures s[i] == t[i] {
      assert bs[i] == s[i] as int == t[i] as int;
    }
  }
}
