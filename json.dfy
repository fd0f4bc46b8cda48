/** JSON values as Python's `json` module hands them to the licensing code,
    dictionary access as that code performs it, and the canonical serialiser
    `json.dumps(v, sort_keys=True, separators=(",", ":"))` (with the default
    `ensure_ascii=True`) that both the integrity hash and the signature are
    computed over. */
module Json {
  import opened Wrappers
  import opened Text

  /** A JSON value. An object keeps its members in insertion order, as a
      Python `dict` does; floating-point numbers are not modelled. */
  datatype Json =
    | JNull
    | JBool(b: bool)
    | JInt(i: int)
    | JStr(s: string)
    | JArr(items: seq<Json>)
    | JObj(entries: seq<(string, Json)>)

  type Entries = seq<(string, Json)>

  // ---------------------------------------------------------------------
  // Dictionary access

  /** Python's `k in d`. */
  predicate HasKey(es: Entries, k: string) {
    exists i :: 0 <= i < |es| && es[i].0 == k
  }

  /** A Python dict never holds a key twice. */
  predicate DistinctKeys(es: Entries) {
    forall i, j :: 0 <= i < j < |es| ==> es[i].0 != es[j].0
  }

  /** Python's `d.get(k)`: the value stored under `k`, or `None`. */
  function Lookup(es: Entries, k: string): (r: Option<Json>)
    ensures r.Some? <==> HasKey(es, k)
    ensures r.Some? ==> (k, r.value) in es
  {
    if |es| == 0 then None
    else if es[0].0 == k then Some(es[0].1)
    else
      var r := Lookup(es[1..], k);
      assert HasKey(es[1..], k) ==> HasKey(es, k) by {
        if HasKey(es[1..], k) {
          var i :| 0 <= i < |es[1..]| && es[1..][i].0 == k;
          assert es[i + 1].0 == k;
        }
      }
      r
  }

  /** A key is present exactly when some member carries it. */
  lemma HasKeyMember(es: Entries, k: string)
    ensures HasKey(es, k) <==> exists p :: p in es && p.0 == k
  {
    if HasKey(es, k) {
      var i :| 0 <= i < |es| && es[i].0 == k;
      assert es[i] in es;
    }
  }

  /** The dictionary without the key `k`: Python's `del d[k]` on a copy, or
      `{k2: v for k2, v in d.items() if k2 != k}`. Every other member stays,
      in the same order. */
  function WithoutKey(es: Entries, k: string): (r: Entries)
    ensures forall p :: p in r <==> p in es && p.0 != k
  {
    if |es| == 0 then []
    else
      var rest := WithoutKey(es[1..], k);
      assert forall p :: p in es <==> p == es[0] || p in es[1..];
      if es[0].0 == k then rest else [es[0]] + rest
  }

  /** Removing `k` removes that key and keeps every other one. */
  lemma WithoutKeyHasKey(es: Entries, k: string, k2: string)
    ensures HasKey(WithoutKey(es, k), k2) <==> HasKey(es, k2) && k2 != k
  {
    HasKeyMember(es, k2);
    HasKeyMember(WithoutKey(es, k), k2);
  }

  /** Removing `k` does not change what any other key maps to. */
  lemma {:induction false} WithoutKeyLookup(es: Entries, k: string, k2: string)
    requires k2 != k
    ensures Lookup(WithoutKey(es, k), k2) == Lookup(es, k2)
  {
    if |es| > 0 {
      WithoutKeyLookup(es[1..], k, k2);
    }
  }

  /** Removing a key keeps the keys distinct. */
  lemma {:induction false} WithoutKeyDistinct(es: Entries, k: string)
    requires DistinctKeys(es)
    ensures DistinctKeys(WithoutKey(es, k))
  {
    if |es| > 0 {
      assert DistinctKeys(es[1..]);
      WithoutKeyDistinct(es[1..], k);
      var rest := WithoutKey(es[1..], k);
      forall j | 0 <= j < |rest| ensures rest[j].0 != es[0].0 {
        assert rest[j] in es[1..];
        var m :| 0 <= m < |es[1..]| && es[1..][m] == rest[j];
        assert es[m + 1] == rest[j];
      }
    }
  }

  /** Python's truth value `bool(v)` of a JSON value: false exactly for
      `null`, `false`, `0`, `""`, `[]` and `{}`. */
  predicate Truthy(j: Json)
    ensures !Truthy(j) <==> j in {JNull, JBool(false), JInt(0), JStr(""), JArr([]), JObj([])}
  {
    match j
    case JNull => false
    case JBool(b) => b
    case JInt(i) => i != 0
    case JStr(s) => s != ""
    case JArr(items) => items != []
    case JObj(es) => es != []
  }

  // ---------------------------------------------------------------------
  // Key order: Python's `<` on `str`

  /** Lexicographic order on code points, a proper prefix first. */
  predicate StrLess(a: string, b: string) {
    if |a| == 0 then |b| > 0
    else if |b| == 0 then false
    else if a[0] != b[0] then a[0] < b[0]
    else StrLess(a[1..], b[1..])
  }

  lemma {:induction false} StrLessIrreflexive(a: string)
    ensures !StrLess(a, a)
  {
    if |a| > 0 { StrLessIrreflexive(a[1..]); }
  }

  lemma {:induction false} StrLessTransitive(a: string, b: string, c: string)
    requires StrLess(a, b) && StrLess(b, c)
    ensures StrLess(a, c)
  {
    if |a| > 0 && |b| > 0 && |c| > 0 && a[0] == b[0] && b[0] == c[0] {
      StrLessTransitive(a[1..], b[1..], c[1..]);
    }
  }

  lemma {:induction false} StrLessTotal(a: string, b: string)
    requires a != b
    ensures StrLess(a, b) || StrLess(b, a)
  {
    if |a| > 0 && |b| > 0 && a[0] == b[0] {
      assert a == [a[0]] + a[1..] && b == [b[0]] + b[1..];
      StrLessTotal(a[1..], b[1..]);
    }
  }

  lemma StrLessAsymmetric(a: string, b: string)
    requires StrLess(a, b)
    ensures !StrLess(b, a)
  {
    if StrLess(b, a) {
      StrLessTransitive(a, b, a);
      StrLessIrreflexive(a);
    }
  }

  // ---------------------------------------------------------------------
  // Sorting the rendered members by key

  type Member = (string, string)

  /** Insert `p` before the first member whose key is not smaller. */
  function Insert(p: Member, xs: seq<Member>): (r: seq<Member>)
    ensures |r| == |xs| + 1
    ensures forall q :: q in r <==> q == p || q in xs
    ensures multiset(r) == multiset(xs) + multiset{p}
  {
    if |xs| == 0 then [p]
    else if !StrLess(xs[0].0, p.0) then [p] + xs
    else
      var rest := Insert(p, xs[1..]);
      assert forall q :: q in xs <==> q == xs[0] || q in xs[1..];
      assert xs == [xs[0]] + xs[1..];
      [xs[0]] + rest
  }

  /** Insertion sort by key: `sorted(d.items())` for a dict. The result is a
      rearrangement of the members it was given. */
  function SortByKey(xs: seq<Member>): (r: seq<Member>)
    ensures |r| == |xs|
    ensures forall q :: q in r <==> q in xs
    ensures multiset(r) == multiset(xs)
  {
    if |xs| == 0 then []
    else
      assert forall q :: q in xs <==> q == xs[0] || q in xs[1..];
      assert xs == [xs[0]] + xs[1..];
      Insert(xs[0], SortByKey(xs[1..]))
  }

  predicate StrictlySorted(xs: seq<Member>) {
    forall i, j :: 0 <= i < j < |xs| ==> StrLess(xs[i].0, xs[j].0)
  }

  predicate KeyAbsent(k: string, xs: seq<Member>) {
    forall i :: 0 <= i < |xs| ==> xs[i].0 != k
  }

  lemma {:induction false} InsertStrictlySorted(p: Member, xs: seq<Member>)
    requires StrictlySorted(xs) && KeyAbsent(p.0, xs)
    ensures StrictlySorted(Insert(p, xs))
  {
    if |xs| == 0 {
    } else if !StrLess(xs[0].0, p.0) {
      StrLessTotal(p.0, xs[0].0);
      var r := [p] + xs;
      forall i, j | 0 <= i < j < |r| ensures StrLess(r[i].0, r[j].0) {
        if i == 0 && j > 1 {
          StrLessTransitive(p.0, xs[0].0, xs[j - 1].0);
        }
      }
    } else {
      InsertStrictlySorted(p, xs[1..]);
      var rest := Insert(p, xs[1..]);
      var r := [xs[0]] + rest;
      forall j | 0 <= j < |rest| ensures StrLess(xs[0].0, rest[j].0) {
        assert rest[j] in rest;
        if rest[j] != p {
          assert rest[j] in xs[1..];
          var m :| 0 <= m < |xs[1..]| && xs[1..][m] == rest[j];
          assert xs[m + 1] == rest[j];
        }
      }
      assert Insert(p, xs) == r;
      forall i, j | 0 <= i < j < |r| ensures StrLess(r[i].0, r[j].0) {
        if i == 0 {
          assert r[j] == rest[j - 1];
        } else {
          assert r[i] == rest[i - 1] && r[j] == rest[j - 1];
        }
      }
    }
  }

  /** Members whose keys are distinct come out of the sort in strictly
      increasing key order. */
  lemma {:induction false} SortStrictlySorted(xs: seq<Member>)
    requires forall i, j :: 0 <= i < j < |xs| ==> xs[i].0 != xs[j].0
    ensures StrictlySorted(SortByKey(xs))
  {
    if |xs| > 0 {
      var tail := xs[1..];
      SortStrictlySorted(tail);
      var s := SortByKey(tail);
      forall i | 0 <= i < |s| ensures s[i].0 != xs[0].0 {
        assert s[i] in tail;
        var m :| 0 <= m < |tail| && tail[m] == s[i];
        assert xs[m + 1] == s[i];
      }
      InsertStrictlySorted(xs[0], s);
    }
  }

  lemma HeadIsMember(b: seq<Member>)
    requires |b| > 0
    ensures b[0] in b
  {
  }

  /** Two strictly sorted member lists that hold the same members are equal:
      the sorted order leaves no choice. */
  lemma {:induction false} StrictlySortedUnique(a: seq<Member>, b: seq<Member>)
    requires StrictlySorted(a) && StrictlySorted(b)
    requires forall q :: q in a <==> q in b
    ensures a == b
  {
    if |a| == 0 {
      if |b| > 0 { HeadIsMember(b); assert false; }
    } else {
      assert a[0] in a;
      assert |b| > 0;
      assert b[0] in b;
      if a[0] != b[0] {
        var i :| 0 <= i < |a| && a[i] == b[0];
        var j :| 0 <= j < |b| && b[j] == a[0];
        assert i > 0 && j > 0;
        assert StrLess(a[0].0, b[0].0);
        assert StrLess(b[0].0, a[0].0);
        StrLessAsymmetric(a[0].0, b[0].0);
      }
      forall q ensures q in a[1..] <==> q in b[1..] {
        if q in a[1..] {
          var i :| 0 <= i < |a[1..]| && a[1..][i] == q;
          assert StrLess(a[0].0, q.0);
          StrLessIrreflexive(q.0);
          assert q in b;
        }
        if q in b[1..] {
          var i :| 0 <= i < |b[1..]| && b[1..][i] == q;
          assert StrLess(b[0].0, q.0);
          StrLessIrreflexive(q.0);
          assert q in a;
        }
      }
      StrictlySortedUnique(a[1..], b[1..]);
      assert a == [a[0]] + a[1..] && b == [b[0]] + b[1..];
    }
  }

  // ---------------------------------------------------------------------
  // String escaping (ensure_ascii)

  predicate IsPrintableAscii(s: string) {
    forall i :: 0 <= i < |s| ==> ' ' <= s[i] <= '~'
  }

  lemma PrintableConcat(a: string, b: string)
    requires IsPrintableAscii(a) && IsPrintableAscii(b)
    ensures IsPrintableAscii(a + b)
  {
    forall i | 0 <= i < |a + b| ensures ' ' <= (a + b)[i] <= '~' {
      if i >= |a| { assert (a + b)[i] == b[i - |a|]; }
    }
  }

  /** `"{:04x}".format(n)`: four lower-case hexadecimal digits. */
  function Hex4(n: nat): (r: string)
    requires n < 0x10000
    ensures |r| == 4 && IsPrintableAscii(r)
  {
    var d := Digits(n, 16);
    assert |d| <= 4 by {
      if |d| > 4 { DigitsBound(n, 16); }
    }
    PadLeft(d, 4, '0')
  }

  /** The four digits read back as `n`. */
  lemma Hex4Value(n: nat)
    requires n < 0x10000
    ensures ValueOf(Hex4(n), 16) == n
  {
    var d := Digits(n, 16);
    DigitsValue(n, 16);
    LeadingZerosValue(|Hex4(n)| - |d|, d, 16);
  }

  /** A four-digit hexadecimal string is below 16^4; used to bound `Digits`. */
  lemma {:induction false} DigitsBound(n: nat, base: nat)
    requires base == 16 && n < 0x10000
    ensures |Digits(n, base)| <= 4
  {
    if n >= 16 {
      var q := n / 16;
      assert Digits(n, 16) == Digits(q, 16) + [DIGITS[n % 16]];
      if q >= 16 {
        var q2 := q / 16;
        assert Digits(q, 16) == Digits(q2, 16) + [DIGITS[q % 16]];
        if q2 >= 16 {
          var q3 := q2 / 16;
          assert q3 < 16;
          assert Digits(q2, 16) == Digits(q3, 16) + [DIGITS[q2 % 16]];
          assert |Digits(q3, 16)| == 1;
        }
      }
    }
  }

  /** How `json.dumps` writes one character of a string with `ensure_ascii`:
      `"` and `\` are escaped, the five short control escapes are used,
      other characters outside space..tilde become `\uXXXX`, and those beyond
      the Basic Multilingual Plane become a UTF-16 surrogate pair. */
  function EscapeChar(c: char): (r: string)
    ensures IsPrintableAscii(r)
    ensures ' ' <= c <= '~' && c != '"' && c != '\\' ==> r == [c]
  {
    var n := c as int;
    if c == '"' then "\\\""
    else if c == '\\' then "\\\\"
    else if c == '\n' then "\\n"
    else if c == '\r' then "\\r"
    else if c == '\t' then "\\t"
    else if n == 0x08 then "\\b"
    else if n == 0x0C then "\\f"
    else if 0x20 <= n <= 0x7E then [c]
    else if n < 0x10000 then
      var r := "\\u" + Hex4(n);
      PrintableConcat("\\u", Hex4(n));
      r
    else
      var v := n - 0x10000;
      assert v < 0x100000;
      assert v / 1024 < 1024 && v % 1024 < 1024;
      var hi := "\\u" + Hex4(0xD800 + v / 1024);
      var lo := "\\u" + Hex4(0xDC00 + v % 1024);
      PrintableConcat("\\u", Hex4(0xD800 + v / 1024));
      PrintableConcat("\\u", Hex4(0xDC00 + v % 1024));
      PrintableConcat(hi, lo);
      hi + lo
  }

  /** The body of a JSON string literal for `s`. */
  function EscapeString(s: string): (r: string)
    ensures IsPrintableAscii(r)
  {
    if |s| == 0 then ""
    else
      PrintableConcat(EscapeChar(s[0]), EscapeString(s[1..]));
      EscapeChar(s[0]) + EscapeString(s[1..])
  }

  /** A JSON string literal. */
  function Quote(s: string): (r: string)
    ensures IsPrintableAscii(r)
  {
    PrintableConcat("\"", EscapeString(s));
    PrintableConcat("\"" + EscapeString(s), "\"");
    "\"" + EscapeString(s) + "\""
  }

  lemma {:induction false} JoinPrintable(parts: seq<string>, sep: char)
    requires forall i :: 0 <= i < |parts| ==> IsPrintableAscii(parts[i])
    requires ' ' <= sep <= '~'
    ensures IsPrintableAscii(Join(parts, sep))
  {
    if |parts| > 1 {
      JoinPrintable(parts[1..], sep);
      PrintableConcat(parts[0], [sep]);
      PrintableConcat(parts[0] + [sep], Join(parts[1..], sep));
    }
  }

  lemma Bracketed(open: string, body: string, close: string)
    requires IsPrintableAscii(open) && IsPrintableAscii(body) && IsPrintableAscii(close)
    ensures IsPrintableAscii(open + body + close)
  {
    PrintableConcat(open, body);
    PrintableConcat(open + body, close);
  }

  // ---------------------------------------------------------------------
  // The canonical serialiser

  /** Each member of an object with its value already serialised. */
  function Members(es: Entries): (r: seq<Member>)
    ensures |r| == |es|
    ensures forall k :: 0 <= k < |es| ==> r[k].0 == es[k].0 && IsPrintableAscii(r[k].1)
    decreases JObj(es), 0
  {
    seq(|es|, k requires 0 <= k < |es| => (es[k].0, Canonical(es[k].1)))
  }

  /** Each element of an array, serialised. */
  function Elements(items: seq<Json>): (r: seq<string>)
    ensures |r| == |items|
    ensures forall k :: 0 <= k < |r| ==> IsPrintableAscii(r[k])
    decreases JArr(items), 0
  {
    seq(|items|, k requires 0 <= k < |items| => Canonical(items[k]))
  }

  /** `"key":value` for one member. */
  function MemberText(m: Member): (r: string)
    requires IsPrintableAscii(m.1)
    ensures IsPrintableAscii(r)
  {
    PrintableConcat(Quote(m.0), ":");
    PrintableConcat(Quote(m.0) + ":", m.1);
    Quote(m.0) + ":" + m.1
  }

  /** The `"key":value` texts of a list of serialised members. */
  function MemberTexts(ms: seq<Member>): (r: seq<string>)
    requires forall k :: 0 <= k < |ms| ==> IsPrintableAscii(ms[k].1)
    ensures |r| == |ms|
    ensures forall k :: 0 <= k < |r| ==> IsPrintableAscii(r[k])
  {
    seq(|ms|, k requires 0 <= k < |ms| => MemberText(ms[k]))
  }

  /** `json.dumps(j, sort_keys=True, separators=(",", ":"))`. Its output is
      printable ASCII, so its UTF-8 encoding is one byte per character. */
  function Canonical(j: Json): (r: string)
    ensures IsPrintableAscii(r)
    decreases j, 2
  {
    match j
    case JNull => "null"
    case JBool(b) => if b then "true" else "false"
    case JInt(i) => Decimal(i)
    case JStr(s) => Quote(s)
    case JArr(items) =>
      var body := Join(Elements(items), ',');
      JoinPrintable(Elements(items), ',');
      Bracketed("[", body, "]");
      "[" + body + "]"
    case JObj(es) => ObjectText(es)
  }

  /** An object: its members sorted by key, each as `"key":value`, joined
      with `,` inside braces. */
  function ObjectText(es: Entries): (r: string)
    ensures IsPrintableAscii(r)
    decreases JObj(es), 1
  {
    var sorted := SortByKey(Members(es));
    assert forall k :: 0 <= k < |sorted| ==> IsPrintableAscii(sorted[k].1) by {
      forall k | 0 <= k < |sorted| ensures IsPrintableAscii(sorted[k].1) {
        assert sorted[k] in Members(es);
      }
    }
    var texts := MemberTexts(sorted);
    var body := Join(texts, ',');
    JoinPrintable(texts, ',');
    Bracketed("{", body, "}");
    "{" + body + "}"
  }

  /** The key order of an object does not change its canonical form: two
      dictionaries holding the same members serialise to the same string. */
  lemma CanonicalIgnoresKeyOrder(a: Entries, b: Entries)
    requires DistinctKeys(a) && DistinctKeys(b)
    requires forall p :: p in a <==> p in b
    ensures Canonical(JObj(a)) == Canonical(JObj(b))
  {
    var ma, mb := Members(a), Members(b);
    forall q ensures q in ma ==> q in mb {
      if q in ma {
        var k :| 0 <= k < |ma| && ma[k] == q;
        assert a[k] in a;
        var m :| 0 <= m < |b| && b[m] == a[k];
        assert mb[m] == q;
      }
    }
    forall q ensures q in mb ==> q in ma {
      if q in mb {
        var k :| 0 <= k < |mb| && mb[k] == q;
        assert b[k] in b;
        var m :| 0 <= m < |a| && a[m] == b[k];
        assert ma[m] == q;
      }
    }
    SortStrictlySorted(ma);
    SortStrictlySorted(mb);
    StrictlySortedUnique(SortByKey(ma), SortByKey(mb));
  }
}
