/** The string operations of Python that the licensing code relies on:
    `str.strip`, ASCII `lower`/`upper`, `replace(c, "")`, `"|".join`,
    `str.split`, hexadecimal and decimal rendering of integers, and UTF-8
    encoding. Characters are Unicode scalar values, as in a Python `str`. */
module Text {

  type byte = b: int | 0 <= b < 256

  // ---------------------------------------------------------------------
  // Whitespace and strip

  /** Python's `str.isspace()` for one character: the characters that
      `str.strip()` with no argument removes. */
  predicate IsSpace(c: char) {
    var n := c as int;
    (0x09 <= n <= 0x0D) || (0x1C <= n <= 0x20) || n == 0x85 || n == 0xA0 ||
    n == 0x1680 || (0x2000 <= n <= 0x200A) || n == 0x2028 || n == 0x2029 ||
    n == 0x202F || n == 0x205F || n == 0x3000
  }

  /** The number of whitespace characters `s` starts with. */
  function LeadingSpace(s: string): (n: nat)
    ensures n <= |s|
    ensures forall i :: 0 <= i < n ==> IsSpace(s[i])
    ensures n == |s| || !IsSpace(s[n])
  {
    if |s| > 0 && IsSpace(s[0]) then
      var m := LeadingSpace(s[1..]);
      assert forall i :: 1 <= i <= m ==> s[i] == s[1..][i - 1];
      1 + m
    else 0
  }

  /** The number of whitespace characters `s` ends with. */
  function TrailingSpace(s: string): (n: nat)
    ensures n <= |s|
    ensures forall i :: |s| - n <= i < |s| ==> IsSpace(s[i])
    ensures n == |s| || !IsSpace(s[|s| - n - 1])
  {
    if |s| > 0 && IsSpace(s[|s| - 1]) then
      var m := TrailingSpace(s[..|s| - 1]);
      assert forall i :: 0 <= i < |s| - 1 ==> s[i] == s[..|s| - 1][i];
      1 + m
    else 0
  }

  /** Python's `s.strip()`: the slice of `s` between its leading and its
      trailing whitespace. Only whitespace is cut off on either side, and the
      result neither starts nor ends with whitespace. */
  function Strip(s: string): (r: string)
    ensures var k := LeadingSpace(s);
      k + |r| <= |s| && r == s[k..k + |r|] &&
      (forall i :: 0 <= i < k ==> IsSpace(s[i])) &&
      (forall i :: k + |r| <= i < |s| ==> IsSpace(s[i]))
    ensures r == [] || (!IsSpace(r[0]) && !IsSpace(r[|r| - 1]))
    ensures forall x :: x in r ==> x in s
  {
    var k, t := LeadingSpace(s), TrailingSpace(s);
    if k == |s| then ""
    else
      assert k < |s| - t;
      var r := s[k..|s| - t];
      assert r[0] == s[k] && r[|r| - 1] == s[|s| - t - 1];
      assert forall x :: x in r ==> x in s;
      r
  }

  /** A string that neither starts nor ends with whitespace is its own strip. */
  lemma StripUnchanged(s: string)
    requires s == [] || (!IsSpace(s[0]) && !IsSpace(s[|s| - 1]))
    ensures Strip(s) == s
  {
  }

  // ---------------------------------------------------------------------
  // Case mapping (ASCII letters only; see README)

  predicate IsAsciiUpper(c: char) { 'A' <= c <= 'Z' }
  predicate IsAsciiLower(c: char) { 'a' <= c <= 'z' }

  function LowerChar(c: char): char {
    if IsAsciiUpper(c) then (c as int + 32) as char else c
  }

  function UpperChar(c: char): char {
    if IsAsciiLower(c) then (c as int - 32) as char else c
  }

  /** Python's `s.lower()` on the ASCII letters: each upper-case ASCII letter
      becomes the lower-case letter 32 code points above it, so none is left,
      and every other character is kept where it was. */
  function Lower(s: string): (r: string)
    ensures |r| == |s|
    ensures forall i :: 0 <= i < |r| ==> !IsAsciiUpper(r[i])
    ensures forall i :: 0 <= i < |s| && !IsAsciiUpper(s[i]) ==> r[i] == s[i]
    ensures forall i :: 0 <= i < |s| && IsAsciiUpper(s[i]) ==> IsAsciiLower(r[i]) && r[i] as int == s[i] as int + 32
  {
    seq(|s|, i requires 0 <= i < |s| => LowerChar(s[i]))
  }

  /** Lower-casing works character by character, so it distributes over
      concatenation. */
  lemma LowerAppend(a: string, b: string)
    ensures Lower(a + b) == Lower(a) + Lower(b)
  {
    var l, r := Lower(a + b), Lower(a) + Lower(b);
    assert forall i :: 0 <= i < |a| ==> (a + b)[i] == a[i];
    assert forall i :: |a| <= i < |a| + |b| ==> (a + b)[i] == b[i - |a|];
    assert forall i :: 0 <= i < |l| ==> l[i] == r[i];
  }

  /** Python's `s.upper()` on the ASCII letters: each lower-case ASCII letter
      becomes the upper-case letter 32 code points below it, and every other
      character is kept where it was. */
  function Upper(s: string): (r: string)
    ensures |r| == |s|
    ensures forall i :: 0 <= i < |r| ==> !IsAsciiLower(r[i])
    ensures forall i :: 0 <= i < |s| && !IsAsciiLower(s[i]) ==> r[i] == s[i]
    ensures forall i :: 0 <= i < |s| && IsAsciiLower(s[i]) ==> IsAsciiUpper(r[i]) && r[i] as int == s[i] as int - 32
  {
    seq(|s|, i requires 0 <= i < |s| => UpperChar(s[i]))
  }

  // ---------------------------------------------------------------------
  // Counting, removing, joining and splitting

  /** The number of occurrences of `c` in `s`. */
  function Count(s: string, c: char): nat {
    if |s| == 0 then 0 else (if s[0] == c then 1 else 0) + Count(s[1..], c)
  }

  lemma CountAppend(a: string, b: string, c: char)
    ensures Count(a + b, c) == Count(a, c) + Count(b, c)
  {
    if |a| > 0 {
      assert (a + b)[1..] == a[1..] + b;
      CountAppend(a[1..], b, c);
    } else {
      assert a + b == b;
    }
  }

  lemma CountAbsent(s: string, c: char)
    requires c !in s
    ensures Count(s, c) == 0
  {
    if |s| > 0 {
      assert s[0] in s;
      CountAbsent(s[1..], c);
    }
  }

  /** Python's `s.replace(c, "")` for a single character `c`: `c` no longer
      occurs, every other character is kept in order, and exactly the
      occurrences of `c` are gone. */
  function RemoveChar(s: string, c: char): (r: string)
    ensures c !in r
    ensures forall x :: x in r <==> x in s && x != c
    ensures |r| == |s| - Count(s, c)
  {
    if |s| == 0 then ""
    else
      var rest := RemoveChar(s[1..], c);
      assert forall x :: x in s <==> x == s[0] || x in s[1..];
      if s[0] == c then rest else [s[0]] + rest
  }

  /** Removal works piece by piece, so the kept characters stay in their
      order: removing from `a + b` is removing from `a`, then from `b`. */
  lemma {:induction false} RemoveCharAppend(a: string, b: string, c: char)
    ensures RemoveChar(a + b, c) == RemoveChar(a, c) + RemoveChar(b, c)
    decreases |a|
  {
    if |a| == 0 {
      assert a + b == b;
    } else {
      assert (a + b)[0] == a[0] && (a + b)[1..] == a[1..] + b;
      RemoveCharAppend(a[1..], b, c);
    }
  }

  /** Removing a character that does not occur changes nothing. */
  lemma {:induction false} RemoveCharAbsent(s: string, c: char)
    requires c !in s
    ensures RemoveChar(s, c) == s
  {
    if |s| > 0 {
      assert s[0] in s;
      assert c !in s[1..] by {
        assert forall x :: x in s[1..] ==> x in s;
      }
      RemoveCharAbsent(s[1..], c);
      assert [s[0]] + s[1..] == s;
    }
  }

  /** On one character, removal drops exactly `c` and keeps anything else. */
  lemma RemoveCharSingle(x: char, c: char)
    ensures RemoveChar([x], c) == if x == c then [] else [x]
  {
    assert [x][1..] == [];
  }

  /** Python's `sep.join(parts)` for a one-character separator. The result
      starts with the first part. */
  function Join(parts: seq<string>, sep: char): (r: string)
    ensures |parts| >= 1 ==> |parts[0]| <= |r| && r[..|parts[0]|] == parts[0]
  {
    if |parts| == 0 then ""
    else if |parts| == 1 then parts[0]
    else parts[0] + [sep] + Join(parts[1..], sep)
  }

  /** Every character of a join is the separator or comes from one of the
      parts. */
  lemma {:induction false} JoinChars(parts: seq<string>, sep: char)
    ensures forall x :: x in Join(parts, sep) ==> x == sep || exists i :: 0 <= i < |parts| && x in parts[i]
  {
    if |parts| > 1 {
      JoinChars(parts[1..], sep);
      forall x | x in Join(parts, sep) ensures x == sep || exists i :: 0 <= i < |parts| && x in parts[i] {
        assert x in parts[0] + [sep] || x in Join(parts[1..], sep);
        if x in Join(parts[1..], sep) && x != sep {
          var i :| 0 <= i < |parts[1..]| && x in parts[1..][i];
          assert x in parts[i + 1];
        }
      }
    }
  }

  /** Joining n parts that do not contain the separator puts exactly n - 1
      separators in the result. */
  lemma {:induction false} JoinCount(parts: seq<string>, sep: char)
    requires |parts| >= 1
    requires forall i :: 0 <= i < |parts| ==> sep !in parts[i]
    ensures Count(Join(parts, sep), sep) == |parts| - 1
  {
    CountAbsent(parts[0], sep);
    if |parts| > 1 {
      JoinCount(parts[1..], sep);
      CountAppend(parts[0], [sep], sep);
      CountAppend(parts[0] + [sep], Join(parts[1..], sep), sep);
      assert Count([sep], sep) == 1 by {
        assert [sep][1..] == [];
      }
    }
  }

  /** Python's `s.split(sep)` for a one-character separator: one more piece
      than there are separators, no piece holds the separator, and joining the
      pieces gives `s` back. */
  function Split(s: string, sep: char): (r: seq<string>)
    ensures |r| == Count(s, sep) + 1
    ensures forall i :: 0 <= i < |r| ==> sep !in r[i]
    ensures Join(r, sep) == s
  {
    if |s| == 0 then [""]
    else
      var rest := Split(s[1..], sep);
      if s[0] == sep then
        var r := [""] + rest;
        assert r[1..] == rest;
        r
      else
        var r := [[s[0]] + rest[0]] + rest[1..];
        assert r[1..] == rest[1..];
        assert sep !in [s[0]] + rest[0] by {
          assert forall x :: x in [s[0]] + rest[0] ==> x == s[0] || x in rest[0];
        }
        assert Join(r, sep) == s by {
          if |rest| == 1 {
            assert s == [s[0]] + s[1..];
          } else {
            assert Join(rest, sep) == rest[0] + [sep] + Join(rest[1..], sep);
            assert s == [s[0]] + s[1..];
          }
        }
        r
  }

  lemma SplitNoSeparator(a: string, sep: char)
    requires sep !in a
    ensures Split(a, sep) == [a]
  {
    CountAbsent(a, sep);
    var r := Split(a, sep);
    assert |r| == 1;
  }

  lemma {:induction false} SplitAfterPiece(a: string, b: string, sep: char)
    requires sep !in a
    ensures Split(a + [sep] + b, sep) == [a] + Split(b, sep)
    decreases |a|
  {
    var s := a + [sep] + b;
    if |a| == 0 {
      assert s[0] == sep && s[1..] == b;
    } else {
      assert s[0] == a[0] && s[1..] == a[1..] + [sep] + b;
      assert sep !in a[1..] by {
        assert forall x :: x in a[1..] ==> x in a;
      }
      SplitAfterPiece(a[1..], b, sep);
      assert [a[0]] + a[1..] == a;
    }
  }

  /** Splitting what was joined gives back the parts, provided none of them
      holds the separator. */
  lemma {:induction false} SplitJoin(parts: seq<string>, sep: char)
    requires |parts| >= 1
    requires forall i :: 0 <= i < |parts| ==> sep !in parts[i]
    ensures Split(Join(parts, sep), sep) == parts
  {
    if |parts| == 1 {
      SplitNoSeparator(parts[0], sep);
    } else {
      SplitJoin(parts[1..], sep);
      SplitAfterPiece(parts[0], Join(parts[1..], sep), sep);
      assert [parts[0]] + parts[1..] == parts;
    }
  }

  /** Two pieces without the separator, joined by it, split back into the
      two pieces. */
  lemma SplitPair(a: string, b: string, sep: char)
    requires sep !in a && sep !in b
    ensures Split(a + [sep] + b, sep) == [a, b]
  {
    SplitJoin([a, b], sep);
    assert Join([a, b], sep) == a + [sep] + b by {
      assert [a, b][1..] == [b];
    }
  }

  /** `a + [c] + b` has nothing to strip when `c` is not whitespace, `a` does
      not start with whitespace and `b` does not end with it. */
  lemma StripAround(a: string, c: char, b: string)
    requires !IsSpace(c)
    requires a == [] || !IsSpace(a[0])
    requires b == [] || !IsSpace(b[|b| - 1])
    ensures Strip(a + [c] + b) == a + [c] + b
  {
    var s := a + [c] + b;
    assert !IsSpace(s[0]) by {
      if a == [] { assert s[0] == c; } else { assert s[0] == a[0]; }
    }
    assert !IsSpace(s[|s| - 1]) by {
      if b == [] { assert s[|s| - 1] == c; } else { assert s[|s| - 1] == b[|b| - 1]; }
    }
    StripUnchanged(s);
  }

  // ---------------------------------------------------------------------
  // Digits: hexadecimal and decimal rendering of integers

  const DIGITS: string := "0123456789abcdef"

  predicate IsLowerHexDigit(c: char) { '0' <= c <= '9' || 'a' <= c <= 'f' }
  predicate IsUpperHexDigit(c: char) { '0' <= c <= '9' || 'A' <= c <= 'F' }

  /** The value of one digit character, as Python's `int(c, 16)` reads it. */
  function DigitValue(c: char): nat {
    if '0' <= c <= '9' then c as int - '0' as int
    else if 'a' <= c <= 'f' then c as int - 'a' as int + 10
    else 0
  }

  /** The number a digit string denotes in the given base. */
  function ValueOf(s: string, base: nat): nat {
    if |s| == 0 then 0 else ValueOf(s[..|s| - 1], base) * base + DigitValue(s[|s| - 1])
  }

  /** The digits of `n` in base 10 or 16, most significant first and without
      leading zeros: Python's `str(n)` and `format(n, "x")`. */
  function Digits(n: nat, base: nat): (r: string)
    requires base == 10 || base == 16
    ensures |r| >= 1
    ensures forall i :: 0 <= i < |r| ==> IsLowerHexDigit(r[i])
    ensures base == 10 ==> forall i :: 0 <= i < |r| ==> '0' <= r[i] <= '9'
    ensures r[0] == '0' <==> n == 0
    decreases n
  {
    if n < base then
      DigitAt(n);
      [DIGITS[n]]
    else
      DigitAt(n % base);
      Digits(n / base, base) + [DIGITS[n % base]]
  }

  /** The digits of `n` read back as `n`. */
  lemma {:induction false} DigitsValue(n: nat, base: nat)
    requires base == 10 || base == 16
    ensures ValueOf(Digits(n, base), base) == n
    decreases n
  {
    if n < base {
      DigitAt(n);
      assert Digits(n, base)[..0] == [];
    } else {
      var q, d := n / base, n % base;
      assert q * base + d == n by {
        if base == 10 { assert n == (n / 10) * 10 + n % 10; } else { assert n == (n / 16) * 16 + n % 16; }
      }
      DigitAt(d);
      DigitsValue(q, base);
      var r := Digits(n, base);
      assert r[..|r| - 1] == Digits(q, base);
    }
  }

  /** The digit character for `d` reads back as `d`. */
  lemma DigitAt(d: nat)
    requires d < 16
    ensures IsLowerHexDigit(DIGITS[d]) && DigitValue(DIGITS[d]) == d
    ensures d < 10 ==> '0' <= DIGITS[d] <= '9'
  {
  }

  /** Python's `str(i)` for an integer: a minus sign exactly when `i` is
      negative, then decimal digits with no leading zero (just "0" for zero). */
  function Decimal(i: int): (r: string)
    ensures |r| >= 1
    ensures r[0] == '-' <==> i < 0
    ensures forall k :: 0 <= k < |r| ==> ('0' <= r[k] <= '9') || (k == 0 && r[k] == '-')
    ensures i < 0 ==> |r| >= 2 && r[1] != '0'
    ensures i >= 0 ==> (r[0] == '0' <==> i == 0)
  {
    if i < 0 then "-" + Digits(-i, 10) else Digits(i, 10)
  }

  /** `str(i)` is the decimal digits of `i`, after a minus sign when `i` is
      negative. */
  lemma DecimalDigits(i: int)
    ensures i >= 0 ==> Decimal(i) == Digits(i, 10)
    ensures i < 0 ==> Decimal(i)[1..] == Digits(-i, 10)
  {
    if i < 0 {
      var d := Digits(-i, 10);
      assert ("-" + d)[1..] == d;
    }
  }

  /** The digits of `str(i)` read back as the magnitude of `i`. */
  lemma DecimalValue(i: int)
    ensures i >= 0 ==> ValueOf(Decimal(i), 10) == i
    ensures i < 0 ==> ValueOf(Decimal(i)[1..], 10) == -i
  {
    if i < 0 {
      DecimalDigits(i);
      DigitsValue(-i, 10);
    } else {
      DecimalDigits(i);
      DigitsValue(i, 10);
    }
  }

  /** Different integers print differently. */
  lemma DecimalInjective(i: int, j: int)
    requires Decimal(i) == Decimal(j)
    ensures i == j
  {
    DecimalValue(i);
    DecimalValue(j);
  }

  /** `s` left-padded with `c` to at least `width` characters. */
  function PadLeft(s: string, width: nat, c: char): (r: string)
    ensures |r| == if |s| >= width then |s| else width
    ensures r == seq(|r| - |s|, _ => c) + s
  {
    if |s| >= width then s else seq(width - |s|, _ => c) + s
  }

  lemma {:induction false} LeadingZeroValue(s: string, base: nat)
    ensures ValueOf("0" + s, base) == ValueOf(s, base)
    decreases |s|
  {
    if |s| > 0 {
      var t := "0" + s;
      assert t[..|t| - 1] == "0" + s[..|s| - 1];
      assert t[|t| - 1] == s[|s| - 1];
      LeadingZeroValue(s[..|s| - 1], base);
    } else {
      assert ("0" + s)[..0] == "";
    }
  }

  /** Zeros in front do not change the value of a digit string. */
  lemma {:induction false} LeadingZerosValue(k: nat, s: string, base: nat)
    ensures ValueOf(seq(k, _ => '0') + s, base) == ValueOf(s, base)
  {
    if k > 0 {
      var z := seq(k, _ => '0');
      assert z + s == "0" + (seq(k - 1, _ => '0') + s);
      LeadingZeroValue(seq(k - 1, _ => '0') + s, base);
      LeadingZerosValue(k - 1, s, base);
    } else {
      assert seq(k, _ => '0') + s == s;
    }
  }

  /** Two lower-case hexadecimal digits for one byte. */
  function HexByte(b: byte): (r: string)
    ensures |r| == 2 && IsLowerHexDigit(r[0]) && IsLowerHexDigit(r[1])
  {
    DigitAt(b / 16);
    DigitAt(b % 16);
    [DIGITS[b / 16], DIGITS[b % 16]]
  }

  /** The two digits of a byte read back as the byte. */
  lemma HexByteValue(b: byte)
    ensures ValueOf(HexByte(b), 16) == b
  {
    DigitAt(b / 16);
    DigitAt(b % 16);
    var r := HexByte(b);
    assert r[..1] == [DIGITS[b / 16]];
    assert ValueOf(r[..1], 16) == b / 16 by {
      assert r[..1][..0] == [];
    }
  }

  /** Python's `bytes.hex()` (and `hashlib`'s `hexdigest()`): two lower-case
      hexadecimal digits per byte, in order. */
  function HexOfBytes(bs: seq<byte>): (r: string)
    ensures |r| == 2 * |bs|
    ensures forall i :: 0 <= i < |r| ==> IsLowerHexDigit(r[i])
    ensures forall i :: 0 <= i < |bs| ==> r[2 * i..2 * i + 2] == HexByte(bs[i])
  {
    if |bs| == 0 then ""
    else
      var rest := HexOfBytes(bs[1..]);
      var r := HexByte(bs[0]) + rest;
      assert forall i :: 1 <= i < |bs| ==> r[2 * i..2 * i + 2] == rest[2 * (i - 1)..2 * (i - 1) + 2];
      r
  }

  /** Upper-casing a lower-case hexadecimal string gives an upper-case one. */
  lemma UpperHex(s: string)
    requires forall i :: 0 <= i < |s| ==> IsLowerHexDigit(s[i])
    ensures forall i :: 0 <= i < |Upper(s)| ==> IsUpperHexDigit(Upper(s)[i])
  {
    var u := Upper(s);
    forall i | 0 <= i < |u| ensures IsUpperHexDigit(u[i]) {
      assert u[i] == UpperChar(s[i]);
    }
  }

  // ---------------------------------------------------------------------
  // UTF-8

  predicate IsAscii(s: string) {
    forall i :: 0 <= i < |s| ==> s[i] as int < 128
  }

  /** The UTF-8 encoding of one Unicode scalar value. */
  function Utf8Char(c: char): (r: seq<byte>)
    ensures 1 <= |r| <= 4
    ensures |r| == 1 <==> c as int < 128
    ensures |r| == 1 ==> r[0] == c as int
  {
    var n := c as int;
    if n < 0x80 then [n]
    else if n < 0x800 then [0xC0 + n / 64, 0x80 + n % 64]
    else if n < 0x10000 then [0xE0 + n / 4096, 0x80 + (n / 64) % 64, 0x80 + n % 64]
    else [0xF0 + n / 262144, 0x80 + (n / 4096) % 64, 0x80 + (n / 64) % 64, 0x80 + n % 64]
  }

  /** Python's `s.encode("utf-8")`. An ASCII string encodes to its own
      character codes, one byte each. */
  function Utf8Encode(s: string): (r: seq<byte>)
    ensures |r| >= |s|
    ensures IsAscii(s) ==> |r| == |s| && forall i :: 0 <= i < |s| ==> r[i] == s[i] as int
  {
    if |s| == 0 then []
    else
      var rest := Utf8Encode(s[1..]);
      assert IsAscii(s) ==> IsAscii(s[1..]) by {
        if IsAscii(s) {
          forall i | 0 <= i < |s[1..]| ensures s[1..][i] as int < 128 {
            assert s[1..][i] == s[i + 1];
          }
        }
      }
      Utf8Char(s[0]) + rest
  }
}
