/** The machine fingerprint (`app/fingerprint.py`): four host probes,
    normalised, joined with `|`, hashed with SHA-256 and rendered as upper-case
    hexadecimal. The host itself is an input: what the probes read from it is
    a `HostProbes` value; what the code does with those readings is modelled. */
module Fingerprint {
  import opened Wrappers
  import opened Text
  import opened Foreign

  /** What the probes read from the host.
      - node: `uuid.getnode()`, the MAC address as an integer
      - osName: `os.name` ("nt" on Windows)
      - powerShell: the output of the PowerShell disk query, or its exception
      - wmic: the output of the `wmic diskdrive` query, or its exception
      - processor: `platform.processor()`
      - system, release: `platform.system()`, `platform.release()` */
  datatype HostProbes = HostProbes(
    node: nat,
    osName: string,
    powerShell: Loaded<string>,
    wmic: Loaded<string>,
    processor: string,
    system: string,
    release: string)

  const SERIAL_MAX_LENGTH: nat := 32
  const MAC_WIDTH: nat := 12

  /** `f"{mac:012x}"`: lower-case hexadecimal, zero-padded to at least twelve
      digits. */
  function MacAddress(node: nat): (r: string)
    ensures |r| >= MAC_WIDTH
    ensures forall i :: 0 <= i < |r| ==> IsLowerHexDigit(r[i])
  {
    PadLeft(Digits(node, 16), MAC_WIDTH, '0')
  }

  /** The MAC text reads back as the MAC address. */
  lemma MacAddressValue(node: nat)
    ensures ValueOf(MacAddress(node), 16) == node
  {
    var d := Digits(node, 16);
    DigitsValue(node, 16);
    LeadingZerosValue(|MacAddress(node)| - |d|, d, 16);
  }

  predicate IsAsciiAlnum(c: char) {
    'A' <= c <= 'Z' || 'a' <= c <= 'z' || '0' <= c <= '9'
  }

  /** The longest prefix of `s` made of ASCII letters and digits: what the
      greedy `[A-Za-z0-9]+` takes. */
  function AlnumRun(s: string): (r: string)
    ensures |r| <= |s| && r == s[..|r|]
    ensures forall i :: 0 <= i < |r| ==> IsAsciiAlnum(r[i])
    ensures |r| == |s| || !IsAsciiAlnum(s[|r|])
  {
    if |s| == 0 || !IsAsciiAlnum(s[0]) then ""
    else
      var rest := AlnumRun(s[1..]);
      var r := [s[0]] + rest;
      assert r == s[..|r|] by {
        assert s == [s[0]] + s[1..];
      }
      assert |r| < |s| ==> s[|r|] == s[1..][|rest|];
      r
  }

  const SERIAL_TAG: string := "SerialNumber="

  /** The pattern `SerialNumber=[A-Za-z0-9]` matches at position `i`. */
  predicate TagAt(text: string, i: nat) {
    i + |SERIAL_TAG| < |text| && text[i..i + |SERIAL_TAG|] == SERIAL_TAG && IsAsciiAlnum(text[i + |SERIAL_TAG|])
  }

  /** A match at position `i` > 0 is a match at `i - 1` of the text without
      its first character, with the same text after the tag. */
  lemma TagAtShift(text: string, i: nat)
    requires 1 <= i < |text|
    ensures TagAt(text, i) <==> TagAt(text[1..], i - 1)
    ensures i + |SERIAL_TAG| <= |text| ==> text[i + |SERIAL_TAG|..] == text[1..][i - 1 + |SERIAL_TAG|..]
  {
    if i + |SERIAL_TAG| < |text| {
      var t, n := text[1..], |SERIAL_TAG|;
      var a, b := text[i..i + n], t[i - 1..i - 1 + n];
      assert forall k :: 0 <= k < n ==> a[k] == b[k];
      assert a == b;
      assert text[i + |SERIAL_TAG|] == text[1..][i - 1 + |SERIAL_TAG|];
    }
  }

  /** `re.search(r"SerialNumber=([A-Za-z0-9]+)", text).group(1)`, scanning
      from the left; a found serial is a non-empty run of letters and digits. */
  function SearchSerial(text: string): (r: Option<string>)
    ensures r.Some? ==> |r.value| >= 1 && forall i :: 0 <= i < |r.value| ==> IsAsciiAlnum(r.value[i])
  {
    if |text| <= |SERIAL_TAG| then None
    else if text[..|SERIAL_TAG|] == SERIAL_TAG && IsAsciiAlnum(text[|SERIAL_TAG|]) then
      Some(AlnumRun(text[|SERIAL_TAG|..]))
    else SearchSerial(text[1..])
  }

  /** The search finds nothing exactly when the pattern matches nowhere, and
      otherwise gives the run of letters and digits after the leftmost match. */
  lemma {:induction false} SearchSerialLeftmost(text: string)
    ensures SearchSerial(text).None? <==> forall i :: 0 <= i < |text| ==> !TagAt(text, i)
    ensures forall i :: 0 <= i < |text| && TagAt(text, i) && (forall j :: 0 <= j < i ==> !TagAt(text, j)) ==>
              SearchSerial(text) == Some(AlnumRun(text[i + |SERIAL_TAG|..]))
    decreases |text|
  {
    if |text| <= |SERIAL_TAG| {
    } else if text[..|SERIAL_TAG|] == SERIAL_TAG && IsAsciiAlnum(text[|SERIAL_TAG|]) {
      assert TagAt(text, 0);
    } else {
      assert !TagAt(text, 0);
      SearchSerialLeftmost(text[1..]);
      forall i | 1 <= i < |text| { TagAtShift(text, i); }
      forall i | 0 <= i < |text| - 1 ensures TagAt(text[1..], i) ==> TagAt(text, i + 1) {
        TagAtShift(text, i + 1);
      }
    }
  }

  /** Python's `s[:n]`. */
  function Prefix(s: string, n: nat): (r: string)
    ensures |r| == if |s| <= n then |s| else n
    ensures r == s[..|r|]
  {
    if |s| <= n then s else s[..n]
  }

  /** The serial taken from the PowerShell output: stripped, with its spaces
      removed. It is empty exactly when the query raised or printed nothing
      but whitespace. */
  function PowerShellSerial(out: Loaded<string>): (r: string)
    ensures ' ' !in r
    ensures forall x :: x in r ==> out.Loaded? && x in out.value
    ensures r == "" <==> out.LoadError? || forall i :: 0 <= i < |out.value| ==> IsSpace(out.value[i])
  {
    match out
    case Loaded(text) => RemoveChar(Strip(text), ' ')
    case LoadError(_) => ""
  }

  /** `get_disk_serial()`: on Windows, the PowerShell serial if it is not
      empty, else the `wmic` match, each cut to 32 characters, else
      "unknown_win"; elsewhere "unknown_os". */
  function DiskSerial(h: HostProbes): (r: string)
    ensures |r| >= 1
    ensures h.osName != "nt" ==> r == "unknown_os"
    ensures h.osName == "nt" && PowerShellSerial(h.powerShell) != "" ==>
      var serial := PowerShellSerial(h.powerShell);
      |r| == (if |serial| <= SERIAL_MAX_LENGTH then |serial| else SERIAL_MAX_LENGTH) && r == serial[..|r|]
    ensures h.osName == "nt" && PowerShellSerial(h.powerShell) == "" ==>
      var found := if h.wmic.Loaded? then SearchSerial(h.wmic.value) else None;
      (found.None? ==> r == "unknown_win") &&
      (found.Some? ==> |r| == (if |found.value| <= SERIAL_MAX_LENGTH then |found.value| else SERIAL_MAX_LENGTH) &&
                       r == found.value[..|r|])
  {
    if h.osName != "nt" then "unknown_os"
    else
      var serial := PowerShellSerial(h.powerShell);
      if |serial| > 0 then
        Prefix(serial, SERIAL_MAX_LENGTH)
      else
        match h.wmic
        case LoadError(_) => "unknown_win"
        case Loaded(text) =>
          match SearchSerial(text)
          case None => "unknown_win"
          case Some(group) => Prefix(group, SERIAL_MAX_LENGTH)
  }

  /** `platform.processor() or "unknown"`. */
  function CpuInfo(h: HostProbes): (r: string)
    ensures r != ""
    ensures h.processor != "" ==> r == h.processor
  {
    if h.processor == "" then "unknown" else h.processor
  }

  /** `f"{platform.system()} {platform.release()}"`: the system name, one
      space, the release. */
  function OsInfo(h: HostProbes): (r: string)
    ensures |r| == |h.system| + 1 + |h.release|
    ensures r[..|h.system|] == h.system && r[|h.system|] == ' ' && r[|h.system| + 1..] == h.release
  {
    h.system + " " + h.release
  }

  /** One probe value normalised: `str(a).strip().lower().replace(" ", "")`.
      The result is no longer than the value, holds no space and no
      upper-case letter, and every character of it that is not a lower-case
      letter comes from the value. */
  function NormalizeComponent(a: string): (r: string)
    ensures |r| <= |a|
    ensures ' ' !in r
    ensures forall x :: x in r ==> !IsAsciiUpper(x)
    ensures forall x :: x in r && !IsAsciiLower(x) ==> x in a
  {
    var stripped := Strip(a);
    var lowered := Lower(stripped);
    assert forall x :: x in lowered ==> !IsAsciiUpper(x) && (!IsAsciiLower(x) ==> x in stripped) by {
      forall x | x in lowered
        ensures !IsAsciiUpper(x)
        ensures !IsAsciiLower(x) ==> x in stripped
      {
        var i :| 0 <= i < |lowered| && lowered[i] == x;
        if !IsAsciiLower(x) { assert stripped[i] == x; }
      }
    }
    RemoveChar(lowered, ' ')
  }

  /** A value without spaces, upper-case letters or whitespace at its ends is
      its own normal form: the MAC text, for one, passes through unchanged. */
  lemma NormalizeComponentFixes(a: string)
    requires a == [] || (!IsSpace(a[0]) && !IsSpace(a[|a| - 1]))
    requires ' ' !in a
    requires forall i :: 0 <= i < |a| ==> !IsAsciiUpper(a[i])
    ensures NormalizeComponent(a) == a
  {
    StripUnchanged(a);
    assert Lower(a) == a;
    RemoveCharAbsent(a, ' ');
  }

  lemma MacAddressNormalized(node: nat)
    ensures NormalizeComponent(MacAddress(node)) == MacAddress(node)
  {
    var m := MacAddress(node);
    assert !IsSpace(m[0]) && !IsSpace(m[|m| - 1]);
    assert ' ' !in m by {
      forall x | x in m ensures x != ' ' {
        var i :| 0 <= i < |m| && m[i] == x;
        assert IsLowerHexDigit(m[i]);
      }
    }
    NormalizeComponentFixes(m);
  }

  /** The OS text normalises to the normalised system name followed directly
      by the normalised release: the separating space is dropped, e.g.
      "Windows 10" becomes "windows10". */
  lemma OsInfoNormalized(h: HostProbes)
    requires |h.system| > 0 && !IsSpace(h.system[0])
    requires |h.release| > 0 && !IsSpace(h.release[|h.release| - 1])
    ensures NormalizeComponent(OsInfo(h)) == RemoveChar(Lower(h.system), ' ') + RemoveChar(Lower(h.release), ' ')
  {
    var os := OsInfo(h);
    StripUnchanged(os);
    LowerAppend(h.system + " ", h.release);
    LowerAppend(h.system, " ");
    assert Lower(" ") == " ";
    RemoveCharAppend(Lower(h.system) + " ", Lower(h.release), ' ');
    RemoveCharAppend(Lower(h.system), " ", ' ');
    RemoveCharSingle(' ', ' ');
  }

  /** `normalize_data(*args)`: every argument normalised, joined with `|` in
      argument order. The string holds no space and no upper-case letter. */
  function NormalizeData(args: seq<string>): (r: string)
    ensures ' ' !in r
    ensures forall x :: x in r ==> !IsAsciiUpper(x)
  {
    var parts := seq(|args|, i requires 0 <= i < |args| => NormalizeComponent(args[i]));
    JoinChars(parts, '|');
    Join(parts, '|')
  }

  /** When no probe value holds a `|`, the normalised string has exactly one
      `|` between consecutive values and splits back into the normalised
      values in order. */
  lemma NormalizeDataSplits(args: seq<string>)
    requires |args| >= 1
    requires forall i :: 0 <= i < |args| ==> '|' !in args[i]
    ensures Count(NormalizeData(args), '|') == |args| - 1
    ensures Split(NormalizeData(args), '|') == seq(|args|, i requires 0 <= i < |args| => NormalizeComponent(args[i]))
  {
    var parts := seq(|args|, i requires 0 <= i < |args| => NormalizeComponent(args[i]));
    forall i | 0 <= i < |parts| ensures '|' !in parts[i] {
      assert '|' !in args[i];
    }
    JoinCount(parts, '|');
    SplitJoin(parts, '|');
  }

  /** `generate_machine_id()`: the upper-case hexadecimal SHA-256 of the
      UTF-8 bytes of `normalize_data(mac, disk, cpu, os)`, which is 64
      characters from 0-9 and A-F. */
  function GenerateMachineId(h: HostProbes, p: Primitives): (r: string)
    ensures |r| == 64
    ensures forall i :: 0 <= i < |r| ==> IsUpperHexDigit(r[i])
  {
    var data := NormalizeData([MacAddress(h.node), DiskSerial(h), CpuInfo(h), OsInfo(h)]);
    var hex := HexOfBytes(p.sha256(Utf8Encode(data)));
    UpperHex(hex);
    Upper(hex)
  }
}
