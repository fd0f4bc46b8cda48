/** The library calls the licensing code makes but does not define, passed in
    as values: SHA-256, base64, Ed25519 verification and the `datetime`
    parser and formatter. Nothing is assumed about them beyond their types,
    except where a lemma states what it needs as a `requires`. */
module Foreign {
  import opened Wrappers
  import opened Text

  /** A SHA-256 digest: 32 bytes. */
  type Digest = d: seq<byte> | |d| == 32 witness seq(32, _ => 0)

  /** Raw Ed25519 public-key bytes. */
  type PublicKey = seq<byte>

  /** A `datetime` value, as a count of microseconds, with whether it is
      offset-aware (it carries a UTC offset) or naive. Python refuses to
      order a naive value against an aware one (`TypeError`). */
  datatype DateTime = DateTime(micros: int, aware: bool)

  /** The foreign functions, as values.
      - sha256: `hashlib.sha256(data).digest()`
      - b64encode: `base64.b64encode(data).decode("ascii")`
      - b64decode: `base64.b64decode(text)`, `None` when it raises
      - ed25519Verify: whether `key.verify(signature, message)` returns
        without raising `InvalidSignature`
      - fromIsoFormat: `datetime.fromisoformat(text)`, `None` when it raises
      - isoFormat: `now.isoformat()` for the naive clock reading `now` */
  datatype Primitives = Primitives(
    sha256: seq<byte> -> Digest,
    b64encode: seq<byte> -> string,
    b64decode: string -> Option<seq<byte>>,
    ed25519Verify: (PublicKey, seq<byte>, seq<byte>) -> bool,
    fromIsoFormat: string -> Option<DateTime>,
    isoFormat: int -> string)

  /** What the rollback marker needs of `isoformat` at the instant `t`: the
      parser reads its output back as the same naive instant, and the output
      holds no `|` and does not start with whitespace (true of every string
      `datetime.isoformat()` produces). */
  predicate IsoFormatSound(p: Primitives, t: int) {
    var s := p.isoFormat(t);
    p.fromIsoFormat(s) == Some(DateTime(t, false)) &&
    '|' !in s &&
    (s == [] || !IsSpace(s[0]))
  }
}
