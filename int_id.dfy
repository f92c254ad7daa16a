/** `generate_int_id` (get_novelty.py, NoveltyIndicator.py, NoveltyIndicatorV4.py):
    `int(hashlib.sha256(s.encode('utf-8')).hexdigest(), 16) % 10**8`.
    SHA-256 of the UTF-8 encoding is a parameter of the model; the hex
    rendering, the base-16 parse and the reduction are modelled exactly. */
module IntId {
  import opened Wrappers

  /** One octet. */
  type Byte = b: nat | b < 256

  /** A SHA-256 digest: 32 bytes. */
  type Digest = d: seq<Byte> | |d| == 32 witness seq(32, _ => 0)

  /** `hashlib.sha256(s.encode('utf-8')).digest()`, not modelled. */
  type Sha256 = string -> Digest

  /** The modulus `10**8`. */
  const IdBound: nat := 100000000

  /** `256^n`. */
  function Pow256(n: nat): nat
  {
    if n == 0 then 1 else 256 * Pow256(n - 1)
  }

  /** The bytes read as one unsigned big-endian integer. */
  function BytesValue(d: seq<Byte>): nat
  {
    if |d| == 0 then 0 else BytesValue(d[..|d| - 1]) * 256 + d[|d| - 1]
  }

  function HexDigit(n: nat): char
    requires n < 16
  {
    "0123456789abcdef"[n]
  }

  /** `hexdigest()`: two lower-case digits per byte, high nibble first. */
  function HexDigest(d: seq<Byte>): (hex: string)
    ensures |hex| == 2 * |d|
  {
    if |d| == 0 then []
    else
      var b := d[|d| - 1];
      HexDigest(d[..|d| - 1]) + [HexDigit(b / 16), HexDigit(b % 16)]
  }

  /** The value of one digit for `int(., 16)`; None for a non-digit. */
  function HexValue(c: char): (v: Option<nat>)
    ensures v.Some? ==> v.value < 16
  {
    if '0' <= c <= '9' then Some(c as nat - '0' as nat)
    else if 'a' <= c <= 'f' then Some(c as nat - 'a' as nat + 10)
    else if 'A' <= c <= 'F' then Some(c as nat - 'A' as nat + 10)
    else None
  }

  /** Horner evaluation of a run of hex digits; None at the first non-digit. */
  function HexFold(s: string): Option<nat>
  {
    if |s| == 0 then Some(0)
    else
      match (HexFold(s[..|s| - 1]), HexValue(s[|s| - 1]))
      case (Some(v), Some(d)) => Some(v * 16 + d)
      case _ => None
  }

  /** `int(s, 16)` for a string of digits; None where Python raises
      `ValueError` (the empty string, a non-digit). */
  function ParseHex(s: string): Option<nat>
  {
    if |s| == 0 then None else HexFold(s)
  }

  lemma HexDigitValue(n: nat)
    requires n < 16
    ensures HexValue(HexDigit(n)) == Some(n)
  {
  }

  lemma HexFoldSnoc(x: string, c: char, v: nat, n: nat)
    requires HexFold(x) == Some(v) && HexValue(c) == Some(n)
    ensures HexFold(x + [c]) == Some(v * 16 + n)
  {
    assert (x + [c])[..|x|] == x;
  }

  lemma NibbleSplit(v: nat, b: nat)
    requires b < 256
    ensures (v * 16 + b / 16) * 16 + b % 16 == v * 256 + b
  {
  }

  /** Appending the two digits of byte `b` to a hex run worth `v` gives a run
      worth `v * 256 + b`. */
  lemma ByteStep(x: string, v: nat, b: nat)
    requires HexFold(x) == Some(v) && b < 256
    ensures HexFold(x + [HexDigit(b / 16), HexDigit(b % 16)]) == Some(v * 256 + b)
  {
    var q, r := b / 16, b % 16;
    HexDigitValue(q);
    HexDigitValue(r);
    HexFoldTwo(x, HexDigit(q), HexDigit(r), v, q, r);
    NibbleSplit(v, b);
  }

  lemma HexFoldTwo(x: string, hi: char, lo: char, v: nat, m: nat, n: nat)
    requires HexFold(x) == Some(v) && HexValue(hi) == Some(m) && HexValue(lo) == Some(n)
    ensures HexFold(x + [hi, lo]) == Some((v * 16 + m) * 16 + n)
  {
    HexFoldSnoc(x, hi, v, m);
    HexFoldSnoc(x + [hi], lo, v * 16 + m, n);
    assert x + [hi, lo] == (x + [hi]) + [lo];
  }

  /** Parsing the hex rendering of a byte string gives back its big-endian value. */
  lemma {:induction false} HexRoundTrip(d: seq<Byte>)
    ensures HexFold(HexDigest(d)) == Some(BytesValue(d))
  {
    if |d| > 0 {
      var p := d[..|d| - 1];
      var b: nat := d[|d| - 1];
      HexRoundTrip(p);
      ByteStep(HexDigest(p), BytesValue(p), b);
    }
  }

  /** Reduction of a digest, as `generate_int_id` computes it. */
  function IdOfDigest(d: Digest): (r: nat)
    ensures r < IdBound
    ensures r == BytesValue(d) % IdBound
  {
    HexRoundTrip(d);
    ParseHex(HexDigest(d)).value % IdBound
  }

  /** `generate_int_id(string_id)`: always in `[0, 10**8)`, and the SHA-256
      digest read as a big-endian number, reduced modulo `10**8`. */
  function GenerateIntId(h: Sha256, stringId: string): (r: nat)
    ensures r < IdBound
    ensures r == BytesValue(h(stringId)) % IdBound
  {
    IdOfDigest(h(stringId))
  }

  /** The number `int(hexdigest, 16)` reduces is below `256^32 = 2^256`. */
  lemma {:induction false} BytesValueBound(d: seq<Byte>)
    ensures BytesValue(d) < Pow256(|d|)
  {
    if |d| > 0 {
      var p := d[..|d| - 1];
      BytesValueBound(p);
      assert BytesValue(p) + 1 <= Pow256(|p|);
      assert (BytesValue(p) + 1) * 256 <= Pow256(|p|) * 256;
    }
  }

  lemma DigestValueBound(d: Digest)
    ensures BytesValue(d) < Pow256(32)
  {
    BytesValueBound(d);
  }

  lemma {:induction false} LeadingZeros(k: nat, t: seq<Byte>)
    ensures BytesValue(seq(k, _ => 0) + t) == BytesValue(t)
  {
    var z := seq(k, _ => 0);
    if |t| == 0 {
      assert z + t == z;
      ZerosValue(k);
    } else {
      LeadingZeros(k, t[..|t| - 1]);
      assert (z + t)[..|z + t| - 1] == z + t[..|t| - 1];
    }
  }

  lemma {:induction false} ZerosValue(k: nat)
    ensures BytesValue(seq(k, _ => 0)) == 0
  {
    if k > 0 {
      ZerosValue(k - 1);
      assert seq(k, _ => 0)[..k - 1] == seq(k - 1, _ => 0);
    }
  }

  /** The reduction is not injective: the all-zero digest and the digest whose
      value is exactly `10**8` get the same id, so two identifiers can collide. */
  lemma ReductionCollides()
    ensures exists d1: Digest, d2: Digest :: d1 != d2 && IdOfDigest(d1) == IdOfDigest(d2)
  {
    var tail: seq<Byte> := [0x05, 0xF5, 0xE1, 0x00];
    var d1: Digest := seq(32, _ => 0);
    var d2: Digest := seq(28, _ => 0) + tail;
    assert d1[29] != d2[29];
    LeadingZeros(28, tail);
    assert tail[..3] == [0x05, 0xF5, 0xE1];
    assert tail[..2] == [0x05, 0xF5];
    assert tail[..1] == [0x05];
    assert BytesValue([0x05]) == 5;
    assert BytesValue([0x05, 0xF5]) == 1525;
    assert BytesValue([0x05, 0xF5, 0xE1]) == 390625;
    assert BytesValue(tail) == 100000000;
    ZerosValue(32);
    assert d1 != d2 && IdOfDigest(d1) == IdOfDigest(d2);
  }
}
