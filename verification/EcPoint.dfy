/**
The point codec (internal/pkcs11/eckey.go): a token returns an EC point bare or wrapped in a
DER OCTET STRING, and the bare form is tried first. Points, the uncompressed form and its
checks follow sections 2.3.3 and 2.3.4 of SEC 1 on the three curves the platform uses.
*/
module EcPoint {
  import opened Bytes
  import opened Certificate
  import opened Der
  import opened Wrappers

  const FIELD_P256: nat := 0xffffffff00000001000000000000000000000000ffffffffffffffffffffffff
  const FIELD_P384: nat := 0xfffffffffffffffffffffffffffffffffffffffffffffffffffffffffffffffeffffffff0000000000000000ffffffff
  const FIELD_P521: nat := 0x1ffffffffffffffffffffffffffffffffffffffffffffffffffffffffffffffffffffffffffffffffffffffffffffffffffffffffffffffffffffffffffffffffff

  function ByteLen(c: Curve): (n: nat)
    ensures n == 32 || n == 48 || n == 66
  {
    match c case P256 => 32 case P384 => 48 case P521 => 66
  }

  function Field(c: Curve): (p: nat)
    ensures p > 0
  {
    match c case P256 => FIELD_P256 case P384 => FIELD_P384 case P521 => FIELD_P521
  }

  // A curve's equation. Nothing here depends on which it is.
  type Equation = (nat, nat) -> bool

  predicate OnCurve(c: Curve, on: Equation, x: nat, y: nat) {
    x < Field(c) && y < Field(c) && on(x, y)
  }

  lemma {:induction false} PowAdds(j: nat, k: nat)
    ensures Pow256(j + k) == Pow256(j) * Pow256(k)
  {
    if j == 0 {
    } else {
      PowAdds(j - 1, k);
    }
  }

  lemma PowIs(j: nat, k: nat, v: nat, w: nat)
    requires Pow256(j) == v && Pow256(k) == w
    ensures Pow256(j + k) == v * w
  {
    PowAdds(j, k);
  }

  lemma PowersOf256()
    ensures Pow256(2) == 0x10000 && Pow256(16) == 0x100000000000000000000000000000000 && Pow256(32) == 0x10000000000000000000000000000000000000000000000000000000000000000
  {
    assert Pow256(0) == 1 && Pow256(1) == 0x100 && Pow256(2) == 0x10000;
    PowIs(2, 2, 0x10000, 0x10000);
    PowIs(4, 4, 0x100000000, 0x100000000);
    PowIs(8, 8, 0x10000000000000000, 0x10000000000000000);
    PowIs(16, 16, 0x100000000000000000000000000000000, 0x100000000000000000000000000000000);
  }

  // A coordinate fits the bytes the form gives it.
  lemma FieldFits(c: Curve)
    ensures Field(c) <= Pow256(ByteLen(c))
  {
    PowersOf256();
    match c {
      case P256 =>
      case P384 => PowIs(16, 32, 0x100000000000000000000000000000000, 0x10000000000000000000000000000000000000000000000000000000000000000);
      case P521 =>
        PowIs(32, 32, 0x10000000000000000000000000000000000000000000000000000000000000000, 0x10000000000000000000000000000000000000000000000000000000000000000);
        PowIs(64, 2, 0x100000000000000000000000000000000000000000000000000000000000000000000000000000000000000000000000000000000000000000000000000000000, 0x10000);
    }
  }

  // The uncompressed form of a point.
  function Uncompressed(c: Curve, x: nat, y: nat): seq<Byte> {
    [4] + Padded(x, ByteLen(c)) + Padded(y, ByteLen(c))
  }

  // What the standard library takes as a point: the uncompressed form only, its
  // coordinates in the field and on the curve.
  function Unmarshal(c: Curve, on: Equation, b: seq<Byte>): Option<(nat, nat)> {
    var n := ByteLen(c);
    if |b| != 1 + 2 * n || b[0] != 4 then None
    else
      var x, y := Value(b[1..1 + n]), Value(b[1 + n..]);
      if OnCurve(c, on, x, y) then Some((x, y)) else None
  }

  // The bare form first; then an OCTET STRING around it, whatever follows that.
  function DecodeEcPoint(c: Curve, on: Equation, b: seq<Byte>): Option<(nat, nat)> {
    var bare := Unmarshal(c, on, b);
    if bare.Some? then bare
    else
      var wrapped := ParseTlv(OCTET_STRING, b);
      if wrapped.None? then None else Unmarshal(c, on, wrapped.value.0)
  }

  lemma UncompressedLength(c: Curve, x: nat, y: nat)
    requires x < Field(c) && y < Field(c)
    ensures |Padded(x, ByteLen(c))| == ByteLen(c) == |Padded(y, ByteLen(c))|
    ensures Value(Padded(x, ByteLen(c))) == x && Value(Padded(y, ByteLen(c))) == y
    ensures |Minimal(|Uncompressed(c, x, y)|)| == 1
  {
    FieldFits(c);
    PaddedLength(x, ByteLen(c));
    PaddedLength(y, ByteLen(c));
    OneOctet(|Uncompressed(c, x, y)|);
  }

  lemma HalvesAreNumbers(b: seq<Byte>, n: nat)
    requires |b| == 1 + 2 * n
    ensures b == [b[0]] + Padded(Value(b[1..1 + n]), n) + Padded(Value(b[1 + n..]), n)
  {
    var x, y := b[1..1 + n], b[1 + n..];
    HalfSurvives(x);
    HalfSurvives(y);
    ThreeParts(b, n);
  }

  lemma ThreeParts(b: seq<Byte>, n: nat)
    requires |b| >= 1 + n
    ensures b == [b[0]] + b[1..1 + n] + b[1 + n..]
  {
  }

  lemma UncompressedOf(c: Curve, b: seq<Byte>)
    requires |b| == 1 + 2 * ByteLen(c) && b[0] == 4
    ensures b == Uncompressed(c, Value(b[1..1 + ByteLen(c)]), Value(b[1 + ByteLen(c)..]))
  {
    HalvesAreNumbers(b, ByteLen(c));
  }

  lemma UncompressedIsRead(c: Curve, on: Equation, x: nat, y: nat)
    requires OnCurve(c, on, x, y)
    ensures Unmarshal(c, on, Uncompressed(c, x, y)) == Some((x, y))
  {
    UncompressedLength(c, x, y);
    var b, n := Uncompressed(c, x, y), ByteLen(c);
    assert b[1..1 + n] == Padded(x, n) && b[1 + n..] == Padded(y, n);
  }

  /** A point on the curve is read back from its uncompressed form, and that is the only form read as it. */
  lemma UnmarshalReadsUncompressed(c: Curve, on: Equation, b: seq<Byte>, x: nat, y: nat)
    ensures Unmarshal(c, on, b) == Some((x, y)) <==> OnCurve(c, on, x, y) && b == Uncompressed(c, x, y)
  {
    if OnCurve(c, on, x, y) {
      UncompressedIsRead(c, on, x, y);
    }
    if Unmarshal(c, on, b).Some? {
      UncompressedOf(c, b);
    }
  }

  /**
  On each curve every point comes back from both forms: bare, and as the OCTET STRING, with
  anything after it.
  */
  lemma BothFormsDecode(c: Curve, on: Equation, x: nat, y: nat, rest: seq<Byte>)
    requires OnCurve(c, on, x, y)
    ensures DecodeEcPoint(c, on, Uncompressed(c, x, y)) == Some((x, y))
    ensures |Minimal(|Uncompressed(c, x, y)|)| < 127
    ensures DecodeEcPoint(c, on, Tlv(OCTET_STRING, Uncompressed(c, x, y))) == Some((x, y))
    ensures |Tlv(OCTET_STRING, Uncompressed(c, x, y))| == |Uncompressed(c, x, y)| + (if c == P521 then 3 else 2)
  {
    var point := Uncompressed(c, x, y);
    UncompressedLength(c, x, y);
    UnmarshalReadsUncompressed(c, on, point, x, y);
    TlvHeader(OCTET_STRING, point);
    TlvRoundTrip(OCTET_STRING, point, []);
    assert Tlv(OCTET_STRING, point) + [] == Tlv(OCTET_STRING, point);
  }

  /**
  No byte string is both: one that reads as a bare point wraps none, on the curve's own
  length alone, so trying the bare form first never hides a wrapped point.
  */
  lemma NeverBareAndWrapped(c: Curve, on: Equation, b: seq<Byte>)
    requires Unmarshal(c, on, b).Some? && ParseTlv(OCTET_STRING, b).Some?
    ensures Unmarshal(c, on, ParseTlv(OCTET_STRING, b).value.0).None?
  {
    TlvIsCanonical(OCTET_STRING, b);
  }

  /**
  Exactly what is accepted as a point: its uncompressed form, or that form as the content
  of an OCTET STRING that may be followed by anything.
  */
  lemma DecodesExactly(c: Curve, on: Equation, b: seq<Byte>, x: nat, y: nat)
    ensures DecodeEcPoint(c, on, b) == Some((x, y)) <==>
            OnCurve(c, on, x, y) && (b == Uncompressed(c, x, y) || Wraps(b, Uncompressed(c, x, y)))
  {
    UnmarshalReadsUncompressed(c, on, b, x, y);
    var wrapped := ParseTlv(OCTET_STRING, b);
    if wrapped.Some? {
      UnmarshalReadsUncompressed(c, on, wrapped.value.0, x, y);
      TlvIsCanonical(OCTET_STRING, b);
      if Unmarshal(c, on, b).Some? {
        NeverBareAndWrapped(c, on, b);
      }
    }
    if OnCurve(c, on, x, y) && Wraps(b, Uncompressed(c, x, y)) {
      var rest :| b == Tlv(OCTET_STRING, Uncompressed(c, x, y)) + rest;
      TlvRoundTrip(OCTET_STRING, Uncompressed(c, x, y), rest);
    }
  }

  // b begins with the OCTET STRING of the content.
  ghost predicate Wraps(b: seq<Byte>, content: seq<Byte>) {
    |Minimal(|content|)| < 127 && exists rest :: b == Tlv(OCTET_STRING, content) + rest
  }
}
