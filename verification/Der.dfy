/**
The signature codec (internal/ca/signer.go): the token's r||s, each half padded to the
curve's length, as the DER SEQUENCE of two INTEGERs, against a strict decoder written from
sections 8.1.3, 8.3 and 10.1 of X.690.
*/
module Der {
  import opened Bytes
  import opened Wrappers

  const INTEGER: Byte := 0x02
  const OCTET_STRING: Byte := 0x04
  const SEQUENCE: Byte := 0x30

  // The longest slice there is: a length is a signed 64-bit number.
  const MAX_LENGTH: nat := 0x7fff_ffff_ffff_ffff

  // Encoding.

  // Lengths of 64 bits are written; the long form's first octet counts the rest.
  function EncodeLength(n: nat): seq<Byte>
    requires |Minimal(n)| < 127
  {
    if n < 128 then [n] else [128 + |Minimal(n)|] + Minimal(n)
  }

  function Tlv(tag: Byte, content: seq<Byte>): seq<Byte>
    requires |Minimal(|content|)| < 127
  {
    [tag] + EncodeLength(|content|) + content
  }

  // The content octets of a non-negative INTEGER.
  function IntegerContent(n: nat): (c: seq<Byte>)
    ensures |Minimal(n)| <= |c| <= |Minimal(n)| + 1
  {
    if n == 0 then [0]
    else if Minimal(n)[0] >= 128 then [0] + Minimal(n)
    else Minimal(n)
  }

  // What DER allows of an INTEGER's content: no octet that sign extension would supply.
  predicate MinimalInteger(c: seq<Byte>) {
    && c != []
    && (|c| > 1 ==> !(c[0] == 0 && c[1] < 128) && !(c[0] == 255 && c[1] >= 128))
  }

  predicate NonNegative(c: seq<Byte>) {
    c != [] && c[0] < 128
  }

  predicate Fits(r: nat, s: nat) {
    |Minimal(r)| <= MAX_LENGTH && |Minimal(s)| <= MAX_LENGTH
  }

  lemma LengthFits(n: nat)
    requires n <= 16 * MAX_LENGTH
    ensures |Minimal(n)| <= 9
  {
    assert Pow256(0) == 1 && Pow256(1) == 0x100 && Pow256(2) == 0x1_0000 && Pow256(3) == 0x100_0000;
    assert Pow256(4) == 0x1_0000_0000 && Pow256(5) == 0x100_0000_0000 && Pow256(6) == 0x1_0000_0000_0000;
    assert Pow256(7) == 0x100_0000_0000_0000 && Pow256(8) == 0x1_0000_0000_0000_0000;
    assert Pow256(9) == 0x100_0000_0000_0000_0000;
    MinimalLength(n, 9);
  }

  function EncodeSignature(r: nat, s: nat): seq<Byte>
    requires Fits(r, s)
  {
    LengthFits(|IntegerContent(r)|);
    LengthFits(|IntegerContent(s)|);
    var first, second := Tlv(INTEGER, IntegerContent(r)), Tlv(INTEGER, IntegerContent(s));
    LengthFits(|first + second|);
    Tlv(SEQUENCE, first + second)
  }

  // rawECDSAToASN1.
  function RawToDer(sig: seq<Byte>): (der: Option<seq<Byte>>)
    requires |sig| <= MAX_LENGTH
  {
    if |sig| == 0 || |sig| % 2 != 0 then None
    else
      var half := |sig| / 2;
      PaddedValue(sig[..half]);
      PaddedValue(sig[half..]);
      Some(EncodeSignature(Value(sig[..half]), Value(sig[half..])))
  }

  // Decoding.

  // A definite length in the fewest octets, and what follows it.
  function ParseLength(b: seq<Byte>): Option<(nat, seq<Byte>)> {
    if b == [] then None
    else if b[0] < 128 then Some((b[0], b[1..]))
    else
      var k := b[0] - 128;
      if k == 0 || k == 127 || k > |b| - 1 || b[1] == 0 || Value(b[1..1 + k]) < 128 then None
      else Some((Value(b[1..1 + k]), b[1 + k..]))
  }

  // The content of one element with the tag, and what follows it.
  function ParseTlv(tag: Byte, b: seq<Byte>): Option<(seq<Byte>, seq<Byte>)> {
    if b == [] || b[0] != tag then None
    else
      var length := ParseLength(b[1..]);
      if length.None? || length.value.0 > |length.value.1| then None
      else Some((length.value.1[..length.value.0], length.value.1[length.value.0..]))
  }

  // One non-negative INTEGER, and what follows it.
  function ParseInteger(b: seq<Byte>): Option<(nat, seq<Byte>)> {
    var element := ParseTlv(INTEGER, b);
    if element.None? || !MinimalInteger(element.value.0) || !NonNegative(element.value.0) then None
    else Some((Value(element.value.0), element.value.1))
  }

  function DecodeSignature(b: seq<Byte>): Option<(nat, nat)> {
    var whole := ParseTlv(SEQUENCE, b);
    if whole.None? || whole.value.1 != [] then None
    else
      var first := ParseInteger(whole.value.0);
      if first.None? then None
      else
        var second := ParseInteger(first.value.1);
        if second.None? || second.value.1 != [] then None
        else Some((first.value.0, second.value.0))
  }

  // Round trips.

  lemma LengthRoundTrip(n: nat, rest: seq<Byte>)
    requires |Minimal(n)| < 127
    ensures ParseLength(EncodeLength(n) + rest) == Some((n, rest))
  {
    var b := EncodeLength(n) + rest;
    if n < 128 {
      assert b[1..] == rest;
    } else {
      var k := |Minimal(n)|;
      assert b[1..1 + k] == Minimal(n) && b[1 + k..] == rest;
      ValueOfMinimal(n);
    }
  }

  lemma TlvRoundTrip(tag: Byte, content: seq<Byte>, rest: seq<Byte>)
    requires |Minimal(|content|)| < 127
    ensures ParseTlv(tag, Tlv(tag, content) + rest) == Some((content, rest))
  {
    TlvSplits(tag, content, rest);
    Parts([tag], EncodeLength(|content|) + (content + rest));
    LengthRoundTrip(|content|, content + rest);
    Parts(content, rest);
  }

  lemma TlvSplits(tag: Byte, content: seq<Byte>, rest: seq<Byte>)
    requires |Minimal(|content|)| < 127
    ensures Tlv(tag, content) + rest == [tag] + (EncodeLength(|content|) + (content + rest))
  {
    var length := EncodeLength(|content|);
    Reassociates([tag], length, content + rest);
    Reassociates([tag] + length, content, rest);
  }

  lemma IntegerRoundTrip(n: nat, rest: seq<Byte>)
    requires |Minimal(|IntegerContent(n)|)| < 127
    ensures ParseInteger(Tlv(INTEGER, IntegerContent(n)) + rest) == Some((n, rest))
    ensures MinimalInteger(IntegerContent(n)) && NonNegative(IntegerContent(n))
  {
    TlvRoundTrip(INTEGER, IntegerContent(n), rest);
    ContentOfInteger(n);
  }

  lemma ContentOfInteger(n: nat)
    ensures MinimalInteger(IntegerContent(n)) && NonNegative(IntegerContent(n))
    ensures Value(IntegerContent(n)) == n
  {
    ValueOfMinimal(n);
    if n != 0 && Minimal(n)[0] >= 128 {
      ValueWithoutZero([0] + Minimal(n));
      Parts([0], Minimal(n));
    }
  }

  /** Encoding two numbers and decoding them. */
  lemma SignatureRoundTrip(r: nat, s: nat)
    requires Fits(r, s)
    ensures DecodeSignature(EncodeSignature(r, s)) == Some((r, s))
  {
    LengthFits(|IntegerContent(r)|);
    LengthFits(|IntegerContent(s)|);
    var first, second := Tlv(INTEGER, IntegerContent(r)), Tlv(INTEGER, IntegerContent(s));
    LengthFits(|first + second|);
    TlvRoundTrip(SEQUENCE, first + second, []);
    assert EncodeSignature(r, s) + [] == EncodeSignature(r, s);
    IntegerRoundTrip(r, second);
    IntegerRoundTrip(s, []);
    assert second + [] == second;
  }

  // A half survives being read as a number and padded back.
  lemma HalfSurvives(half: seq<Byte>)
    ensures |Minimal(Value(half))| <= |half| && Padded(Value(half), |half|) == half
  {
    PaddedValue(half);
  }

  /**
  The codec loses nothing: every non-empty signature of even length is encoded, and decoding
  it and padding each number back to half the length restores the token's bytes.
  */
  lemma RawSurvives(sig: seq<Byte>)
    requires |sig| <= MAX_LENGTH
    ensures RawToDer(sig).Some? <==> sig != [] && |sig| % 2 == 0
    ensures RawToDer(sig).Some? ==>
              exists r: nat, s: nat ::
                && DecodeSignature(RawToDer(sig).value) == Some((r, s))
                && Padded(r, |sig| / 2) + Padded(s, |sig| / 2) == sig
  {
    if sig != [] && |sig| % 2 == 0 {
      var half := |sig| / 2;
      var first, second := sig[..half], sig[half..];
      HalfSurvives(first);
      HalfSurvives(second);
      var r, s := Value(first), Value(second);
      assert first + second == sig;
      EncodesHalves(sig, r, s);
      SignatureRoundTrip(r, s);
    }
  }

  lemma EncodesHalves(sig: seq<Byte>, r: nat, s: nat)
    requires 0 < |sig| <= MAX_LENGTH && |sig| % 2 == 0
    requires r == Value(sig[..|sig| / 2]) && s == Value(sig[|sig| / 2..])
    ensures Fits(r, s) && RawToDer(sig) == Some(EncodeSignature(r, s))
  {
    HalfSurvives(sig[..|sig| / 2]);
    HalfSurvives(sig[|sig| / 2..]);
  }

  /** Two signatures of one length never share an encoding. */
  lemma RawIsInjective(sig: seq<Byte>, sig': seq<Byte>)
    requires |sig| == |sig'| <= MAX_LENGTH && RawToDer(sig).Some? && RawToDer(sig) == RawToDer(sig')
    ensures sig == sig'
  {
    RawSurvives(sig);
    RawSurvives(sig');
  }

  // The encoding is the only one the decoder takes.

  lemma LengthIsCanonical(b: seq<Byte>)
    requires ParseLength(b).Some?
    ensures |Minimal(ParseLength(b).value.0)| < 127
    ensures b == EncodeLength(ParseLength(b).value.0) + ParseLength(b).value.1
  {
    if b[0] < 128 {
      MinimalLength(b[0], 1);
    } else {
      var k := b[0] - 128;
      PaddedValue(b[1..1 + k]);
      assert b == [b[0]] + b[1..1 + k] + b[1 + k..];
    }
  }

  lemma TlvIsCanonical(tag: Byte, b: seq<Byte>)
    requires ParseTlv(tag, b).Some?
    ensures |Minimal(|ParseTlv(tag, b).value.0|)| < 127
    ensures b == Tlv(tag, ParseTlv(tag, b).value.0) + ParseTlv(tag, b).value.1
  {
    LengthIsCanonical(b[1..]);
    var (content, rest) := ParseTlv(tag, b).value;
    var length := EncodeLength(|content|);
    assert ParseLength(b[1..]).value.1 == content + rest;
    assert b == [tag] + (length + (content + rest));
    TlvSplits(tag, content, rest);
  }

  lemma IntegerIsCanonical(c: seq<Byte>)
    requires MinimalInteger(c) && NonNegative(c)
    ensures IntegerContent(Value(c)) == c
  {
    if c[0] != 0 {
      PaddedValue(c);
    } else {
      ValueWithoutZero(c);
      PaddedValue(c[1..]);
    }
    ContentFromDigits(Value(c), c);
  }

  lemma ValueWithoutZero(c: seq<Byte>)
    requires c != [] && c[0] == 0
    ensures Value(c) == Value(c[1..])
  {
    LeadingZeros(1, c[1..]);
    assert c == Zeros(1) + c[1..];
  }

  lemma ContentFromDigits(n: nat, c: seq<Byte>)
    requires MinimalInteger(c) && NonNegative(c)
    requires Minimal(n) == if c[0] == 0 then c[1..] else c
    ensures IntegerContent(n) == c
  {
    if c[0] == 0 {
      assert c == [0] + c[1..];
    }
  }

  lemma IntegerParsed(b: seq<Byte>)
    requires ParseInteger(b).Some?
    ensures
      var (n, rest) := ParseInteger(b).value;
      && |Minimal(|IntegerContent(n)|)| < 127 && b == Tlv(INTEGER, IntegerContent(n)) + rest
      && |Minimal(n)| <= |b| && |rest| <= |b|
  {
    TlvIsCanonical(INTEGER, b);
    var content := ParseTlv(INTEGER, b).value.0;
    IntegerIsCanonical(content);
    HalfSurvives(content);
  }

  /** Every byte string the decoder takes is the encoding of what it reads. */
  lemma DecodedIsEncoded(b: seq<Byte>)
    requires DecodeSignature(b).Some? && |b| <= MAX_LENGTH
    ensures Fits(DecodeSignature(b).value.0, DecodeSignature(b).value.1)
    ensures EncodeSignature(DecodeSignature(b).value.0, DecodeSignature(b).value.1) == b
  {
    TlvIsCanonical(SEQUENCE, b);
    var body := ParseTlv(SEQUENCE, b).value.0;
    IntegerParsed(body);
    var (r, rest) := ParseInteger(body).value;
    IntegerParsed(rest);
    var s := ParseInteger(rest).value.0;
    assert rest == Tlv(INTEGER, IntegerContent(s));
    assert b == Tlv(SEQUENCE, body);
  }

  lemma OneOctet(n: nat)
    requires 0 < n < 256
    ensures Minimal(n) == [n]
  {
    assert Minimal(n / 256) == [];
  }

  // The first octets of an element no longer than a P-521 signature.
  lemma TlvHeader(tag: Byte, content: seq<Byte>)
    requires |content| < 256
    ensures |Minimal(|content|)| <= 1
    ensures |content| < 128 ==> Tlv(tag, content) == [tag, |content|] + content
    ensures |content| >= 128 ==> Tlv(tag, content) == [tag, 0x81, |content|] + content
  {
    if |content| > 0 {
      OneOctet(|content|);
    }
  }

  /** A signature's length is one octet, or two when its integers need it, as P-521's can. */
  lemma LongFormWhenNeeded(r: nat, s: nat)
    requires r < Pow256(66) && s < Pow256(66)
    ensures Fits(r, s)
    ensures
      var e, body := EncodeSignature(r, s), |IntegerContent(r)| + |IntegerContent(s)| + 4;
      body < 256 && |e| >= 3 && (if body < 128 then e[..2] == [SEQUENCE, body] else e[..3] == [SEQUENCE, 0x81, body])
  {
    MinimalLength(r, 66);
    MinimalLength(s, 66);
    TlvHeader(INTEGER, IntegerContent(r));
    TlvHeader(INTEGER, IntegerContent(s));
    TlvHeader(SEQUENCE, Tlv(INTEGER, IntegerContent(r)) + Tlv(INTEGER, IntegerContent(s)));
  }
}
