/** Byte strings read as big-endian numbers, and numbers written as the bytes they need. */
module Bytes {

  type Byte = x: nat | x < 256

  function Value(b: seq<Byte>): nat {
    if b == [] then 0 else Value(b[..|b| - 1]) * 256 + b[|b| - 1]
  }

  // The fewest bytes that hold n; none for zero.
  function Minimal(n: nat): (b: seq<Byte>)
    ensures n > 0 ==> b != [] && b[0] != 0
  {
    if n == 0 then [] else Minimal(n / 256) + [n % 256]
  }

  function Zeros(n: nat): (b: seq<Byte>)
    ensures |b| == n && forall i :: 0 <= i < n ==> b[i] == 0
  {
    seq(n, _ => 0)
  }

  // digits in front of which zeros make up the length.
  function Filled(digits: seq<Byte>, len: nat): seq<Byte> {
    if |digits| < len then Zeros(len - |digits|) + digits else digits
  }

  // n in exactly len bytes, or the bytes it needs when they are more.
  function Padded(n: nat, len: nat): seq<Byte> {
    Filled(Minimal(n), len)
  }

  function Pow256(k: nat): (p: nat)
    ensures p >= 1
  {
    if k == 0 then 1 else 256 * Pow256(k - 1)
  }

  /** Writing a number and reading it back. */
  lemma {:induction false} ValueOfMinimal(n: nat)
    ensures Value(Minimal(n)) == n
  {
    if n == 0 {
    } else {
      ValueOfMinimal(n / 256);
      assert Minimal(n)[..|Minimal(n)| - 1] == Minimal(n / 256);
    }
  }

  lemma LastByte(high: nat, last: Byte)
    ensures (high * 256 + last) / 256 == high && (high * 256 + last) % 256 == last
  {
  }

  lemma ValueOfLonger(high: seq<Byte>, last: Byte)
    ensures Value(high + [last]) == Value(high) * 256 + last
  {
    assert (high + [last])[..|high|] == high;
  }

  lemma MinimalOfLonger(high: nat, last: Byte)
    ensures high * 256 + last != 0 ==> Minimal(high * 256 + last) == Minimal(high) + [last]
    ensures high * 256 + last == 0 <==> high == 0 && last == 0
  {
    LastByte(high, last);
  }

  // Filling in front commutes with a byte behind.
  lemma FilledLonger(digits: seq<Byte>, len: nat, last: Byte)
    requires |digits| <= len
    ensures Filled(digits + [last], len + 1) == Filled(digits, len) + [last]
  {
    if |digits| < len {
      assert Zeros(len - |digits|) + (digits + [last]) == Zeros(len - |digits|) + digits + [last];
    }
  }

  lemma FilledZeros(len: nat)
    ensures Filled([], len) == Zeros(len) && Zeros(len) + [0] == Zeros(len + 1)
  {
    assert Zeros(len) + [] == Zeros(len);
  }

  /** Reading bytes and writing them back in their own length. */
  lemma {:induction false} PaddedValue(b: seq<Byte>)
    ensures |Minimal(Value(b))| <= |b|
    ensures Padded(Value(b), |b|) == b
    ensures b != [] && b[0] != 0 ==> Minimal(Value(b)) == b
  {
    if b == [] {
    } else {
      var n := |b| - 1;
      var high, last := b[..n], b[n];
      PaddedValue(high);
      assert b == high + [last];
      PaddedLonger(high, last);
    }
  }

  // The two cases, in which the longer number has one digit more or none at all.

  lemma FilledByOneMore(digits: seq<Byte>, longer: seq<Byte>, high: seq<Byte>, last: Byte)
    requires |digits| <= |high| && Filled(digits, |high|) == high && longer == digits + [last]
    ensures |longer| <= |high| + 1 && Filled(longer, |high| + 1) == high + [last]
  {
    FilledLonger(digits, |high|, last);
  }

  lemma FilledByNone(high: seq<Byte>, last: Byte)
    requires Filled([], |high|) == high && last == 0
    ensures Filled([], |high| + 1) == high + [last]
  {
    FilledZeros(|high|);
    FilledZeros(|high| + 1);
  }

  lemma PaddedLonger(high: seq<Byte>, last: Byte)
    requires |Minimal(Value(high))| <= |high| && Padded(Value(high), |high|) == high
    ensures |Minimal(Value(high + [last]))| <= |high| + 1
    ensures Padded(Value(high + [last]), |high| + 1) == high + [last]
  {
    var v, w := Value(high), Value(high + [last]);
    ValueOfLonger(high, last);
    MinimalOfLonger(v, last);
    if w == 0 {
      assert Minimal(v) == [] && Minimal(w) == [];
      FilledByNone(high, last);
    } else {
      FilledByOneMore(Minimal(v), Minimal(w), high, last);
    }
  }

  lemma {:induction false} ValueBound(b: seq<Byte>)
    ensures Value(b) < Pow256(|b|)
  {
    if b == [] {
    } else {
      ValueBound(b[..|b| - 1]);
    }
  }

  lemma {:induction false} MinimalLength(n: nat, k: nat)
    requires n < Pow256(k)
    ensures |Minimal(n)| <= k
  {
    if n == 0 {
    } else {
      MinimalLength(n / 256, k - 1);
    }
  }

  lemma PaddedLength(n: nat, len: nat)
    requires n < Pow256(len)
    ensures |Padded(n, len)| == len && Value(Padded(n, len)) == n
  {
    MinimalLength(n, len);
    ValueOfMinimal(n);
    LeadingZeros(len - |Minimal(n)|, Minimal(n));
  }

  lemma {:induction false} LeadingZeros(k: nat, b: seq<Byte>)
    ensures Value(Zeros(k) + b) == Value(b)
    decreases |b|, k
  {
    if b != [] {
      var n := |b| - 1;
      LeadingZeros(k, b[..n]);
      assert (Zeros(k) + b)[..k + n] == Zeros(k) + b[..n];
    } else if k > 0 {
      LeadingZeros(k - 1, []);
      assert (Zeros(k) + b)[..k - 1] == Zeros(k - 1) + [];
    }
  }

  lemma Reassociates(a: seq<Byte>, b: seq<Byte>, c: seq<Byte>)
    ensures a + (b + c) == a + b + c
  {
  }

  lemma Parts(a: seq<Byte>, b: seq<Byte>)
    ensures (a + b)[..|a|] == a && (a + b)[|a|..] == b
  {
  }
}
