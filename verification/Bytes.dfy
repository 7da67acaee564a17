/** Byte strings as the crypto code sees them, and the exclusive-or it is built on. */
module Bytes {
  import opened Bits

  type byte = n: int | 0 <= n < 256

  function XorByte(a: byte, b: byte): byte {
    assert Pow2(8) == 256;
    BitXor(8, a, b)
  }

  /** Bytewise exclusive-or of two strings of the same length. */
  function Xor(a: seq<byte>, b: seq<byte>): (r: seq<byte>)
    requires |a| == |b|
    ensures |r| == |a|
  {
    seq(|a|, i requires 0 <= i < |a| => XorByte(a[i], b[i]))
  }

  lemma XorByteTwice(a: byte, m: byte)
    ensures XorByte(XorByte(a, m), m) == a
  {
    assert Pow2(8) == 256;
    XorTwiceWord(8, a, m);
  }

  /** Only the zero mask leaves a byte alone. */
  lemma XorByteKeepsIff(a: byte, m: byte)
    ensures XorByte(a, m) == a <==> m == 0
  {
    assert Pow2(8) == 256;
    XorZeroWord(8, a);
    if XorByte(a, m) == a { XorInjectiveWord(8, a, m, 0); }
  }

  /** Only a byte's own value as a mask clears it. */
  lemma XorByteClearsIff(a: byte, m: byte)
    ensures XorByte(a, m) == 0 <==> m == a
  {
    assert Pow2(8) == 256;
    XorSelfWord(8, a);
    if XorByte(a, m) == 0 { XorInjectiveWord(8, a, m, a); }
  }

  lemma XorKeepsIff(a: seq<byte>, mask: seq<byte>)
    requires |a| == |mask|
    ensures Xor(a, mask) == a <==> mask == Zeros(|a|)
  {
    forall i | 0 <= i < |a|
      ensures Xor(a, mask)[i] == a[i] <==> mask[i] == 0
    {
      XorByteKeepsIff(a[i], mask[i]);
    }
  }

  lemma XorClearsIff(a: seq<byte>, mask: seq<byte>)
    requires |a| == |mask|
    ensures Xor(a, mask) == Zeros(|a|) <==> mask == a
  {
    forall i | 0 <= i < |a|
      ensures Xor(a, mask)[i] == 0 <==> mask[i] == a[i]
    {
      XorByteClearsIff(a[i], mask[i]);
    }
  }

  /** Applying the same mask twice restores the string. */
  lemma XorTwice(a: seq<byte>, mask: seq<byte>)
    requires |a| == |mask|
    ensures Xor(Xor(a, mask), mask) == a
  {
    forall i | 0 <= i < |a|
      ensures Xor(Xor(a, mask), mask)[i] == a[i]
    {
      XorByteTwice(a[i], mask[i]);
    }
  }

  /** Two masks that turn the same string into the same string are equal. */
  lemma XorInjective(a: seq<byte>, m1: seq<byte>, m2: seq<byte>)
    requires |a| == |m1| == |m2|
    requires Xor(a, m1) == Xor(a, m2)
    ensures m1 == m2
  {
    assert Pow2(8) == 256;
    forall i | 0 <= i < |a|
      ensures m1[i] == m2[i]
    {
      assert Xor(a, m1)[i] == Xor(a, m2)[i];
      XorInjectiveWord(8, a[i], m1[i], m2[i]);
    }
  }

  /** Masking a concatenation is masking the parts. */
  lemma XorConcat(a: seq<byte>, b: seq<byte>, ma: seq<byte>, mb: seq<byte>)
    requires |a| == |ma| && |b| == |mb|
    ensures Xor(a + b, ma + mb) == Xor(a, ma) + Xor(b, mb)
  {
  }

  function Zeros(n: nat): (r: seq<byte>)
    ensures |r| == n
  {
    seq(n, _ => 0)
  }

  /** A buffer with bytes written over it from index at on. */
  function Stored(buffer: seq<byte>, at: nat, bytes: seq<byte>): (r: seq<byte>)
    requires at + |bytes| <= |buffer|
    ensures |r| == |buffer|
  {
    buffer[..at] + bytes + buffer[at + |bytes|..]
  }

  lemma StoredParts(buffer: seq<byte>, at: nat, bytes: seq<byte>)
    requires at + |bytes| <= |buffer|
    ensures Stored(buffer, at, bytes)[..at] == buffer[..at]
    ensures Stored(buffer, at, bytes)[at..at + |bytes|] == bytes
    ensures Stored(buffer, at, bytes)[at + |bytes|..] == buffer[at + |bytes|..]
  {
  }

  lemma StoredWhole(block: seq<byte>, bytes: seq<byte>)
    requires |block| == |bytes|
    ensures Stored(block, 0, bytes) == bytes
  {
  }

  method Store(buffer: array<byte>, at: nat, bytes: seq<byte>)
    requires at + |bytes| <= buffer.Length
    modifies buffer
    ensures buffer[..] == Stored(old(buffer[..]), at, bytes)
  {
    for k := 0 to |bytes|
      invariant forall m :: 0 <= m < k ==> buffer[at + m] == bytes[m]
      invariant forall m :: 0 <= m < buffer.Length && !(at <= m < at + k) ==> buffer[m] == old(buffer[m])
    {
      buffer[at + k] := bytes[k];
    }
  }

  lemma SliceHead(s: seq<byte>, i: nat, j: nat)
    requires i < j <= |s|
    ensures s[i..j] != [] && s[i..j][0] == s[i] && s[i..j][1..] == s[i + 1..j]
  {
  }

  lemma SliceOfSlice(s: seq<byte>, p: nat, end: nat, i: nat, j: nat)
    requires p <= end <= |s| && i <= j <= end - p
    ensures s[p..end][i..j] == s[p + i..p + j]
  {
    forall k | 0 <= k < j - i
      ensures s[p..end][i..j][k] == s[p + i..p + j][k]
    {
      assert s[p..end][i + k] == s[p + i + k];
    }
  }

  lemma SliceOfDrop(s: seq<byte>, p: nat, i: nat, j: nat)
    requires p <= |s| && i <= j <= |s| - p
    ensures s[p..][i..j] == s[p + i..p + j]
  {
    SliceOfSlice(s, p, |s|, i, j);
    assert s[p..|s|] == s[p..];
  }

  lemma SliceOfPrefix(s: seq<byte>, end: nat, i: nat, j: nat)
    requires i <= j <= end <= |s|
    ensures s[..end][i..j] == s[i..j]
    ensures s[..end][i..] == s[i..end]
  {
  }

  // ----- 32-bit words, low byte first -----

  type Dword = n: int | 0 <= n < 0x1_0000_0000

  function ToDword(b: seq<byte>): Dword
    requires |b| == 4
  {
    var word: nat := b[0] as int + 256 * (b[1] as int + 256 * (b[2] as int + 256 * (b[3] as int)));
    word
  }

  function ToBytes(d: Dword): (r: seq<byte>)
    ensures |r| == 4
  {
    [d % 256, d / 256 % 256, d / 256 / 256 % 256, d / 256 / 256 / 256]
  }

  /** The value of four bytes, the lowest first. */
  lemma DwordIs(b: seq<byte>)
    requires |b| == 4
    ensures ToDword(b) == b[0] as int + 0x100 * b[1] as int + 0x1_0000 * b[2] as int + 0x100_0000 * b[3] as int
  {
  }

  lemma DwordThere(d: Dword)
    ensures ToDword(ToBytes(d)) == d
  {
    var d1 := d / 256;
    var d2 := d1 / 256;
    assert d == d % 256 + 256 * d1 && d1 == d1 % 256 + 256 * d2 && d2 == d2 % 256 + 256 * (d2 / 256);
  }

  lemma BytesThere(b: seq<byte>)
    requires |b| == 4
    ensures ToBytes(ToDword(b)) == b
  {
    var d := ToDword(b);
    var w3: int := b[3];
    var w2 := b[2] + 256 * w3;
    var w1 := b[1] + 256 * w2;
    assert d == b[0] + 256 * w1;
    assert d / 256 == w1 && w1 / 256 == w2 && w2 / 256 == w3;
  }
}
