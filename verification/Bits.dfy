/** Bit strings, most significant bit first, and the byte strings that carry them. */
module Bits {
  import opened Machine

  /** The low `width` bits of `v`, most significant first. */
  function BitsOf(v: nat, width: nat): (r: seq<bool>)
    ensures |r| == width
  {
    if width == 0 then [] else BitsOf(v / 2, width - 1) + [v % 2 == 1]
  }

  /** The number a bit string spells. */
  function ValueOf(b: seq<bool>): (v: nat)
    ensures v < Pow2(|b|)
  {
    if b == [] then 0
    else 2 * ValueOf(b[..|b| - 1]) + (if b[|b| - 1] then 1 else 0)
  }

  lemma {:induction false} ValueOfBitsOf(v: nat, width: nat)
    requires v < Pow2(width)
    ensures ValueOf(BitsOf(v, width)) == v
  {
    if width > 0 {
      ValueOfBitsOf(v / 2, width - 1);
      assert BitsOf(v, width)[..width - 1] == BitsOf(v / 2, width - 1);
    }
  }

  lemma {:induction false} BitsOfValueOf(b: seq<bool>)
    ensures BitsOf(ValueOf(b), |b|) == b
  {
    if b != [] {
      BitsOfValueOf(b[..|b| - 1]);
    }
  }

  lemma {:induction false} BitsOfAt(v: nat, width: nat, i: nat)
    requires i < width
    ensures BitsOf(v, width)[i] == (Shr(v, width - 1 - i) % 2 == 1)
  {
    if i < width - 1 {
      BitsOfAt(v / 2, width - 1, i);
    }
  }

  function Zeros(n: nat): (r: seq<bool>)
    ensures |r| == n
  {
    seq(n, _ => false)
  }

  /** Bit `k` of a number, counting from the least significant. */
  predicate BitOf(b: nat, k: nat) {
    Shr(b, k) % 2 == 1
  }

  /** `b` with bit `k` forced to `v`: `b | (1 << k)` when `v`, `b & ~(1 << k)` otherwise. */
  function SetBit(b: nat, k: nat, v: bool): nat
    decreases k
  {
    if k == 0 then b - b % 2 + (if v then 1 else 0)
    else 2 * SetBit(b / 2, k - 1, v) + b % 2
  }

  lemma {:induction false} SetBitBits(b: nat, k: nat, v: bool, j: nat)
    ensures BitOf(SetBit(b, k, v), j) == if j == k then v else BitOf(b, j)
    decreases k
  {
    if k > 0 && j > 0 {
      SetBitBits(b / 2, k - 1, v, j - 1);
    } else if k == 0 && j > 0 {
      assert SetBit(b, 0, v) / 2 == b / 2;
    }
  }

  lemma {:induction false} SetBitFits(b: nat, k: nat, v: bool, w: nat)
    requires k < w && b < Pow2(w)
    ensures SetBit(b, k, v) < Pow2(w)
    decreases k
  {
    var h := Pow2(w - 1);
    assert Pow2(w) == 2 * h && b / 2 < h;
    if k == 0 {
      assert SetBit(b, 0, v) <= 2 * (b / 2) + 1;
    } else {
      SetBitFits(b / 2, k - 1, v, w - 1);
      assert SetBit(b, k, v) <= 2 * SetBit(b / 2, k - 1, v) + 1;
    }
  }

  /** A byte with one bit forced. */
  function SetByteBit(b: byte, k: nat, v: bool): byte
    requires k < 8
  {
    assert Pow2(8) == 256;
    SetBitFits(b, k, v, 8);
    SetBit(b, k, v)
  }

  /** Bit `p` of a buffer, counting from the most significant bit of byte 0. */
  predicate BitAt(s: seq<byte>, p: nat)
    requires p < 8 * |s|
  {
    BitOf(s[p / 8], 7 - p % 8)
  }

  function BufferBits(s: seq<byte>): (r: seq<bool>)
    ensures |r| == 8 * |s|
    ensures forall p | 0 <= p < 8 * |s| :: r[p] == BitAt(s, p)
  {
    seq(8 * |s|, p requires 0 <= p < 8 * |s| => BitAt(s, p))
  }

  /** The bytes a bit string fills, eight bits to a byte. */
  function Pack(b: seq<bool>): (r: seq<byte>)
    requires |b| % 8 == 0
    ensures |r| == |b| / 8
  {
    assert Pow2(8) == 256;
    seq(|b| / 8, i requires 0 <= i < |b| / 8 => ValueOf(b[8 * i..8 * i + 8]))
  }

  lemma ByteBits(s: seq<byte>, k: nat)
    requires k < |s|
    ensures BufferBits(s)[8 * k..8 * k + 8] == BitsOf(s[k], 8)
  {
    forall i | 0 <= i < 8
      ensures BufferBits(s)[8 * k..8 * k + 8][i] == BitsOf(s[k], 8)[i]
    {
      BitsOfAt(s[k], 8, i);
      assert (8 * k + i) / 8 == k && (8 * k + i) % 8 == i;
    }
  }

  lemma PackBufferBits(s: seq<byte>)
    ensures Pack(BufferBits(s)) == s
  {
    assert Pow2(8) == 256;
    forall k | 0 <= k < |s|
      ensures Pack(BufferBits(s))[k] == s[k]
    {
      ByteBits(s, k);
      ValueOfBitsOf(s[k], 8);
    }
  }

  lemma BufferBitsPack(b: seq<bool>)
    requires |b| % 8 == 0
    ensures BufferBits(Pack(b)) == b
  {
    forall p | 0 <= p < |b|
      ensures BufferBits(Pack(b))[p] == b[p]
    {
      var k, i := p / 8, p % 8;
      ByteBits(Pack(b), k);
      BitsOfValueOf(b[8 * k..8 * k + 8]);
      assert BufferBits(Pack(b))[8 * k..8 * k + 8][i] == b[8 * k..8 * k + 8][i];
    }
  }

  lemma BufferBitsConcat(s: seq<byte>, t: seq<byte>)
    ensures BufferBits(s + t) == BufferBits(s) + BufferBits(t)
  {
    forall p | 0 <= p < 8 * |s + t|
      ensures BufferBits(s + t)[p] == (BufferBits(s) + BufferBits(t))[p]
    {
      if p >= 8 * |s| {
        assert (p - 8 * |s|) / 8 == p / 8 - |s| && (p - 8 * |s|) % 8 == p % 8;
      }
    }
  }
}
