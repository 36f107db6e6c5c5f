/** Fixed-width integers, shifts and the status codes shared by every part of the codec. */
module Machine {
  type byte = x: int | 0 <= x < 0x100
  type uint16 = x: int | 0 <= x < 0x1_0000
  type uint32 = x: int | 0 <= x < 0x1_0000_0000
  type int16 = x: int | -0x8000 <= x < 0x8000
  type int32 = x: int | -0x8000_0000 <= x < 0x8000_0000

  const UINT32_MAX := 0xFFFF_FFFF

  datatype Error =
    | InvalidArgument
    | BufferTooSmall
    | OutOfRange
    | Truncated
    | UnsupportedSemantic
    | Noncanonical

  /** The outcome of a call that computes a value: the value, or the status it failed with. */
  datatype Result<+T> = Ok(value: T) | Err(error: Error)

  /** The outcome of a call that only changes state. */
  datatype Outcome = Pass | Fail(error: Error)

  /** `1 << k`. */
  function Pow2(k: nat): (r: nat)
    ensures r >= 1
  {
    if k == 0 then 1 else 2 * Pow2(k - 1)
  }

  /** `v >> k`. */
  function Shr(v: nat, k: nat): (r: nat)
    ensures r <= v
  {
    if k == 0 then v else Shr(v / 2, k - 1)
  }

  /** `v << k`. */
  function Shl(v: nat, k: nat): (r: nat)
    ensures r >= v
  {
    if k == 0 then v else 2 * Shl(v, k - 1)
  }

  /** Shifting right and back left rounds down to a multiple of the shift. */
  lemma {:induction false} ShrFloors(v: nat, k: nat)
    ensures Shl(Shr(v, k), k) <= v < Shl(Shr(v, k) + 1, k)
  {
    if k > 0 {
      ShrFloors(v / 2, k - 1);
    }
  }

  lemma {:induction false} ShlAdds(a: nat, b: nat, k: nat)
    ensures Shl(a + b, k) == Shl(a, k) + Shl(b, k)
  {
    if k > 0 {
      ShlAdds(a, b, k - 1);
    }
  }

  lemma {:induction false} Pow2Monotone(a: nat, b: nat)
    requires a <= b
    ensures Pow2(a) <= Pow2(b)
    decreases b
  {
    if a < b {
      Pow2Monotone(a, b - 1);
    }
  }

  lemma {:induction false} Pow2Adds(a: nat, b: nat)
    ensures Pow2(a + b) == Pow2(a) * Pow2(b)
  {
    if a > 0 {
      Pow2Adds(a - 1, b);
    }
  }

  lemma Pow2Values()
    ensures Pow2(8) == 0x100 && Pow2(16) == 0x1_0000 && Pow2(24) == 0x100_0000 && Pow2(32) == 0x1_0000_0000
    ensures Pow2(31) == 0x8000_0000
  {
    assert Pow2(8) == 0x100;
    Pow2Adds(8, 8);
    Pow2Adds(8, 16);
    Pow2Adds(16, 16);
    assert Pow2(32) == 2 * Pow2(31);
  }

  /** Neighbouring stretches of a sequence are one stretch. */
  lemma Abut<T>(s: seq<T>, i: nat, j: nat, k: nat)
    requires i <= j <= k <= |s|
    ensures s[i..k] == s[i..j] + s[j..k]
  {
  }

  /** A buffer after `x` was written over it at `at`. */
  function Put(s: seq<byte>, at: nat, x: seq<byte>): (t: seq<byte>)
    requires at + |x| <= |s|
    ensures |t| == |s|
  {
    s[..at] + x + s[at + |x|..]
  }

  /** Two stretches written one after the other are one stretch. */
  lemma PutTwice(s: seq<byte>, at: nat, a: seq<byte>, b: seq<byte>)
    requires at + |a| + |b| <= |s|
    ensures Put(Put(s, at, a), at + |a|, b) == Put(s, at, a + b)
  {
    var t := Put(s, at, a);
    assert t[..at + |a|] == s[..at] + a;
    assert t[at + |a| + |b|..] == s[at + |a + b|..];
  }

  /** What was under the stretch written does not matter. */
  lemma PutSame(s: seq<byte>, t: seq<byte>, at: nat, x: seq<byte>)
    requires at + |x| <= |s| == |t| && s[..at] == t[..at] && s[at + |x|..] == t[at + |x|..]
    ensures Put(s, at, x) == Put(t, at, x)
  {
  }

  lemma PutNothing(s: seq<byte>, at: nat)
    requires at <= |s|
    ensures Put(s, at, []) == s
  {
  }

  /** Nothing outside `from..to` is different. */
  ghost predicate Kept(s: seq<byte>, t: seq<byte>, from: nat, to: nat) {
    |s| == |t| && forall k | 0 <= k < |s| && (k < from || to <= k) :: t[k] == s[k]
  }

  lemma PutKeeps(s: seq<byte>, at: nat, x: seq<byte>, from: nat, to: nat)
    requires at + |x| <= |s| && from <= at && at + |x| <= to
    ensures Kept(s, Put(s, at, x), from, to)
  {
  }

  lemma KeptThen(s: seq<byte>, t: seq<byte>, u: seq<byte>, from: nat, to: nat, from': nat, to': nat)
    requires Kept(s, t, from, to) && Kept(t, u, from', to') && from <= from' && to' <= to
    ensures Kept(s, u, from, to)
  {
  }

  lemma KeptSame(s: seq<byte>, from: nat, to: nat)
    ensures Kept(s, s, from, to)
  {
  }

  lemma KeptOutside(s: seq<byte>, t: seq<byte>, from: nat, to: nat)
    requires Kept(s, t, from, to) && from <= to <= |s|
    ensures t[..from] == s[..from] && t[to..] == s[to..]
  {
  }

  lemma PutInFront(s: seq<byte>, x: seq<byte>)
    requires |x| <= |s|
    ensures Put(s, 0, x)[..|x|] == x && Put(s, 0, x)[|x|..] == s[|x|..]
  {
  }
}
