/** The minimal big-endian base-128 code for 32-bit values. */
module Uvarint {
  import opened Machine

  const UVARINT_MAX := 5

  /** The continuation bytes that carry `v`, none of them superfluous. */
  function Continuation(v: nat): seq<byte> {
    (if v < 0x80 then [] else Continuation(v / 0x80)) + [0x80 + v % 0x80]
  }

  /** The one accepted encoding of `v`. */
  function Encoding(v: nat): seq<byte> {
    (if v < 0x80 then [] else Continuation(v / 0x80)) + [v % 0x80]
  }

  /** How many bytes a value takes. */
  function Size(v: nat): (n: nat)
    ensures n >= 1
  {
    if v < 0x80 then 1 else 1 + Size(v / 0x80)
  }

  /** The decoder's loop, from byte `i` on, with `acc` gathered so far. */
  function DecodeFrom(s: seq<byte>, i: nat, acc: nat): (r: Result<(uint32, nat)>)
    requires i <= |s|
    ensures r.Ok? ==> i < r.value.1 <= |s|
    decreases |s| - i
  {
    if i == |s| || i == UVARINT_MAX then
      if |s| < UVARINT_MAX then Err(Truncated) else Err(OutOfRange)
    else if acc > UINT32_MAX / 0x80 then Err(OutOfRange)
    else
      var next := 0x80 * acc + s[i] % 0x80;
      if s[i] < 0x80 then
        if Size(next) != i + 1 then Err(Noncanonical) else Ok((next, i + 1))
      else DecodeFrom(s, i + 1, next)
  }

  /** What the decoder answers: a value and how many bytes it took, or why there is none. */
  function Decode(s: seq<byte>): (r: Result<(uint32, nat)>)
    ensures r.Ok? ==> 1 <= r.value.1 <= |s|
  {
    DecodeFrom(s, 0, 0)
  }

  lemma {:induction false} EncodingSize(v: nat)
    ensures |Encoding(v)| == |Continuation(v)| == Size(v)
  {
    if v >= 0x80 {
      EncodingSize(v / 0x80);
    }
  }

  /** A 32-bit value takes at most five bytes, and all that came before its last byte at most four. */
  lemma SizeBounds(v: nat)
    ensures v < 0x4000 ==> Size(v) <= 2
    ensures v < 0x1000_0000 ==> Size(v) <= 4
    ensures v <= UINT32_MAX ==> Size(v) <= 5
  {
    var a := v / 0x80;
    var b := a / 0x80;
    var c := b / 0x80;
    assert Size(a) <= 1 + Size(b);
    assert Size(b) <= 1 + Size(c);
  }

  /** The number a run of continuation bytes carries. */
  function Carried(p: seq<byte>): nat {
    if p == [] then 0 else 0x80 * Carried(p[..|p| - 1]) + p[|p| - 1] % 0x80
  }

  /** The first `n` bytes all say that more follows. */
  predicate Continues(s: seq<byte>, n: nat)
    requires n <= |s|
  {
    forall i | 0 <= i < n :: s[i] >= 0x80
  }

  /** How many continuation bytes the string starts with, counting no further than five. */
  function Run(s: seq<byte>): (n: nat)
    ensures n <= |s| && n <= UVARINT_MAX
    ensures Continues(s, n)
    ensures n < |s| && n < UVARINT_MAX ==> s[n] < 0x80
  {
    RunFrom(s, 0)
  }

  function RunFrom(s: seq<byte>, i: nat): (n: nat)
    requires i <= |s| && i <= UVARINT_MAX && Continues(s, i)
    ensures i <= n <= |s| && n <= UVARINT_MAX
    ensures Continues(s, n)
    ensures n < |s| && n < UVARINT_MAX ==> s[n] < 0x80
    decreases |s| - i
  {
    if i == |s| || i == UVARINT_MAX || s[i] < 0x80 then i else RunFrom(s, i + 1)
  }

  lemma CarriedSnoc(s: seq<byte>, i: nat)
    requires i < |s|
    ensures Carried(s[..i + 1]) == 0x80 * Carried(s[..i]) + s[i] % 0x80
  {
    assert s[..i + 1][..i] == s[..i];
  }

  /** One more group in front of which `c` was sent. */
  lemma GroupStep(c: nat, b: nat)
    requires b < 0x80
    ensures (0x80 * c + b) / 0x80 == c && (0x80 * c + b) % 0x80 == b
    ensures Size(0x80 * c + b) == if c == 0 then 1 else 1 + Size(c)
    ensures Continuation(0x80 * c + b) == (if c == 0 then [] else Continuation(c)) + [0x80 + b]
  {
    assert (0x80 * c + b) / 0x80 == c;
  }

  /** Bytes that carry a value of the full width of the run are the only ones that do. */
  lemma {:induction false} FullRunIsContinuation(p: seq<byte>)
    requires p != [] && Continues(p, |p|)
    ensures Size(Carried(p)) <= |p|
    ensures Size(Carried(p)) == |p| <==> (|p| == 1 || p[0] != 0x80)
    ensures Size(Carried(p)) == |p| ==> p == Continuation(Carried(p))
  {
    var n := |p| - 1;
    var q, b := p[..n], p[n] - 0x80;
    var c := Carried(q);
    assert Carried(p) == 0x80 * c + b;
    GroupStep(c, b);
    assert p == q + [0x80 + b];
    if n == 0 {
      assert c == 0;
    } else {
      FullRunIsContinuation(q);
      if c == 0 {
        FullZero(q);
      }
    }
  }

  /** A run that carries zero starts with the byte that carries nothing. */
  lemma {:induction false} FullZero(p: seq<byte>)
    requires p != [] && Continues(p, |p|) && Carried(p) == 0
    ensures p[0] == 0x80
  {
    var n := |p| - 1;
    if n > 0 {
      FullZero(p[..n]);
    } else {
      assert Carried(p[..0]) == 0;
      assert p[0] % 0x80 == 0;
    }
  }

  /** What the decoder should answer, said of the bytes themselves. */
  function Classified(s: seq<byte>): Result<(uint32, nat)> {
    var n := Run(s);
    if n == UVARINT_MAX then Err(OutOfRange)
    else if n == |s| then Err(Truncated)
    else
      var v := 0x80 * Carried(s[..n]) + s[n];
      if v > UINT32_MAX then Err(OutOfRange)
      else if n > 0 && s[0] == 0x80 then Err(Noncanonical)
      else Ok((v, n + 1))
  }

  /**
   * The decoder accepts, and refuses with each status, exactly the strings it should: cut short is a
   * string of fewer than five bytes that all continue; out of range is a fifth byte that continues or
   * a value of more than 32 bits; non-canonical is a first byte that carries nothing.
   */
  lemma DecodeIsClassified(s: seq<byte>)
    ensures Decode(s) == Classified(s)
  {
    assert Carried(s[..0]) == 0;
    DecodeFromIsClassified(s, 0);
  }

  lemma {:induction false} DecodeFromIsClassified(s: seq<byte>, i: nat)
    requires i <= Run(s)
    ensures DecodeFrom(s, i, Carried(s[..i])) == Classified(s)
    decreases Run(s) - i
  {
    var n := Run(s);
    if i < n {
      CarriedSnoc(s, i);
      ShortRunsAreSmall(s[..i]);
      if i == 4 {
        if Carried(s[..4]) <= UINT32_MAX / 0x80 {
          DecodeFromIsClassified(s, 5);
        }
      } else {
        DecodeFromIsClassified(s, i + 1);
      }
    } else if i < |s| && i < UVARINT_MAX {
      LastByteDecides(s, n);
    }
  }

  lemma LastByteDecides(s: seq<byte>, n: nat)
    requires n == Run(s) < |s| && n < UVARINT_MAX
    ensures DecodeFrom(s, n, Carried(s[..n])) == Classified(s)
  {
    var acc := Carried(s[..n]);
    var v := 0x80 * acc + s[n];
    assert v / 0x80 == acc;
    assert v > UINT32_MAX <==> acc > UINT32_MAX / 0x80;
    if n > 0 {
      LastByteSize(s[..n], v);
    }
  }

  /** A value is shorter than its bytes just when the first of them carries nothing. */
  lemma LastByteSize(p: seq<byte>, v: nat)
    requires p != [] && Continues(p, |p|) && v / 0x80 == Carried(p)
    ensures Size(v) == |p| + 1 <==> p[0] != 0x80
  {
    FullRunIsContinuation(p);
    if Carried(p) == 0 {
      FullZero(p);
    }
  }

  lemma ShortRunsAreSmall(p: seq<byte>)
    ensures |p| <= 3 ==> Carried(p) <= UINT32_MAX / 0x80
  {
    if |p| <= 3 {
      var q := if p == [] then p else p[..|p| - 1];
      var r := if q == [] then q else q[..|q| - 1];
      assert Carried(r) < 0x80;
      assert Carried(q) < 0x4000;
    }
  }

  lemma CarriedAppend(p: seq<byte>, b: byte)
    ensures Carried(p + [b]) == 0x80 * Carried(p) + b % 0x80
  {
    assert (p + [b])[..|p|] == p;
  }

  lemma LowGroup(v: nat)
    ensures v == 0x80 * (v / 0x80) + v % 0x80
    ensures (0x80 + v % 0x80) % 0x80 == v % 0x80
  {
  }

  lemma {:induction false} ContinuationContinues(v: nat)
    ensures Continues(Continuation(v), |Continuation(v)|)
  {
    if v >= 0x80 {
      ContinuationContinues(v / 0x80);
    }
  }

  lemma {:induction false} CarriedContinuation(v: nat)
    ensures Carried(Continuation(v)) == v
  {
    var h, b := v / 0x80, 0x80 + v % 0x80;
    LowGroup(v);
    if v < 0x80 {
      CarriedAppend([], b);
      assert Continuation(v) == [] + [b];
    } else {
      CarriedContinuation(h);
      CarriedAppend(Continuation(h), b);
    }
  }

  lemma RunIs(s: seq<byte>, n: nat)
    requires n < |s| && n < UVARINT_MAX && Continues(s, n) && s[n] < 0x80
    ensures Run(s) == n
  {
  }

  /** Every 32-bit value decodes from its encoding, whatever follows it. */
  lemma DecodeOfEncoding(v: uint32, tail: seq<byte>)
    ensures Decode(Encoding(v) + tail) == Ok((v, Size(v)))
  {
    var h := v / 0x80;
    var p := if v < 0x80 then [] else Continuation(h);
    assert Encoding(v) == p + [v % 0x80];
    EncodingSize(v);
    SizeBounds(v);
    LowGroup(v);
    if v >= 0x80 {
      ContinuationFacts(h, p);
    }
    AcceptedAfterRun(p, v % 0x80, v, tail);
  }

  /** A short run that carries nothing superfluous, then a byte that ends it. */
  lemma AcceptedAfterRun(p: seq<byte>, last: byte, v: uint32, tail: seq<byte>)
    requires |p| < UVARINT_MAX && Continues(p, |p|) && (p == [] || p[0] != 0x80)
    requires last < 0x80 && v == 0x80 * Carried(p) + last
    ensures Decode(p + [last] + tail) == Ok((v, |p| + 1))
  {
    hide Decode, Run, Carried;
    var s := p + [last] + tail;
    DecodeIsClassified(s);
    RunIs(s, |p|);
    assert s[..|p|] == p;
  }

  lemma ContinuationFacts(h: nat, p: seq<byte>)
    requires h > 0 && p == Continuation(h)
    ensures p != [] && Continues(p, |p|) && Carried(p) == h && p[0] != 0x80
  {
    EncodingSize(h);
    ContinuationContinues(h);
    CarriedContinuation(h);
    FullRunIsContinuation(p);
    if |p| == 1 {
      assert Carried(p[..0]) == 0;
    }
  }

  /** What is accepted is the encoding of the value it is accepted as. */
  lemma EncodingOfDecode(s: seq<byte>)
    requires Decode(s).Ok?
    ensures
      var (v, n) := Decode(s).value;
      1 <= n == Size(v) <= |s| && n <= UVARINT_MAX && s[..n] == Encoding(v)
  {
    DecodeIsClassified(s);
    var n := Run(s);
    AcceptedIsEncoding(s, n, 0x80 * Carried(s[..n]) + s[n]);
  }

  lemma AcceptedIsEncoding(s: seq<byte>, n: nat, v: nat)
    requires n < |s| && Continues(s, n) && s[n] < 0x80 && (n == 0 || s[0] != 0x80)
    requires v == 0x80 * Carried(s[..n]) + s[n]
    ensures Size(v) == n + 1 && s[..n + 1] == Encoding(v)
  {
    assert v / 0x80 == Carried(s[..n]) && v % 0x80 == s[n];
    if n > 0 {
      FullRunIsContinuation(s[..n]);
      LastByteSize(s[..n], v);
      assert s[..n] == Continuation(v / 0x80);
    } else {
      assert s[..n] == [] && v < 0x80;
    }
    assert s[..n + 1] == s[..n] + [s[n]];
  }

  /** A verdict other than `Truncated` does not change when bytes are appended. */
  lemma VerdictIsFinal(s: seq<byte>, t: seq<byte>)
    requires Decode(s) != Err(Truncated)
    ensures Decode(s + t) == Decode(s)
  {
    DecodeIsClassified(s);
    DecodeIsClassified(s + t);
    var n := Run(s);
    assert (s + t)[..n] == s[..n];
    if n < UVARINT_MAX {
      RunIs(s + t, n);
    } else {
      RunOfFive(s + t);
    }
  }

  lemma RunOfFive(s: seq<byte>)
    requires |s| >= UVARINT_MAX && Continues(s, UVARINT_MAX)
    ensures Run(s) == UVARINT_MAX
  {
  }

  /** Truncated is exactly a string of fewer than five bytes that all continue. */
  lemma TruncatedExactly(s: seq<byte>)
    ensures Decode(s) == Err(Truncated) <==> |s| < UVARINT_MAX && Continues(s, |s|)
  {
    DecodeIsClassified(s);
    if |s| < UVARINT_MAX && Continues(s, |s|) {
      assert Run(s) == |s|;
    }
  }

  /** What a byte that ends a short run makes of it. */
  lemma DecodeAfterRun(s: seq<byte>, n: nat)
    requires n < |s| && n < UVARINT_MAX && Continues(s, n) && s[n] < 0x80
    ensures
      var v := 0x80 * Carried(s[..n]) + s[n];
      Decode(s) == if v > UINT32_MAX then Err(OutOfRange)
                   else if n > 0 && s[0] == 0x80 then Err(Noncanonical)
                   else Ok((v, n + 1))
  {
    DecodeIsClassified(s);
    RunIs(s, n);
  }

  lemma FiveContinue(s: seq<byte>)
    requires |s| >= UVARINT_MAX && Continues(s, UVARINT_MAX)
    ensures Decode(s) == Err(OutOfRange)
  {
    DecodeIsClassified(s);
    RunOfFive(s);
  }

  /** A run of up to three bytes that does not start with nothing carries something, and not too much. */
  lemma {:induction false} CarriedBounds(p: seq<byte>)
    requires p != [] && Continues(p, |p|) && p[0] != 0x80
    ensures Carried(p) >= 1
    ensures |p| <= 3 ==> 0x80 * Carried(p) + 0x7F <= UINT32_MAX
  {
    FullRunIsContinuation(p);
    if Carried(p) == 0 {
      FullZero(p);
    }
    ShortRunsAreSmall(p);
  }

  /** No encoding is a proper prefix of another, and no two values share one. */
  lemma PrefixFree(v: uint32, w: uint32, tail: seq<byte>)
    requires Encoding(v) + tail == Encoding(w)
    ensures v == w && tail == []
  {
    DecodeOfEncoding(v, tail);
    DecodeOfEncoding(w, []);
    assert Encoding(w) + [] == Encoding(w);
    EncodingSize(v);
    EncodingSize(w);
  }

  method ComputeSize(value: uint32) returns (size: nat)
    ensures size == Size(value)
  {
    var rest := value;
    size := 1;
    while rest >= 0x80
      invariant Size(value) == size - 1 + Size(rest)
    {
      rest := rest / 0x80;
      size := size + 1;
    }
  }

  predicate Groups(groups: seq<byte>) {
    && groups != []
    && forall i | 0 <= i < |groups| :: groups[i] < 0x80
  }

  /** Groups of seven bits, least significant first, in the order and with the marks they are sent. */
  function Sent(groups: seq<byte>): (r: seq<byte>)
    requires Groups(groups)
    ensures |r| == |groups|
    ensures forall i | 0 <= i < |r| :: r[i] == groups[|groups| - 1 - i] + (if i + 1 < |groups| then 0x80 else 0)
  {
    var n := |groups| - 1;
    if n == 0 then groups else [groups[n] + 0x80] + Sent(groups[..n])
  }

  lemma SentSnoc(groups: seq<byte>, g: byte)
    requires Groups(groups) && g < 0x80
    ensures Sent(groups + [g]) == [g + 0x80] + Sent(groups)
  {
    assert (groups + [g])[..|groups|] == groups;
  }

  /** What is left to send in front of the groups gathered so far. */
  function Ahead(rest: nat): seq<byte> {
    if rest == 0 then [] else Continuation(rest)
  }

  lemma AheadStep(rest: nat, groups: seq<byte>)
    requires rest != 0 && Groups(groups)
    ensures Ahead(rest) + Sent(groups) == Ahead(rest / 0x80) + Sent(groups + [rest % 0x80])
  {
    var front, b, back := Ahead(rest / 0x80), 0x80 + rest % 0x80, Sent(groups);
    SentSnoc(groups, rest % 0x80);
    assert Ahead(rest) == front + [b] by {
      if rest < 0x80 {
        assert rest / 0x80 == 0;
      }
    }
    assert (front + [b]) + back == front + ([b] + back);
  }

  /** Encodes a value at `start`, if `capacity` bytes from there have room for it. */
  method Encode(value: uint32, out: array<byte>, start: nat, capacity: nat) returns (r: Result<nat>)
    requires start + capacity <= out.Length
    modifies out
    ensures r.Ok? <==> Size(value) <= capacity
    ensures r.Err? ==> r.error == BufferTooSmall && out[..] == old(out[..])
    ensures r.Ok? ==> r.value == Size(value) == |Encoding(value)|
    ensures r.Ok? ==> out[..] == Put(old(out[..]), start, Encoding(value))
  {
    var groups := Gather(value);
    var count := |groups|;
    EncodingSize(value);
    if capacity < count {
      return Err(BufferTooSmall);
    }
    Send(groups, out, start);
    return Ok(count);
  }

  /** The encoder's first loop: the groups of seven bits, least significant first. */
  method Gather(value: uint32) returns (groups: seq<byte>)
    ensures Groups(groups) && Sent(groups) == Encoding(value)
  {
    groups := [value % 0x80];
    var rest: nat := value / 0x80;
    while rest != 0
      invariant Groups(groups)
      invariant Encoding(value) == Ahead(rest) + Sent(groups)
    {
      AheadStep(rest, groups);
      groups := groups + [rest % 0x80];
      rest := rest / 0x80;
    }
  }

  /** The encoder's second loop: the groups in sending order, all but the last marked. */
  method Send(groups: seq<byte>, out: array<byte>, start: nat)
    requires Groups(groups) && start + |groups| <= out.Length
    modifies out
    ensures out[..] == Put(old(out[..]), start, Sent(groups))
  {
    var count := |groups|;
    for i := 0 to count
      invariant forall k | 0 <= k < out.Length ::
                  out[k] == if start <= k < start + i then Sent(groups)[k - start] else old(out[k])
    {
      var b := groups[count - 1 - i];
      if i + 1 < count {
        b := b + 0x80;
      }
      out[start + i] := b;
    }
  }

  /** Decodes a value from the front of `data`. */
  method DecodeValue(data: seq<byte>) returns (r: Result<(uint32, nat)>)
    ensures r == Decode(data)
  {
    if |data| == 0 {
      return Err(Truncated);
    }
    var result: uint32 := 0;
    var i := 0;
    while i < |data| && i < 5
      invariant i <= |data| && i <= 5
      invariant DecodeFrom(data, i, result) == Decode(data)
    {
      var b := data[i];
      if result > UINT32_MAX / 0x80 {
        return Err(OutOfRange);
      }
      result := 0x80 * result + b % 0x80;
      if b < 0x80 {
        var length := i + 1;
        var size := ComputeSize(result);
        if size != length {
          return Err(Noncanonical);
        }
        return Ok((result, length));
      }
      i := i + 1;
    }
    if |data| < 5 {
      return Err(Truncated);
    }
    return Err(OutOfRange);
  }
}
