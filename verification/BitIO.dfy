/** The bit writer and the bit reader of the fixed-layout codec. */
module BitIO {
  import opened Machine
  import opened Bits
  import opened Fields

  /** Why a field cannot be written, or `Pass`. */
  function WriteVerdict(value: uint32, width: nat, position: nat, capacityBits: nat): Outcome {
    if width > 32 then Fail(InvalidArgument)
    else if !Fits(U(value, width)) then Fail(OutOfRange)
    else if position > capacityBits || width > capacityBits - position then Fail(BufferTooSmall)
    else Pass
  }

  /** Why a field cannot be read, or `Pass`. */
  function ReadVerdict(width: nat, position: nat, sizeBits: nat): Outcome {
    if width > 32 then Fail(InvalidArgument)
    else if position > sizeBits || width > sizeBits - position then Fail(Truncated)
    else Pass
  }

  /** The buffer after the writer's loop: bit by bit, each one bit of `value` is ored in at its place. */
  function OrField(s: seq<byte>, position: nat, value: nat, width: nat): (t: seq<byte>)
    ensures |t| == |s|
    decreases width, s
  {
    if width == 0 || position + width > 8 * |s| then s
    else
      var t, q := OrField(s, position, value / 2, width - 1), position + width - 1;
      if value % 2 == 1 then t[q / 8 := SetByteBit(t[q / 8], 7 - q % 8, true)] else t
  }

  /** The position after the first `i` fields. */
  function Advance(position: nat, es: seq<Entry>, i: nat): nat
    requires i <= |es|
    decreases i, es
  {
    if i == 0 then position else Advance(position, es, i - 1) + es[i - 1].width
  }

  /** None of the first `i` fields is refused. */
  predicate FirstFit(es: seq<Entry>, i: nat)
    requires i <= |es|
    decreases i, es
  {
    i == 0 || (FirstFit(es, i - 1) && Fits(es[i - 1]))
  }

  /** The buffer after trying the first `i` fields of a list: the first one refused stops the rest. */
  function OrFirst(s: seq<byte>, position: nat, es: seq<Entry>, i: nat): (t: seq<byte>)
    requires i <= |es|
    ensures |t| == |s|
    decreases i, s
  {
    if i == 0 then s
    else if !FirstFit(es, i) then OrFirst(s, position, es, i - 1)
    else OrField(OrFirst(s, position, es, i - 1), Advance(position, es, i - 1), Code(es[i - 1]), es[i - 1].width)
  }

  /**
   * Writes fields at a moving position. It never clears a bit, so what it leaves behind is what the
   * fields print to only where the buffer was zero ahead of the position.
   */
  class BitWriter {
    const buffer: array<byte>
    const capacityBits: nat
    var position: nat

    constructor (buffer: array<byte>, capacityBits: nat, position: nat)
      ensures this.buffer == buffer && this.capacityBits == capacityBits && this.position == position
    {
      this.buffer := buffer;
      this.capacityBits := capacityBits;
      this.position := position;
    }

    method WriteU(value: uint32, width: nat) returns (r: Outcome)
      requires capacityBits <= 8 * buffer.Length
      modifies this`position, buffer
      ensures r == WriteVerdict(value, width, old(position), capacityBits)
      ensures width > 32 ==> r == Fail(InvalidArgument)
      ensures width <= 32 && value >= Pow2(width) ==> r == Fail(OutOfRange)
      ensures width <= 32 && value < Pow2(width) && old(position) + width > capacityBits ==> r == Fail(BufferTooSmall)
      ensures width <= 32 && value < Pow2(width) && old(position) + width <= capacityBits ==> r == Pass
      ensures r.Fail? ==> position == old(position) && buffer[..] == old(buffer[..])
      ensures r.Pass? ==> position == old(position) + width
      ensures r.Pass? ==> buffer[..] == OrField(old(buffer[..]), old(position), value, width)
    {
      if width > 32 {
        return Fail(InvalidArgument);
      }
      Pow2Values();
      if width < 32 && value >= Pow2(width) {
        return Fail(OutOfRange);
      }
      if position > capacityBits || width > capacityBits - position {
        return Fail(BufferTooSmall);
      }
      for i := 0 to width
        invariant position == old(position) + i
        invariant buffer[..] == OrField(old(buffer[..]), old(position), Shr(value, width - i), i)
      {
        var shift := width - 1 - i;
        var bit := Shr(value, shift) % 2;
        var byteIndex := position / 8;
        var bitIndex := 7 - position % 8;
        ghost var before := buffer[..];
        ShrStep(value, shift);
        if bit != 0 {
          buffer[byteIndex] := SetByteBit(buffer[byteIndex], bitIndex, true);
          assert buffer[..] == before[byteIndex := SetByteBit(before[byteIndex], bitIndex, true)];
        }
        position := position + 1;
      }
      return Pass;
    }

    /** Writes a signed field in two's complement. */
    method WriteS(value: int32, width: nat) returns (r: Outcome)
      requires capacityBits <= 8 * buffer.Length
      modifies this`position, buffer
      ensures r == if !Fits(S(value, width)) then Fail(OutOfRange)
                   else if old(position) > capacityBits || width > capacityBits - old(position) then Fail(BufferTooSmall)
                   else Pass
      ensures r.Fail? ==> position == old(position) && buffer[..] == old(buffer[..])
      ensures r.Pass? ==> position == old(position) + width
      ensures r.Pass? ==> buffer[..] == OrField(old(buffer[..]), old(position), Code(S(value, width)), width)
    {
      hide OrField;
      if width == 0 || width >= 32 {
        return Fail(OutOfRange);
      }
      assert Pow2(width) == 2 * Pow2(width - 1);
      var minimum := -(Pow2(width - 1) as int);
      var maximum := Pow2(width - 1) - 1;
      if value < minimum || value > maximum {
        return Fail(OutOfRange);
      }
      var encoded: int := if value < 0 then Pow2(width) - (-(value as int)) else value;
      Pow2Monotone(width, 32);
      Pow2Values();
      r := WriteU(encoded, width);
    }
  }

  /** Shifting once more drops the lowest bit of the shifted value. */
  lemma {:induction false} ShrStep(v: nat, k: nat)
    ensures Shr(v, k + 1) == Shr(v, k) / 2
  {
    if k > 0 {
      ShrStep(v / 2, k - 1);
    }
  }

  /** `t` is `s` with the bits of `value`, taken as `width` bits, ored in at `position`. */
  ghost predicate Ored(s: seq<byte>, t: seq<byte>, position: nat, value: nat, width: nat) {
    && |s| == |t|
    && forall p | 0 <= p < 8 * |s| ::
         BitAt(t, p) == (BitAt(s, p) || (position <= p < position + width && BitsOf(value, width)[p - position]))
  }

  /** The bytes that lie wholly outside the bits `from..to` are the same. */
  ghost predicate SameOutside(s: seq<byte>, t: seq<byte>, from: nat, to: nat) {
    && |s| == |t|
    && forall k | 0 <= k < |s| && (8 * k + 8 <= from || to <= 8 * k) :: t[k] == s[k]
  }

  /** From `start` to `position` the bytes hold `done`, and from there to `capacity` only zeros. */
  ghost predicate Written(s: seq<byte>, capacity: nat, position: nat, start: nat, done: seq<Entry>) {
    && capacity <= 8 * |s|
    && AllFit(done)
    && start + Total(done) == position <= capacity
    && BufferBits(s)[start..position] == Print(done)
    && ZeroAhead(s, position, capacity)
  }

  ghost predicate ZeroAhead(s: seq<byte>, from: nat, to: nat)
    requires to <= 8 * |s|
  {
    forall p | from <= p < to :: !BitAt(s, p)
  }

  /** Setting one bit of a buffer changes that bit and no other. */
  lemma BitAtAfterSet(s: seq<byte>, p: nat, v: bool)
    requires p < 8 * |s|
    ensures
      var t := s[p / 8 := SetByteBit(s[p / 8], 7 - p % 8, v)];
      forall q | 0 <= q < 8 * |s| :: BitAt(t, q) == if q == p then v else BitAt(s, q)
  {
    var t := s[p / 8 := SetByteBit(s[p / 8], 7 - p % 8, v)];
    forall q | 0 <= q < 8 * |s|
      ensures BitAt(t, q) == if q == p then v else BitAt(s, q)
    {
      if q / 8 == p / 8 {
        SetBitBits(s[p / 8], 7 - p % 8, v, 7 - q % 8);
      }
    }
  }

  /** The writer's loop ors in exactly the bits of the value, and touches no byte outside them. */
  lemma {:induction false} OrFieldOrs(s: seq<byte>, position: nat, value: nat, width: nat)
    requires position + width <= 8 * |s|
    ensures Ored(s, OrField(s, position, value, width), position, value, width)
    ensures SameOutside(s, OrField(s, position, value, width), position, position + width)
  {
    hide BitAt, SetByteBit;
    if width > 0 {
      OrFieldOrs(s, position, value / 2, width - 1);
      BitAtAfterSet(OrField(s, position, value / 2, width - 1), position + width - 1, true);
    }
  }

  /** Oring a field into zeros appends its bits to what was written before. */
  lemma WrittenGrows(s: seq<byte>, t: seq<byte>, capacity: nat, position: nat, start: nat, done: seq<Entry>, e: Entry)
    requires Written(s, capacity, position, start, done)
    requires Fits(e) && position + e.width <= capacity
    requires Ored(s, t, position, Code(e), e.width)
    ensures Written(t, capacity, position + e.width, start, done + [e])
  {
    OredAppends(s, t, start, position, capacity, Code(e), e.width);
    PrintSnoc(done, e);
    TotalSnoc(done, e);
  }

  lemma OredAppends(s: seq<byte>, t: seq<byte>, start: nat, position: nat, capacity: nat, value: nat, width: nat)
    requires start <= position && position + width <= capacity <= 8 * |s|
    requires ZeroAhead(s, position, capacity)
    requires Ored(s, t, position, value, width)
    ensures BufferBits(t)[start..position + width] == BufferBits(s)[start..position] + BitsOf(value, width)
    ensures ZeroAhead(t, position + width, capacity)
  {
    var b, c := BufferBits(t)[start..position + width], BufferBits(s)[start..position] + BitsOf(value, width);
    assert |b| == |c|;
    forall i | 0 <= i < |b|
      ensures b[i] == c[i]
    {
      assert b[i] == BitAt(t, start + i);
    }
  }

  /**
   * Writing a list of fields where the buffer is zero leaves their printed form there, zeros after
   * it, and every byte outside as it was.
   */
  lemma {:induction false} OrFirstWrites(s: seq<byte>, start: nat, capacity: nat, es: seq<Entry>, i: nat)
    requires i <= |es| && AllFit(es) && start + Total(es) <= capacity <= 8 * |s|
    requires ZeroAhead(s, start, capacity)
    ensures Total(es[..i]) <= Total(es) && Advance(start, es, i) == start + Total(es[..i])
    ensures Written(OrFirst(s, start, es, i), capacity, Advance(start, es, i), start, es[..i])
    ensures SameOutside(s, OrFirst(s, start, es, i), start, Advance(start, es, i))
    decreases i
  {
    PrefixTotal(es, i);
    FirstFitIsAllFit(es, i);
    if i > 0 {
      var e := es[i - 1];
      OrFirstWrites(s, start, capacity, es, i - 1);
      var t, at := OrFirst(s, start, es, i - 1), Advance(start, es, i - 1);
      TotalSnoc(es[..i - 1], e);
      assert es[..i] == es[..i - 1] + [e];
      OrNextWrites(s, t, capacity, at, start, es[..i - 1], e);
    }
  }

  lemma OrNextWrites(s: seq<byte>, t: seq<byte>, capacity: nat, at: nat, start: nat, done: seq<Entry>, e: Entry)
    requires Written(t, capacity, at, start, done) && SameOutside(s, t, start, at)
    requires Fits(e) && at + e.width <= capacity
    ensures Written(OrField(t, at, Code(e), e.width), capacity, at + e.width, start, done + [e])
    ensures SameOutside(s, OrField(t, at, Code(e), e.width), start, at + e.width)
  {
    OrFieldOrs(t, at, Code(e), e.width);
    WrittenGrows(t, OrField(t, at, Code(e), e.width), capacity, at, start, done, e);
  }

  lemma {:induction false} FirstFitIsAllFit(es: seq<Entry>, i: nat)
    requires i <= |es|
    ensures FirstFit(es, i) <==> AllFit(es[..i])
  {
    if i > 0 {
      FirstFitIsAllFit(es, i - 1);
      assert es[..i] == es[..i - 1] + [es[i - 1]];
      assert es[..i][i - 1] == es[i - 1];
    }
  }

  lemma {:induction false} PrefixTotal(es: seq<Entry>, i: nat)
    requires i <= |es|
    ensures Total(es[..i]) <= Total(es)
  {
    if i < |es| {
      PrefixTotal(es[..|es| - 1], i);
      assert es[..|es| - 1][..i] == es[..i];
    } else {
      assert es[..i] == es;
    }
  }

  lemma SpeltByItsBits(bits: seq<bool>, row: Row, e: Entry)
    requires Fits(e) && Sane(row) && row.width == e.width && row.signed == e.signed
    requires row.offset + row.width <= |bits|
    ensures FieldAt(bits, row) == e.value <==> bits[row.offset..row.offset + row.width] == FieldBits(e)
  {
    DecodedCode(e);
    FieldBitsOfFieldAt(bits, row);
  }

  /** The bits left behind are the field's own just when no bit was set that the field leaves clear. */
  lemma OredBits(s: seq<byte>, t: seq<byte>, position: nat, field: seq<bool>)
    requires position + |field| <= 8 * |s| == 8 * |t|
    requires forall p | position <= p < position + |field| :: BitAt(t, p) == (BitAt(s, p) || field[p - position])
    ensures BufferBits(t)[position..position + |field|] == field
            <==> forall p | position <= p < position + |field| && BitAt(s, p) :: field[p - position]
  {
    var slice := BufferBits(t)[position..position + |field|];
    forall p | position <= p < position + |field|
      ensures BitAt(t, p) == slice[p - position]
    {
    }
    if forall p | position <= p < position + |field| && BitAt(s, p) :: field[p - position] {
      forall i | 0 <= i < |field|
        ensures slice[i] == field[i]
      {
        assert BitAt(t, position + i) == slice[i];
      }
    }
  }

  lemma {:induction false} AdvanceIsTotal(position: nat, es: seq<Entry>, i: nat)
    requires i <= |es|
    ensures Advance(position, es, i) == position + Total(es[..i])
    decreases i
  {
    if i > 0 {
      AdvanceIsTotal(position, es, i - 1);
      assert es[..i] == es[..i - 1] + [es[i - 1]];
      TotalSnoc(es[..i - 1], es[i - 1]);
    }
  }

  /** Whatever the fields and the buffer, and wherever the first refusal, no byte outside the fields is touched. */
  lemma {:induction false} OrFirstStaysInside(s: seq<byte>, position: nat, es: seq<Entry>, i: nat)
    requires i <= |es|
    ensures SameOutside(s, OrFirst(s, position, es, i), position, Advance(position, es, i))
    decreases i
  {
    if i > 0 {
      OrFirstStaysInside(s, position, es, i - 1);
      AdvanceIsTotal(position, es, i - 1);
      OrFieldStaysInside(OrFirst(s, position, es, i - 1), Advance(position, es, i - 1), Code(es[i - 1]), es[i - 1].width);
    }
  }

  lemma OrFieldStaysInside(s: seq<byte>, position: nat, value: nat, width: nat)
    ensures SameOutside(s, OrField(s, position, value, width), position, position + width)
  {
    if position + width <= 8 * |s| {
      OrFieldOrs(s, position, value, width);
    }
  }

  /**
   * A field reads back from where it was written exactly when no bit already set there is one the
   * field leaves clear; every bit outside keeps its value.
   */
  lemma WrittenFieldReads(s: seq<byte>, position: nat, e: Entry)
    requires Fits(e) && Sane(Row(position, e.width, e.signed)) && position + e.width <= 8 * |s|
    ensures
      var t := OrField(s, position, Code(e), e.width);
      && (FieldAt(BufferBits(t), Row(position, e.width, e.signed)) == e.value
          <==> forall p | position <= p < position + e.width && BitAt(s, p) :: FieldBits(e)[p - position])
      && forall p | 0 <= p < 8 * |s| && !(position <= p < position + e.width) :: BitAt(t, p) == BitAt(s, p)
  {
    var t := OrField(s, position, Code(e), e.width);
    OrFieldOrs(s, position, Code(e), e.width);
    SpeltByItsBits(BufferBits(t), Row(position, e.width, e.signed), e);
    OredBits(s, t, position, FieldBits(e));
  }

  /**
   * Without zeros ahead the writer does not write: over any set bit that the field leaves clear another
   * value reads back. This is why the encoder zeroes the buffer first.
   */
  lemma OringIntoOnesLosesTheValue(s: seq<byte>, position: nat, e: Entry, p: nat)
    requires Fits(e) && Sane(Row(position, e.width, e.signed)) && position + e.width <= 8 * |s|
    requires position <= p < position + e.width && BitAt(s, p) && !FieldBits(e)[p - position]
    ensures FieldAt(BufferBits(OrField(s, position, Code(e), e.width)), Row(position, e.width, e.signed)) != e.value
  {
    hide OrField, FieldAt, BitAt, FieldBits;
    WrittenFieldReads(s, position, e);
  }

  /** The number spelled by the bits of a buffer between two positions. */
  function ValueIn(s: seq<byte>, from: nat, to: nat): nat
    requires from <= to <= 8 * |s|
  {
    ValueOf(BufferBits(s)[from..to])
  }

  /** One turn of the reader's loop: the next bit becomes the least significant one. */
  lemma ValueOfLongerSlice(s: seq<byte>, from: nat, to: nat)
    requires from <= to < 8 * |s|
    ensures ValueIn(s, from, to + 1) == 2 * ValueIn(s, from, to) + Shr(s[to / 8], 7 - to % 8) % 2
  {
    var b := BufferBits(s)[from..to + 1];
    assert b[..|b| - 1] == BufferBits(s)[from..to];
    assert b[|b| - 1] == BitAt(s, to);
  }

  lemma ValueFits(s: seq<byte>, from: nat, width: nat)
    requires width <= 32 && from + width <= 8 * |s|
    ensures ValueIn(s, from, from + width) < 0x1_0000_0000
    ensures FieldAt(BufferBits(s), Row(from, width, false)) == ValueIn(s, from, from + width)
  {
    Pow2Monotone(width, 32);
    Pow2Values();
  }

  /** Reads fields at a moving position out of a buffer it does not own. */
  class BitReader {
    const buffer: seq<byte>
    const sizeBits: nat
    var position: nat

    constructor (buffer: seq<byte>, sizeBits: nat, position: nat)
      ensures this.buffer == buffer && this.sizeBits == sizeBits && this.position == position
    {
      this.buffer := buffer;
      this.sizeBits := sizeBits;
      this.position := position;
    }

    method ReadU(width: nat) returns (r: Result<uint32>)
      requires sizeBits <= 8 * |buffer|
      modifies this`position
      ensures r.Err? <==> ReadVerdict(width, old(position), sizeBits).Fail?
      ensures r.Err? ==> r.error == ReadVerdict(width, old(position), sizeBits).error && position == old(position)
      ensures width > 32 ==> r == Err(InvalidArgument)
      ensures width <= 32 && old(position) + width > sizeBits ==> r == Err(Truncated)
      ensures width <= 32 && old(position) + width <= sizeBits ==> r.Ok?
      ensures r.Ok? ==> position == old(position) + width
      ensures r.Ok? ==> r.value == FieldAt(BufferBits(buffer), Row(old(position), width, false))
    {
      hide FieldAt, Shr;
      if width > 32 {
        return Err(InvalidArgument);
      }
      if position > sizeBits || width > sizeBits - position {
        return Err(Truncated);
      }
      var result := 0;
      for i := 0 to width
        invariant position == old(position) + i
        invariant result == ValueIn(buffer, old(position), position)
      {
        var byteIndex := position / 8;
        var bitIndex := 7 - position % 8;
        ValueOfLongerSlice(buffer, old(position), position);
        result := 2 * result + Shr(buffer[byteIndex], bitIndex) % 2;
        position := position + 1;
      }
      ValueFits(buffer, old(position), width);
      return Ok(result);
    }

    method ReadS(width: nat) returns (r: Result<int>)
      requires sizeBits <= 8 * |buffer|
      modifies this`position
      ensures r.Ok? <==> 1 <= width <= 31 && ReadVerdict(width, old(position), sizeBits).Pass?
      ensures r.Err? ==> r.error == (if 1 <= width <= 31 then Truncated else InvalidArgument) && position == old(position)
      ensures r.Ok? ==> position == old(position) + width
      ensures r.Ok? ==> r.value == FieldAt(BufferBits(buffer), Row(old(position), width, true))
    {
      if width == 0 || width >= 32 {
        return Err(InvalidArgument);
      }
      var encoded := ReadU(width);
      if encoded.Err? {
        return Err(encoded.error);
      }
      if encoded.value >= Pow2(width - 1) {
        return Ok(encoded.value - Pow2(width));
      } else {
        return Ok(encoded.value);
      }
    }

    /** Walks to the end of the buffer as long as it meets zeros. */
    method RequireZeroPadding() returns (r: Outcome)
      requires sizeBits <= 8 * |buffer|
      modifies this`position
      ensures r == if forall p | old(position) <= p < sizeBits :: !BitAt(buffer, p) then Pass else Fail(Noncanonical)
    {
      while position < sizeBits
        invariant old(position) <= position
        invariant forall p | old(position) <= p < position && p < sizeBits :: !BitAt(buffer, p)
      {
        var byteIndex := position / 8;
        var bitIndex := 7 - position % 8;
        if Shr(buffer[byteIndex], bitIndex) % 2 != 0 {
          assert BitAt(buffer, position);
          return Fail(Noncanonical);
        }
        position := position + 1;
      }
      return Pass;
    }
  }
}
