/** The layout table as an independent specification: placing each field by its row, in place. */
module LayoutTable {
  import opened Machine
  import opened Bits
  import opened BitIO
  import opened Fields
  import opened Tier0
  import opened Tier0Laws

  /** A bit string with one stretch replaced. */
  function Placed(bits: seq<bool>, offset: nat, field: seq<bool>): (r: seq<bool>)
    requires offset + |field| <= |bits|
    ensures |r| == |bits|
  {
    bits[..offset] + field + bits[offset + |field|..]
  }

  /** The columns of the kind table: header code, size in bytes, padding in bits. */
  datatype KindRow = KindRow(category: byte, opcode: byte, size: nat, padBits: nat)

  function TableRow(kind: Kind): KindRow
    requires kind != Unassigned
  {
    match kind
    case Presence => KindRow(0, 0, 11, 0)
    case Hazard => KindRow(3, 1, 15, 2)
    case Request => KindRow(5, 1, 17, 6)
    case AuthorityClaim => KindRow(1, 1, 14, 6)
    case DegradedState => KindRow(6, 1, 10, 6)
    case TransportOffer => KindRow(8, 0, 17, 0)
    case TransportAccept => KindRow(8, 1, 16, 0)
  }

  /** The codec's own codes, sizes and field widths give the columns of the table. */
  lemma TableAgrees(o: Object)
    requires o.body.Kind() != Unassigned
    ensures
      var row := TableRow(o.body.Kind());
      && KindToCode(o.body.Kind()) == (row.category, row.opcode)
      && EncodedSize(o.body.Kind()) == row.size <= TIER0_MAX_SIZE
      && 16 + Total(Entries(EXPERIMENTAL_MAJOR, o)) + row.padBits == 8 * row.size
  {
    TotalOfEntries(EXPERIMENTAL_MAJOR, o);
  }

  /** Reads `width` bits at `offset`, most significant first. */
  method ReadBits(data: seq<byte>, offset: nat, width: nat) returns (value: nat)
    requires offset + width <= 8 * |data| && width <= 32
    ensures value == ValueOf(BufferBits(data)[offset..offset + width]) <= UINT32_MAX
  {
    value := 0;
    for i := 0 to width
      invariant value == ValueIn(data, offset, offset + i)
    {
      var bit := offset + i;
      ValueOfLongerSlice(data, offset, bit);
      value := 2 * value + Shr(data[bit / 8], 7 - bit % 8) % 2;
    }
    ValueFits(data, offset, width);
  }

  /** Replaces `width` bits at `offset`, whatever they were before, and no others. */
  method WriteBits(data: array<byte>, offset: nat, width: nat, value: uint32)
    requires offset + width <= 8 * data.Length && width <= 32
    modifies data
    ensures BufferBits(data[..]) == Placed(old(BufferBits(data[..])), offset, BitsOf(value, width))
  {
    ghost var s := data[..];
    for i := 0 to width
      invariant PlacedSoFar(s, data[..], offset, BitsOf(value, width), i)
    {
      var bit := offset + i;
      var v := Shr(value, width - 1 - i) % 2 == 1;
      ghost var before := data[..];
      data[bit / 8] := SetByteBit(data[bit / 8], 7 - bit % 8, v);
      assert data[..] == before[bit / 8 := SetByteBit(before[bit / 8], 7 - bit % 8, v)];
      BitsOfAt(value, width, i);
      BitAtAfterSet(before, bit, v);
    }
    PlacedAtLast(s, data[..], offset, BitsOf(value, width));
  }

  ghost predicate PlacedSoFar(s: seq<byte>, t: seq<byte>, offset: nat, field: seq<bool>, n: nat) {
    && |t| == |s| && n <= |field|
    && forall p | 0 <= p < 8 * |s| :: BitAt(t, p) == if offset <= p < offset + n then field[p - offset] else BitAt(s, p)
  }

  lemma PlacedAtLast(s: seq<byte>, t: seq<byte>, offset: nat, field: seq<bool>)
    requires offset + |field| <= 8 * |s| && PlacedSoFar(s, t, offset, field, |field|)
    ensures BufferBits(t) == Placed(BufferBits(s), offset, field)
  {
  }

  /** The first `n` rows placed one after the other, each where the table says. */
  function PlaceRows(bits: seq<bool>, rows: seq<Row>, es: seq<Entry>, n: nat): (r: seq<bool>)
    requires Matches(es, rows) && Within(rows, |bits|) && n <= |rows|
    ensures |r| == |bits|
    decreases n
  {
    if n == 0 then bits
    else Placed(PlaceRows(bits, rows, es, n - 1), rows[n - 1].offset, FieldBits(es[n - 1]))
  }

  /** Where row `n` of a tiling begins. */
  function RowStart(rows: seq<Row>, start: nat, n: nat): nat
    requires n <= |rows|
  {
    if n == 0 then start else rows[n - 1].offset + rows[n - 1].width
  }

  /** Rows that tile a stretch fill it with the printed fields. */
  lemma {:induction false} PlaceRowsPrints(bits: seq<bool>, rows: seq<Row>, es: seq<Entry>, start: nat, n: nat)
    requires Matches(es, rows) && Within(rows, |bits|) && n <= |rows|
    requires start <= |bits| && Tiles(rows, start)
    ensures start <= RowStart(rows, start, n) <= |bits|
    ensures |Print(es[..n])| == RowStart(rows, start, n) - start
    ensures PlaceRows(bits, rows, es, n) == bits[..start] + Print(es[..n]) + bits[RowStart(rows, start, n)..]
    decreases n
  {
    if n > 0 {
      PlaceRowsPrints(bits, rows, es, start, n - 1);
      PrintPrefix(es, n);
      assert rows[n - 1].offset == RowStart(rows, start, n - 1);
      PlaceNext(bits, start, RowStart(rows, start, n - 1), Print(es[..n - 1]), FieldBits(es[n - 1]));
    }
  }

  lemma PlaceNext(bits: seq<bool>, start: nat, end: nat, done: seq<bool>, field: seq<bool>)
    requires start <= end && end + |field| <= |bits| && |done| == end - start
    ensures Placed(bits[..start] + done + bits[end..], end, field) == bits[..start] + (done + field) + bits[end + |field|..]
  {
  }

  /**
   * The encoder refines the layout table. The bits it produces are the header's, with each field's
   * two's-complement or unsigned code placed at the offset its row gives, over zeros.
   */
  lemma EncoderFollowsTable(major: byte, o: Object, extensionBit: byte)
    requires Encodable(major, o) && extensionBit <= 1
    ensures
      var bytes, rows, es := EncodedBytes(major, o, extensionBit), Rows(major, o.body.Kind()), Entries(major, o);
      && Matches(es, rows)
      && Within(rows, 8 * |bytes|)
      && BufferBits(bytes) ==
         PlaceRows(BufferBits(bytes[..2]) + Zeros(8 * |bytes| - 16), rows, es, |rows|)
  {
    hide EncodedBytes, Encodable, Rows, Entries, BufferBits, PlaceRows, Print;
    var bytes, kind, es := EncodedBytes(major, o, extensionBit), o.body.Kind(), Entries(major, o);
    var rows := Rows(major, kind);
    RowsTile(major, kind);
    EntriesMatchRows(major, o);
    TotalOfEntries(major, o);
    BitsOfEncoded(major, o, extensionBit);
    var head := BufferBits(bytes[..2]);
    PlaceRowsPrints(head + Zeros(8 * |bytes| - 16), rows, es, 16, |rows|);
    assert es[..|rows|] == es;
    Blank(head, 8 * |bytes| - 16, Total(es));
  }

  lemma Blank(head: seq<bool>, n: nat, used: nat)
    requires used <= n
    ensures (head + Zeros(n))[..|head|] == head
    ensures (head + Zeros(n))[|head| + used..] == Zeros(n - used)
  {
  }

  /**
   * The table determines the bytes. A string of the right length with this header, whose rows read
   * the object's fields in any order and whose padding is zero, is the encoding, and conversely.
   */
  lemma TableDeterminesBytes(major: byte, o: Object, extensionBit: byte, bytes: seq<byte>)
    requires Encodable(major, o) && extensionBit <= 1 && |bytes| == EncodedSizeAtMajor(major, o.body.Kind())
    ensures PadStart(major, o.body.Kind()) <= 8 * |bytes| && Within(Rows(major, o.body.Kind()), 8 * |bytes|)
    ensures
      var rows, es, bits := Rows(major, o.body.Kind()), Entries(major, o), BufferBits(bytes);
      bytes == EncodedBytes(major, o, extensionBit) <==>
      && EncodeHeader(HeaderOf(major, o.body.Kind(), o.priority, extensionBit)) == Ok(bytes[..2])
      && (forall i | 0 <= i < |rows| :: FieldAt(bits, rows[i]) == es[i].value)
      && ZeroFrom(bits, PadStart(major, o.body.Kind()))
  {
    hide BufferBits, FieldAt, Rows, Entries, PadStart;
    RowsTile(major, o.body.Kind());
    EntriesMatchRows(major, o);
    if bytes == EncodedBytes(major, o, extensionBit) {
      EncodedRowsRead(major, o, extensionBit);
    }
    if && EncodeHeader(HeaderOf(major, o.body.Kind(), o.priority, extensionBit)) == Ok(bytes[..2])
       && (forall i | 0 <= i < |Rows(major, o.body.Kind())| ::
             FieldAt(BufferBits(bytes), Rows(major, o.body.Kind())[i]) == Entries(major, o)[i].value)
       && ZeroFrom(BufferBits(bytes), PadStart(major, o.body.Kind()))
    {
      RowsReadBack(major, o, bytes);
      assert bytes == bytes[..2] + bytes[2..];
    }
  }

  lemma EncodedRowsRead(major: byte, o: Object, extensionBit: byte)
    requires Encodable(major, o) && extensionBit <= 1
    ensures
      var rows, es, bits := Rows(major, o.body.Kind()), Entries(major, o), BufferBits(EncodedBytes(major, o, extensionBit));
      && Within(rows, |bits|) && |rows| == |es|
      && (forall i | 0 <= i < |rows| :: FieldAt(bits, rows[i]) == es[i].value)
      && ZeroFrom(bits, PadStart(major, o.body.Kind()))
  {
    var bytes, es, rows := EncodedBytes(major, o, extensionBit), Entries(major, o), Rows(major, o.body.Kind());
    RowsTile(major, o.body.Kind());
    EntriesMatchRows(major, o);
    BitsOfEncoded(major, o, extensionBit);
    EncodedObjectReadsBack(major, o, extensionBit);
    ReadRowsOfPrint(es, rows, BufferBits(bytes[..2]), Zeros(PadBits(major, o)));
    var read := ReadRows(BufferBits(bytes), rows);
    assert forall i | 0 <= i < |rows| :: read[i] == es[i];
  }

  lemma RowsReadBack(major: byte, o: Object, bytes: seq<byte>)
    requires Encodable(major, o) && |bytes| == EncodedSizeAtMajor(major, o.body.Kind()) && |bytes| >= 2
    requires PadStart(major, o.body.Kind()) <= 8 * |bytes| && Within(Rows(major, o.body.Kind()), 8 * |bytes|)
    requires Matches(Entries(major, o), Rows(major, o.body.Kind()))
    requires
      var rows := Rows(major, o.body.Kind());
      forall i | 0 <= i < |rows| :: FieldAt(BufferBits(bytes), rows[i]) == Entries(major, o)[i].value
    requires ZeroFrom(BufferBits(bytes), PadStart(major, o.body.Kind()))
    ensures bytes[2..] == Payload(major, o)
  {
    hide FieldAt, Rows, Entries, BufferBits, Encodable, Print, Pack;
    var bits, rows, es := BufferBits(bytes), Rows(major, o.body.Kind()), Entries(major, o);
    RowsTile(major, o.body.Kind());
    assert ReadRows(bits, rows) == es;
    PrintOfReadRows(bits, rows, 16);
    TotalOfEntries(major, o);
    PadsBack(bits, PadStart(major, o.body.Kind()));
    BitsAfterHeader(bytes);
    PackBufferBits(bytes[2..]);
  }

  /** One object, one string: set any padding bit of an encoding and the decoder refuses it. */
  lemma PaddingBitIsRefused(major: byte, o: Object, extensionBit: byte, p: nat, tail: seq<byte>)
    requires Encodable(major, o) && extensionBit <= 1
    requires PadStart(major, o.body.Kind()) <= p < 8 * EncodedSizeAtMajor(major, o.body.Kind())
    ensures
      var bytes := EncodedBytes(major, o, extensionBit);
      DecodeBody(bytes[p / 8 := SetByteBit(bytes[p / 8], 7 - p % 8, true)] + tail) == Err(Noncanonical)
  {
    var bytes, kind := EncodedBytes(major, o, extensionBit), o.body.Kind();
    var spoilt := bytes[p / 8 := SetByteBit(bytes[p / 8], 7 - p % 8, true)];
    RowsTile(major, kind);
    var h := HeaderOf(major, kind, o.priority, extensionBit);
    DecodeHeaderOfEncode(h);
    CodeRoundTrip(kind);
    assert p / 8 >= 2;
    assert DecodeHeader(spoilt + tail) == h;
    BitAtAfterSet(bytes, p, true);
    assert (spoilt + tail)[..|bytes|] == spoilt;
    assert BufferBits(spoilt)[p];
  }
}
