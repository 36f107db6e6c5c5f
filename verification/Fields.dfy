/** Packed fields: the bits a list of fields prints to, and rows that say where a field sits. */
module Fields {
  import opened Machine
  import opened Bits

  /** A field about to be written: how it is coded, on how many bits, and its value. */
  datatype Entry = Entry(signed: bool, width: nat, value: int)

  /** A row of a layout table: where a field sits, on how many bits, and how it is coded. */
  datatype Row = Row(offset: nat, width: nat, signed: bool)

  function U(value: int, width: nat): Entry {
    Entry(false, width, value)
  }

  function S(value: int, width: nat): Entry {
    Entry(true, width, value)
  }

  /** The field's value is in the range its width and coding can carry. */
  predicate Fits(e: Entry) {
    if e.signed then
      1 <= e.width <= 31 && 0 <= e.value + Pow2(e.width - 1) < Pow2(e.width)
    else
      e.width <= 32 && 0 <= e.value < Pow2(e.width)
  }

  predicate AllFit(es: seq<Entry>) {
    forall i | 0 <= i < |es| :: Fits(es[i])
  }

  /** The unsigned number that stands for the field on the wire: two's complement when signed, 0 when it does not fit. */
  function Code(e: Entry): (c: nat)
    ensures c < Pow2(e.width)
  {
    if !Fits(e) then 0 else if e.value < 0 then e.value + Pow2(e.width) else e.value
  }

  /** The value that `width` wire bits spell. */
  function Decoded(code: nat, width: nat, signed: bool): int {
    if signed && width > 0 && code >= Pow2(width - 1) then code - Pow2(width) else code
  }

  function FieldBits(e: Entry): (r: seq<bool>)
    ensures |r| == e.width
  {
    BitsOf(Code(e), e.width)
  }

  /** The total width of the fields. */
  function Total(es: seq<Entry>): nat {
    if es == [] then 0 else Total(es[..|es| - 1]) + es[|es| - 1].width
  }

  /** The fields one after another, with nothing between them. */
  function Print(es: seq<Entry>): (r: seq<bool>)
    ensures |r| == Total(es)
  {
    if es == [] then [] else Print(es[..|es| - 1]) + FieldBits(es[|es| - 1])
  }

  /** What a row reads out of a bit string. */
  function FieldAt(bits: seq<bool>, row: Row): int
    requires row.offset + row.width <= |bits|
  {
    Decoded(ValueOf(bits[row.offset..row.offset + row.width]), row.width, row.signed)
  }

  predicate Within(rows: seq<Row>, limit: nat) {
    forall i | 0 <= i < |rows| :: rows[i].offset + rows[i].width <= limit
  }

  /** A row's coding is one the accessors support. */
  predicate Sane(row: Row) {
    if row.signed then 1 <= row.width <= 31 else row.width <= 32
  }

  /** Every row read out of the same bits, as the fields that would print them. */
  function ReadRows(bits: seq<bool>, rows: seq<Row>): (es: seq<Entry>)
    requires Within(rows, |bits|)
    ensures |es| == |rows|
  {
    seq(|rows|, i requires 0 <= i < |rows| => Entry(rows[i].signed, rows[i].width, FieldAt(bits, rows[i])))
  }

  /** The rows follow one another from `start`, each beginning where the one before it ends. */
  predicate Tiles(rows: seq<Row>, start: nat) {
    && (rows != [] ==> rows[0].offset == start)
    && forall i | 0 < i < |rows| :: rows[i].offset == rows[i - 1].offset + rows[i - 1].width
  }

  /** The bit position after the last row. */
  function End(rows: seq<Row>, start: nat): nat {
    if rows == [] then start else rows[|rows| - 1].offset + rows[|rows| - 1].width
  }

  /** The fields have the codings and widths of the rows. */
  predicate Matches(es: seq<Entry>, rows: seq<Row>) {
    && |es| == |rows|
    && forall i | 0 <= i < |rows| :: es[i].signed == rows[i].signed && es[i].width == rows[i].width
  }

  /** The decoded value of a code fits its field, and codes back to it. */
  lemma CodeOfDecoded(code: nat, width: nat, signed: bool)
    requires code < Pow2(width) && Sane(Row(0, width, signed))
    ensures Fits(Entry(signed, width, Decoded(code, width, signed)))
    ensures Code(Entry(signed, width, Decoded(code, width, signed))) == code
  {
    if signed {
      assert Pow2(width) == 2 * Pow2(width - 1);
    }
  }

  lemma DecodedOfCode(e: Entry)
    requires Fits(e)
    ensures Decoded(Code(e), e.width, e.signed) == e.value
  {
    if e.signed {
      assert Pow2(e.width) == 2 * Pow2(e.width - 1);
    }
  }

  /** Printing a field's code and reading it back gives the value. */
  lemma DecodedCode(e: Entry)
    requires Fits(e)
    ensures Decoded(ValueOf(FieldBits(e)), e.width, e.signed) == e.value
  {
    ValueOfBitsOf(Code(e), e.width);
    DecodedOfCode(e);
  }

  /** Whatever bits a row holds, they are the printed form of the value it reads. */
  lemma FieldBitsOfFieldAt(bits: seq<bool>, row: Row)
    requires row.offset + row.width <= |bits| && Sane(row)
    ensures
      var e := Entry(row.signed, row.width, FieldAt(bits, row));
      Fits(e) && FieldBits(e) == bits[row.offset..row.offset + row.width]
  {
    var b := bits[row.offset..row.offset + row.width];
    CodeOfDecoded(ValueOf(b), row.width, row.signed);
    BitsOfValueOf(b);
  }

  /** Where a tiling puts each row, and where it ends: the widths of the rows before it, summed. */
  lemma {:induction false} TileOffsets(es: seq<Entry>, rows: seq<Row>, start: nat)
    requires Matches(es, rows) && Tiles(rows, start)
    ensures End(rows, start) == start + Total(es)
    ensures forall i | 0 <= i < |rows| :: rows[i].offset == start + Total(es[..i])
  {
    TileOffset(es, rows, start, |rows|);
    assert es[..|rows|] == es;
    forall i | 0 <= i < |rows|
      ensures rows[i].offset == start + Total(es[..i])
    {
      TileOffset(es, rows, start, i);
    }
  }

  lemma {:induction false} TileOffset(es: seq<Entry>, rows: seq<Row>, start: nat, i: nat)
    requires Matches(es, rows) && Tiles(rows, start) && i <= |rows|
    ensures i < |rows| ==> rows[i].offset == start + Total(es[..i])
    ensures i == |rows| ==> End(rows, start) == start + Total(es[..i])
  {
    if i > 0 {
      TileOffset(es, rows, start, i - 1);
      assert es[..i] == es[..i - 1] + [es[i - 1]];
      TotalSnoc(es[..i - 1], es[i - 1]);
    }
  }

  /** The stretch of the printed bits that belongs to field `i`. */
  lemma {:induction false} PrintedField(es: seq<Entry>, i: nat)
    requires AllFit(es) && i < |es|
    ensures Total(es[..i]) + es[i].width <= Total(es)
    ensures Print(es)[Total(es[..i])..Total(es[..i]) + es[i].width] == FieldBits(es[i])
  {
    var n := |es| - 1;
    if i < n {
      PrintedField(es[..n], i);
      assert es[..n][..i] == es[..i] && es[..n][i] == es[i];
    }
  }

  lemma SliceMiddle(before: seq<bool>, middle: seq<bool>, after: seq<bool>, at: nat, width: nat)
    requires at + width <= |middle|
    ensures (before + middle + after)[|before| + at..|before| + at + width] == middle[at..at + width]
  {
  }

  lemma ReadField(before: seq<bool>, middle: seq<bool>, after: seq<bool>, at: nat, row: Row, e: Entry)
    requires row.width == e.width && row.signed == e.signed && row.offset == |before| + at
    requires Fits(e) && at + e.width <= |middle| && middle[at..at + e.width] == FieldBits(e)
    ensures FieldAt(before + middle + after, row) == e.value
  {
    SliceMiddle(before, middle, after, at, e.width);
    DecodedCode(e);
  }

  /**
   * Reading back what was printed. Rows that tile the printed stretch recover exactly the fields,
   * whatever comes before and after it.
   */
  lemma ReadRowsOfPrint(es: seq<Entry>, rows: seq<Row>, before: seq<bool>, after: seq<bool>)
    requires AllFit(es) && Matches(es, rows) && Tiles(rows, |before|)
    ensures Within(rows, |before| + Total(es))
    ensures ReadRows(before + Print(es) + after, rows) == es
  {
    TileOffsets(es, rows, |before|);
    forall i | 0 <= i < |rows|
      ensures rows[i].offset + rows[i].width <= |before| + Total(es)
      ensures FieldAt(before + Print(es) + after, rows[i]) == es[i].value
    {
      PrintedField(es, i);
      ReadField(before, Print(es), after, Total(es[..i]), rows[i], es[i]);
    }
  }

  /** Whatever bits the rows hold, the fields read from them fit. */
  lemma ReadRowsFit(bits: seq<bool>, rows: seq<Row>)
    requires Within(rows, |bits|)
    requires forall i | 0 <= i < |rows| :: Sane(rows[i])
    ensures AllFit(ReadRows(bits, rows))
  {
    forall i | 0 <= i < |rows|
      ensures Fits(ReadRows(bits, rows)[i])
    {
      FieldBitsOfFieldAt(bits, rows[i]);
    }
  }

  /** Printing back what was read. Rows that tile a stretch of bits reprint exactly that stretch. */
  lemma PrintOfReadRows(bits: seq<bool>, rows: seq<Row>, start: nat)
    requires start <= |bits| && Tiles(rows, start) && Within(rows, |bits|)
    requires forall i | 0 <= i < |rows| :: Sane(rows[i])
    ensures start <= End(rows, start) <= |bits|
    ensures Print(ReadRows(bits, rows)) == bits[start..End(rows, start)]
  {
    var es := ReadRows(bits, rows);
    PrintOfFirstRows(bits, rows, start, es, |rows|);
    assert es[..|rows|] == es;
  }

  lemma {:induction false} PrintOfFirstRows(bits: seq<bool>, rows: seq<Row>, start: nat, es: seq<Entry>, i: nat)
    requires start <= |bits| && Tiles(rows, start) && Within(rows, |bits|)
    requires forall i | 0 <= i < |rows| :: Sane(rows[i])
    requires es == ReadRows(bits, rows) && i <= |rows|
    ensures
      var end := if i == 0 then start else rows[i - 1].offset + rows[i - 1].width;
      start <= end <= |bits| && Print(es[..i]) == bits[start..end]
  {
    hide FieldAt, FieldBits, Print, Sane;
    if i > 0 {
      var row := rows[i - 1];
      PrintOfFirstRows(bits, rows, start, es, i - 1);
      FieldBitsOfFieldAt(bits, row);
      Abut(bits, start, row.offset, row.offset + row.width);
      PrintPrefix(es, i);
    }
  }

  lemma PrintPrefix(es: seq<Entry>, i: nat)
    requires 0 < i <= |es|
    ensures Print(es[..i]) == Print(es[..i - 1]) + FieldBits(es[i - 1])
  {
    assert es[..i][..i - 1] == es[..i - 1];
  }

  lemma TotalSnoc(es: seq<Entry>, e: Entry)
    ensures Total(es + [e]) == Total(es) + e.width
  {
    assert (es + [e])[..|es|] == es;
  }

  lemma PrintSnoc(es: seq<Entry>, e: Entry)
    requires AllFit(es) && Fits(e)
    ensures AllFit(es + [e])
    ensures Print(es + [e]) == Print(es) + FieldBits(e)
  {
    assert (es + [e])[..|es|] == es;
  }
}
