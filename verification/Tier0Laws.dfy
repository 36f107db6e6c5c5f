/** The fixed-layout codec is a bijection between objects and accepted byte strings, per major. */
module Tier0Laws {
  import opened Machine
  import opened Bits
  import opened Fields
  import opened Tier0

  /** Decoding by absolute position and reading the rows of the table see the same fields. */
  lemma BodyFollowsRows(major: byte, kind: Kind, priority: byte, bits: seq<bool>)
    requires |bits| >= PadStart(major, kind)
    ensures Within(Rows(major, kind), |bits|)
    ensures Entries(major, ObjectAt(major, kind, priority, bits)) == ReadRows(bits, Rows(major, kind))
  {
    match kind {
      case Presence => PresenceFollowsRows(major, priority, bits);
      case Hazard => HazardFollowsRows(major, priority, bits);
      case Request => RequestFollowsRows(major, priority, bits);
      case AuthorityClaim => ClaimFollowsRows(major, priority, bits);
      case DegradedState => StateFollowsRows(major, priority, bits);
      case TransportOffer => OfferFollowsRows(major, priority, bits);
      case TransportAccept => AcceptFollowsRows(major, priority, bits);
      case Unassigned => SourceFollowsRows(major, priority, bits);
    }
  }

  lemma PresenceFollowsRows(major: byte, priority: byte, bits: seq<bool>)
    requires |bits| >= PadStart(major, Presence)
    ensures Within(Rows(major, Presence), |bits|)
    ensures Entries(major, ObjectAt(major, Presence, priority, bits)) == ReadRows(bits, Rows(major, Presence))
  {
  }

  lemma ClaimFollowsRows(major: byte, priority: byte, bits: seq<bool>)
    requires |bits| >= 106
    ensures Within(Rows(major, AuthorityClaim), |bits|)
    ensures Entries(major, ObjectAt(major, AuthorityClaim, priority, bits)) == ReadRows(bits, Rows(major, AuthorityClaim))
  {
  }

  lemma StateFollowsRows(major: byte, priority: byte, bits: seq<bool>)
    requires |bits| >= 74
    ensures Within(Rows(major, DegradedState), |bits|)
    ensures Entries(major, ObjectAt(major, DegradedState, priority, bits)) == ReadRows(bits, Rows(major, DegradedState))
  {
  }

  lemma AcceptFollowsRows(major: byte, priority: byte, bits: seq<bool>)
    requires |bits| >= 128
    ensures Within(Rows(major, TransportAccept), |bits|)
    ensures Entries(major, ObjectAt(major, TransportAccept, priority, bits)) == ReadRows(bits, Rows(major, TransportAccept))
  {
  }

  lemma SourceFollowsRows(major: byte, priority: byte, bits: seq<bool>)
    requires |bits| >= PadStart(major, Unassigned)
    ensures Within(Rows(major, Unassigned), |bits|)
    ensures Entries(major, ObjectAt(major, Unassigned, priority, bits)) == ReadRows(bits, Rows(major, Unassigned))
  {
  }

  lemma HazardFollowsRows(major: byte, priority: byte, bits: seq<bool>)
    requires |bits| >= 118
    ensures Within(Rows(major, Hazard), |bits|)
    ensures Entries(major, ObjectAt(major, Hazard, priority, bits)) == ReadRows(bits, Rows(major, Hazard))
  {
  }

  lemma RequestFollowsRows(major: byte, priority: byte, bits: seq<bool>)
    requires |bits| >= 130
    ensures Within(Rows(major, Request), |bits|)
    ensures Entries(major, ObjectAt(major, Request, priority, bits)) == ReadRows(bits, Rows(major, Request))
  {
  }

  lemma OfferFollowsRows(major: byte, priority: byte, bits: seq<bool>)
    requires |bits| >= 136
    ensures Within(Rows(major, TransportOffer), |bits|)
    ensures Entries(major, ObjectAt(major, TransportOffer, priority, bits)) == ReadRows(bits, Rows(major, TransportOffer))
  {
  }

  /** Objects of one kind and priority with equal fields are equal, up to what the major erases. */
  lemma EntriesDetermineObject(major: byte, a: Object, b: Object)
    requires a.body.Kind() == b.body.Kind() && a.priority == b.priority
    requires Entries(major, a) == Entries(major, b)
    ensures Erased(major, a) == Erased(major, b)
  {
    var ea, eb := Entries(major, a), Entries(major, b);
    assert forall i | 0 <= i < |ea| :: ea[i].value == eb[i].value;
    assert ea[0].value == eb[0].value;
    assert |ea| > 1 ==> ea[1].value == eb[1].value;
    assert |ea| > 2 ==> ea[2].value == eb[2].value;
    assert |ea| > 3 ==> ea[3].value == eb[3].value;
    assert |ea| > 4 ==> ea[4].value == eb[4].value;
    assert |ea| > 5 ==> ea[5].value == eb[5].value;
    assert |ea| > 6 ==> ea[6].value == eb[6].value;
    assert |ea| > 7 ==> ea[7].value == eb[7].value;
    assert |ea| > 8 ==> ea[8].value == eb[8].value;
  }

  lemma FirstHeaderByte(major: byte, category: byte)
    requires major <= 15 && category <= 15
    ensures (16 * major + category) / 16 == major && (16 * major + category) % 16 == category
  {
  }

  lemma SecondHeaderByte(opcode: byte, priority: byte, extensionBit: byte)
    requires opcode <= 31 && priority <= 3 && extensionBit <= 1
    ensures
      var b := 8 * opcode + 2 * priority + extensionBit;
      b < 256 && b / 8 == opcode && b / 2 % 4 == priority && b % 2 == extensionBit
  {
  }

  lemma CodeRoundTrip(kind: Kind)
    requires kind != Unassigned
    ensures CodeToKind(KindToCode(kind).0, KindToCode(kind).1) == Ok(kind)
  {
  }

  lemma KindRoundTrip(category: byte, opcode: byte)
    requires CodeToKind(category, opcode).Ok?
    ensures
      var kind := CodeToKind(category, opcode).value;
      kind != Unassigned && KindToCode(kind) == (category, opcode)
  {
  }

  /** The header survives its two bytes. */
  lemma DecodeHeaderOfEncode(h: Header)
    requires EncodeHeader(h).Ok?
    ensures DecodeHeader(EncodeHeader(h).value) == h
  {
    FirstHeaderByte(h.major, h.category);
    SecondHeaderByte(h.opcode, h.priority, h.extensionPresent);
  }

  /** Any two bytes are the encoding of the header they decode to. */
  lemma EncodeHeaderOfDecode(data: seq<byte>)
    requires |data| >= HEADER_SIZE
    ensures EncodeHeader(DecodeHeader(data)) == Ok(data[..HEADER_SIZE])
  {
    var h, b := DecodeHeader(data), data[1];
    assert 16 * h.major + h.category == data[0];
    assert b / 2 / 4 == b / 8;
    assert 8 * h.opcode + 2 * h.priority + h.extensionPresent == b;
    assert h.opcode <= 31 && h.major <= 15;
    assert data[..HEADER_SIZE] == [data[0], data[1]];
  }

  /** The bits of an encoded object: the header's sixteen, the fields, the padding. */
  lemma BitsOfEncoded(major: byte, o: Object, extensionBit: byte)
    requires Encodable(major, o) && extensionBit <= 1
    ensures
      var bytes := EncodedBytes(major, o, extensionBit);
      BufferBits(bytes) == BufferBits(bytes[..2]) + Print(Entries(major, o)) + Zeros(PadBits(major, o))
  {
    var bytes := EncodedBytes(major, o, extensionBit);
    var payload := Print(Entries(major, o)) + Zeros(PadBits(major, o));
    assert |payload| % 8 == 0 by {
      TotalOfEntries(major, o);
    }
    BufferBitsPack(payload);
    assert bytes == bytes[..2] + Pack(payload);
    BufferBitsConcat(bytes[..2], Pack(payload));
  }

  /** Decoding what was encoded, whatever follows it. */
  lemma DecodeOfEncode(major: byte, o: Object, extensionBit: byte, tail: seq<byte>)
    requires Encodable(major, o) && extensionBit <= 1
    ensures
      DecodeBody(EncodedBytes(major, o, extensionBit) + tail)
      == Ok(DecodedBody(major, Erased(major, o), extensionBit == 1, EncodedSizeAtMajor(major, o.body.Kind())))
  {
    var bytes, kind := EncodedBytes(major, o, extensionBit), o.body.Kind();
    var data, size := bytes + tail, |bytes|;
    var h := HeaderOf(major, kind, o.priority, extensionBit);
    DecodeHeaderOfEncode(h);
    CodeRoundTrip(kind);
    assert DecodeHeader(data) == h;
    assert data[..size] == bytes;
    EncodedObjectReadsBack(major, o, extensionBit);
  }

  lemma EncodedObjectReadsBack(major: byte, o: Object, extensionBit: byte)
    requires Encodable(major, o) && extensionBit <= 1
    ensures
      var bits := BufferBits(EncodedBytes(major, o, extensionBit));
      && |bits| >= PadStart(major, o.body.Kind())
      && ObjectAt(major, o.body.Kind(), o.priority, bits) == Erased(major, o)
      && ZeroFrom(bits, PadStart(major, o.body.Kind()))
  {
    var bytes, kind, es := EncodedBytes(major, o, extensionBit), o.body.Kind(), Entries(major, o);
    var bits, head, pad := BufferBits(bytes), BufferBits(bytes[..2]), Zeros(PadBits(major, o));
    BitsOfEncoded(major, o, extensionBit);
    TotalOfEntries(major, o);
    RowsTile(major, kind);
    EntriesMatchRows(major, o);
    ReadRowsOfPrint(es, Rows(major, kind), head, pad);
    BodyFollowsRows(major, kind, o.priority, bits);
    var o' := ObjectAt(major, kind, o.priority, bits);
    EntriesDetermineObject(major, o', o);
    assert Erased(major, o') == o';
  }

  /** An accepted object is encodable, and its encoding is exactly the bytes that were accepted. */
  lemma EncodeOfDecode(data: seq<byte>)
    requires DecodeBody(data).Ok?
    ensures
      var d := DecodeBody(data).value;
      && Encodable(d.major, d.obj)
      && Erased(d.major, d.obj) == d.obj
      && d.size == EncodedSizeAtMajor(d.major, d.obj.body.Kind()) <= |data|
      && data[..d.size] == EncodedBytes(d.major, d.obj, if d.extensionPresent then 1 else 0)
  {
    var h := DecodeHeader(data);
    EncodeOfKnown(h, CodeToKind(h.category, h.opcode).value, data);
  }

  lemma EncodeOfKnown(h: Header, kind: Kind, data: seq<byte>)
    requires |data| >= HEADER_SIZE && h == DecodeHeader(data)
    requires CodeToKind(h.category, h.opcode) == Ok(kind)
    requires DecodeKnown(h, kind, data).Ok?
    ensures
      var d := DecodeKnown(h, kind, data).value;
      && Encodable(d.major, d.obj)
      && Erased(d.major, d.obj) == d.obj
      && d.size == EncodedSizeAtMajor(d.major, d.obj.body.Kind()) <= |data|
      && data[..d.size] == EncodedBytes(d.major, d.obj, if d.extensionPresent then 1 else 0)
  {
    KnownAccepts(h, kind, data);
    ReencodesTo(h, kind, data, data[..EncodedSizeAtMajor(h.major, kind)]);
  }

  lemma KnownAccepts(h: Header, kind: Kind, data: seq<byte>)
    requires |data| >= HEADER_SIZE && h == DecodeHeader(data)
    requires DecodeKnown(h, kind, data).Ok?
    ensures
      var size := EncodedSizeAtMajor(h.major, kind);
      && Allowed(h.major, kind) && size <= |data| && PadStart(h.major, kind) <= 8 * size
      && ZeroFrom(BufferBits(data[..size]), PadStart(h.major, kind))
      && h.extensionPresent == (if DecodeKnown(h, kind, data).value.extensionPresent then 1 else 0)
  {
    RowsEndInside(h.major, kind);
  }

  lemma ReencodesTo(h: Header, kind: Kind, data: seq<byte>, bytes: seq<byte>)
    requires |data| >= HEADER_SIZE && h == DecodeHeader(data)
    requires CodeToKind(h.category, h.opcode) == Ok(kind)
    requires Allowed(h.major, kind) && |bytes| == EncodedSizeAtMajor(h.major, kind) && bytes <= data
    requires PadStart(h.major, kind) <= 8 * |bytes|
    requires ZeroFrom(BufferBits(bytes), PadStart(h.major, kind))
    ensures
      var o := ObjectAt(h.major, kind, h.priority, BufferBits(bytes));
      && Encodable(h.major, o)
      && Erased(h.major, o) == o
      && bytes == EncodedBytes(h.major, o, h.extensionPresent)
  {
    hide BodyAt, BufferBits, ZeroFrom, PadStart, Payload, EncodeHeader, Encodable;
    var bits := BufferBits(bytes);
    EncodeHeaderOfDecode(data);
    KindRoundTrip(h.category, h.opcode);
    ObjectPrintsBack(h.major, kind, h.priority, bytes);
    var o := ObjectAt(h.major, kind, h.priority, bits);
    assert h == HeaderOf(h.major, kind, h.priority, h.extensionPresent);
    assert data[..2] == bytes[..2] && bytes == bytes[..2] + bytes[2..];
  }

  lemma ObjectPrintsBack(major: byte, kind: Kind, priority: byte, bytes: seq<byte>)
    requires priority <= 3 && Allowed(major, kind) && |bytes| == EncodedSizeAtMajor(major, kind)
    requires PadStart(major, kind) <= 8 * |bytes|
    requires ZeroFrom(BufferBits(bytes), PadStart(major, kind))
    ensures
      var o := ObjectAt(major, kind, priority, BufferBits(bytes));
      && Encodable(major, o)
      && Erased(major, o) == o
      && bytes[2..] == Payload(major, o)
  {
    var o := ObjectAt(major, kind, priority, BufferBits(bytes));
    FieldsPrintBack(major, kind, priority, BufferBits(bytes));
    PacksBack(bytes, PadStart(major, kind), Print(Entries(major, o)));
  }

  lemma PacksBack(bytes: seq<byte>, padStart: nat, fields: seq<bool>)
    requires |bytes| >= 2 && 16 <= padStart <= 8 * |bytes| && ZeroFrom(BufferBits(bytes), padStart)
    requires fields == BufferBits(bytes)[16..padStart]
    ensures |fields + Zeros(8 * |bytes| - padStart)| % 8 == 0
    ensures bytes[2..] == Pack(fields + Zeros(8 * |bytes| - padStart))
  {
    PadsBack(BufferBits(bytes), padStart);
    BitsAfterHeader(bytes);
    PackBufferBits(bytes[2..]);
  }

  lemma FieldsPrintBack(major: byte, kind: Kind, priority: byte, bits: seq<bool>)
    requires priority <= 3 && Allowed(major, kind) && |bits| == 8 * EncodedSizeAtMajor(major, kind)
    requires PadStart(major, kind) <= |bits|
    ensures
      var o := ObjectAt(major, kind, priority, bits);
      && Encodable(major, o)
      && Erased(major, o) == o
      && 16 <= PadStart(major, kind)
      && PadBits(major, o) == |bits| - PadStart(major, kind)
      && Print(Entries(major, o)) == bits[16..PadStart(major, kind)]
  {
    var o := ObjectAt(major, kind, priority, bits);
    BodyFollowsRows(major, kind, priority, bits);
    TotalOfEntries(major, o);
    EntriesReadBack(major, kind, bits, Entries(major, o));
  }

  lemma EntriesReadBack(major: byte, kind: Kind, bits: seq<bool>, es: seq<Entry>)
    requires Within(Rows(major, kind), |bits|) && es == ReadRows(bits, Rows(major, kind))
    requires 16 + Total(es) == PadStart(major, kind) <= |bits|
    ensures AllFit(es) && 16 <= PadStart(major, kind)
    ensures Print(es) == bits[16..PadStart(major, kind)]
  {
    RowsAreSane(major, kind);
    ReadRowsFit(bits, Rows(major, kind));
    PrintOfReadRows(bits, Rows(major, kind), 16);
    TileOffsets(es, Rows(major, kind), 16);
  }

  lemma PadsBack(bits: seq<bool>, padStart: nat)
    requires 16 <= padStart <= |bits|
    requires ZeroFrom(bits, padStart)
    ensures bits[16..] == bits[16..padStart] + Zeros(|bits| - padStart)
  {
  }

  lemma BitsAfterHeader(bytes: seq<byte>)
    requires |bytes| >= 2
    ensures BufferBits(bytes[2..]) == BufferBits(bytes)[16..]
  {
    BufferBitsConcat(bytes[..2], bytes[2..]);
    assert bytes == bytes[..2] + bytes[2..];
  }
}
