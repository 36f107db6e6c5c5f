/** The Tier-0 encoder and decoder as they run: a buffer filled bit by bit, and read bit by bit. */
module Tier0Codec {
  import opened Machine
  import opened Bits
  import opened Fields
  import opened BitIO
  import opened Tier0
  import opened Tier0Laws

  method ZeroBytes(out: array<byte>, count: nat)
    requires count <= out.Length
    modifies out
    ensures forall k | 0 <= k < out.Length :: out[k] == if k < count then 0 else old(out[k])
  {
    for i := 0 to count
      invariant forall k | 0 <= k < out.Length :: out[k] == if k < i then 0 else old(out[k])
    {
      out[i] := 0;
    }
  }

  /** Where the encoder stands after trying the first `i` fields. */
  ghost predicate Tried(s: seq<byte>, position: nat, es: seq<Entry>, i: nat, r: Outcome, t: seq<byte>, at: nat) {
    && i <= |es|
    && r == (if FirstFit(es, i) then Pass else Fail(OutOfRange))
    && t == OrFirst(s, position, es, i)
    && (r.Pass? ==> at == Advance(position, es, i))
  }

  /** Tries the next field, unless an earlier one was refused. */
  method TryU(w: BitWriter, r0: Outcome, value: uint32, width: nat,
              ghost s: seq<byte>, ghost p: nat, ghost es: seq<Entry>, ghost i: nat)
    returns (r: Outcome)
    requires Tried(s, p, es, i, r0, w.buffer[..], w.position)
    requires i < |es| && es[i] == U(value, width) && width <= 32
    requires w.capacityBits <= 8 * w.buffer.Length && (r0.Pass? ==> w.position + width <= w.capacityBits)
    modifies w`position, w.buffer
    ensures Tried(s, p, es, i + 1, r, w.buffer[..], w.position)
    ensures r.Pass? ==> w.position == old(w.position) + width
  {
    r := r0;
    if r.Pass? {
      r := w.WriteU(value, width);
    }
  }

  method TryS(w: BitWriter, r0: Outcome, value: int16, width: nat,
              ghost s: seq<byte>, ghost p: nat, ghost es: seq<Entry>, ghost i: nat)
    returns (r: Outcome)
    requires Tried(s, p, es, i, r0, w.buffer[..], w.position)
    requires i < |es| && es[i] == S(value, width)
    requires w.capacityBits <= 8 * w.buffer.Length && (r0.Pass? ==> w.position + width <= w.capacityBits)
    modifies w`position, w.buffer
    ensures Tried(s, p, es, i + 1, r, w.buffer[..], w.position)
    ensures r.Pass? ==> w.position == old(w.position) + width
  {
    r := r0;
    if r.Pass? {
      r := w.WriteS(value, width);
    }
  }

  method WriteHazard(w: BitWriter, b: Body) returns (r: Outcome)
    requires b.HazardBody?
    requires w.position + 70 <= w.capacityBits <= 8 * w.buffer.Length
    modifies w`position, w.buffer
    ensures r == if FirstFit(BodyEntries(0, b), 8) then Pass else Fail(OutOfRange)
    ensures w.buffer[..] == OrFirst(old(w.buffer[..]), old(w.position), BodyEntries(0, b), 8)
  {
    ghost var s, p, es := w.buffer[..], w.position, BodyEntries(0, b);
    r := Pass;
    r := TryU(w, r, b.hazardClass, 8, s, p, es, 0);
    r := TryU(w, r, b.severity, 3, s, p, es, 1);
    r := TryU(w, r, b.confidence, 7, s, p, es, 2);
    r := TryS(w, r, b.x, 12, s, p, es, 3);
    r := TryS(w, r, b.y, 12, s, p, es, 4);
    r := TryS(w, r, b.z, 10, s, p, es, 5);
    r := TryU(w, r, b.radius, 10, s, p, es, 6);
    r := TryU(w, r, b.ttl, 8, s, p, es, 7);
  }

  method WriteRequest(w: BitWriter, b: Body) returns (r: Outcome)
    requires b.RequestBody?
    requires w.position + 82 <= w.capacityBits <= 8 * w.buffer.Length
    modifies w`position, w.buffer
    ensures r == if FirstFit(BodyEntries(0, b), 6) then Pass else Fail(OutOfRange)
    ensures w.buffer[..] == OrFirst(old(w.buffer[..]), old(w.position), BodyEntries(0, b), 6)
  {
    ghost var s, p, es := w.buffer[..], w.position, BodyEntries(0, b);
    r := Pass;
    r := TryU(w, r, b.requestClass, 8, s, p, es, 0);
    r := TryU(w, r, b.targetRef, 32, s, p, es, 1);
    r := TryS(w, r, b.x, 12, s, p, es, 2);
    r := TryS(w, r, b.y, 12, s, p, es, 3);
    r := TryU(w, r, b.radius, 10, s, p, es, 4);
    r := TryU(w, r, b.ttl, 8, s, p, es, 5);
  }

  method WriteAuthorityClaim(w: BitWriter, b: Body) returns (r: Outcome)
    requires b.AuthorityClaimBody?
    requires w.position + 58 <= w.capacityBits <= 8 * w.buffer.Length
    modifies w`position, w.buffer
    ensures r == if FirstFit(BodyEntries(0, b), 4) then Pass else Fail(OutOfRange)
    ensures w.buffer[..] == OrFirst(old(w.buffer[..]), old(w.position), BodyEntries(0, b), 4)
  {
    ghost var s, p, es := w.buffer[..], w.position, BodyEntries(0, b);
    r := Pass;
    r := TryU(w, r, b.authorityClass, 6, s, p, es, 0);
    r := TryU(w, r, b.jurisdiction, 12, s, p, es, 1);
    r := TryU(w, r, b.credentialRef, 32, s, p, es, 2);
    r := TryU(w, r, b.validity, 8, s, p, es, 3);
  }

  method WriteDegradedState(w: BitWriter, b: Body) returns (r: Outcome)
    requires b.DegradedStateBody?
    requires w.position + 26 <= w.capacityBits <= 8 * w.buffer.Length
    modifies w`position, w.buffer
    ensures r == if FirstFit(BodyEntries(0, b), 4) then Pass else Fail(OutOfRange)
    ensures w.buffer[..] == OrFirst(old(w.buffer[..]), old(w.position), BodyEntries(0, b), 4)
  {
    ghost var s, p, es := w.buffer[..], w.position, BodyEntries(0, b);
    r := Pass;
    r := TryU(w, r, b.affectedCapability, 8, s, p, es, 0);
    r := TryU(w, r, b.health, 7, s, p, es, 1);
    r := TryU(w, r, b.severity, 3, s, p, es, 2);
    r := TryU(w, r, b.ttl, 8, s, p, es, 3);
  }

  method WriteTransportOffer(w: BitWriter, b: Body) returns (r: Outcome)
    requires b.TransportOfferBody?
    requires w.position + 88 <= w.capacityBits <= 8 * w.buffer.Length
    modifies w`position, w.buffer
    ensures r == if FirstFit(BodyEntries(0, b), 5) then Pass else Fail(OutOfRange)
    ensures w.buffer[..] == OrFirst(old(w.buffer[..]), old(w.position), BodyEntries(0, b), 5)
  {
    ghost var s, p, es := w.buffer[..], w.position, BodyEntries(0, b);
    r := Pass;
    r := TryU(w, r, b.migrationRef, 32, s, p, es, 0);
    r := TryU(w, r, b.transportId, 8, s, p, es, 1);
    r := TryU(w, r, b.profileId, 8, s, p, es, 2);
    r := TryU(w, r, b.endpointToken, 32, s, p, es, 3);
    r := TryU(w, r, b.validity, 8, s, p, es, 4);
  }

  method WriteTransportAccept(w: BitWriter, b: Body) returns (r: Outcome)
    requires b.TransportAcceptBody?
    requires w.position + 80 <= w.capacityBits <= 8 * w.buffer.Length
    modifies w`position, w.buffer
    ensures r == if FirstFit(BodyEntries(0, b), 4) then Pass else Fail(OutOfRange)
    ensures w.buffer[..] == OrFirst(old(w.buffer[..]), old(w.position), BodyEntries(0, b), 4)
  {
    ghost var s, p, es := w.buffer[..], w.position, BodyEntries(0, b);
    r := Pass;
    r := TryU(w, r, b.migrationRef, 32, s, p, es, 0);
    r := TryU(w, r, b.transportId, 8, s, p, es, 1);
    r := TryU(w, r, b.profileId, 8, s, p, es, 2);
    r := TryU(w, r, b.sessionRef, 32, s, p, es, 3);
  }

  method WritePresence(w: BitWriter, major: byte, b: Body) returns (r: Outcome)
    requires b.PresenceBody?
    requires w.position + (if major != STABLE_MAJOR then 40 else 32) <= w.capacityBits <= 8 * w.buffer.Length
    modifies w`position, w.buffer
    ensures r == if FirstFit(BodyEntries(major, b), |BodyEntries(major, b)|) then Pass else Fail(OutOfRange)
    ensures w.buffer[..] == OrFirst(old(w.buffer[..]), old(w.position), BodyEntries(major, b), |BodyEntries(major, b)|)
  {
    ghost var s, p, es := w.buffer[..], w.position, BodyEntries(major, b);
    r := Pass;
    if major != STABLE_MAJOR {
      r := TryU(w, r, b.machineClass, 8, s, p, es, 0);
    }
    r := TryU(w, r, b.capabilityTag, 24, s, p, es, |es| - 2);
    r := TryU(w, r, b.ttl, 8, s, p, es, |es| - 1);
  }

  /** The switch over the kind: writes the body, up to the first field refused. */
  method WriteBody(w: BitWriter, major: byte, b: Body) returns (r: Outcome)
    requires Allowed(major, b.Kind())
    requires 48 == w.position && PadStart(major, b.Kind()) <= w.capacityBits <= 8 * w.buffer.Length
    modifies w`position, w.buffer
    ensures r == if FirstFit(BodyEntries(major, b), |BodyEntries(major, b)|) then Pass else Fail(OutOfRange)
    ensures w.buffer[..] == OrFirst(old(w.buffer[..]), 48, BodyEntries(major, b), |BodyEntries(major, b)|)
  {
    match b {
      case PresenceBody(_, _, _) => r := WritePresence(w, major, b);
      case HazardBody(_, _, _, _, _, _, _, _) => r := WriteHazard(w, b);
      case RequestBody(_, _, _, _, _, _) => r := WriteRequest(w, b);
      case AuthorityClaimBody(_, _, _, _) => r := WriteAuthorityClaim(w, b);
      case DegradedStateBody(_, _, _, _) => r := WriteDegradedState(w, b);
      case TransportOfferBody(_, _, _, _, _) => r := WriteTransportOffer(w, b);
      case TransportAcceptBody(_, _, _, _) => r := WriteTransportAccept(w, b);
    }
  }

  /** Writing a field and then a list is writing the list that starts with the field. */
  lemma {:induction false} OrFirstPrepend(s: seq<byte>, position: nat, e: Entry, es: seq<Entry>, i: nat)
    requires Fits(e) && i <= |es|
    ensures FirstFit([e] + es, i + 1) == FirstFit(es, i)
    ensures Advance(position, [e] + es, i + 1) == Advance(position + e.width, es, i)
    ensures OrFirst(s, position, [e] + es, i + 1) == OrFirst(OrField(s, position, Code(e), e.width), position + e.width, es, i)
    decreases i
  {
    if i > 0 {
      OrFirstPrepend(s, position, e, es, i - 1);
      assert ([e] + es)[i] == es[i - 1];
    } else {
      assert FirstFit([e] + es, 0) && ([e] + es)[0] == e;
    }
  }

  /** The buffer the encoder leaves: header, fields and zero padding, packed. */
  lemma WrittenIsEncoded(major: byte, o: Object, s: seq<byte>, t: seq<byte>)
    requires Encodable(major, o)
    requires
      var size := EncodedSizeAtMajor(major, o.body.Kind());
      && size <= |s|
      && EncodeHeader(HeaderOf(major, o.body.Kind(), o.priority, 0)) == Ok(s[..2])
      && ZeroAhead(s, 16, 8 * size)
    requires t == OrFirst(s, 16, Entries(major, o), |Entries(major, o)|)
    ensures t == Put(s, 0, EncodedBytes(major, o, 0))
  {
    TotalOfEntries(major, o);
    RowsTile(major, o.body.Kind());
    WrittenSplits(s, t, EncodedSizeAtMajor(major, o.body.Kind()), Entries(major, o), PadBits(major, o));
  }

  lemma WrittenSplits(s: seq<byte>, t: seq<byte>, size: nat, es: seq<Entry>, pad: nat)
    requires 2 <= size <= |s| && AllFit(es) && 16 + Total(es) + pad == 8 * size
    requires ZeroAhead(s, 16, 8 * size)
    requires t == OrFirst(s, 16, es, |es|)
    ensures |Print(es) + Zeros(pad)| % 8 == 0
    ensures t == Put(s, 0, s[..2] + Pack(Print(es) + Zeros(pad)))
  {
    OrFirstWrites(s, 16, 8 * size, es, |es|);
    assert es[..|es|] == es;
    PayloadPacks(t, size, 16 + Total(es), Print(es), pad);
    HeadAndTailStay(s, t, 16 + Total(es), size);
    Assemble(s, t, size, Pack(Print(es) + Zeros(pad)));
  }

  lemma HeadAndTailStay(s: seq<byte>, t: seq<byte>, end: nat, size: nat)
    requires 2 <= size <= |s| && end <= 8 * size && SameOutside(s, t, 16, end)
    ensures t[..2] == s[..2] && t[size..] == s[size..]
  {
  }

  lemma Assemble(s: seq<byte>, t: seq<byte>, size: nat, payload: seq<byte>)
    requires 2 <= size <= |s| == |t|
    requires t[..2] == s[..2] && t[2..size] == payload && t[size..] == s[size..]
    ensures t == Put(s, 0, s[..2] + payload)
  {
    assert t == t[..2] + t[2..size] + t[size..];
  }

  lemma PayloadPacks(t: seq<byte>, size: nat, end: nat, fields: seq<bool>, pad: nat)
    requires 2 <= size <= |t| && 16 + |fields| == end && end + pad == 8 * size
    requires BufferBits(t)[16..end] == fields && ZeroAhead(t, end, 8 * size)
    ensures |fields + Zeros(pad)| % 8 == 0
    ensures t[2..size] == Pack(fields + Zeros(pad))
  {
    var payload := fields + Zeros(pad);
    var bits := BufferBits(t[2..size]);
    forall p | 0 <= p < |payload|
      ensures bits[p] == payload[p]
    {
      assert bits[p] == BitAt(t, 16 + p) == BufferBits(t)[16 + p];
      if p < |fields| {
        assert BufferBits(t)[16..end][p] == fields[p];
      }
    }
    assert bits == payload;
    PackBufferBits(t[2..size]);
  }

  /** Encodes an object at a major. What follows the object in the buffer is left alone. */
  method EncodeAtMajor(major: byte, o: Object, out: array<byte>, outCapacity: nat) returns (r: Result<nat>)
    requires outCapacity <= out.Length
    modifies out
    ensures r.Ok? <==> EncodeVerdict(major, o, outCapacity).Pass?
    ensures r.Err? ==> EncodeVerdict(major, o, outCapacity) == Fail(r.error)
    ensures r.Ok? ==> r.value == EncodedSizeAtMajor(major, o.body.Kind())
    ensures r.Ok? ==> Encodable(major, o) && out[..] == Put(old(out[..]), 0, EncodedBytes(major, o, 0))
    ensures Kept(old(out[..]), out[..], 0, EncodedSizeAtMajor(major, o.body.Kind()))
    ensures Kept(old(out[..]), out[..], 0, outCapacity)
    ensures r == Err(UnsupportedSemantic) || r == Err(BufferTooSmall) ==> out[..] == old(out[..])
  {
    var required := EncodedSizeAtMajor(major, o.body.Kind());
    if required == 0 {
      return Err(UnsupportedSemantic);
    }
    if outCapacity < required {
      return Err(BufferTooSmall);
    }
    var begun := Begin(out, required, HeaderOf(major, o.body.Kind(), o.priority, 0));
    if begun.Fail? {
      return Err(begun.error);
    }
    ghost var s, es := out[..], Entries(major, o);
    var wrote := WriteFields(out, required, major, o);
    FirstFitIsAllFit(es, |es|);
    assert es[..|es|] == es;
    if wrote.Fail? {
      return Err(wrote.error);
    }
    WrittenIsEncoded(major, o, s, out[..]);
    assert s[required..] == old(out[..])[required..];
    PutSame(s, old(out[..]), 0, EncodedBytes(major, o, 0));
    return Ok(required);
  }

  /** Zeroes the object's bytes and puts the header in front. */
  method Begin(out: array<byte>, required: nat, header: Header) returns (r: Outcome)
    requires 2 <= required <= out.Length
    modifies out
    ensures r == if EncodeHeader(header).Err? then Fail(EncodeHeader(header).error) else Pass
    ensures r.Pass? ==> EncodeHeader(header) == Ok(out[..2]) && ZeroAhead(out[..], 16, 8 * required)
    ensures Kept(old(out[..]), out[..], 0, required)
  {
    ZeroBytes(out, required);
    var bytes := EncodeHeader(header);
    if bytes.Err? {
      return Fail(bytes.error);
    }
    out[0], out[1] := bytes.value[0], bytes.value[1];
    assert bytes.value == out[..2];
    ZeroBytesAreZeroBits(out[..], required);
    return Pass;
  }

  /** Writes the source reference and the body behind the header. */
  method WriteFields(out: array<byte>, required: nat, major: byte, o: Object) returns (r: Outcome)
    requires Allowed(major, o.body.Kind()) && required == EncodedSizeAtMajor(major, o.body.Kind()) <= out.Length
    modifies out
    ensures r == if FirstFit(Entries(major, o), |Entries(major, o)|) then Pass else Fail(OutOfRange)
    ensures out[..] == OrFirst(old(out[..]), 16, Entries(major, o), |Entries(major, o)|)
    ensures Kept(old(out[..]), out[..], 2, required)
  {
    hide OrFirst, FirstFit, Kept;
    ghost var s, body := out[..], BodyEntries(major, o.body);
    RowsTile(major, o.body.Kind());
    Pow2Values();
    OrFirstPrepend(s, 16, U(o.sourceRef, 32), body, |body|);
    var writer := new BitWriter(out, 8 * required, 16);
    r := writer.WriteU(o.sourceRef, 32);
    r := WriteBody(writer, major, o.body);
    FieldsStayInside(s, required, major, o);
  }

  /** The fields end inside the object, so no byte in front of them or behind the object is touched. */
  lemma FieldsStayInside(s: seq<byte>, required: nat, major: byte, o: Object)
    requires Allowed(major, o.body.Kind()) && required == EncodedSizeAtMajor(major, o.body.Kind()) <= |s|
    ensures Kept(s, OrFirst(s, 16, Entries(major, o), |Entries(major, o)|), 2, required)
  {
    var es := Entries(major, o);
    TotalOfEntries(major, o);
    RowsEndInside(major, o.body.Kind());
    AdvanceIsTotal(16, es, |es|);
    assert es[..|es|] == es;
    OrFirstStaysInside(s, 16, es, |es|);
  }

  lemma ZeroBytesAreZeroBits(s: seq<byte>, size: nat)
    requires 2 <= size <= |s| && forall k | 2 <= k < size :: s[k] == 0
    ensures ZeroAhead(s, 16, 8 * size)
  {
    forall p | 16 <= p < 8 * size
      ensures !BitAt(s, p)
    {
      ShrOfZero(7 - p % 8);
    }
  }

  lemma ShrOfZero(k: nat)
    ensures Shr(0, k) == 0
  {
  }

  /** The experimental-major encoder. */
  method Encode(o: Object, out: array<byte>, outCapacity: nat) returns (r: Result<nat>)
    requires outCapacity <= out.Length
    modifies out
    ensures r.Ok? <==> EncodeVerdict(EXPERIMENTAL_MAJOR, o, outCapacity).Pass?
    ensures r.Err? ==> EncodeVerdict(EXPERIMENTAL_MAJOR, o, outCapacity) == Fail(r.error)
    ensures r.Ok? ==> r.value == EncodedSize(o.body.Kind())
    ensures r.Ok? ==> Encodable(EXPERIMENTAL_MAJOR, o) &&
                      out[..] == Put(old(out[..]), 0, EncodedBytes(EXPERIMENTAL_MAJOR, o, 0))
    ensures Kept(old(out[..]), out[..], 0, EncodedSize(o.body.Kind()))
    ensures Kept(old(out[..]), out[..], 0, outCapacity)
    ensures out[outCapacity..] == old(out[outCapacity..])
    ensures r.Ok? ==>
              r.value <= out.Length && out[..r.value] == EncodedBytes(EXPERIMENTAL_MAJOR, o, 0)
              && out[r.value..] == old(out[r.value..])
    ensures r == Err(UnsupportedSemantic) || r == Err(BufferTooSmall) ==> out[..] == old(out[..])
  {
    hide Put, Kept, EncodedBytes, Entries, AllFit;
    ghost var s := out[..];
    r := EncodeAtMajor(EXPERIMENTAL_MAJOR, o, out, outCapacity);
    KeptOutside(s, out[..], 0, outCapacity);
    if r.Ok? {
      PutInFront(s, EncodedBytes(EXPERIMENTAL_MAJOR, o, 0));
    }
  }

  /** Reads an unsigned field there is room for. The reader's own refusal cannot happen. */
  method TakeU(reader: BitReader, width: nat) returns (v: uint32)
    requires width <= 32 && reader.position + width <= reader.sizeBits <= 8 * |reader.buffer|
    modifies reader`position
    ensures reader.position == old(reader.position) + width
    ensures v == UAt(BufferBits(reader.buffer), old(reader.position), width)
  {
    var r := reader.ReadU(width);
    return r.value;
  }

  /** A field of at most eight bits, narrowed to a byte: the narrowing loses nothing. */
  method TakeByte(reader: BitReader, width: nat) returns (v: byte)
    requires width <= 8 && reader.position + width <= reader.sizeBits <= 8 * |reader.buffer|
    modifies reader`position
    ensures reader.position == old(reader.position) + width
    ensures v == UAt(BufferBits(reader.buffer), old(reader.position), width)
  {
    var wide := TakeU(reader, width);
    return wide % 0x100;
  }

  method TakeUint16(reader: BitReader, width: nat) returns (v: uint16)
    requires width <= 16 && reader.position + width <= reader.sizeBits <= 8 * |reader.buffer|
    modifies reader`position
    ensures reader.position == old(reader.position) + width
    ensures v == UAt(BufferBits(reader.buffer), old(reader.position), width)
  {
    var wide := TakeU(reader, width);
    return wide % 0x1_0000;
  }

  /** Reads a signed field there is room for. */
  method TakeS(reader: BitReader, width: nat) returns (v: int16)
    requires 1 <= width <= 16 && reader.position + width <= reader.sizeBits <= 8 * |reader.buffer|
    modifies reader`position
    ensures reader.position == old(reader.position) + width
    ensures v == SAt(BufferBits(reader.buffer), old(reader.position), width)
  {
    ghost var at := reader.position;
    var r := reader.ReadS(width);
    assert r.value == SAt(BufferBits(reader.buffer), at, width);
    return r.value;
  }

  method ReadPresence(reader: BitReader, major: byte) returns (b: Body)
    requires reader.position == 48 && PadStart(major, Presence) <= reader.sizeBits <= 8 * |reader.buffer|
    modifies reader`position
    ensures b == PresenceAt(major, BufferBits(reader.buffer)) && reader.position == PadStart(major, Presence)
  {
    var machineClass: byte := 0;
    if major != STABLE_MAJOR {
      machineClass := TakeByte(reader, 8);
    }
    var capabilityTag := TakeU(reader, 24);
    var ttl := TakeByte(reader, 8);
    return PresenceBody(machineClass, capabilityTag, ttl);
  }

  method ReadHazard(reader: BitReader) returns (b: Body)
    requires reader.position == 48 && 118 <= reader.sizeBits <= 8 * |reader.buffer|
    modifies reader`position
    ensures b == HazardAt(BufferBits(reader.buffer)) && reader.position == 118
  {
    var hazardClass := TakeByte(reader, 8);
    var severity := TakeByte(reader, 3);
    var confidence := TakeByte(reader, 7);
    var x := TakeS(reader, 12);
    var y := TakeS(reader, 12);
    var z := TakeS(reader, 10);
    var radius := TakeUint16(reader, 10);
    var ttl := TakeByte(reader, 8);
    return HazardBody(hazardClass, severity, confidence, x, y, z, radius, ttl);
  }

  method ReadRequest(reader: BitReader) returns (b: Body)
    requires reader.position == 48 && 130 <= reader.sizeBits <= 8 * |reader.buffer|
    modifies reader`position
    ensures b == RequestAt(BufferBits(reader.buffer)) && reader.position == 130
  {
    var requestClass := TakeByte(reader, 8);
    var targetRef := TakeU(reader, 32);
    var x := TakeS(reader, 12);
    var y := TakeS(reader, 12);
    var radius := TakeUint16(reader, 10);
    var ttl := TakeByte(reader, 8);
    return RequestBody(requestClass, targetRef, x, y, radius, ttl);
  }

  method ReadAuthorityClaim(reader: BitReader) returns (b: Body)
    requires reader.position == 48 && 106 <= reader.sizeBits <= 8 * |reader.buffer|
    modifies reader`position
    ensures b == AuthorityClaimAt(BufferBits(reader.buffer)) && reader.position == 106
  {
    var authorityClass := TakeByte(reader, 6);
    var jurisdiction := TakeUint16(reader, 12);
    var credentialRef := TakeU(reader, 32);
    var validity := TakeByte(reader, 8);
    return AuthorityClaimBody(authorityClass, jurisdiction, credentialRef, validity);
  }

  method ReadDegradedState(reader: BitReader) returns (b: Body)
    requires reader.position == 48 && 74 <= reader.sizeBits <= 8 * |reader.buffer|
    modifies reader`position
    ensures b == DegradedStateAt(BufferBits(reader.buffer)) && reader.position == 74
  {
    var affectedCapability := TakeByte(reader, 8);
    var health := TakeByte(reader, 7);
    var severity := TakeByte(reader, 3);
    var ttl := TakeByte(reader, 8);
    return DegradedStateBody(affectedCapability, health, severity, ttl);
  }

  method ReadTransportOffer(reader: BitReader) returns (b: Body)
    requires reader.position == 48 && 136 <= reader.sizeBits <= 8 * |reader.buffer|
    modifies reader`position
    ensures b == TransportOfferAt(BufferBits(reader.buffer)) && reader.position == 136
  {
    var migrationRef := TakeU(reader, 32);
    var transportId := TakeByte(reader, 8);
    var profileId := TakeByte(reader, 8);
    var endpointToken := TakeU(reader, 32);
    var validity := TakeByte(reader, 8);
    return TransportOfferBody(migrationRef, transportId, profileId, endpointToken, validity);
  }

  method ReadTransportAccept(reader: BitReader) returns (b: Body)
    requires reader.position == 48 && 128 <= reader.sizeBits <= 8 * |reader.buffer|
    modifies reader`position
    ensures b == TransportAcceptAt(BufferBits(reader.buffer)) && reader.position == 128
  {
    var migrationRef := TakeU(reader, 32);
    var transportId := TakeByte(reader, 8);
    var profileId := TakeByte(reader, 8);
    var sessionRef := TakeU(reader, 32);
    return TransportAcceptBody(migrationRef, transportId, profileId, sessionRef);
  }

  /** The switch over the kind: reads the body. */
  method ReadBody(reader: BitReader, major: byte, kind: Kind) returns (b: Body)
    requires kind != Unassigned
    requires reader.position == 48 && PadStart(major, kind) <= reader.sizeBits <= 8 * |reader.buffer|
    modifies reader`position
    ensures b == BodyAt(major, kind, BufferBits(reader.buffer)) && reader.position == PadStart(major, kind)
  {
    match kind {
      case Presence => b := ReadPresence(reader, major);
      case Hazard => b := ReadHazard(reader);
      case Request => b := ReadRequest(reader);
      case AuthorityClaim => b := ReadAuthorityClaim(reader);
      case DegradedState => b := ReadDegradedState(reader);
      case TransportOffer => b := ReadTransportOffer(reader);
      case TransportAccept => b := ReadTransportAccept(reader);
    }
  }

  /** The source reference, then the body. */
  method ReadObject(reader: BitReader, major: byte, kind: Kind, priority: byte) returns (o: Object)
    requires kind != Unassigned
    requires reader.position == 16 && 48 <= PadStart(major, kind) <= reader.sizeBits <= 8 * |reader.buffer|
    modifies reader`position
    ensures o == ObjectAt(major, kind, priority, BufferBits(reader.buffer)) && reader.position == PadStart(major, kind)
  {
    var sourceRef := TakeU(reader, 32);
    var body := ReadBody(reader, major, kind);
    o := Object(priority, sourceRef, body);
  }

  /** Decodes a body whose header has named a kind. */
  method DecodeKnownOf(header: Header, kind: Kind, data: seq<byte>) returns (r: Result<DecodedBody>)
    requires kind != Unassigned
    ensures r == DecodeKnown(header, kind, data)
  {
    var required := EncodedSizeAtMajor(header.major, kind);
    if required == 0 {
      return Err(UnsupportedSemantic);
    }
    if |data| < required {
      return Err(Truncated);
    }
    RowsEndInside(header.major, kind);
    var reader := new BitReader(data[..required], 8 * required, 16);
    var o := ReadObject(reader, header.major, kind, header.priority);
    var padding := reader.RequireZeroPadding();
    if padding.Fail? {
      return Err(padding.error);
    }
    return Ok(DecodedBody(header.major, o, header.extensionPresent == 1, required));
  }

  /** Decodes the header and the fixed body, whatever the extension bit says. */
  method DecodeBodyOf(data: seq<byte>) returns (r: Result<DecodedBody>)
    ensures r == DecodeBody(data)
  {
    if |data| < HEADER_SIZE {
      return Err(Truncated);
    }
    var header := DecodeHeader(data);
    if header.major != EXPERIMENTAL_MAJOR && header.major != STABLE_MAJOR {
      return Err(UnsupportedSemantic);
    }
    var kind := CodeToKind(header.category, header.opcode);
    if kind.Err? {
      return Err(kind.error);
    }
    KindRoundTrip(header.category, header.opcode);
    r := DecodeKnownOf(header, kind.value, data);
  }

  /** The decoder that cannot read extensions refuses every object that announces them. */
  method Decode(data: seq<byte>) returns (r: Result<DecodedBody>)
    ensures r == if |data| >= HEADER_SIZE && DecodeHeader(data).extensionPresent != 0 then Err(UnsupportedSemantic)
                 else DecodeBody(data)
    ensures |data| >= 2 && data[1] % 2 == 1 ==> r == Err(UnsupportedSemantic)
    ensures |data| < 2 || data[1] % 2 == 0 ==> r == DecodeBody(data)
  {
    if |data| < HEADER_SIZE {
      return Err(Truncated);
    }
    var header := DecodeHeader(data);
    if header.extensionPresent != 0 {
      return Err(UnsupportedSemantic);
    }
    r := DecodeBodyOf(data);
  }
}
