/** The extension-aware encoder and decoder as they run. */
module ExtensionCodec {
  import opened Machine
  import opened Bits
  import opened Tier0
  import Tier0Codec
  import Uvarint
  import opened Tlv
  import opened ExtensionBlock
  import opened Frame
  import opened Message

  const EXT_MAX_SIZE := TIER0_MAX_SIZE + 2 + BLOCK_MAX

  /** Why an object cannot be encoded with these extensions, or `Pass`. The encoder emits major 0 only. */
  function EncodeExtVerdict(o: Object, items: seq<Extension>, capacity: nat): Outcome {
    if items == [] then EncodeVerdict(EXPERIMENTAL_MAJOR, o, capacity)
    else
      var block := BlockVerdict(items, |items|, BLOCK_MAX, OutOfRange);
      if block.Fail? then block
      else
        var body := EncodeVerdict(EXPERIMENTAL_MAJOR, o, capacity);
        if body.Fail? then body
        else
          PrintableParts(o, items);
          if |Bytes(Message(EXPERIMENTAL_MAJOR, o, items))| > capacity then Fail(BufferTooSmall) else Pass
  }

  lemma PrintableParts(o: Object, items: seq<Extension>)
    ensures
      Printable(Message(EXPERIMENTAL_MAJOR, o, items)) <==>
      Encodable(EXPERIMENTAL_MAJOR, o) && BlockVerdict(items, |items|, BLOCK_MAX, OutOfRange).Pass?
    ensures BlockVerdict(items, |items|, BLOCK_MAX, OutOfRange).Pass? <==> WellFormed(items) && |Block(items)| <= BLOCK_MAX
  {
    VerdictMeans(items, BLOCK_MAX, OutOfRange);
  }

  lemma EncodableIsCapacityFree(o: Object, capacity: nat)
    ensures
      EncodeVerdict(EXPERIMENTAL_MAJOR, o, capacity).Pass? <==>
      Encodable(EXPERIMENTAL_MAJOR, o) && EncodedSize(o.body.Kind()) <= capacity
  {
  }

  /**
   * The encoder succeeds just when the message has bytes at all and they fit, and those are never
   * more than the size the header file promises.
   */
  lemma EncodeExtSucceeds(o: Object, items: seq<Extension>, capacity: nat)
    ensures
      var m := Message(EXPERIMENTAL_MAJOR, o, items);
      && (EncodeExtVerdict(o, items, capacity).Pass? <==> Printable(m) && |Bytes(m)| <= capacity)
      && (Printable(m) ==> |Bytes(m)| <= EXT_MAX_SIZE == 275)
  {
    PrintableParts(o, items);
    EncodableIsCapacityFree(o, capacity);
    if Printable(Message(EXPERIMENTAL_MAJOR, o, items)) {
      BytesLength(o, items);
    }
  }

  lemma BytesLength(o: Object, items: seq<Extension>)
    requires Printable(Message(EXPERIMENTAL_MAJOR, o, items))
    ensures
      var bytes := Bytes(Message(EXPERIMENTAL_MAJOR, o, items));
      && EncodedSize(o.body.Kind()) <= |bytes| <= EXT_MAX_SIZE
      && (items == [] ==> |bytes| == EncodedSize(o.body.Kind()))
      && (items != [] ==>
            |bytes| == EncodedSize(o.body.Kind()) + Uvarint.Size(|Block(items)|) + |Block(items)| && Block(items) != [])
  {
    Uvarint.EncodingSize(|Block(items)|);
    Uvarint.SizeBounds(|Block(items)|);
    ItemsNeedRoom(items);
  }

  /** With nothing else wrong, the block encoder can only run out of room. */
  lemma {:induction false} OnlyRoomIsMissing(items: seq<Extension>, n: nat, capacity: nat)
    requires WellFormed(items) && n <= |items|
    ensures BlockVerdict(items, n, capacity, BufferTooSmall) in {Pass, Fail(BufferTooSmall)}
    decreases n
  {
    if n > 0 {
      OnlyRoomIsMissing(items, n - 1, capacity);
    }
  }

  /** Setting the lowest bit of the second header byte announces the block. */
  lemma AnnouncedHeader(kind: Kind, priority: byte)
    requires kind != Unassigned && priority <= 3
    ensures
      var plain := EncodeHeader(HeaderOf(EXPERIMENTAL_MAJOR, kind, priority, 0));
      && plain.Ok?
      && EncodeHeader(HeaderOf(EXPERIMENTAL_MAJOR, kind, priority, 1)) == Ok(plain.value[1 := SetByteBit(plain.value[1], 0, true)])
  {
    AnnouncedHeaderBytes(HeaderOf(EXPERIMENTAL_MAJOR, kind, priority, 0));
  }

  lemma EvenByte(opcode: byte, priority: byte)
    requires opcode <= 31 && priority <= 3
    ensures SetByteBit(8 * opcode + 2 * priority, 0, true) == 8 * opcode + 2 * priority + 1
  {
    var b := 8 * opcode + 2 * priority;
    assert b == 2 * (4 * opcode + priority);
    assert SetBit(b, 0, true) == b - b % 2 + 1;
  }

  lemma AnnouncedHeaderBytes(h: Header)
    requires EncodeHeader(h).Ok? && h.extensionPresent == 0
    ensures
      var p := EncodeHeader(h).value;
      EncodeHeader(h.(extensionPresent := 1)) == Ok(p[1 := SetByteBit(p[1], 0, true)])
  {
    EvenByte(h.opcode, h.priority);
    var p := EncodeHeader(h).value;
    assert p[1 := p[1] + 1] == [p[0], p[1] + 1];
  }

  lemma AnnouncedBytes(o: Object)
    requires Encodable(EXPERIMENTAL_MAJOR, o)
    ensures
      var plain := EncodedBytes(EXPERIMENTAL_MAJOR, o, 0);
      |plain| >= 2 && plain[1 := SetByteBit(plain[1], 0, true)] == EncodedBytes(EXPERIMENTAL_MAJOR, o, 1)
  {
    AnnouncedHeader(o.body.Kind(), o.priority);
    var header := EncodeHeader(HeaderOf(EXPERIMENTAL_MAJOR, o.body.Kind(), o.priority, 0)).value;
    SetInHead(header, Payload(EXPERIMENTAL_MAJOR, o), SetByteBit(header[1], 0, true));
  }

  lemma SetInHead(head: seq<byte>, rest: seq<byte>, b: byte)
    requires |head| == 2
    ensures (head + rest)[1] == head[1] && (head + rest)[1 := b] == head[1 := b] + rest
  {
  }

  /** An object, a length and a block put one behind the other, and the object then announced. */
  lemma PutParts(s: seq<byte>, plain: seq<byte>, prefix: seq<byte>, block: seq<byte>, b: byte)
    requires 2 <= |plain| && |plain| + |prefix| + |block| <= |s|
    ensures
      var t := Put(Put(Put(s, 0, plain), |plain|, prefix), |plain| + |prefix|, block);
      t[1] == plain[1] && t[1 := b] == Put(s, 0, plain[1 := b] + (prefix + block))
  {
    PutTwice(s, 0, plain, prefix);
    PutTwice(s, 0, plain + prefix, block);
    assert plain + prefix + block == plain + (prefix + block);
    Announce(s, plain, prefix + block, b);
  }

  lemma Announce(s: seq<byte>, plain: seq<byte>, rest: seq<byte>, b: byte)
    requires 2 <= |plain| && |plain| + |rest| <= |s|
    ensures Put(s, 0, plain + rest)[1] == plain[1]
    ensures Put(s, 0, plain + rest)[1 := b] == Put(s, 0, plain[1 := b] + rest)
  {
  }

  /** Encodes an object and its extensions. What follows the message in the buffer is left alone. */
  method EncodeExt(o: Object, items: seq<Extension>, out: array<byte>, outCapacity: nat) returns (r: Result<nat>)
    requires outCapacity <= out.Length
    modifies out
    ensures r.Ok? <==> EncodeExtVerdict(o, items, outCapacity).Pass?
    ensures r.Err? ==> EncodeExtVerdict(o, items, outCapacity) == Fail(r.error)
    ensures r.Ok? ==>
              var m := Message(EXPERIMENTAL_MAJOR, o, items);
              Printable(m) && r.value == |Bytes(m)| && out[..] == Put(old(out[..]), 0, Bytes(m))
    ensures Kept(old(out[..]), out[..], 0, outCapacity)
    ensures out[outCapacity..] == old(out[outCapacity..])
    ensures r.Ok? ==>
              r.value <= out.Length && out[..r.value] == Bytes(Message(EXPERIMENTAL_MAJOR, o, items))
              && out[r.value..] == old(out[r.value..])
    ensures items != [] && BlockVerdict(items, |items|, BLOCK_MAX, OutOfRange).Fail? ==> out[..] == old(out[..])
  {
    hide Put, Kept, EncodedBytes, EncodeVerdict, Bytes, BlockVerdict, Printable;
    ghost var s := out[..];
    EncodeExtSucceeds(o, items, outCapacity);
    if |items| == 0 {
      PlainMessageBytes(o);
      r := Tier0Codec.Encode(o, out, outCapacity);
    } else {
      r := EncodeWithBlock(o, items, out, outCapacity);
    }
    KeptOutside(s, out[..], 0, outCapacity);
    if r.Ok? {
      PutInFront(s, Bytes(Message(EXPERIMENTAL_MAJOR, o, items)));
    }
  }

  lemma PlainMessageBytes(o: Object)
    ensures Encodable(EXPERIMENTAL_MAJOR, o) <==> Printable(Message(EXPERIMENTAL_MAJOR, o, []))
    ensures Encodable(EXPERIMENTAL_MAJOR, o) ==>
              Bytes(Message(EXPERIMENTAL_MAJOR, o, [])) == EncodedBytes(EXPERIMENTAL_MAJOR, o, 0)
  {
    hide EncodedBytes, Encodable;
    if Encodable(EXPERIMENTAL_MAJOR, o) {
      assert EncodedBytes(EXPERIMENTAL_MAJOR, o, 0) + [] == EncodedBytes(EXPERIMENTAL_MAJOR, o, 0);
    }
  }

  /** An announced message is its object, the length of its block and the block. */
  lemma PartsOf(o: Object, items: seq<Extension>)
    requires Printable(Message(EXPERIMENTAL_MAJOR, o, items)) && Block(items) != []
    ensures
      Bytes(Message(EXPERIMENTAL_MAJOR, o, items)) ==
      EncodedBytes(EXPERIMENTAL_MAJOR, o, 1) + (Uvarint.Encoding(|Block(items)|) + Block(items))
  {
    hide EncodedBytes, Encodable;
  }

  method EncodeWithBlock(o: Object, items: seq<Extension>, out: array<byte>, outCapacity: nat) returns (r: Result<nat>)
    requires outCapacity <= out.Length && items != []
    modifies out
    ensures r.Ok? <==> EncodeExtVerdict(o, items, outCapacity).Pass?
    ensures r.Err? ==> EncodeExtVerdict(o, items, outCapacity) == Fail(r.error)
    ensures r.Ok? ==>
              var m := Message(EXPERIMENTAL_MAJOR, o, items);
              Printable(m) && r.value == |Bytes(m)| && out[..] == Put(old(out[..]), 0, Bytes(m))
    ensures Kept(old(out[..]), out[..], 0, outCapacity)
    ensures items != [] && BlockVerdict(items, |items|, BLOCK_MAX, OutOfRange).Fail? ==> out[..] == old(out[..])
  {
    hide Kept, Put, BlockVerdict, EncodedBytes, EncodeVerdict, Bytes, FirstFaultIs, Block;
    ghost var s := out[..];
    KeptSame(s, 0, outCapacity);
    PrintableParts(o, items);
    var block := ComputeBlockSize(items);
    if block.Err? {
      return Err(block.error);
    }
    EncodableIsCapacityFree(o, outCapacity);
    var body := Tier0Codec.Encode(o, out, outCapacity);
    if body.Err? {
      return Err(body.error);
    }
    BytesLength(o, items);
    PartsOf(o, items);
    ghost var t := out[..];
    var appended := AppendBlock(items, block.value, out, body.value, outCapacity - body.value);
    KeptThen(s, t, out[..], 0, outCapacity, body.value, outCapacity);
    if appended.Err? {
      return Err(appended.error);
    }
    ghost var plain := EncodedBytes(EXPERIMENTAL_MAJOR, o, 0);
    AnnouncedBytes(o);
    PutParts(s, plain, Uvarint.Encoding(block.value), Block(items), SetByteBit(plain[1], 0, true));
    out[1] := SetByteBit(out[1], 0, true);
    PutKeeps(s, 0, Bytes(Message(EXPERIMENTAL_MAJOR, o, items)), 0, outCapacity);
    return Ok(body.value + appended.value);
  }

  /** The length of the block and the block itself, behind the object. */
  method AppendBlock(items: seq<Extension>, size: nat, out: array<byte>, start: nat, capacity: nat) returns (r: Result<nat>)
    requires start + capacity <= out.Length
    requires WellFormed(items) && size == |Block(items)| <= BLOCK_MAX
    modifies out
    ensures r.Ok? <==> Uvarint.Size(size) + size <= capacity
    ensures r.Err? ==> r.error == BufferTooSmall
    ensures r.Ok? ==>
              var prefix := Uvarint.Encoding(size);
              && r.value == |prefix| + size == Uvarint.Size(size) + size
              && out[..] == Put(Put(old(out[..]), start, prefix), start + |prefix|, Block(items))
    ensures Kept(old(out[..]), out[..], start, start + capacity)
  {
    hide Kept, Put;
    ghost var s := out[..];
    KeptSame(s, start, start + capacity);
    var lengthSize := Uvarint.Encode(size, out, start, capacity);
    if lengthSize.Err? {
      return Err(lengthSize.error);
    }
    var at := lengthSize.value;
    PutKeeps(s, start, Uvarint.Encoding(size), start, start + capacity);
    ghost var t := out[..];
    OnlyRoomIsMissing(items, |items|, capacity - at);
    var written := EncodeBlock(items, out, start + at, capacity - at);
    KeptThen(s, t, out[..], start, start + capacity, start + at, start + capacity);
    if written.Err? {
      return Err(written.error);
    }
    if written.value != size {
      assert false;  // the size calculator and the encoder cannot disagree
    }
    return Ok(at + size);
  }

  /** The items scanned so far, in front of what the rest of the scan answers. */
  function InFront(items: seq<Extension>, rest: Result<seq<Extension>>): Result<seq<Extension>> {
    if rest.Err? then rest else Ok(items + rest.value)
  }

  /** One turn of the scan. */
  lemma ScanStep(st: ReaderState, callback: Callback, offered: seq<Extension>, items: seq<Extension>)
    requires st.offset <= |st.data| && Next(st).1.Read?
    ensures Advances(st, Next(st).0, Next(st).1)
    ensures
      var (st', reading) := Next(st);
      var item := reading.item;
      if item.critical != 0 && !Accepts(callback, offered, item) then
        Scan(st, callback, offered) == Err(UnsupportedSemantic)
      else
        InFront(items, Scan(st, callback, offered)) ==
        InFront(items + [item], Scan(st', callback, if item.critical != 0 then offered + [item] else offered))
  {
    NextAdvances(st);
    var (st', reading) := Next(st);
    var rest := Scan(st', callback, if reading.item.critical != 0 then offered + [reading.item] else offered);
    if rest.Ok? {
      assert items + ([reading.item] + rest.value) == (items + [reading.item]) + rest.value;
    }
  }

  lemma ScanEnds(st: ReaderState, callback: Callback, offered: seq<Extension>)
    requires st.offset <= |st.data|
    ensures Next(st).1.Finished? ==> Scan(st, callback, offered) == Ok([])
    ensures Next(st).1.Refused? ==> Scan(st, callback, offered) == Err(Next(st).1.error)
  {
    hide Next, NextAfterKey;
  }

  lemma InFrontOfNothing(items: seq<Extension>)
    ensures InFront(items, Ok([])) == Ok(items)
  {
    assert items + [] == items;
  }

  lemma NothingInFront(r: Result<seq<Extension>>)
    ensures InFront([], r) == r
  {
    if r.Ok? {
      assert [] + r.value == r.value;
    }
  }

  lemma ScanStarts(block: seq<byte>, callback: Callback)
    ensures Validated(block, callback) == InFront([], Scan(Start(block), callback, []))
    ensures Criticals([]) == [] && EachAccepted(callback, [], [])
  {
    NothingInFront(Validated(block, callback));
  }

  /**
   * The first pass over a block. `items` are the items read and `trace` those put to the callback, in
   * order; every one of them was accepted, but for the last one when it is what the scan failed on.
   */
  method ScanBlock(block: seq<byte>, callback: Callback)
    returns (r: Outcome, ghost items: seq<Extension>, trace: seq<Extension>)
    ensures r.Pass? ==> Validated(block, callback) == Ok(items) && trace == Criticals(items)
    ensures r.Fail? ==> Validated(block, callback) == Err(r.error)
    ensures EachAccepted(callback, [], trace) ||
            (r == Fail(UnsupportedSemantic) && trace != [] && EachAccepted(callback, [], trace[..|trace| - 1]))
    ensures callback.NoCallback? ==> trace == []
    ensures callback.Callback? ==>
              forall k | 0 <= k < |trace| && (r.Pass? || k < |trace| - 1) :: callback.decides(trace[..k], trace[k])
  {
    hide Criticals, EachAccepted, Scan, Next, NextAfterKey, Validated, Block, Item;
    var scan := new ExtensionReader(block);
    items, trace := [], [];
    ScanStarts(block, callback);
    while true
      invariant scan.data == block && scan.offset <= |block|
      invariant Validated(block, callback) == InFront(items, Scan(scan.State(), callback, trace))
      invariant trace == Criticals(items)
      invariant EachAccepted(callback, [], trace)
      invariant callback.NoCallback? ==> trace == []
      invariant callback.Callback? ==> forall k | 0 <= k < |trace| :: callback.decides(trace[..k], trace[k])
      decreases |block| - scan.offset
    {
      ghost var st := scan.State();
      NextAdvances(st);
      var reading := scan.NextItem();
      match reading {
        case Finished =>
          ScanEnds(st, callback, trace);
          InFrontOfNothing(items);
          return Pass, items, trace;
        case Refused(error) =>
          ScanEnds(st, callback, trace);
          return Fail(error), items, trace;
        case Read(item, _) =>
          ScanStep(st, callback, trace, items);
          CriticalsSnoc(items, item);
          if item.critical != 0 {
            if callback.NoCallback? {
              return Fail(UnsupportedSemantic), items, trace;
            }
            if !callback.decides(trace, item) {
              PrefixesStay(trace, item);
              return Fail(UnsupportedSemantic), items, trace + [item];
            }
            TraceGrows(callback, trace, item);
            PrefixesStay(trace, item);
            trace := trace + [item];
          }
          items := items + [item];
      }
    }
  }

  lemma PrefixesStay(trace: seq<Extension>, item: Extension)
    ensures forall k | 0 <= k <= |trace| :: (trace + [item])[..k] == trace[..k]
    ensures trace[..|trace|] == trace
  {
  }

  lemma TraceGrows(callback: Callback, trace: seq<Extension>, item: Extension)
    requires EachAccepted(callback, [], trace) && Accepts(callback, trace, item)
    ensures EachAccepted(callback, [], trace + [item])
  {
    forall k | 0 <= k < |trace + [item]|
      ensures Accepts(callback, [] + (trace + [item])[..k], (trace + [item])[k])
    {
      if k < |trace| {
        assert Accepts(callback, [] + trace[..k], trace[k]);
        assert [] + (trace + [item])[..k] == [] + trace[..k];
      } else {
        assert [] + (trace + [item])[..k] == trace;
      }
    }
  }

  /**
   * Decodes an object with its extensions. The whole block is read, and every critical item put to
   * the callback, before anything is handed over; on failure the caller's reader is left alone.
   */
  method DecodeExtAccept(data: seq<byte>, callback: Callback, reader: ExtensionReader)
    returns (r: Result<(Object, nat)>, trace: seq<Extension>)
    modifies reader
    ensures r.Err? ==> DecodeExt(data, callback) == Err(r.error) && unchanged(reader)
    ensures r.Ok? ==>
              && DecodeExt(data, callback).Ok?
              && var d := DecodeExt(data, callback).value;
                 && r.value == (d.message.obj, d.consumed)
                 && reader.State() == Start(d.block)
                 && trace == Criticals(d.message.items)
    ensures EachAccepted(callback, [], trace) ||
            (r == Err(UnsupportedSemantic) && trace != [] && EachAccepted(callback, [], trace[..|trace| - 1]))
    ensures callback.NoCallback? ==> trace == []
    ensures callback.Callback? ==>
              forall k | 0 <= k < |trace| && (r.Ok? || k < |trace| - 1) :: callback.decides(trace[..k], trace[k])
  {
    hide Scan, DecodeFrame;
    trace := [];
    var framed := DecodeFrameOf(data);
    if framed.Err? {
      return Err(framed.error), trace;
    }
    var block := framed.value.frame.block;
    var scanned;
    ghost var items;
    scanned, items, trace := ScanBlock(block, callback);
    if scanned.Fail? {
      return Err(scanned.error), trace;
    }
    reader.Init(block);
    return Ok((framed.value.frame.obj, framed.value.consumed)), trace;
  }

  /** The header, the body and the block, up to the first thing wrong with them. */
  method DecodeFrameOf(data: seq<byte>) returns (r: Result<Framed>)
    ensures r == DecodeFrame(data)
  {
    var body := Tier0Codec.DecodeBodyOf(data);
    if body.Err? {
      return Err(body.error);
    }
    DecodedSizeFits(data);
    if !body.value.extensionPresent {
      return Ok(Framed(Frame(body.value.major, body.value.obj, []), body.value.size));
    }
    var block := DecodeEnvelopeOf(data, body.value.size);
    if block.Err? {
      return Err(block.error);
    }
    return Ok(Framed(Frame(body.value.major, body.value.obj, block.value.0), block.value.1));
  }

  /** The length behind the body and the block it announces. */
  method DecodeEnvelopeOf(data: seq<byte>, size: nat) returns (r: Result<(seq<byte>, nat)>)
    requires size <= |data|
    ensures r == DecodeEnvelope(data, size)
  {
    var length := Uvarint.DecodeValue(data[size..]);
    if length.Err? {
      return Err(length.error);
    }
    var at := size + length.value.1;
    if length.value.0 == 0 {
      return Err(Noncanonical);
    }
    if length.value.0 > BLOCK_MAX {
      return Err(OutOfRange);
    }
    if length.value.0 > |data| - at {
      return Err(Truncated);
    }
    return Ok((data[at..at + length.value.0], at + length.value.0));
  }

  /** Without a callback nothing critical is accepted. */
  method DecodeExtOf(data: seq<byte>, reader: ExtensionReader) returns (r: Result<(Object, nat)>)
    modifies reader
    ensures r.Err? ==> DecodeExt(data, NoCallback) == Err(r.error) && unchanged(reader)
    ensures r.Ok? ==>
              && DecodeExt(data, NoCallback).Ok?
              && var d := DecodeExt(data, NoCallback).value;
                 && r.value == (d.message.obj, d.consumed)
                 && reader.State() == Start(d.block)
                 && Criticals(d.message.items) == []
  {
    var trace;
    r, trace := DecodeExtAccept(data, NoCallback, reader);
    NoCallbackTrace(trace);
  }

  lemma NoCallbackTrace(trace: seq<Extension>)
    ensures EachAccepted(NoCallback, [], trace) <==> trace == []
  {
    if trace != [] {
      assert !Accepts(NoCallback, [] + trace[..0], trace[0]);
    }
  }

  // ---- what the encoder and the decoder say to each other ------------------------------------------------

  /** Whatever the encoder wrote, the decoder gives back whole, and its reader replays the list. */
  lemma EncodeThenDecode(o: Object, items: seq<Extension>, capacity: nat, callback: Callback, tail: seq<byte>)
    requires EncodeExtVerdict(o, items, capacity).Pass?
    ensures Printable(Message(EXPERIMENTAL_MAJOR, o, items))
    ensures
      var m := Message(EXPERIMENTAL_MAJOR, o, items);
      DecodeExt(Bytes(m) + tail, callback) ==
      if AllAccepted(callback, [], items) then Ok(Decoded(m, Block(items), |Bytes(m)|)) else Err(UnsupportedSemantic)
    ensures Walk(Start(Block(items))) == Walked(items, Pass)
  {
    EncodeExtSucceeds(o, items, capacity);
    RoundTrip(Message(EXPERIMENTAL_MAJOR, o, items), callback, tail);
    ReaderReplays(items);
  }

  /** Whatever the decoder accepted at major 0, the encoder writes again byte for byte. */
  lemma DecodeThenEncode(data: seq<byte>, callback: Callback, capacity: nat)
    requires DecodeExt(data, callback).Ok?
    requires DecodeExt(data, callback).value.message.major == EXPERIMENTAL_MAJOR
    requires capacity >= DecodeExt(data, callback).value.consumed
    ensures
      var d := DecodeExt(data, callback).value;
      && Printable(d.message)
      && EncodeExtVerdict(d.message.obj, d.message.items, capacity).Pass?
      && d.consumed <= |data| && Bytes(d.message) == data[..d.consumed]
  {
    Canonical(data, callback);
    var d := DecodeExt(data, callback).value;
    EncodeExtSucceeds(d.message.obj, d.message.items, capacity);
  }
}
