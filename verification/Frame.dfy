/** The frame of a message: header, fixed body, and the extension block behind its own length. */
module Frame {
  import opened Machine
  import opened Tier0
  import opened Tier0Laws
  import Tlv
  import Uvarint

  /** An object and the bytes of its extension block, empty when it has none. */
  datatype Frame = Frame(major: byte, obj: Object, block: seq<byte>)

  datatype Framed = Framed(frame: Frame, consumed: nat)

  predicate Sound(f: Frame) {
    Encodable(f.major, f.obj) && |f.block| <= Tlv.BLOCK_MAX
  }

  /** The block behind its length; an absent block has no length either. */
  function Envelope(block: seq<byte>): seq<byte> {
    if block == [] then [] else Uvarint.Encoding(|block|) + block
  }

  function ExtensionBit(f: Frame): byte {
    if f.block == [] then 0 else 1
  }

  /** The frame's one byte string. */
  function FrameBytes(f: Frame): seq<byte>
    requires Sound(f)
  {
    EncodedBytes(f.major, f.obj, ExtensionBit(f)) + Envelope(f.block)
  }

  function NormalFrame(f: Frame): Frame {
    f.(obj := Erased(f.major, f.obj))
  }

  /** The block announced behind a body of `size` bytes, and where it ends. */
  function DecodeEnvelope(data: seq<byte>, size: nat): (r: Result<(seq<byte>, nat)>)
    requires size <= |data|
    ensures r.Ok? ==> size <= r.value.1 <= |data|
  {
    var length := Uvarint.Decode(data[size..]);
    if length.Err? then Err(length.error)
    else
      var at := size + length.value.1;
      if length.value.0 == 0 then Err(Noncanonical)
      else if length.value.0 > Tlv.BLOCK_MAX then Err(OutOfRange)
      else if length.value.0 > |data| - at then Err(Truncated)
      else Ok((data[at..at + length.value.0], at + length.value.0))
  }

  /** The frame whose fixed body has been decoded. */
  function FrameBehind(data: seq<byte>, d: DecodedBody): (r: Result<Framed>)
    requires d.size <= |data|
    ensures r.Ok? ==> r.value.consumed <= |data|
  {
    if !d.extensionPresent then Ok(Framed(Frame(d.major, d.obj, []), d.size))
    else
      var block := DecodeEnvelope(data, d.size);
      if block.Err? then Err(block.error) else Ok(Framed(Frame(d.major, d.obj, block.value.0), block.value.1))
  }

  /** The decoder up to the point where it has the whole block in hand. */
  function DecodeFrame(data: seq<byte>): (r: Result<Framed>)
    ensures r.Ok? ==> r.value.consumed <= |data|
  {
    var body := DecodeBody(data);
    if body.Err? then Err(body.error)
    else
      DecodedSizeFits(data);
      FrameBehind(data, body.value)
  }

  lemma DecodedSizeFits(data: seq<byte>)
    requires DecodeBody(data).Ok?
    ensures HEADER_SIZE < DecodeBody(data).value.size <= |data|
  {
    EncodeOfDecode(data);
  }

  lemma EnvelopeAt(data: seq<byte>, size: nat, prefix: seq<byte>, block: seq<byte>, tail: seq<byte>)
    requires 1 <= |block| <= Tlv.BLOCK_MAX && prefix == Uvarint.Encoding(|block|)
    requires size <= |data| && data[size..] == prefix + (block + tail)
    ensures DecodeEnvelope(data, size) == Ok((block, size + |prefix| + |block|))
  {
    Uvarint.EncodingSize(|block|);
    Uvarint.DecodeOfEncoding(|block|, block + tail);
    Tlv.Peel(data, size, prefix, block + tail);
    Tlv.Peel(data, size + |prefix|, block, tail);
  }

  lemma EnvelopeReadsBack(body: seq<byte>, block: seq<byte>, tail: seq<byte>)
    requires 1 <= |block| <= Tlv.BLOCK_MAX
    ensures DecodeEnvelope(body + (Envelope(block) + tail), |body|) == Ok((block, |body| + |Envelope(block)|))
  {
    var data, prefix := body + (Envelope(block) + tail), Uvarint.Encoding(|block|);
    Assoc(prefix, block, tail);
    Tlv.Peel(data, 0, body, prefix + (block + tail));
    EnvelopeAt(data, |body|, prefix, block, tail);
  }

  lemma Assoc(a: seq<byte>, b: seq<byte>, c: seq<byte>)
    ensures (a + b) + c == a + (b + c)
  {
  }

  lemma FrameBehindReadsBack(d: DecodedBody, body: seq<byte>, block: seq<byte>, tail: seq<byte>)
    requires d.size == |body| && |block| <= Tlv.BLOCK_MAX && d.extensionPresent == (block != [])
    ensures
      FrameBehind(body + (Envelope(block) + tail), d) == Ok(Framed(Frame(d.major, d.obj, block), |body| + |Envelope(block)|))
  {
    if block != [] {
      EnvelopeReadsBack(body, block, tail);
    }
  }

  /** The body decoder takes `body` for `d`, whatever follows it. */
  ghost predicate Yields(body: seq<byte>, d: DecodedBody) {
    d.size == |body| && forall rest: seq<byte> :: DecodeBody(body + rest) == Ok(d)
  }

  lemma EncodedYields(major: byte, o: Object, extensionBit: byte)
    requires Encodable(major, o) && extensionBit <= 1
    ensures Yields(EncodedBytes(major, o, extensionBit),
                   DecodedBody(major, Erased(major, o), extensionBit == 1, EncodedSizeAtMajor(major, o.body.Kind())))
  {
    forall rest: seq<byte> {
      DecodeOfEncode(major, o, extensionBit, rest);
    }
  }

  lemma BodyThenBehind(data: seq<byte>, d: DecodedBody)
    requires DecodeBody(data) == Ok(d)
    ensures d.size <= |data| && DecodeFrame(data) == FrameBehind(data, d)
  {
    DecodedSizeFits(data);
  }

  lemma FrameOfBody(d: DecodedBody, body: seq<byte>, block: seq<byte>, tail: seq<byte>)
    requires Yields(body, d) && |block| <= Tlv.BLOCK_MAX && d.extensionPresent == (block != [])
    ensures
      DecodeFrame(body + Envelope(block) + tail) == Ok(Framed(Frame(d.major, d.obj, block), |body + Envelope(block)|))
  {
    hide DecodeBody, DecodeFrame, FrameBehind, Envelope;
    Assoc(body, Envelope(block), tail);
    var rest := Envelope(block) + tail;
    assert DecodeBody(body + rest) == Ok(d);
    BodyThenBehind(body + rest, d);
    FrameBehindReadsBack(d, body, block, tail);
  }

  /** The frame decoder undoes the printer, whatever follows. */
  lemma FrameRoundTrip(f: Frame, tail: seq<byte>)
    requires Sound(f)
    ensures DecodeFrame(FrameBytes(f) + tail) == Ok(Framed(NormalFrame(f), |FrameBytes(f)|))
  {
    var o, bit := f.obj, ExtensionBit(f);
    EncodedYields(f.major, o, bit);
    var d := DecodedBody(f.major, Erased(f.major, o), bit == 1, EncodedSizeAtMajor(f.major, o.body.Kind()));
    FrameOfBody(d, EncodedBytes(f.major, o, bit), f.block, tail);
  }

  lemma EnvelopePrintsBack(data: seq<byte>, size: nat)
    requires size <= |data| && DecodeEnvelope(data, size).Ok?
    ensures
      var (block, end) := DecodeEnvelope(data, size).value;
      && 1 <= |block| <= Tlv.BLOCK_MAX
      && size <= end <= |data|
      && data[size..end] == Envelope(block)
  {
    var rest := data[size..];
    var (l, n) := Uvarint.Decode(rest).value;
    Uvarint.EncodingOfDecode(rest);
    assert data[size..size + n] == rest[..n];
    Abut(data, size, size + n, size + n + l);
  }

  /** The printer undoes the frame decoder: what was consumed is the one byte string of the frame. */
  lemma FrameCanonical(data: seq<byte>)
    requires DecodeFrame(data).Ok?
    ensures
      var r := DecodeFrame(data).value;
      && Sound(r.frame)
      && NormalFrame(r.frame) == r.frame
      && r.consumed == |FrameBytes(r.frame)| <= |data|
      && data[..r.consumed] == FrameBytes(r.frame)
  {
    EncodeOfDecode(data);
    var d, r := DecodeBody(data).value, DecodeFrame(data).value;
    if d.extensionPresent {
      EnvelopePrintsBack(data, d.size);
      Abut(data, 0, d.size, r.consumed);
    }
  }

  // ---- appended input --------------------------------------------------------------------------------

  lemma BodyVerdictIsFinal(data: seq<byte>, t: seq<byte>)
    requires DecodeBody(data) != Err(Truncated)
    ensures DecodeBody(data + t) == DecodeBody(data)
  {
    var h := DecodeHeader(data);
    assert DecodeHeader(data + t) == h;
    var kind := CodeToKind(h.category, h.opcode);
    if h.major <= 1 && kind.Ok? {
      KnownVerdictIsFinal(h, kind.value, data, t);
    }
  }

  lemma KnownVerdictIsFinal(h: Header, kind: Kind, data: seq<byte>, t: seq<byte>)
    requires DecodeKnown(h, kind, data) != Err(Truncated)
    ensures DecodeKnown(h, kind, data + t) == DecodeKnown(h, kind, data)
  {
    var size := EncodedSizeAtMajor(h.major, kind);
    if 0 < size <= |data| {
      assert (data + t)[..size] == data[..size];
    }
  }

  lemma EnvelopeVerdictIsFinal(data: seq<byte>, size: nat, t: seq<byte>)
    requires size <= |data| && DecodeEnvelope(data, size) != Err(Truncated)
    ensures DecodeEnvelope(data + t, size) == DecodeEnvelope(data, size)
  {
    assert (data + t)[size..] == data[size..] + t;
    Uvarint.VerdictIsFinal(data[size..], t);
    var r := DecodeEnvelope(data, size);
    if r.Ok? {
      var at := r.value.1 - |r.value.0|;
      assert (data + t)[at..r.value.1] == data[at..r.value.1];
    }
  }

  /** Once the frame is complete, or refused for good, appended bytes change nothing. */
  lemma FrameVerdictIsFinal(data: seq<byte>, t: seq<byte>)
    requires DecodeFrame(data) != Err(Truncated)
    ensures DecodeFrame(data + t) == DecodeFrame(data)
  {
    BodyVerdictIsFinal(data, t);
    var body := DecodeBody(data);
    if body.Ok? && body.value.extensionPresent {
      DecodedSizeFits(data);
      EnvelopeVerdictIsFinal(data, body.value.size, t);
    }
  }

  /** Cut anywhere before its end, a frame is reported as cut short, and as nothing else. */
  lemma CutFrameIsTruncated(f: Frame, cut: nat)
    requires Sound(f) && cut < |FrameBytes(f)|
    ensures DecodeFrame(FrameBytes(f)[..cut]) == Err(Truncated)
  {
    hide DecodeFrame, FrameBytes;
    var bytes := FrameBytes(f);
    var part, rest := bytes[..cut], bytes[cut..];
    assert part + rest == bytes == bytes + [];
    FrameRoundTrip(f, []);
    if DecodeFrame(part) != Err(Truncated) {
      FrameVerdictIsFinal(part, rest);
    }
  }
}
