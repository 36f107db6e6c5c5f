/**
 * The fixed bodies in plain numbers. What the encoder writes and what the decoder answers is said here of
 * the bytes, with the literals of the format, and without the tables and codes the other modules go through.
 */
module Plain {
  import opened Machine
  import opened Bits
  import opened Fields
  import opened BitIO
  import opened Tier0
  import opened Tier0Laws
  import opened LayoutTable
  import opened NamedFields

  // ---- bits and numbers ----------------------------------------------------------------------------------

  function Bit(b: bool): nat {
    if b then 1 else 0
  }

  /** The most significant bit of a byte comes first. */
  lemma ByteIsItsBits(s: seq<byte>, k: nat)
    requires k < |s|
    ensures
      var b := BufferBits(s);
      s[k] == 128 * Bit(b[8 * k]) + 64 * Bit(b[8 * k + 1]) + 32 * Bit(b[8 * k + 2]) + 16 * Bit(b[8 * k + 3])
              + 8 * Bit(b[8 * k + 4]) + 4 * Bit(b[8 * k + 5]) + 2 * Bit(b[8 * k + 6]) + Bit(b[8 * k + 7])
  {
    hide BufferBits, BitAt, Shr, Bit;
    BitInByte(s, k, 0);
    BitInByte(s, k, 1);
    BitInByte(s, k, 2);
    BitInByte(s, k, 3);
    BitInByte(s, k, 4);
    BitInByte(s, k, 5);
    BitInByte(s, k, 6);
    BitInByte(s, k, 7);
    ByteInHalves(s[k]);
  }

  lemma ByteInHalves(v: nat)
    requires v < 256
    ensures v == 128 * (Shr(v, 7) % 2) + 64 * (Shr(v, 6) % 2) + 32 * (Shr(v, 5) % 2) + 16 * (Shr(v, 4) % 2)
                 + 8 * (Shr(v, 3) % 2) + 4 * (Shr(v, 2) % 2) + 2 * (Shr(v, 1) % 2) + Shr(v, 0) % 2
  {
    hide Shr;
    Halved(v, 0);
    Halved(v, 1);
    Halved(v, 2);
    Halved(v, 3);
    Halved(v, 4);
    Halved(v, 5);
    Halved(v, 6);
    LastHalf(v);
  }

  lemma Halved(v: nat, k: nat)
    ensures Shr(v, k) == 2 * Shr(v, k + 1) + Shr(v, k) % 2
  {
    hide Shr;
    ShrStep(v, k);
  }

  lemma LastHalf(v: nat)
    requires v < 256
    ensures Shr(v, 0) == v && Shr(v, 7) == Shr(v, 7) % 2
  {
    ShiftsOfByte(v);
    hide Shr;
  }

  lemma BitInByte(s: seq<byte>, k: nat, i: nat)
    requires k < |s| && i < 8
    ensures Bit(BufferBits(s)[8 * k + i]) == Shr(s[k], 7 - i) % 2
  {
    hide Shr;
    assert (8 * k + i) / 8 == k && (8 * k + i) % 8 == i;
    assert BufferBits(s)[8 * k + i] == BitAt(s, 8 * k + i);
  }

  lemma ShiftsOfByte(v: nat)
    requires v < 256
    ensures Shr(v, 0) == v && Shr(v, 1) == v / 2 && Shr(v, 2) == v / 4 && Shr(v, 3) == v / 8
    ensures Shr(v, 4) == v / 16 && Shr(v, 5) == v / 32 && Shr(v, 6) == v / 64 && Shr(v, 7) == v / 128
  {
    ShrStep(v, 0);
    ShrStep(v, 1);
    ShrStep(v, 2);
    ShrStep(v, 3);
    ShrStep(v, 4);
    ShrStep(v, 5);
    ShrStep(v, 6);
    hide Shr;
  }

  lemma {:induction false} ValueInByte(s: seq<byte>, k: nat, i: nat, width: nat)
    requires k < |s| && i + width <= 8
    ensures ValueIn(s, 8 * k + i, 8 * k + i + width) == Shr(s[k], 8 - i - width) % Pow2(width)
  {
    hide Shr, BufferBits, BitAt, ValueIn, Pow2;
    if width == 0 {
      NoBits(s, 8 * k + i);
    } else {
      var last, m := 8 * k + i + width - 1, 8 - i - width;
      ValueInByte(s, k, i, width - 1);
      ValueOfLongerSlice(s, 8 * k + i, last);
      assert last / 8 == k && last % 8 == i + width - 1;
      ShrStep(s[k], m);
      LowBits(Shr(s[k], m), Pow2(width - 1));
      Doubles(width - 1);
    }
  }

  lemma NoBits(s: seq<byte>, at: nat)
    requires at <= 8 * |s|
    ensures ValueIn(s, at, at) == 0 && Pow2(0) == 1
  {
  }

  lemma Doubles(k: nat)
    ensures Pow2(k + 1) == 2 * Pow2(k)
  {
  }

  lemma LowBits(x: nat, p: nat)
    requires p >= 1
    ensures x % (2 * p) == 2 * (x / 2 % p) + x % 2
  {
    var q, r := x / 2 / p, x / 2 % p;
    assert x / 2 == p * q + r;
    assert x == 2 * p * q + (2 * r + x % 2);
    UniqueRemainder(x, 2 * p, q, 2 * r + x % 2);
  }

  lemma UniqueRemainder(x: nat, d: nat, q: nat, r: nat)
    requires x == d * q + r && r < d
    ensures x % d == r
  {
    var k, r' := q - x / d, x % d;
    assert x == d * (x / d) + r' && 0 <= r' < d;
    assert d * k == r' - r;
    assert k >= 1 ==> d * k >= d;
    assert k <= -1 ==> d * k + d <= 0;
  }

  /** An unsigned field inside one byte. */
  lemma FieldInByte(s: seq<byte>, k: nat, i: nat, width: nat)
    requires k < |s| && i + width <= 8
    ensures FieldAt(BufferBits(s), Row(8 * k + i, width, false)) == Shr(s[k], 8 - i - width) % Pow2(width)
  {
    hide Shr, BufferBits, BitAt, Pow2;
    ValueInByte(s, k, i, width);
  }

  lemma {:induction false} ValueOfJoined(x: seq<bool>, y: seq<bool>)
    ensures ValueOf(x + y) == ValueOf(x) * Pow2(|y|) + ValueOf(y)
  {
    hide Pow2, ValueOf;
    if y == [] {
      assert x + y == x;
      NoneSpelt();
    } else {
      var n := |y| - 1;
      ValueOfJoined(x, y[..n]);
      assert (x + y)[..|x + y| - 1] == x + y[..n];
      LastSpelt(x + y);
      LastSpelt(y);
      JoinStep(ValueOf(x), Pow2(n));
      Doubles(n);
    }
  }

  lemma NoneSpelt()
    ensures ValueOf([]) == 0 && Pow2(0) == 1
  {
  }

  lemma LastSpelt(b: seq<bool>)
    requires b != []
    ensures ValueOf(b) == 2 * ValueOf(b[..|b| - 1]) + Bit(b[|b| - 1])
  {
  }

  lemma JoinStep(v: nat, p: nat)
    ensures v * (2 * p) == 2 * (v * p)
  {
  }

  /** Two unsigned fields side by side are one, the first one the more significant. */
  lemma FieldsJoin(bits: seq<bool>, at: nat, v: nat, w: nat)
    requires at + v + w <= |bits|
    ensures FieldAt(bits, Row(at, v + w, false)) ==
            FieldAt(bits, Row(at, v, false)) * Pow2(w) + FieldAt(bits, Row(at + v, w, false))
  {
    hide ValueOf, Pow2;
    var x, y := bits[at..at + v], bits[at + v..at + v + w];
    Abut(bits, at, at + v, at + v + w);
    assert bits[at..at + (v + w)] == x + y;
    ValueOfJoined(x, y);
  }

  /** A field of one bit is that bit. */
  lemma OneBitField(bits: seq<bool>, at: nat)
    requires at < |bits|
    ensures FieldAt(bits, Row(at, 1, false)) == Bit(bits[at])
  {
    var b := bits[at..at + 1];
    assert b[..0] == [];
  }

  /** Two's complement: the upper half of the codes stands for the negative values. */
  lemma SignedField(bits: seq<bool>, at: nat, w: nat)
    requires at + w <= |bits| && w >= 1
    ensures
      var u := FieldAt(bits, Row(at, w, false));
      FieldAt(bits, Row(at, w, true)) == if 2 * u < Pow2(w) then u else u - Pow2(w)
  {
    hide ValueOf, Pow2, Decoded;
    TwosComplement(ValueOf(bits[at..at + w]), w);
  }

  lemma TwosComplement(u: nat, w: nat)
    requires w >= 1
    ensures Decoded(u, w, false) == u
    ensures Decoded(u, w, true) == if 2 * u < Pow2(w) then u else u - Pow2(w)
  {
    hide Pow2;
    Doubles(w - 1);
  }

  lemma SmallPowers()
    ensures Pow2(0) == 1 && Pow2(1) == 2 && Pow2(2) == 4 && Pow2(3) == 8 && Pow2(4) == 16 && Pow2(5) == 32
    ensures Pow2(6) == 64 && Pow2(7) == 128 && Pow2(8) == 256 && Pow2(9) == 512 && Pow2(10) == 1024
    ensures Pow2(11) == 2048 && Pow2(12) == 4096
  {
    assert Pow2(4) == 16;
    assert Pow2(8) == 256;
  }

  // ---- the header ------------------------------------------------------------------------------------------

  /** The two bytes in front of every object: major and category, then opcode, priority and extension bit. */
  lemma HeaderBytes(major: byte, o: Object, extensionBit: byte)
    requires Encodable(major, o) && extensionBit <= 1
    ensures
      var bytes := EncodedBytes(major, o, extensionBit);
      var (category, opcode) :=
        match o.body
        case PresenceBody(_, _, _) => (0, 0)
        case HazardBody(_, _, _, _, _, _, _, _) => (3, 1)
        case RequestBody(_, _, _, _, _, _) => (5, 1)
        case AuthorityClaimBody(_, _, _, _) => (1, 1)
        case DegradedStateBody(_, _, _, _) => (6, 1)
        case TransportOfferBody(_, _, _, _, _) => (8, 0)
        case TransportAcceptBody(_, _, _, _) => (8, 1)
        case UnassignedBody => (255, 255);
      && |bytes| >= 10
      && bytes[0] == 16 * major + category
      && bytes[1] == 8 * opcode + 2 * o.priority + extensionBit
      && opcode <= 1 && o.priority <= 3
  {
  }

  /** The same by bits: four of major, four of category, five of opcode, two of priority, one for extensions. */
  lemma HeaderBits(s: seq<byte>)
    requires |s| >= 2
    ensures
      var bits := BufferBits(s);
      && FieldAt(bits, Row(0, 4, false)) == s[0] / 16
      && FieldAt(bits, Row(4, 4, false)) == s[0] % 16
      && FieldAt(bits, Row(8, 5, false)) == s[1] / 8
      && FieldAt(bits, Row(13, 2, false)) == s[1] / 2 % 4
      && FieldAt(bits, Row(15, 1, false)) == s[1] % 2
  {
    hide Shr, Pow2, BufferBits, FieldAt;
    SmallPowers();
    ShiftsOfByte(s[0]);
    ShiftsOfByte(s[1]);
    FieldInByte(s, 0, 0, 4);
    FieldInByte(s, 0, 4, 4);
    FieldInByte(s, 1, 0, 5);
    FieldInByte(s, 1, 5, 2);
    FieldInByte(s, 1, 7, 1);
  }

  /** Where the members of an encoded object's header sit. */
  lemma HeaderSits(major: byte, o: Object, extensionBit: byte)
    requires Encodable(major, o) && extensionBit <= 1
    ensures
      var bits := BufferBits(EncodedBytes(major, o, extensionBit));
      && |bits| >= 80
      && FieldAt(bits, Row(0, 4, false)) == major
      && FieldAt(bits, Row(4, 4, false)) == (
           match o.body
           case PresenceBody(_, _, _) => 0
           case HazardBody(_, _, _, _, _, _, _, _) => 3
           case RequestBody(_, _, _, _, _, _) => 5
           case AuthorityClaimBody(_, _, _, _) => 1
           case DegradedStateBody(_, _, _, _) => 6
           case TransportOfferBody(_, _, _, _, _) => 8
           case TransportAcceptBody(_, _, _, _) => 8
           case UnassignedBody => 15)
      && FieldAt(bits, Row(8, 5, false)) == (if o.body.PresenceBody? || o.body.TransportOfferBody? then 0 else 1)
      && FieldAt(bits, Row(13, 2, false)) == o.priority
      && FieldAt(bits, Row(15, 1, false)) == extensionBit
  {
    hide BufferBits, FieldAt, EncodedBytes, Encodable;
    var bytes := EncodedBytes(major, o, extensionBit);
    HeaderBytes(major, o, extensionBit);
    HeaderBits(bytes);
    SecondHeaderByte(bytes[1] / 8, o.priority, extensionBit);
  }

  /** And where the decoder takes them from, for every string it accepts. */
  lemma DecodedHeaderSits(data: seq<byte>)
    requires DecodeBody(data).Ok?
    ensures
      var d := DecodeBody(data).value;
      && |data| >= 10
      && d.major == data[0] / 16
      && d.obj.priority == data[1] / 2 % 4
      && d.extensionPresent == (data[1] % 2 == 1)
      && (match d.obj.body
          case PresenceBody(_, _, _) => data[0] % 16 == 0 && data[1] / 8 == 0
          case HazardBody(_, _, _, _, _, _, _, _) => data[0] % 16 == 3 && data[1] / 8 == 1
          case RequestBody(_, _, _, _, _, _) => data[0] % 16 == 5 && data[1] / 8 == 1
          case AuthorityClaimBody(_, _, _, _) => data[0] % 16 == 1 && data[1] / 8 == 1
          case DegradedStateBody(_, _, _, _) => data[0] % 16 == 6 && data[1] / 8 == 1
          case TransportOfferBody(_, _, _, _, _) => data[0] % 16 == 8 && data[1] / 8 == 0
          case TransportAcceptBody(_, _, _, _) => data[0] % 16 == 8 && data[1] / 8 == 1
          case UnassignedBody => false)
  {
    hide BodyAt, BufferBits;
  }

  // ---- what each byte string is answered ---------------------------------------------------------------------

  /** The padding bits are the low bits of the last byte. */
  lemma PaddingIsLowBits(s: seq<byte>, n: nat)
    requires |s| >= 1 && (n == 0 || n == 2 || n == 6)
    ensures ZeroFrom(BufferBits(s), 8 * |s| - n) <==> s[|s| - 1] % (if n == 0 then 1 else if n == 2 then 4 else 64) == 0
  {
    hide BufferBits, BitAt;
    var b, k := BufferBits(s), |s| - 1;
    ByteIsItsBits(s, k);
    if n == 2 {
      assert ZeroFrom(b, 8 * |s| - n) <==> !b[8 * k + 6] && !b[8 * k + 7];
    } else if n == 6 {
      assert ZeroFrom(b, 8 * |s| - n) <==>
             !b[8 * k + 2] && !b[8 * k + 3] && !b[8 * k + 4] && !b[8 * k + 5] && !b[8 * k + 6] && !b[8 * k + 7];
    }
  }

  lemma KnownIsAnswered(h: Header, kind: Kind, data: seq<byte>, size: nat, n: nat)
    requires EncodedSizeAtMajor(h.major, kind) == size >= 1 && (n == 0 || n == 2 || n == 6)
    requires PadStart(h.major, kind) == 8 * size - n
    ensures
      var pad := if n == 0 then 1 else if n == 2 then 4 else 64;
      && (|data| < size ==> DecodeKnown(h, kind, data) == Err(Truncated))
      && (|data| >= size && data[size - 1] % pad != 0 ==> DecodeKnown(h, kind, data) == Err(Noncanonical))
      && (|data| >= size && data[size - 1] % pad == 0 ==>
            DecodeKnown(h, kind, data).Ok? && DecodeKnown(h, kind, data).value.size == size)
  {
    hide EncodedSizeAtMajor, PadStart, BufferBits, ZeroFrom, ObjectAt;
    if |data| >= size {
      PaddingIsLowBits(data[..size], n);
    }
  }

  /**
   * The body decoder's answer once the first byte and the opcode name a kind that the major carries. `pad`
   * is the weight of the lowest bit of the last byte that is not padding.
   */
  lemma CarriedKindIsAnswered(data: seq<byte>, size: nat, pad: nat)
    requires |data| >= 2
    requires (data[0] as int, data[1] / 8, size, pad) in
             {(0x00, 0, 11, 1), (0x03, 1, 15, 4), (0x05, 1, 17, 64), (0x01, 1, 14, 64), (0x06, 1, 10, 64),
              (0x08, 0, 17, 1), (0x08, 1, 16, 1), (0x10, 0, 10, 1), (0x18, 0, 17, 1), (0x18, 1, 16, 1)}
    ensures |data| < size ==> DecodeBody(data) == Err(Truncated)
    ensures |data| >= size && data[size - 1] % pad != 0 ==> DecodeBody(data) == Err(Noncanonical)
    ensures |data| >= size && data[size - 1] % pad == 0 ==> DecodeBody(data).Ok? && DecodeBody(data).value.size == size
  {
    hide DecodeKnown;
    var h := DecodeHeader(data);
    assert DecodeBody(data) == DecodeKnown(h, CodeToKind(h.category, h.opcode).value, data);
    KnownIsAnswered(h, CodeToKind(h.category, h.opcode).value, data, size, if pad == 1 then 0 else if pad == 4 then 2 else 6);
  }

  /** Every other header names nothing that its major carries. */
  lemma OtherHeadersAreRefused(data: seq<byte>)
    requires |data| >= 2
    requires (data[0] as int, data[1] / 8) !in
             {(0x00, 0), (0x03, 1), (0x05, 1), (0x01, 1), (0x06, 1), (0x08, 0), (0x08, 1), (0x10, 0), (0x18, 0), (0x18, 1)}
    ensures DecodeBody(data) == Err(UnsupportedSemantic)
  {
    hide DecodeKnown, EncodedSizeAtMajor;
    var h := DecodeHeader(data);
    var kind := CodeToKind(h.category, h.opcode);
    if h.major <= 1 && kind.Ok? {
      OnlyThreeAreStable(h.major, h.category, h.opcode);
      NotCarried(h, kind.value, data);
    }
  }

  lemma OnlyThreeAreStable(major: byte, category: byte, opcode: byte)
    requires major <= 1 && CodeToKind(category, opcode).Ok?
    requires !(major == 0 && (category, opcode) in {(0 as byte, 0 as byte), (3, 1), (5, 1), (1, 1), (6, 1), (8, 0), (8, 1)})
    requires !(major == 1 && (category, opcode) in {(0 as byte, 0 as byte), (8, 0), (8, 1)})
    ensures EncodedSizeAtMajor(major, CodeToKind(category, opcode).value) == 0
  {
  }

  lemma NotCarried(h: Header, kind: Kind, data: seq<byte>)
    requires EncodedSizeAtMajor(h.major, kind) == 0
    ensures DecodeKnown(h, kind, data) == Err(UnsupportedSemantic)
  {
  }

  lemma HeaderCutIsTruncated(data: seq<byte>)
    requires |data| < 2
    ensures DecodeBody(data) == Err(Truncated)
  {
  }

  /** The stable major answers no HAZARD, REQUEST, AUTHORITY_CLAIM or DEGRADED_STATE, whatever follows the header. */
  lemma StableMajorRefuses(data: seq<byte>)
    requires |data| >= 2 && data[0] in {0x13, 0x15, 0x11, 0x16} && data[1] / 8 == 1
    ensures DecodeBody(data) == Err(UnsupportedSemantic)
  {
    hide DecodeBody;
    OtherHeadersAreRefused(data);
  }

  /** What it does accept is a PRESENCE without a machine class, a TRANSPORT_OFFER or a TRANSPORT_ACCEPT. */
  lemma StableMajorCarriesThree(data: seq<byte>)
    requires DecodeBody(data).Ok?
    ensures
      var d := DecodeBody(data).value;
      && (d.major == 0 || d.major == 1)
      && !d.obj.body.UnassignedBody?
      && (d.major == 1 ==>
            || (d.obj.body.PresenceBody? && d.obj.body.machineClass == 0)
            || d.obj.body.TransportOfferBody?
            || d.obj.body.TransportAcceptBody?)
  {
    hide DecodeBody, EncodeVerdict;
    EncodeOfDecode(data);
    var d := DecodeBody(data).value;
    MajorsCarry(d.major, d.obj, 17);
  }

  // ---- what the encoder refuses --------------------------------------------------------------------------------

  /** Which body each major carries. */
  lemma MajorsCarry(major: byte, o: Object, capacity: nat)
    ensures
      EncodeVerdict(major, o, capacity) != Fail(UnsupportedSemantic) <==>
      || (major == 0 && !o.body.UnassignedBody?)
      || (major == 1 && (o.body.PresenceBody? || o.body.TransportOfferBody? || o.body.TransportAcceptBody?))
  {
    hide AllFit, Entries;
  }

  /** The fields that have fewer bits than their type. Every other field takes any value of its type. */
  ghost predicate InRange(o: Object) {
    && o.priority <= 3
    && match o.body
       case HazardBody(_, severity, confidence, x, y, z, radius, _) =>
         severity <= 7 && confidence <= 127 && -2048 <= x <= 2047 && -2048 <= y <= 2047 && -512 <= z <= 511 && radius <= 1023
       case PresenceBody(_, capabilityTag, _) => capabilityTag <= 0xFF_FFFF
       case RequestBody(_, _, x, y, radius, _) => -2048 <= x <= 2047 && -2048 <= y <= 2047 && radius <= 1023
       case AuthorityClaimBody(authorityClass, jurisdiction, _, _) => authorityClass <= 63 && jurisdiction <= 4095
       case DegradedStateBody(_, health, severity, _) => health <= 127 && severity <= 7
       case _ => true
  }

  /** Room is asked for before the fields are looked at, and the fields are in range or the call fails. */
  lemma CarriedBodyIsAnswered(major: byte, o: Object, capacity: nat)
    requires
      || (major == 0 && !o.body.UnassignedBody?)
      || (major == 1 && (o.body.PresenceBody? || o.body.TransportOfferBody? || o.body.TransportAcceptBody?))
    ensures
      var size :=
        match o.body
        case PresenceBody(_, _, _) => 11 - major
        case HazardBody(_, _, _, _, _, _, _, _) => 15
        case RequestBody(_, _, _, _, _, _) => 17
        case AuthorityClaimBody(_, _, _, _) => 14
        case DegradedStateBody(_, _, _, _) => 10
        case TransportOfferBody(_, _, _, _, _) => 17
        case TransportAcceptBody(_, _, _, _) => 16
        case UnassignedBody => 0;
      && size >= 10
      && (capacity < size ==> EncodeVerdict(major, o, capacity) == Fail(BufferTooSmall))
      && (capacity >= size && !InRange(o) ==> EncodeVerdict(major, o, capacity) == Fail(OutOfRange))
      && (capacity >= size && InRange(o) ==> EncodeVerdict(major, o, capacity) == Pass)
  {
    hide AllFit, Entries;
    FieldsAreInRange(major, o);
  }

  lemma FieldsAreInRange(major: byte, o: Object)
    requires !o.body.UnassignedBody?
    ensures InRange(o) <==> o.priority <= 3 && AllFit(Entries(major, o))
  {
    hide AllFit, Entries;
    match o.body
    case HazardBody(_, _, _, _, _, _, _, _) => HazardInRange(major, o);
    case RequestBody(_, _, _, _, _, _) => RequestInRange(major, o);
    case TransportOfferBody(_, _, _, _, _) => TransportFits(major, o);
    case TransportAcceptBody(_, _, _, _) => TransportFits(major, o);
    case _ => OthersInRange(major, o);
  }

  lemma FitsUnsigned(v: int, w: nat)
    requires w <= 32
    ensures Fits(U(v, w)) <==> 0 <= v < Pow2(w)
  {
  }

  lemma FitsSigned(v: int, w: nat)
    requires 0 < w <= 31
    ensures Fits(S(v, w)) <==> 0 <= v + Pow2(w - 1) && v < Pow2(w - 1)
  {
    Doubles(w - 1);
    hide Pow2;
  }

  lemma HazardInRange(major: byte, o: Object)
    requires o.body.HazardBody?
    ensures
      var b := o.body;
      AllFit(Entries(major, o)) <==>
      && b.severity <= 7 && b.confidence <= 127 && b.radius <= 1023
      && -2048 <= b.x <= 2047 && -2048 <= b.y <= 2047 && -512 <= b.z <= 511
  {
    hide Fits, Pow2;
    SmallPowers();
    Pow2Values();
    var b, es := o.body, Entries(major, o);
    FitsUnsigned(o.sourceRef, 32);
    FitsUnsigned(b.hazardClass, 8);
    FitsUnsigned(b.severity, 3);
    FitsUnsigned(b.confidence, 7);
    FitsSigned(b.x, 12);
    FitsSigned(b.y, 12);
    FitsSigned(b.z, 10);
    FitsUnsigned(b.radius, 10);
    FitsUnsigned(b.ttl, 8);
    assert es == [U(o.sourceRef, 32), U(b.hazardClass, 8), U(b.severity, 3), U(b.confidence, 7), S(b.x, 12), S(b.y, 12),
                  S(b.z, 10), U(b.radius, 10), U(b.ttl, 8)];
    assert AllFit(es) ==> Fits(es[2]) && Fits(es[3]) && Fits(es[4]) && Fits(es[5]) && Fits(es[6]) && Fits(es[7]);
  }

  lemma RequestInRange(major: byte, o: Object)
    requires o.body.RequestBody?
    ensures
      var b := o.body;
      AllFit(Entries(major, o)) <==> -2048 <= b.x <= 2047 && -2048 <= b.y <= 2047 && b.radius <= 1023
  {
    hide Fits, Pow2;
    SmallPowers();
    Pow2Values();
    var b, es := o.body, Entries(major, o);
    FitsUnsigned(o.sourceRef, 32);
    FitsUnsigned(b.requestClass, 8);
    FitsUnsigned(b.targetRef, 32);
    FitsSigned(b.x, 12);
    FitsSigned(b.y, 12);
    FitsUnsigned(b.radius, 10);
    FitsUnsigned(b.ttl, 8);
    assert es == [U(o.sourceRef, 32), U(b.requestClass, 8), U(b.targetRef, 32), S(b.x, 12), S(b.y, 12), U(b.radius, 10),
                  U(b.ttl, 8)];
    assert AllFit(es) ==> Fits(es[3]) && Fits(es[4]) && Fits(es[5]);
  }

  lemma TransportFits(major: byte, o: Object)
    requires o.body.TransportOfferBody? || o.body.TransportAcceptBody?
    ensures AllFit(Entries(major, o))
  {
    hide Fits, Pow2;
    SmallPowers();
    Pow2Values();
    var b, es := o.body, Entries(major, o);
    FitsUnsigned(o.sourceRef, 32);
    FitsUnsigned(b.migrationRef, 32);
    FitsUnsigned(b.transportId, 8);
    FitsUnsigned(b.profileId, 8);
    if b.TransportOfferBody? {
      FitsUnsigned(b.endpointToken, 32);
      FitsUnsigned(b.validity, 8);
    } else {
      FitsUnsigned(b.sessionRef, 32);
    }
  }

  lemma OthersInRange(major: byte, o: Object)
    requires o.body.PresenceBody? || o.body.AuthorityClaimBody? || o.body.DegradedStateBody?
    ensures InRange(o) <==> o.priority <= 3 && AllFit(Entries(major, o))
  {
    hide Fits, Pow2;
    SmallPowers();
    Pow2Values();
    var b, es := o.body, Entries(major, o);
    FitsUnsigned(o.sourceRef, 32);
    if b.PresenceBody? {
      FitsUnsigned(b.machineClass, 8);
      FitsUnsigned(b.capabilityTag, 24);
      FitsUnsigned(b.ttl, 8);
      assert es[|es| - 2] == U(b.capabilityTag, 24);
    } else if b.AuthorityClaimBody? {
      FitsUnsigned(b.authorityClass, 6);
      FitsUnsigned(b.jurisdiction, 12);
      FitsUnsigned(b.credentialRef, 32);
      FitsUnsigned(b.validity, 8);
      assert es[1] == U(b.authorityClass, 6) && es[2] == U(b.jurisdiction, 12);
    } else {
      FitsUnsigned(b.affectedCapability, 8);
      FitsUnsigned(b.health, 7);
      FitsUnsigned(b.severity, 3);
      FitsUnsigned(b.ttl, 8);
      assert es[2] == U(b.health, 7) && es[3] == U(b.severity, 3);
    }
  }

  // ---- where the members sit -----------------------------------------------------------------------------------

  ghost predicate Sits(bits: seq<bool>, offset: nat, width: nat, value: int) {
    offset + width <= |bits| && FieldAt(bits, Row(offset, width, false)) == value
  }

  ghost predicate SitsSigned(bits: seq<bool>, offset: nat, width: nat, value: int) {
    offset + width <= |bits| && FieldAt(bits, Row(offset, width, true)) == value
  }

  /** The members of an object at their bit positions, unsigned or in two's complement. */
  ghost predicate MembersSit(major: byte, o: Object, bits: seq<bool>) {
    && Sits(bits, 16, 32, o.sourceRef)
    && match o.body
       case PresenceBody(machineClass, capabilityTag, ttl) =>
         if major == 1 then
           Sits(bits, 48, 24, capabilityTag) && Sits(bits, 72, 8, ttl)
         else
           Sits(bits, 48, 8, machineClass) && Sits(bits, 56, 24, capabilityTag) && Sits(bits, 80, 8, ttl)
       case HazardBody(hazardClass, severity, confidence, x, y, z, radius, ttl) =>
         && Sits(bits, 48, 8, hazardClass) && Sits(bits, 56, 3, severity) && Sits(bits, 59, 7, confidence)
         && SitsSigned(bits, 66, 12, x) && SitsSigned(bits, 78, 12, y) && SitsSigned(bits, 90, 10, z)
         && Sits(bits, 100, 10, radius) && Sits(bits, 110, 8, ttl)
       case RequestBody(requestClass, targetRef, x, y, radius, ttl) =>
         && Sits(bits, 48, 8, requestClass) && Sits(bits, 56, 32, targetRef)
         && SitsSigned(bits, 88, 12, x) && SitsSigned(bits, 100, 12, y)
         && Sits(bits, 112, 10, radius) && Sits(bits, 122, 8, ttl)
       case AuthorityClaimBody(authorityClass, jurisdiction, credentialRef, validity) =>
         && Sits(bits, 48, 6, authorityClass) && Sits(bits, 54, 12, jurisdiction)
         && Sits(bits, 66, 32, credentialRef) && Sits(bits, 98, 8, validity)
       case DegradedStateBody(affectedCapability, health, severity, ttl) =>
         && Sits(bits, 48, 8, affectedCapability) && Sits(bits, 56, 7, health)
         && Sits(bits, 63, 3, severity) && Sits(bits, 66, 8, ttl)
       case TransportOfferBody(migrationRef, transportId, profileId, endpointToken, validity) =>
         && Sits(bits, 48, 32, migrationRef) && Sits(bits, 80, 8, transportId) && Sits(bits, 88, 8, profileId)
         && Sits(bits, 96, 32, endpointToken) && Sits(bits, 128, 8, validity)
       case TransportAcceptBody(migrationRef, transportId, profileId, sessionRef) =>
         && Sits(bits, 48, 32, migrationRef) && Sits(bits, 80, 8, transportId) && Sits(bits, 88, 8, profileId)
         && Sits(bits, 96, 32, sessionRef)
       case UnassignedBody => false
  }

  /** The encoder puts them there, ... */
  lemma EncodedMembersSit(major: byte, o: Object, extensionBit: byte)
    requires Encodable(major, o) && extensionBit <= 1
    ensures MembersSit(major, o, BufferBits(EncodedBytes(major, o, extensionBit)))
  {
    hide BufferBits, EncodedBytes, Encodable, FieldAt;
    EncodableIsAssigned(major, o);
    var bits := BufferBits(EncodedBytes(major, o, extensionBit));
    forall i | 0 <= i < |Table(major, o.body.Kind())|
      ensures Holds(o.body, bits, Table(major, o.body.Kind())[i])
    {
      FieldsSitWhereNamed(major, o, extensionBit, i);
    }
    FieldsSitWhereNamed(major, o, extensionBit, 0);
    TableInPlainNumbers(major, o, bits);
  }

  lemma EncodableIsAssigned(major: byte, o: Object)
    requires Encodable(major, o)
    ensures !o.body.UnassignedBody?
  {
    hide EncodeVerdict;
    MajorsCarry(major, o, 17);
  }

  ghost predicate Holds(b: Body, bits: seq<bool>, named: NamedRow) {
    && named.row.offset + named.row.width <= |bits|
    && GetField(b, named.name) == Found(FieldAt(bits, named.row))
  }

  lemma TableInPlainNumbers(major: byte, o: Object, bits: seq<bool>)
    requires !o.body.UnassignedBody? && Sits(bits, 16, 32, o.sourceRef)
    requires forall i | 0 <= i < |Table(major, o.body.Kind())| :: Holds(o.body, bits, Table(major, o.body.Kind())[i])
    ensures MembersSit(major, o, bits)
  {
    hide FieldAt;
    var t := Table(major, o.body.Kind());
    assert Holds(o.body, bits, t[0]) && Holds(o.body, bits, t[1]);
    assert |t| > 2 ==> Holds(o.body, bits, t[2]);
    assert |t| > 3 ==> Holds(o.body, bits, t[3]);
    assert |t| > 4 ==> Holds(o.body, bits, t[4]);
    assert |t| > 5 ==> Holds(o.body, bits, t[5]);
    assert |t| > 6 ==> Holds(o.body, bits, t[6]);
    assert |t| > 7 ==> Holds(o.body, bits, t[7]);
  }

  /** ... and the decoder takes them from there. */
  lemma DecodedMembersSit(data: seq<byte>)
    requires DecodeBody(data).Ok?
    ensures
      var d := DecodeBody(data).value;
      d.size <= |data| && MembersSit(d.major, d.obj, BufferBits(data[..d.size]))
  {
    hide DecodeBody, EncodedBytes, Encodable, MembersSit, BufferBits;
    EncodeOfDecode(data);
    var d := DecodeBody(data).value;
    EncodedMembersSit(d.major, d.obj, if d.extensionPresent then 1 else 0);
  }
}
