/** Tier-0 objects: their kinds, their layouts under the two majors, and the byte string of each. */
module Tier0 {
  import opened Machine
  import opened Bits
  import opened Fields

  const EXPERIMENTAL_MAJOR: byte := 0
  const STABLE_MAJOR: byte := 1
  const HEADER_SIZE := 2
  const TIER0_MAX_SIZE := 17

  /** The kinds an object can name. `Unassigned` stands for every kind number above the last. */
  datatype Kind =
    | Presence
    | Hazard
    | Request
    | AuthorityClaim
    | DegradedState
    | TransportOffer
    | TransportAccept
    | Unassigned

  datatype Body =
    | PresenceBody(machineClass: byte, capabilityTag: uint32, ttl: byte)
    | HazardBody(hazardClass: byte, severity: byte, confidence: byte, x: int16, y: int16, z: int16, radius: uint16, ttl: byte)
    | RequestBody(requestClass: byte, targetRef: uint32, x: int16, y: int16, radius: uint16, ttl: byte)
    | AuthorityClaimBody(authorityClass: byte, jurisdiction: uint16, credentialRef: uint32, validity: byte)
    | DegradedStateBody(affectedCapability: byte, health: byte, severity: byte, ttl: byte)
    | TransportOfferBody(migrationRef: uint32, transportId: byte, profileId: byte, endpointToken: uint32, validity: byte)
    | TransportAcceptBody(migrationRef: uint32, transportId: byte, profileId: byte, sessionRef: uint32)
    | UnassignedBody
  {
    function Kind(): Kind {
      match this
      case PresenceBody(_, _, _) => Presence
      case HazardBody(_, _, _, _, _, _, _, _) => Hazard
      case RequestBody(_, _, _, _, _, _) => Request
      case AuthorityClaimBody(_, _, _, _) => AuthorityClaim
      case DegradedStateBody(_, _, _, _) => DegradedState
      case TransportOfferBody(_, _, _, _, _) => TransportOffer
      case TransportAcceptBody(_, _, _, _) => TransportAccept
      case UnassignedBody => Unassigned
    }
  }

  datatype Object = Object(priority: byte, sourceRef: uint32, body: Body)

  datatype Header = Header(major: byte, category: byte, opcode: byte, priority: byte, extensionPresent: byte)

  /** Which major may carry which kind. A stable major carries only stable semantics. */
  predicate Allowed(major: byte, kind: Kind) {
    if major == EXPERIMENTAL_MAJOR then kind != Unassigned
    else major == STABLE_MAJOR && kind in {Presence, TransportOffer, TransportAccept}
  }

  function EncodedSize(kind: Kind): nat {
    match kind
    case Presence => 11
    case Hazard => 15
    case Request => 17
    case AuthorityClaim => 14
    case DegradedState => 10
    case TransportOffer => 17
    case TransportAccept => 16
    case Unassigned => 0
  }

  /** The size of a kind at a major, 0 when the major does not carry it. */
  function EncodedSizeAtMajor(major: byte, kind: Kind): nat {
    if !Allowed(major, kind) then 0
    else if major == STABLE_MAJOR && kind == Presence then 10
    else EncodedSize(kind)
  }

  function KindToCode(kind: Kind): (byte, byte) {
    match kind
    case Presence => (0, 0)
    case Hazard => (3, 1)
    case Request => (5, 1)
    case AuthorityClaim => (1, 1)
    case DegradedState => (6, 1)
    case TransportOffer => (8, 0)
    case TransportAccept => (8, 1)
    case Unassigned => (0xFF, 0xFF)
  }

  function CodeToKind(category: byte, opcode: byte): Result<Kind> {
    if category == 0 && opcode == 0 then Ok(Presence)
    else if category == 3 && opcode == 1 then Ok(Hazard)
    else if category == 5 && opcode == 1 then Ok(Request)
    else if category == 1 && opcode == 1 then Ok(AuthorityClaim)
    else if category == 6 && opcode == 1 then Ok(DegradedState)
    else if category == 8 && opcode == 0 then Ok(TransportOffer)
    else if category == 8 && opcode == 1 then Ok(TransportAccept)
    else Err(UnsupportedSemantic)
  }

  function EncodeHeader(h: Header): (r: Result<seq<byte>>)
    ensures r.Ok? ==> |r.value| == HEADER_SIZE
  {
    if h.major > 15 || h.category > 15 || h.opcode > 31 || h.priority > 3 || h.extensionPresent > 1 then
      Err(OutOfRange)
    else
      Ok([16 * h.major + h.category, 8 * h.opcode + 2 * h.priority + h.extensionPresent])
  }

  function DecodeHeader(data: seq<byte>): Header
    requires |data| >= HEADER_SIZE
  {
    Header(data[0] / 16, data[0] % 16, data[1] / 8, data[1] / 2 % 4, data[1] % 2)
  }

  /** The header of an object. */
  function HeaderOf(major: byte, kind: Kind, priority: byte, extensionBit: byte): Header {
    Header(major, KindToCode(kind).0, KindToCode(kind).1, priority, extensionBit)
  }

  /** The body fields in the order the encoder writes them. */
  function BodyEntries(major: byte, b: Body): seq<Entry> {
    match b
    case PresenceBody(machineClass, capabilityTag, ttl) =>
      (if major != STABLE_MAJOR then [U(machineClass, 8)] else []) + [U(capabilityTag, 24), U(ttl, 8)]
    case HazardBody(hazardClass, severity, confidence, x, y, z, radius, ttl) =>
      [U(hazardClass, 8), U(severity, 3), U(confidence, 7), S(x, 12), S(y, 12), S(z, 10), U(radius, 10), U(ttl, 8)]
    case RequestBody(requestClass, targetRef, x, y, radius, ttl) =>
      [U(requestClass, 8), U(targetRef, 32), S(x, 12), S(y, 12), U(radius, 10), U(ttl, 8)]
    case AuthorityClaimBody(authorityClass, jurisdiction, credentialRef, validity) =>
      [U(authorityClass, 6), U(jurisdiction, 12), U(credentialRef, 32), U(validity, 8)]
    case DegradedStateBody(affectedCapability, health, severity, ttl) =>
      [U(affectedCapability, 8), U(health, 7), U(severity, 3), U(ttl, 8)]
    case TransportOfferBody(migrationRef, transportId, profileId, endpointToken, validity) =>
      [U(migrationRef, 32), U(transportId, 8), U(profileId, 8), U(endpointToken, 32), U(validity, 8)]
    case TransportAcceptBody(migrationRef, transportId, profileId, sessionRef) =>
      [U(migrationRef, 32), U(transportId, 8), U(profileId, 8), U(sessionRef, 32)]
    case UnassignedBody => []
  }

  /** Everything after the header: the source reference, then the body. */
  function Entries(major: byte, o: Object): seq<Entry> {
    [U(o.sourceRef, 32)] + BodyEntries(major, o.body)
  }

  /** What the object loses at a major: the stable PRESENCE has no machine class. */
  function Erased(major: byte, o: Object): Object {
    if major == STABLE_MAJOR && o.body.PresenceBody? then o.(body := o.body.(machineClass := 0)) else o
  }

  /** Why an object cannot be encoded at a major, or `Pass`. */
  function EncodeVerdict(major: byte, o: Object, capacity: nat): Outcome {
    var size := EncodedSizeAtMajor(major, o.body.Kind());
    if size == 0 then Fail(UnsupportedSemantic)
    else if capacity < size then Fail(BufferTooSmall)
    else if o.priority > 3 || !AllFit(Entries(major, o)) then Fail(OutOfRange)
    else Pass
  }

  predicate Encodable(major: byte, o: Object) {
    EncodeVerdict(major, o, TIER0_MAX_SIZE) == Pass
  }

  /** How many padding bits end the object. */
  function PadBits(major: byte, o: Object): nat
    requires EncodedSizeAtMajor(major, o.body.Kind()) != 0
  {
    TotalOfEntries(major, o);
    RowsTile(major, o.body.Kind());
    8 * EncodedSizeAtMajor(major, o.body.Kind()) - 16 - Total(Entries(major, o))
  }

  lemma PayloadFits(major: byte, o: Object)
    requires EncodedSizeAtMajor(major, o.body.Kind()) != 0
    ensures
      EncodedSizeAtMajor(major, o.body.Kind()) >= HEADER_SIZE &&
      |Print(Entries(major, o)) + Zeros(PadBits(major, o))| == 8 * (EncodedSizeAtMajor(major, o.body.Kind()) - HEADER_SIZE)
  {
    hide Print, Rows;
    TotalOfEntries(major, o);
    RowsTile(major, o.body.Kind());
  }

  function PayloadBits(major: byte, o: Object): (r: seq<bool>)
    requires EncodedSizeAtMajor(major, o.body.Kind()) != 0
    ensures |r| == 8 * (EncodedSizeAtMajor(major, o.body.Kind()) - HEADER_SIZE)
  {
    PayloadFits(major, o);
    Print(Entries(major, o)) + Zeros(PadBits(major, o))
  }

  /** The bytes behind the header: the fields and their padding, packed. */
  function Payload(major: byte, o: Object): (r: seq<byte>)
    requires EncodedSizeAtMajor(major, o.body.Kind()) != 0
    ensures |r| == EncodedSizeAtMajor(major, o.body.Kind()) - HEADER_SIZE
  {
    Pack(PayloadBits(major, o))
  }

  /** The object's one byte string at a major, with the extension bit as given. */
  function EncodedBytes(major: byte, o: Object, extensionBit: byte): (r: seq<byte>)
    requires Encodable(major, o) && extensionBit <= 1
    ensures |r| == EncodedSizeAtMajor(major, o.body.Kind())
  {
    EncodeHeader(HeaderOf(major, o.body.Kind(), o.priority, extensionBit)).value + Payload(major, o)
  }

  /** The unsigned field at a bit position. */
  function UAt(bits: seq<bool>, offset: nat, width: nat): (v: nat)
    requires offset + width <= |bits| && width <= 32
    ensures v < 0x1_0000_0000
    ensures width <= 16 ==> v < 0x1_0000
    ensures width <= 8 ==> v < 0x100
    ensures v == FieldAt(bits, Row(offset, width, false))
  {
    UnsignedFits(bits, offset, width);
    FieldAt(bits, Row(offset, width, false))
  }

  lemma UnsignedFits(bits: seq<bool>, offset: nat, width: nat)
    requires offset + width <= |bits| && width <= 32
    ensures
      var v := FieldAt(bits, Row(offset, width, false));
      && 0 <= v < 0x1_0000_0000
      && (width <= 16 ==> v < 0x1_0000)
      && (width <= 8 ==> v < 0x100)
  {
    Pow2Values();
    Pow2Monotone(width, 32);
    if width <= 16 {
      Pow2Monotone(width, 16);
    }
    if width <= 8 {
      Pow2Monotone(width, 8);
    }
  }

  /** The two's-complement field at a bit position. */
  function SAt(bits: seq<bool>, offset: nat, width: nat): (v: int)
    requires offset + width <= |bits| && 1 <= width <= 16
    ensures -0x8000 <= v < 0x8000
    ensures v == FieldAt(bits, Row(offset, width, true))
  {
    FieldBitsOfFieldAt(bits, Row(offset, width, true));
    assert Pow2(15) == 0x8000;
    Pow2Monotone(width - 1, 15);
    FieldAt(bits, Row(offset, width, true))
  }

  /**
   * The layout tables: where each field sits, counted in bits from the start of the object, and how
   * it is coded. The first row is the source reference, which every object has.
   */
  function Rows(major: byte, kind: Kind): seq<Row> {
    match kind
    case Presence =>
      if major == STABLE_MAJOR then
        [Row(16, 32, false), Row(48, 24, false), Row(72, 8, false)]
      else
        [Row(16, 32, false), Row(48, 8, false), Row(56, 24, false), Row(80, 8, false)]
    case Hazard =>
      [Row(16, 32, false), Row(48, 8, false), Row(56, 3, false), Row(59, 7, false), Row(66, 12, true),
       Row(78, 12, true), Row(90, 10, true), Row(100, 10, false), Row(110, 8, false)]
    case Request =>
      [Row(16, 32, false), Row(48, 8, false), Row(56, 32, false), Row(88, 12, true), Row(100, 12, true),
       Row(112, 10, false), Row(122, 8, false)]
    case AuthorityClaim =>
      [Row(16, 32, false), Row(48, 6, false), Row(54, 12, false), Row(66, 32, false), Row(98, 8, false)]
    case DegradedState =>
      [Row(16, 32, false), Row(48, 8, false), Row(56, 7, false), Row(63, 3, false), Row(66, 8, false)]
    case TransportOffer =>
      [Row(16, 32, false), Row(48, 32, false), Row(80, 8, false), Row(88, 8, false), Row(96, 32, false),
       Row(128, 8, false)]
    case TransportAccept =>
      [Row(16, 32, false), Row(48, 32, false), Row(80, 8, false), Row(88, 8, false), Row(96, 32, false)]
    case Unassigned => [Row(16, 32, false)]
  }

  /** Where the padding of a kind begins. */
  function PadStart(major: byte, kind: Kind): nat {
    End(Rows(major, kind), 16)
  }

  /** The rows tile the object from the header on, and leave less than a byte of padding. */
  lemma RowsTile(major: byte, kind: Kind)
    ensures Tiles(Rows(major, kind), 16)
    ensures forall i | 0 <= i < |Rows(major, kind)| :: Sane(Rows(major, kind)[i])
    ensures Within(Rows(major, kind), PadStart(major, kind))
    ensures PadStart(major, kind) >= 48
    ensures Allowed(major, kind) ==>
              8 * EncodedSizeAtMajor(major, kind) - 8 < PadStart(major, kind) <= 8 * EncodedSizeAtMajor(major, kind)
  {
    RowsAreSane(major, kind);
    RowsEndInside(major, kind);
  }

  lemma RowsAreSane(major: byte, kind: Kind)
    ensures forall i | 0 <= i < |Rows(major, kind)| :: Sane(Rows(major, kind)[i])
    ensures Tiles(Rows(major, kind), 16)
  {
  }

  lemma RowsEndInside(major: byte, kind: Kind)
    ensures Within(Rows(major, kind), PadStart(major, kind))
    ensures PadStart(major, kind) >= 48
    ensures Allowed(major, kind) ==>
              8 * EncodedSizeAtMajor(major, kind) - 8 < PadStart(major, kind) <= 8 * EncodedSizeAtMajor(major, kind)
  {
  }

  /** The encoder's fields have the codings and widths the tables give. */
  lemma EntriesMatchRows(major: byte, o: Object)
    ensures Matches(Entries(major, o), Rows(major, o.body.Kind()))
  {
    if o.body.HazardBody? {
      HazardMatchesRows(major, o);
    } else if o.body.RequestBody? || o.body.TransportOfferBody? {
      LongBodyMatchesRows(major, o);
    }
  }

  lemma HazardMatchesRows(major: byte, o: Object)
    requires o.body.HazardBody?
    ensures Matches(Entries(major, o), Rows(major, Hazard))
  {
  }

  lemma LongBodyMatchesRows(major: byte, o: Object)
    requires o.body.RequestBody? || o.body.TransportOfferBody?
    ensures Matches(Entries(major, o), Rows(major, o.body.Kind()))
  {
  }

  /** The widths of the fields add up to where the padding begins. */
  lemma TotalOfEntries(major: byte, o: Object)
    ensures 16 + Total(Entries(major, o)) == PadStart(major, o.body.Kind())
  {
    RowsTile(major, o.body.Kind());
    EntriesMatchRows(major, o);
    TileOffsets(Entries(major, o), Rows(major, o.body.Kind()), 16);
  }

  function PresenceAt(major: byte, bits: seq<bool>): Body
    requires |bits| >= PadStart(major, Presence)
  {
    if major == STABLE_MAJOR then PresenceBody(0, UAt(bits, 48, 24), UAt(bits, 72, 8))
    else PresenceBody(UAt(bits, 48, 8), UAt(bits, 56, 24), UAt(bits, 80, 8))
  }

  function HazardAt(bits: seq<bool>): Body
    requires |bits| >= 118
  {
    HazardBody(UAt(bits, 48, 8), UAt(bits, 56, 3), UAt(bits, 59, 7), SAt(bits, 66, 12), SAt(bits, 78, 12),
               SAt(bits, 90, 10), UAt(bits, 100, 10), UAt(bits, 110, 8))
  }

  function RequestAt(bits: seq<bool>): Body
    requires |bits| >= 130
  {
    RequestBody(UAt(bits, 48, 8), UAt(bits, 56, 32), SAt(bits, 88, 12), SAt(bits, 100, 12), UAt(bits, 112, 10),
                UAt(bits, 122, 8))
  }

  function AuthorityClaimAt(bits: seq<bool>): Body
    requires |bits| >= 106
  {
    AuthorityClaimBody(UAt(bits, 48, 6), UAt(bits, 54, 12), UAt(bits, 66, 32), UAt(bits, 98, 8))
  }

  function DegradedStateAt(bits: seq<bool>): Body
    requires |bits| >= 74
  {
    DegradedStateBody(UAt(bits, 48, 8), UAt(bits, 56, 7), UAt(bits, 63, 3), UAt(bits, 66, 8))
  }

  function TransportOfferAt(bits: seq<bool>): Body
    requires |bits| >= 136
  {
    TransportOfferBody(UAt(bits, 48, 32), UAt(bits, 80, 8), UAt(bits, 88, 8), UAt(bits, 96, 32), UAt(bits, 128, 8))
  }

  function TransportAcceptAt(bits: seq<bool>): Body
    requires |bits| >= 128
  {
    TransportAcceptBody(UAt(bits, 48, 32), UAt(bits, 80, 8), UAt(bits, 88, 8), UAt(bits, 96, 32))
  }

  /** The body that sits in the bits of an object, by absolute position. */
  function BodyAt(major: byte, kind: Kind, bits: seq<bool>): (b: Body)
    requires |bits| >= PadStart(major, kind)
    ensures b.Kind() == kind
  {
    match kind
    case Presence => PresenceAt(major, bits)
    case Hazard => HazardAt(bits)
    case Request => RequestAt(bits)
    case AuthorityClaim => AuthorityClaimAt(bits)
    case DegradedState => DegradedStateAt(bits)
    case TransportOffer => TransportOfferAt(bits)
    case TransportAccept => TransportAcceptAt(bits)
    case Unassigned => UnassignedBody
  }

  function ObjectAt(major: byte, kind: Kind, priority: byte, bits: seq<bool>): (o: Object)
    requires |bits| >= PadStart(major, kind)
    ensures o.body.Kind() == kind
  {
    RowsTile(major, kind);
    Object(priority, UAt(bits, 16, 32), BodyAt(major, kind, bits))
  }

  predicate ZeroFrom(bits: seq<bool>, from: nat) {
    forall p | from <= p < |bits| :: !bits[p]
  }

  datatype DecodedBody = DecodedBody(major: byte, obj: Object, extensionPresent: bool, size: nat)

  /** The body decoder once the header has named a kind. */
  function DecodeKnown(h: Header, kind: Kind, data: seq<byte>): Result<DecodedBody> {
    var size := EncodedSizeAtMajor(h.major, kind);
    if size == 0 then Err(UnsupportedSemantic)
    else if |data| < size then Err(Truncated)
    else
      RowsTile(h.major, kind);
      var bits := BufferBits(data[..size]);
      if !ZeroFrom(bits, PadStart(h.major, kind)) then Err(Noncanonical)
      else Ok(DecodedBody(h.major, ObjectAt(h.major, kind, h.priority, bits), h.extensionPresent == 1, size))
  }

  /** What the body decoder answers, for every byte string. It does not look at the extension bit. */
  function DecodeBody(data: seq<byte>): Result<DecodedBody> {
    if |data| < HEADER_SIZE then Err(Truncated)
    else
      var h := DecodeHeader(data);
      if h.major != EXPERIMENTAL_MAJOR && h.major != STABLE_MAJOR then Err(UnsupportedSemantic)
      else
        var kind := CodeToKind(h.category, h.opcode);
        if kind.Err? then Err(kind.error) else DecodeKnown(h, kind.value, data)
  }
}
