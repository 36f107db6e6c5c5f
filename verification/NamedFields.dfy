/** The layout tables with the names of their fields: which member of the object each row holds. */
module NamedFields {
  import opened Machine
  import opened Bits
  import opened Fields
  import opened Tier0
  import opened Tier0Laws
  import opened LayoutTable

  datatype Name =
    | MachineClass | CapabilityTag | Ttl
    | HazardClass | Severity | Confidence | X | Y | Z | Radius
    | RequestClass | TargetRef
    | AuthorityClass | Jurisdiction | CredentialRef | Validity
    | AffectedCapability | Health
    | MigrationRef | TransportId | ProfileId | EndpointToken | SessionRef

  datatype NamedRow = NamedRow(name: Name, row: Row)

  datatype Found = Absent | Found(value: int)

  function Unsigned(name: Name, offset: nat, width: nat): NamedRow {
    NamedRow(name, Row(offset, width, false))
  }

  function Signed(name: Name, offset: nat, width: nat): NamedRow {
    NamedRow(name, Row(offset, width, true))
  }

  /** The body fields of a kind, after the source reference. The stable PRESENCE has no machine class. */
  function Table(major: byte, kind: Kind): seq<NamedRow> {
    match kind
    case Presence =>
      if major == STABLE_MAJOR then
        [Unsigned(CapabilityTag, 48, 24), Unsigned(Ttl, 72, 8)]
      else
        [Unsigned(MachineClass, 48, 8), Unsigned(CapabilityTag, 56, 24), Unsigned(Ttl, 80, 8)]
    case Hazard =>
      [Unsigned(HazardClass, 48, 8), Unsigned(Severity, 56, 3), Unsigned(Confidence, 59, 7), Signed(X, 66, 12),
       Signed(Y, 78, 12), Signed(Z, 90, 10), Unsigned(Radius, 100, 10), Unsigned(Ttl, 110, 8)]
    case Request =>
      [Unsigned(RequestClass, 48, 8), Unsigned(TargetRef, 56, 32), Signed(X, 88, 12), Signed(Y, 100, 12),
       Unsigned(Radius, 112, 10), Unsigned(Ttl, 122, 8)]
    case AuthorityClaim =>
      [Unsigned(AuthorityClass, 48, 6), Unsigned(Jurisdiction, 54, 12), Unsigned(CredentialRef, 66, 32),
       Unsigned(Validity, 98, 8)]
    case DegradedState =>
      [Unsigned(AffectedCapability, 48, 8), Unsigned(Health, 56, 7), Unsigned(Severity, 63, 3), Unsigned(Ttl, 66, 8)]
    case TransportOffer =>
      [Unsigned(MigrationRef, 48, 32), Unsigned(TransportId, 80, 8), Unsigned(ProfileId, 88, 8),
       Unsigned(EndpointToken, 96, 32), Unsigned(Validity, 128, 8)]
    case TransportAccept =>
      [Unsigned(MigrationRef, 48, 32), Unsigned(TransportId, 80, 8), Unsigned(ProfileId, 88, 8),
       Unsigned(SessionRef, 96, 32)]
    case Unassigned => []
  }

  /** The member of an object under a name, if its kind has one. */
  function GetField(b: Body, name: Name): Found {
    match b
    case PresenceBody(machineClass, capabilityTag, ttl) => (
      match name
      case MachineClass => Found(machineClass)
      case CapabilityTag => Found(capabilityTag)
      case Ttl => Found(ttl)
      case _ => Absent
    )
    case HazardBody(hazardClass, severity, confidence, x, y, z, radius, ttl) => (
      match name
      case HazardClass => Found(hazardClass)
      case Severity => Found(severity)
      case Confidence => Found(confidence)
      case X => Found(x)
      case Y => Found(y)
      case Z => Found(z)
      case Radius => Found(radius)
      case Ttl => Found(ttl)
      case _ => Absent
    )
    case RequestBody(requestClass, targetRef, x, y, radius, ttl) => (
      match name
      case RequestClass => Found(requestClass)
      case TargetRef => Found(targetRef)
      case X => Found(x)
      case Y => Found(y)
      case Radius => Found(radius)
      case Ttl => Found(ttl)
      case _ => Absent
    )
    case AuthorityClaimBody(authorityClass, jurisdiction, credentialRef, validity) => (
      match name
      case AuthorityClass => Found(authorityClass)
      case Jurisdiction => Found(jurisdiction)
      case CredentialRef => Found(credentialRef)
      case Validity => Found(validity)
      case _ => Absent
    )
    case DegradedStateBody(affectedCapability, health, severity, ttl) => (
      match name
      case AffectedCapability => Found(affectedCapability)
      case Health => Found(health)
      case Severity => Found(severity)
      case Ttl => Found(ttl)
      case _ => Absent
    )
    case TransportOfferBody(migrationRef, transportId, profileId, endpointToken, validity) => (
      match name
      case MigrationRef => Found(migrationRef)
      case TransportId => Found(transportId)
      case ProfileId => Found(profileId)
      case EndpointToken => Found(endpointToken)
      case Validity => Found(validity)
      case _ => Absent
    )
    case TransportAcceptBody(migrationRef, transportId, profileId, sessionRef) => (
      match name
      case MigrationRef => Found(migrationRef)
      case TransportId => Found(transportId)
      case ProfileId => Found(profileId)
      case SessionRef => Found(sessionRef)
      case _ => Absent
    )
    case UnassignedBody => Absent
  }

  /** The named rows are the rows of the codec, behind the source reference. */
  lemma TableIsRows(major: byte, kind: Kind)
    ensures |Rows(major, kind)| == |Table(major, kind)| + 1 && Rows(major, kind)[0] == Row(16, 32, false)
    ensures forall i | 0 <= i < |Table(major, kind)| :: Rows(major, kind)[i + 1] == Table(major, kind)[i].row
  {
  }

  /** The encoder's fields are the members of the names, in the order of the table. */
  lemma EntryIsNamed(major: byte, o: Object, i: nat)
    requires i < |Table(major, o.body.Kind())|
    ensures |Entries(major, o)| == |Table(major, o.body.Kind())| + 1
    ensures GetField(o.body, Table(major, o.body.Kind())[i].name) == Found(Entries(major, o)[i + 1].value)
  {
    assert Entries(major, o)[i + 1] == BodyEntries(major, o.body)[i];
    if o.body.HazardBody? {
      HazardEntryIsNamed(o.body, i);
    } else if o.body.RequestBody? {
      RequestEntryIsNamed(o.body, i);
    } else {
      OtherEntryIsNamed(major, o.body, i);
    }
  }

  lemma HazardEntryIsNamed(b: Body, i: nat)
    requires b.HazardBody? && i < 8
    ensures |BodyEntries(0, b)| == 8 && GetField(b, Table(0, Hazard)[i].name) == Found(BodyEntries(0, b)[i].value)
  {
  }

  lemma RequestEntryIsNamed(b: Body, i: nat)
    requires b.RequestBody? && i < 6
    ensures |BodyEntries(0, b)| == 6 && GetField(b, Table(0, Request)[i].name) == Found(BodyEntries(0, b)[i].value)
  {
  }

  lemma OtherEntryIsNamed(major: byte, b: Body, i: nat)
    requires !b.HazardBody? && !b.RequestBody? && i < |Table(major, b.Kind())|
    ensures |BodyEntries(major, b)| == |Table(major, b.Kind())|
    ensures GetField(b, Table(major, b.Kind())[i].name) == Found(BodyEntries(major, b)[i].value)
  {
  }

  predicate Lists(table: seq<NamedRow>, name: Name) {
    exists i | 0 <= i < |table| :: table[i].name == name
  }

  /** The table has exactly the members of an object, but for the machine class that the stable major drops. */
  lemma TableNamesEachMember(major: byte, b: Body, name: Name)
    ensures
      Lists(Table(major, b.Kind()), name) <==>
      GetField(b, name).Found? && !(major == STABLE_MAJOR && name == MachineClass)
  {
    var t := Table(major, b.Kind());
    var o := Object(0, 0, b);
    if i :| 0 <= i < |t| && t[i].name == name {
      EntryIsNamed(major, o, i);
    }
    if GetField(b, name).Found? && !(major == STABLE_MAJOR && name == MachineClass) {
      MemberHasARow(major, b, name);
    }
  }

  lemma MemberHasARow(major: byte, b: Body, name: Name)
    requires GetField(b, name).Found? && !(major == STABLE_MAJOR && name == MachineClass)
    ensures Lists(Table(major, b.Kind()), name)
  {
    if b.HazardBody? {
      HazardMemberHasARow(b, name);
    } else {
      var t := Table(major, b.Kind());
      assert t[0].name == name || t[1].name == name
             || (|t| > 2 && t[2].name == name)
             || (|t| > 3 && t[3].name == name)
             || (|t| > 4 && t[4].name == name)
             || (|t| > 5 && t[5].name == name);
    }
  }

  lemma HazardMemberHasARow(b: Body, name: Name)
    requires b.HazardBody? && GetField(b, name).Found?
    ensures Lists(Table(0, Hazard), name)
  {
    var t := Table(0, Hazard);
    assert t[0].name == name || t[1].name == name || t[2].name == name || t[3].name == name
           || t[4].name == name || t[5].name == name || t[6].name == name || t[7].name == name;
  }

  lemma NamesDiffer(major: byte, kind: Kind, i: nat, j: nat)
    requires i < j < |Table(major, kind)|
    ensures Table(major, kind)[i].name != Table(major, kind)[j].name
  {
  }

  /** In the bytes of an object every row of the table holds the member it is named for. */
  lemma FieldsSitWhereNamed(major: byte, o: Object, extensionBit: byte, i: nat)
    requires Encodable(major, o) && extensionBit <= 1 && i < |Table(major, o.body.Kind())|
    ensures
      var named, bits := Table(major, o.body.Kind())[i], BufferBits(EncodedBytes(major, o, extensionBit));
      && named.row.offset + named.row.width <= |bits|
      && GetField(o.body, named.name) == Found(FieldAt(bits, named.row))
      && 48 <= |bits| && FieldAt(bits, Row(16, 32, false)) == o.sourceRef
  {
    hide BufferBits, EncodedBytes, Encodable, FieldAt, GetField;
    EncodedRowsRead(major, o, extensionBit);
    TableIsRows(major, o.body.Kind());
    EntryIsNamed(major, o, i);
    assert Rows(major, o.body.Kind())[i + 1] == Table(major, o.body.Kind())[i].row;
    assert Rows(major, o.body.Kind())[0] == Row(16, 32, false) && Entries(major, o)[0].value == o.sourceRef;
  }

  /** And what the decoder accepts has under every name what the row of that name held. */
  lemma DecodedFieldsAreNamed(data: seq<byte>, i: nat)
    requires DecodeBody(data).Ok? && i < |Table(DecodeBody(data).value.major, DecodeBody(data).value.obj.body.Kind())|
    ensures
      var d := DecodeBody(data).value;
      var named := Table(d.major, d.obj.body.Kind())[i];
      && d.size <= |data| && named.row.offset + named.row.width <= 8 * d.size
      && GetField(d.obj.body, named.name) == Found(FieldAt(BufferBits(data[..d.size]), named.row))
  {
    hide DecodeBody, EncodedBytes, Encodable, FieldAt, GetField;
    EncodeOfDecode(data);
    var d := DecodeBody(data).value;
    FieldsSitWhereNamed(d.major, d.obj, if d.extensionPresent then 1 else 0, i);
  }
}
