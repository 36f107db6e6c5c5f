/** The benchmark's event reader, and the size of an event's compact JSON text without printing it. */
module Event {
  const KEY_CAPACITY := 32
  const MAX_FIELDS := 16
  const INT64_MIN := -0x8000_0000_0000_0000
  const INT64_MAX := 0x7FFF_FFFF_FFFF_FFFF

  const NAMES: seq<string> := [
    "type", "priority", "source_ref", "machine_class", "capability_tag", "ttl",
    "hazard_class", "severity", "confidence", "x", "y", "z", "radius",
    "request_class", "target_ref", "authority_class", "jurisdiction",
    "credential_ref", "validity", "affected_capability", "health",
    "transport_id", "profile_id", "endpoint_token"
  ]

  datatype Field = Field(key: string, value: int)

  /** What a parsing step says: the position after what it read, or nothing. */
  datatype Parsed<T> = Failed | At(next: nat, value: T)

  // ---- Characters ----

  predicate IsSpace(c: char) {
    c == ' ' || c == '\t' || c == '\n' || c == '\U{000B}' || c == '\U{000C}' || c == '\r'
  }

  predicate IsDigit(c: char) {
    '0' <= c <= '9'
  }

  predicate AllDigits(s: string) {
    forall i | 0 <= i < |s| :: IsDigit(s[i])
  }

  predicate AllPlain(s: string) {
    forall i | 0 <= i < |s| :: IsPlain(s[i])
  }

  predicate IsPlain(c: char) {
    c != '\"' && c != '\\' && c != '\0'
  }

  function DigitChar(d: nat): (c: char)
    requires d < 10
    ensures IsDigit(c) && DigitOf(c) == d
  {
    '0' + d as char
  }

  function DigitOf(c: char): nat {
    if IsDigit(c) then c as int - '0' as int else 0
  }

  // ---- Reading, as functions of the text ----

  /** The first position at or after `at` that holds no space. */
  function Skip(text: string, at: nat): (r: nat)
    requires at <= |text|
    ensures at <= r <= |text|
    decreases |text| - at
  {
    if at < |text| && IsSpace(text[at]) then Skip(text, at + 1) else at
  }

  function StringStop(text: string, at: nat): (r: nat)
    requires at <= |text|
    ensures at <= r <= |text|
    decreases |text| - at
  {
    if at < |text| && text[at] != '\"' && text[at] != '\\' then StringStop(text, at + 1) else at
  }

  function DigitStop(text: string, at: nat): (r: nat)
    requires at <= |text|
    ensures at <= r <= |text|
    decreases |text| - at
  {
    if at < |text| && IsDigit(text[at]) then DigitStop(text, at + 1) else at
  }

  /** A quoted string with no escapes in it, short enough for a buffer of `capacity` with its terminator. */
  function StringAt(text: string, at: nat, capacity: nat): Parsed<string>
    requires at <= |text|
  {
    var p := Skip(text, at);
    if p >= |text| || text[p] != '\"' then Failed
    else
      var stop := StringStop(text, p + 1);
      if stop < |text| && text[stop] == '\"' && (stop == p + 1 || stop - (p + 1) < capacity)
      then At(stop + 1, text[p + 1..stop])
      else Failed
  }

  /** What a buffer holds for those who read it up to its terminator. */
  function CString(s: string): string {
    if s == [] || s[0] == '\0' then [] else [s[0]] + CString(s[1..])
  }

  /** The number some digits write down, however many there are. */
  function NumberOf(digits: string): nat {
    if digits == [] then 0
    else 10 * NumberOf(digits[..|digits| - 1]) + DigitOf(digits[|digits| - 1])
  }

  /** The number written between two positions. */
  function NumberIn(text: string, at: nat, end: nat): nat
    requires at <= end <= |text|
  {
    if at == end then 0 else 10 * NumberIn(text, at, end - 1) + DigitOf(text[end - 1])
  }

  /** What 64 bits keep of a number. */
  function Low64(n: nat): nat {
    n % 0x1_0000_0000_0000_0000
  }

  function IntegerAt(text: string, at: nat): Parsed<int>
    requires at <= |text|
  {
    var p := Skip(text, at);
    if p < |text| && text[p] == '-' then DigitsAt(text, p + 1, true) else DigitsAt(text, p, false)
  }

  function DigitsAt(text: string, at: nat, negative: bool): (r: Parsed<int>)
    requires at <= |text|
    ensures r.At? ==> at < r.next <= |text|
  {
    var stop := DigitStop(text, at);
    if stop == at then Failed else Narrowed(stop, negative, Low64(NumberIn(text, at, stop)))
  }

  function Narrowed(next: nat, negative: bool, magnitude: int): Parsed<int> {
    var value: int := if negative then -magnitude else magnitude;
    if INT64_MIN <= value <= INT64_MAX then At(next, value) else Failed
  }

  function MemberAt(names: seq<string>, text: string, at: nat): (r: Parsed<Field>)
    requires at <= |text|
    ensures r.At? ==> at < r.next <= |text|
  {
    match StringAt(text, at, KEY_CAPACITY)
    case Failed => Failed
    case At(p, raw) =>
      var q := Skip(text, p);
      if CString(raw) !in names || q >= |text| || text[q] != ':' then Failed
      else
        match IntegerAt(text, q + 1)
        case Failed => Failed
        case At(next, value) => At(next, Field(CString(raw), value))
  }

  /** The rest of an object, `done` being the fields already read. */
  function MembersAt(names: seq<string>, text: string, at: nat, done: seq<Field>): Parsed<seq<Field>>
    requires at <= |text|
    decreases |text| - at
  {
    var p := Skip(text, at);
    if p < |text| && text[p] == '}' then At(p + 1, done)
    else if |done| >= MAX_FIELDS then Failed
    else
      match MemberAt(names, text, p)
      case Failed => Failed
      case At(q, field) =>
        var s := Skip(text, q);
        if s >= |text| then Failed
        else if text[s] == ',' then MembersAt(names, text, s + 1, done + [field])
        else if text[s] == '}' then At(s + 1, done + [field])
        else Failed
  }

  function EventAt(names: seq<string>, text: string, at: nat): Parsed<seq<Field>>
    requires at <= |text|
  {
    var p := Skip(text, at);
    if p >= |text| || text[p] != '{' then Failed else MembersAt(names, text, p + 1, [])
  }

  // ---- Printing: section 4 of RFC 8259, without spaces ----

  function Decimal(n: nat): (s: string)
    ensures s != [] && AllDigits(s)
  {
    if n < 10 then [DigitChar(n)] else Decimal(n / 10) + [DigitChar(n % 10)]
  }

  function Number(value: int): string {
    if value < 0 then "-" + Decimal(-value) else Decimal(value)
  }

  function PrintField(f: Field): string {
    "\"" + f.key + "\":" + Number(f.value)
  }

  function Pieces(fields: seq<Field>): (pieces: seq<string>)
    ensures |pieces| == |fields|
  {
    seq(|fields|, i requires 0 <= i < |fields| => PrintField(fields[i]))
  }

  /** The pieces from the `i`th on, with commas between them. */
  function Joined(pieces: seq<string>, i: nat): string
    decreases |pieces| - i
  {
    if i >= |pieces| then ""
    else if i + 1 == |pieces| then pieces[i]
    else pieces[i] + "," + Joined(pieces, i + 1)
  }

  function Print(fields: seq<Field>): string {
    "{" + Joined(Pieces(fields), 0) + "}"
  }

  predicate Holds(names: seq<string>, f: Field) {
    f.key in names && INT64_MIN <= f.value <= INT64_MAX
  }

  /** An event the benchmark can hold. */
  predicate Printable(names: seq<string>, fields: seq<Field>) {
    |fields| <= MAX_FIELDS && forall i | 0 <= i < |fields| :: Holds(names, fields[i])
  }

  // ---- The reader undoes the printer ----

  /** The text holds `piece` at `at`. */
  predicate Has(text: string, at: nat, piece: string) {
    at + |piece| <= |text| && text[at..at + |piece|] == piece
  }

  lemma HasBoth(text: string, at: nat, a: string, b: string)
    ensures Has(text, at, a + b) <==> Has(text, at, a) && Has(text, at + |a|, b)
  {
    if at + |a| + |b| <= |text| {
      var all, left, right := text[at..at + |a| + |b|], text[at..at + |a|], text[at + |a|..at + |a| + |b|];
      assert all == left + right;
      if all == a + b {
        assert left == all[..|a|] == a;
        assert right == all[|a|..] == b;
      }
    }
  }

  lemma HasFirst(text: string, at: nat, c: char)
    ensures Has(text, at, [c]) <==> at < |text| && text[at] == c
  {
    if at < |text| {
      assert text[at..at + 1] == [text[at]];
    }
  }

  lemma {:induction false} StopsAtQuote(text: string, at: nat, s: string)
    requires Has(text, at, s + "\"") && AllPlain(s)
    ensures StringStop(text, at) == at + |s|
    decreases s
  {
    if s == [] {
      HasFirst(text, at, '\"');
      assert s + "\"" == "\"";
    } else {
      assert s + "\"" == [s[0]] + (s[1..] + "\"");
      HasBoth(text, at, [s[0]], s[1..] + "\"");
      HasFirst(text, at, s[0]);
      assert IsPlain(s[0]);
      StopsAtQuote(text, at + 1, s[1..]);
    }
  }

  lemma {:induction false} StopsAfterDigits(text: string, at: nat, s: string)
    requires Has(text, at, s) && AllDigits(s)
    requires at + |s| == |text| || !IsDigit(text[at + |s|])
    ensures DigitStop(text, at) == at + |s|
    decreases s
  {
    if s != [] {
      assert s == [s[0]] + s[1..];
      HasBoth(text, at, [s[0]], s[1..]);
      HasFirst(text, at, s[0]);
      StopsAfterDigits(text, at + 1, s[1..]);
    }
  }

  lemma {:induction false} NumberOfDecimal(n: nat)
    ensures NumberOf(Decimal(n)) == n
  {
    if n < 10 {
      assert Decimal(n)[..0] == [];
    } else {
      NumberOfDecimal(n / 10);
      assert Decimal(n)[..|Decimal(n)| - 1] == Decimal(n / 10);
    }
  }

  lemma {:induction false} CStringOfPlain(s: string)
    requires AllPlain(s)
    ensures CString(s) == s
  {
    if s != [] {
      assert IsPlain(s[0]);
      CStringOfPlain(s[1..]);
      assert s == [s[0]] + s[1..];
    }
  }

  lemma {:induction false} NumberInIsNumberOf(text: string, at: nat, digits: string)
    requires Has(text, at, digits)
    ensures NumberIn(text, at, at + |digits|) == NumberOf(digits)
    decreases digits
  {
    if digits != [] {
      var n := |digits| - 1;
      assert digits == digits[..n] + [digits[n]];
      HasBoth(text, at, digits[..n], [digits[n]]);
      HasFirst(text, at + n, digits[n]);
      NumberInIsNumberOf(text, at, digits[..n]);
    }
  }

  /** Digits are read as the number they write down, as far as 64 bits keep it. */
  lemma DigitsRead(text: string, at: nat, negative: bool, digits: string)
    requires digits != [] && AllDigits(digits) && Has(text, at, digits)
    requires at + |digits| == |text| || !IsDigit(text[at + |digits|])
    ensures DigitsAt(text, at, negative) == Narrowed(at + |digits|, negative, Low64(NumberOf(digits)))
  {
    StopsAfterDigits(text, at, digits);
    NumberInIsNumberOf(text, at, digits);
  }

  lemma NoSpaceToSkip(text: string, at: nat, s: string)
    requires Has(text, at, s) && s != [] && !IsSpace(s[0])
    ensures at < |text| && text[at] == s[0] && Skip(text, at) == at
  {
    assert text[at..at + |s|][0] == s[0];
  }

  lemma Narrows(next: nat, value: int)
    requires INT64_MIN <= value <= INT64_MAX
    ensures Narrowed(next, value < 0, Low64(if value < 0 then -value else value)) == At(next, value)
  {
  }

  lemma PositiveReads(text: string, at: nat, digits: string)
    requires digits != [] && AllDigits(digits) && Has(text, at, digits)
    requires at + |digits| == |text| || !IsDigit(text[at + |digits|])
    ensures IntegerAt(text, at) == Narrowed(at + |digits|, false, Low64(NumberOf(digits)))
  {
    assert IsDigit(digits[0]);
    NoSpaceToSkip(text, at, digits);
    DigitsRead(text, at, false, digits);
  }

  lemma MinusOpens(text: string, at: nat, digits: string)
    requires Has(text, at, "-" + digits)
    ensures at < |text| && text[at] == '-' && Has(text, at + 1, digits)
  {
    HasBoth(text, at, "-", digits);
    NoSpaceToSkip(text, at, "-" + digits);
  }

  lemma NegativeReads(text: string, at: nat, digits: string)
    requires digits != [] && AllDigits(digits) && at < |text| && text[at] == '-' && Has(text, at + 1, digits)
    requires at + 1 + |digits| == |text| || !IsDigit(text[at + 1 + |digits|])
    ensures IntegerAt(text, at) == Narrowed(at + 1 + |digits|, true, Low64(NumberOf(digits)))
  {
    assert Skip(text, at) == at;
    DigitsRead(text, at + 1, true, digits);
  }

  lemma NumberRoundTrip(text: string, at: nat, value: int)
    requires INT64_MIN <= value <= INT64_MAX && Has(text, at, Number(value))
    requires at + |Number(value)| == |text| || !IsDigit(text[at + |Number(value)|])
    ensures IntegerAt(text, at) == At(at + |Number(value)|, value)
  {
    var n := if value < 0 then -value else value;
    NumberOfDecimal(n);
    Narrows(at + |Number(value)|, value);
    if value < 0 {
      MinusOpens(text, at, Decimal(n));
      NegativeReads(text, at, Decimal(n));
    } else {
      PositiveReads(text, at, Decimal(n));
    }
  }

  // ---- Whole events ----

  /** Keys that fit the buffer and need no escape. */
  predicate PlainTable(names: seq<string>) {
    forall name | name in names :: |name| < KEY_CAPACITY && AllPlain(name)
  }

  lemma KeyReads(text: string, at: nat, key: string)
    requires Has(text, at, "\"" + key + "\"") && AllPlain(key) && |key| < KEY_CAPACITY
    ensures StringAt(text, at, KEY_CAPACITY) == At(at + |key| + 2, key)
  {
    assert "\"" + key + "\"" == "\"" + (key + "\"");
    HasBoth(text, at, "\"", key + "\"");
    NoSpaceToSkip(text, at, "\"" + (key + "\""));
    HasBoth(text, at + 1, key, "\"");
    HasFirst(text, at + 1 + |key|, '\"');
    StopsAtQuote(text, at + 1, key);
  }

  lemma FieldParts(text: string, at: nat, key: string, number: string)
    requires Has(text, at, "\"" + key + "\":" + number)
    ensures Has(text, at, "\"" + key + "\"")
    ensures at + |key| + 2 < |text| && text[at + |key| + 2] == ':'
    ensures Skip(text, at + |key| + 2) == at + |key| + 2
    ensures Has(text, at + |key| + 3, number)
  {
    var quoted := "\"" + key + "\"";
    assert "\"" + key + "\":" + number == quoted + (":" + number);
    HasBoth(text, at, quoted, ":" + number);
    NoSpaceToSkip(text, at + |quoted|, ":" + number);
    HasBoth(text, at + |quoted|, ":", number);
  }

  lemma MemberReads(names: seq<string>, text: string, at: nat, key: string, next: nat, value: int)
    requires at <= |text| && key in names && AllPlain(key)
    requires StringAt(text, at, KEY_CAPACITY) == At(at + |key| + 2, key)
    requires at + |key| + 2 < |text| && text[at + |key| + 2] == ':'
    requires Skip(text, at + |key| + 2) == at + |key| + 2
    requires IntegerAt(text, at + |key| + 3) == At(next, value)
    ensures MemberAt(names, text, at) == At(next, Field(key, value))
  {
    CStringOfPlain(key);
  }

  lemma PartsRead(names: seq<string>, text: string, at: nat, key: string, number: string, value: int)
    requires Has(text, at, "\"" + key + "\":" + number) && PlainTable(names) && key in names
    requires at + |key| + 3 <= |text|
    requires IntegerAt(text, at + |key| + 3) == At(at + |key| + 3 + |number|, value)
    ensures MemberAt(names, text, at) == At(at + |key| + 3 + |number|, Field(key, value))
  {
    FieldParts(text, at, key, number);
    KeyReads(text, at, key);
    MemberReads(names, text, at, key, at + |key| + 3 + |number|, value);
  }

  lemma ValueReads(names: seq<string>, text: string, at: nat, key: string, value: int, start: nat)
    requires PlainTable(names) && key in names && INT64_MIN <= value <= INT64_MAX
    requires start == at + |key| + 3 && Has(text, start, Number(value))
    requires start + |Number(value)| == |text| || !IsDigit(text[start + |Number(value)|])
    requires Has(text, at, "\"" + key + "\":" + Number(value))
    ensures MemberAt(names, text, at) == At(start + |Number(value)|, Field(key, value))
  {
    NumberRoundTrip(text, start, value);
    PartsRead(names, text, at, key, Number(value), value);
  }

  lemma MemberRoundTrip(names: seq<string>, text: string, at: nat, f: Field)
    requires PlainTable(names) && Holds(names, f) && Has(text, at, PrintField(f))
    requires at + |PrintField(f)| == |text| || !IsDigit(text[at + |PrintField(f)|])
    ensures MemberAt(names, text, at) == At(at + |PrintField(f)|, f)
  {
    FieldParts(text, at, f.key, Number(f.value));
    ValueReads(names, text, at, f.key, f.value, at + |f.key| + 3);
  }

  /** One turn of the member loop that finds another member to come. */
  lemma MembersStep(names: seq<string>, text: string, at: nat, done: seq<Field>, q: nat, f: Field)
    requires at < |text| && !IsSpace(text[at]) && text[at] != '}' && |done| < MAX_FIELDS
    requires MemberAt(names, text, at) == At(q, f) && q < |text| && text[q] == ','
    ensures MembersAt(names, text, at, done) == MembersAt(names, text, q + 1, done + [f])
  {
    assert Skip(text, at) == at;
    assert Skip(text, q) == q;
  }

  lemma MembersEnd(names: seq<string>, text: string, at: nat, done: seq<Field>, q: nat, f: Field)
    requires at < |text| && !IsSpace(text[at]) && text[at] != '}' && |done| < MAX_FIELDS
    requires MemberAt(names, text, at) == At(q, f) && q < |text| && text[q] == '}'
    ensures MembersAt(names, text, at, done) == At(q + 1, done + [f])
  {
    assert Skip(text, at) == at;
    assert Skip(text, q) == q;
  }

  /** The text holds the pieces from the `i`th on, and the closing brace, up to `end`. */
  predicate Listed(text: string, at: nat, pieces: seq<string>, i: nat, end: nat)
    requires i < |pieces|
    decreases |pieces| - i
  {
    var after := at + |pieces[i]|;
    && Has(text, at, pieces[i])
    && after < |text|
    && if i + 1 == |pieces| then text[after] == '}' && end == after + 1
       else text[after] == ',' && Listed(text, after + 1, pieces, i + 1, end)
  }

  lemma LastPrinted(text: string, at: nat, piece: string, c: char)
    requires Has(text, at, piece + [c])
    ensures Has(text, at, piece) && at + |piece| < |text| && text[at + |piece|] == c
  {
    HasBoth(text, at, piece, [c]);
    HasFirst(text, at + |piece|, c);
  }

  lemma NextPrinted(text: string, at: nat, piece: string, more: string)
    requires Has(text, at, piece + "," + more + "}")
    ensures Has(text, at, piece) && at + |piece| < |text| && text[at + |piece|] == ','
    ensures Has(text, at + |piece| + 1, more + "}")
  {
    assert piece + "," + more + "}" == (piece + ",") + (more + "}");
    HasBoth(text, at, piece + ",", more + "}");
    LastPrinted(text, at, piece, ',');
  }

  lemma {:induction false} PrintedIsListed(text: string, at: nat, pieces: seq<string>, i: nat)
    requires i < |pieces| && Has(text, at, Joined(pieces, i) + "}")
    ensures Listed(text, at, pieces, i, at + |Joined(pieces, i)| + 1)
    decreases |pieces| - i
  {
    hide Has;
    if i + 1 == |pieces| {
      LastPrinted(text, at, pieces[i], '}');
    } else {
      NextPrinted(text, at, pieces[i], Joined(pieces, i + 1));
      PrintedIsListed(text, at + |pieces[i]| + 1, pieces, i + 1);
    }
  }

  /** A piece of text spells a field when it is read as that field in front of anything but a digit. */
  ghost predicate Spells(names: seq<string>, piece: string, f: Field) {
    && piece != [] && piece[0] == '\"'
    && forall text: string, at: nat {:trigger Has(text, at, piece)} ::
         Has(text, at, piece) && at + |piece| < |text| && !IsDigit(text[at + |piece|])
         ==> MemberAt(names, text, at) == At(at + |piece|, f)
  }

  lemma PrintedSpells(names: seq<string>, f: Field)
    requires PlainTable(names) && Holds(names, f)
    ensures Spells(names, PrintField(f), f)
  {
    forall text: string, at: nat |
      Has(text, at, PrintField(f)) && at + |PrintField(f)| < |text| && !IsDigit(text[at + |PrintField(f)|])
      ensures MemberAt(names, text, at) == At(at + |PrintField(f)|, f)
    {
      MemberRoundTrip(names, text, at, f);
    }
  }

  /** One turn of the member loop, over a spelt member. */
  lemma MemberTurn(names: seq<string>, text: string, at: nat, done: seq<Field>, f: Field, piece: string)
    requires |done| < MAX_FIELDS && Spells(names, piece, f)
    requires Has(text, at, piece) && at + |piece| < |text|
    ensures text[at + |piece|] == ',' ==>
              MembersAt(names, text, at, done) == MembersAt(names, text, at + |piece| + 1, done + [f])
    ensures text[at + |piece|] == '}' ==>
              MembersAt(names, text, at, done) == At(at + |piece| + 1, done + [f])
  {
    var after := at + |piece|;
    NoSpaceToSkip(text, at, piece);
    if text[after] == ',' {
      MembersStep(names, text, at, done, after, f);
    }
    if text[after] == '}' {
      MembersEnd(names, text, at, done, after, f);
    }
  }

  /** Piece by piece from the `i`th on. */
  ghost predicate AllSpelt(names: seq<string>, pieces: seq<string>, fields: seq<Field>, i: nat)
    decreases |pieces| - i
  {
    && |pieces| == |fields|
    && (i < |pieces| ==> Spells(names, pieces[i], fields[i]) && AllSpelt(names, pieces, fields, i + 1))
  }

  lemma SpeltTurn(names: seq<string>, text: string, at: nat,
                fields: seq<Field>, pieces: seq<string>, i: nat, next: nat)
    requires i < |pieces| <= MAX_FIELDS && AllSpelt(names, pieces, fields, i)
    requires Has(text, at, pieces[i]) && next == at + |pieces[i]| + 1 <= |text|
    ensures AllSpelt(names, pieces, fields, i + 1)
    ensures text[next - 1] == ',' ==>
              MembersAt(names, text, at, fields[..i]) == MembersAt(names, text, next, fields[..i + 1])
    ensures text[next - 1] == '}' ==>
              MembersAt(names, text, at, fields[..i]) == At(next, fields[..i + 1])
  {
    MemberTurn(names, text, at, fields[..i], fields[i], pieces[i]);
    assert fields[..i] + [fields[i]] == fields[..i + 1];
  }

  lemma LastIsRead(names: seq<string>, text: string, at: nat,
                fields: seq<Field>, pieces: seq<string>, i: nat, end: nat)
    requires i + 1 == |pieces| <= MAX_FIELDS && AllSpelt(names, pieces, fields, i) && Listed(text, at, pieces, i, end)
    ensures MembersAt(names, text, at, fields[..i]) == At(end, fields)
  {
    SpeltTurn(names, text, at, fields, pieces, i, at + |pieces[i]| + 1);
    assert fields[..i + 1] == fields;
  }

  lemma NextIsRead(names: seq<string>, text: string, at: nat,
                fields: seq<Field>, pieces: seq<string>, i: nat, next: nat, end: nat)
    requires i + 1 < |pieces| <= MAX_FIELDS && AllSpelt(names, pieces, fields, i) && Listed(text, at, pieces, i, end)
    requires next == at + |pieces[i]| + 1
    ensures AllSpelt(names, pieces, fields, i + 1) && Listed(text, next, pieces, i + 1, end) && next <= |text|
    ensures MembersAt(names, text, at, fields[..i]) == MembersAt(names, text, next, fields[..i + 1])
  {
    SpeltTurn(names, text, at, fields, pieces, i, next);
  }

  lemma {:induction false} ListedIsRead(names: seq<string>, text: string, at: nat,
                fields: seq<Field>, pieces: seq<string>, i: nat, end: nat)
    requires i < |pieces| <= MAX_FIELDS && AllSpelt(names, pieces, fields, i) && Listed(text, at, pieces, i, end)
    ensures MembersAt(names, text, at, fields[..i]) == At(end, fields)
    decreases |pieces| - i
  {
    if i + 1 == |pieces| {
      LastIsRead(names, text, at, fields, pieces, i, end);
    } else {
      var next := at + |pieces[i]| + 1;
      NextIsRead(names, text, at, fields, pieces, i, next, end);
      ListedIsRead(names, text, next, fields, pieces, i + 1, end);
    }
  }

  lemma {:induction false} EachSpelt(names: seq<string>, pieces: seq<string>, fields: seq<Field>, i: nat)
    requires |pieces| == |fields|
    requires forall k | i <= k < |pieces| :: Spells(names, pieces[k], fields[k])
    ensures AllSpelt(names, pieces, fields, i)
    decreases |pieces| - i
  {
    if i < |pieces| {
      EachSpelt(names, pieces, fields, i + 1);
    }
  }

  lemma AllPrintedSpelt(names: seq<string>, fields: seq<Field>)
    requires PlainTable(names) && Printable(names, fields)
    ensures AllSpelt(names, Pieces(fields), fields, 0)
  {
    forall k | 0 <= k < |fields|
      ensures Spells(names, Pieces(fields)[k], fields[k])
    {
      assert Holds(names, fields[k]);
      PrintedSpells(names, fields[k]);
    }
    EachSpelt(names, Pieces(fields), fields, 0);
  }

  lemma BraceOpens(names: seq<string>, text: string, at: nat, inside: string)
    requires Has(text, at, "{" + inside)
    ensures at < |text| && Has(text, at + 1, inside)
    ensures EventAt(names, text, at) == MembersAt(names, text, at + 1, [])
  {
    HasBoth(text, at, "{", inside);
    NoSpaceToSkip(text, at, "{" + inside);
  }

  lemma BraceCloses(names: seq<string>, text: string, at: nat)
    requires Has(text, at, "}")
    ensures MembersAt(names, text, at, []) == At(at + 1, [])
  {
    NoSpaceToSkip(text, at, "}");
  }

  lemma SpeltMembersAreRead(names: seq<string>, text: string, at: nat, fields: seq<Field>, pieces: seq<string>)
    requires AllSpelt(names, pieces, fields, 0) && |pieces| <= MAX_FIELDS
    requires Has(text, at, Joined(pieces, 0) + "}")
    ensures MembersAt(names, text, at, []) == At(at + |Joined(pieces, 0)| + 1, fields)
  {
    hide Has, MembersAt, Listed;
    if pieces == [] {
      assert Joined(pieces, 0) + "}" == "}";
      BraceCloses(names, text, at);
    } else {
      PrintedIsListed(text, at, pieces, 0);
      ListedIsRead(names, text, at, fields, pieces, 0, at + |Joined(pieces, 0)| + 1);
      assert fields[..0] == [];
    }
  }

  /** Braces around spelt members are read as an object of them. */
  lemma ObjectIsRead(names: seq<string>, text: string, at: nat, fields: seq<Field>, pieces: seq<string>)
    requires AllSpelt(names, pieces, fields, 0) && |pieces| <= MAX_FIELDS
    requires Has(text, at, "{" + (Joined(pieces, 0) + "}"))
    ensures EventAt(names, text, at) == At(at + |Joined(pieces, 0)| + 2, fields)
  {
    BraceOpens(names, text, at, Joined(pieces, 0) + "}");
    SpeltMembersAreRead(names, text, at + 1, fields, pieces);
  }

  /** Wherever the text holds a printed event, it is read back, and reading stops right behind it. */
  lemma EventRoundTrip(names: seq<string>, text: string, at: nat, fields: seq<Field>)
    requires PlainTable(names) && Printable(names, fields) && Has(text, at, Print(fields))
    ensures EventAt(names, text, at) == At(at + |Print(fields)|, fields)
  {
    AllPrintedSpelt(names, fields);
    assert Print(fields) == "{" + (Joined(Pieces(fields), 0) + "}");
    ObjectIsRead(names, text, at, fields, Pieces(fields));
  }

  // ---- What the reader accepts ----

  lemma {:induction false} MembersAreHeld(names: seq<string>, text: string, at: nat, done: seq<Field>)
    requires at <= |text| && Printable(names, done)
    requires MembersAt(names, text, at, done).At?
    ensures var r := MembersAt(names, text, at, done); at < r.next <= |text| && Printable(names, r.value)
    decreases |text| - at
  {
    var p := Skip(text, at);
    if p == |text| || text[p] != '}' {
      var m := MemberAt(names, text, p);
      MemberIsHeld(names, text, p);
      assert Printable(names, done + [m.value]);
      var q := Skip(text, m.next);
      if text[q] == ',' {
        MembersAreHeld(names, text, q + 1, done + [m.value]);
      }
    }
  }

  lemma MemberIsHeld(names: seq<string>, text: string, at: nat)
    requires at <= |text|
    ensures var r := MemberAt(names, text, at); r.At? ==> Holds(names, r.value)
  {
  }

  /** Whatever is accepted, spaces, repeated keys and stray comma included, is an event that can be printed. */
  lemma AcceptedIsPrintable(names: seq<string>, text: string, at: nat)
    requires at <= |text|
    ensures var r := EventAt(names, text, at);
            r.At? ==> at < r.next <= |text| && Printable(names, r.value)
  {
    var p := Skip(text, at);
    if EventAt(names, text, at).At? {
      MembersAreHeld(names, text, p + 1, []);
    }
  }

  /** Printing what was read gives a text that reads as the same event. */
  lemma NormalForm(names: seq<string>, text: string, at: nat)
    requires PlainTable(names) && at <= |text| && EventAt(names, text, at).At?
    ensures var fields := EventAt(names, text, at).value;
            EventAt(names, Print(fields), 0) == At(|Print(fields)|, fields)
  {
    AcceptedIsPrintable(names, text, at);
    var fields := EventAt(names, text, at).value;
    HasWhole(Print(fields), "");
    EventRoundTrip(names, Print(fields), 0, fields);
  }

  lemma HasWhole(s: string, tail: string)
    ensures Has(s + tail, 0, s)
    ensures tail == "" ==> Has(s, 0, s)
  {
  }

  lemma FirstNamesArePlain(i: nat)
    requires i < 12
    ensures |NAMES[i]| < KEY_CAPACITY && AllPlain(NAMES[i])
  {
  }

  lemma MiddleNamesArePlain(i: nat)
    requires 12 <= i < 18
    ensures |NAMES[i]| < KEY_CAPACITY && AllPlain(NAMES[i])
  {
  }

  lemma LastNamesArePlain(i: nat)
    requires 18 <= i < |NAMES|
    ensures |NAMES[i]| < KEY_CAPACITY && AllPlain(NAMES[i])
  {
  }

  lemma NamesAreAPlainTable()
    ensures PlainTable(NAMES)
  {
    forall name | name in NAMES
      ensures |name| < KEY_CAPACITY && AllPlain(name)
    {
      var i :| 0 <= i < |NAMES| && NAMES[i] == name;
      if i < 12 {
        FirstNamesArePlain(i);
      } else if i < 18 {
        MiddleNamesArePlain(i);
      } else {
        LastNamesArePlain(i);
      }
    }
  }

  lemma RoundTripBefore(names: seq<string>, fields: seq<Field>, tail: string)
    requires PlainTable(names) && Printable(names, fields)
    ensures EventAt(names, Print(fields) + tail, 0) == At(|Print(fields)|, fields)
  {
    HasWhole(Print(fields), tail);
    EventRoundTrip(names, Print(fields) + tail, 0, fields);
  }

  /** The benchmark reads back every event it can hold, and stops at its size, whatever follows. */
  lemma BenchmarkRoundTrip(fields: seq<Field>, tail: string)
    requires Printable(NAMES, fields)
    ensures EventAt(NAMES, Print(fields) + tail, 0) == At(|Print(fields)|, fields)
  {
    NamesAreAPlainTable();
    RoundTripBefore(NAMES, fields, tail);
  }

  // ---- How far the integers can be trusted ----

  function Signed(negative: bool, n: nat): int {
    if negative then -(n as int) else n
  }

  lemma NarrowingIsExact(next: nat, negative: bool, n: nat)
    ensures Narrowed(next, negative, Low64(n)) == At(next, Signed(negative, n))
            <==> INT64_MIN <= Signed(negative, n) <= INT64_MAX
  {
  }

  /** Digits with a sign are read as the number they stand for exactly when 64 bits with a sign hold it. */
  lemma ReadsWhatIsWritten(text: string, at: nat, start: nat, negative: bool, digits: string)
    requires digits != [] && AllDigits(digits) && Has(text, start, digits)
    requires if negative then start == at + 1 && text[at] == '-' else start == at
    requires start + |digits| == |text| || !IsDigit(text[start + |digits|])
    ensures at <= |text|
    ensures IntegerAt(text, at) == At(start + |digits|, Signed(negative, NumberOf(digits)))
            <==> INT64_MIN <= Signed(negative, NumberOf(digits)) <= INT64_MAX
  {
    NarrowingIsExact(start + |digits|, negative, NumberOf(digits));
    if negative {
      NegativeReads(text, at, digits);
    } else {
      PositiveReads(text, at, digits);
    }
  }

  /** The largest magnitude a signed 64-bit integer has on one side of zero. */
  function Largest(negative: bool): nat {
    if negative then 0x8000_0000_0000_0000 else INT64_MAX
  }

  lemma NarrowedIs(next: nat, negative: bool, n: nat)
    ensures Narrowed(next, negative, n) == if n > Largest(negative) then Failed else At(next, Signed(negative, n))
  {
  }

  /** What becomes of any digits with a sign: what 64 bits keep of them decides, and nothing else. */
  lemma IntegerVerdict(text: string, at: nat, start: nat, negative: bool, digits: string)
    requires digits != [] && AllDigits(digits) && Has(text, start, digits)
    requires if negative then start == at + 1 && text[at] == '-' else start == at
    requires start + |digits| == |text| || !IsDigit(text[start + |digits|])
    ensures at <= |text|
    ensures
      IntegerAt(text, at) ==
      if Low64(NumberOf(digits)) > Largest(negative) then Failed
      else At(start + |digits|, Signed(negative, Low64(NumberOf(digits))))
  {
    NarrowedIs(start + |digits|, negative, Low64(NumberOf(digits)));
    if negative {
      NegativeReads(text, at, digits);
    } else {
      PositiveReads(text, at, digits);
    }
  }

  lemma {:induction false} LowAddsWholes(n: nat, k: nat)
    ensures Low64(n + 0x1_0000_0000_0000_0000 * k) == Low64(n)
  {
    if k > 0 {
      LowAddsWholes(n, k - 1);
    }
  }

  lemma MistakenNumber(negative: bool, n: nat)
    ensures
      Low64(n) <= Largest(negative) && Signed(negative, Low64(n)) != Signed(negative, n)
      <==> n >= 0x1_0000_0000_0000_0000 && Low64(n) <= Largest(negative)
  {
  }

  /** Digits are accepted as another number exactly when they take more than 64 bits and the low 64 pass for one. */
  lemma MistakenExactly(text: string, at: nat, start: nat, negative: bool, digits: string)
    requires digits != [] && AllDigits(digits) && Has(text, start, digits)
    requires if negative then start == at + 1 && text[at] == '-' else start == at
    requires start + |digits| == |text| || !IsDigit(text[start + |digits|])
    ensures at <= |text|
    ensures
      var n := NumberOf(digits);
      IntegerAt(text, at).At? && IntegerAt(text, at).value != Signed(negative, n)
      <==> n >= 0x1_0000_0000_0000_0000 && Low64(n) <= Largest(negative)
  {
    hide IntegerAt, Low64, NumberOf;
    IntegerVerdict(text, at, start, negative, digits);
    MistakenNumber(negative, NumberOf(digits));
  }

  /** Such numbers: any multiple of two to the 64th, and a magnitude in range on top of it. */
  lemma LongNumbersWrap(negative: bool, k: nat, low: nat)
    requires k >= 1 && low <= Largest(negative)
    ensures
      var digits := Decimal(0x1_0000_0000_0000_0000 * k + low);
      var text := if negative then "-" + digits else digits;
      && IntegerAt(text, 0) == At(|text|, Signed(negative, low))
      && Signed(negative, low) != Signed(negative, NumberOf(digits))
  {
    hide IntegerAt, Decimal, NumberOf;
    var n := 0x1_0000_0000_0000_0000 * k + low;
    var digits := Decimal(n);
    var text := if negative then "-" + digits else digits;
    NumberOfDecimal(n);
    LowAddsWholes(low, k);
    HasWhole(text, "");
    if negative {
      MinusOpens(text, 0, digits);
    }
    IntegerVerdict(text, 0, if negative then 1 else 0, negative, digits);
  }

  // ---- A verdict is final once the closing brace is there ----

  lemma {:induction false} SkipIsFinal(text: string, longer: string, at: nat)
    requires text <= longer && at <= |text|
    ensures Skip(text, at) < |text| ==> Skip(longer, at) == Skip(text, at)
    decreases |text| - at
  {
    if at < |text| && IsSpace(text[at]) {
      SkipIsFinal(text, longer, at + 1);
    }
  }

  lemma {:induction false} StringStopIsFinal(text: string, longer: string, at: nat)
    requires text <= longer && at <= |text|
    ensures StringStop(text, at) < |text| ==> StringStop(longer, at) == StringStop(text, at)
    decreases |text| - at
  {
    if at < |text| && text[at] != '\"' && text[at] != '\\' {
      StringStopIsFinal(text, longer, at + 1);
    }
  }

  lemma {:induction false} DigitStopIsFinal(text: string, longer: string, at: nat)
    requires text <= longer && at <= |text|
    ensures DigitStop(text, at) < |text| ==> DigitStop(longer, at) == DigitStop(text, at)
    decreases |text| - at
  {
    if at < |text| && IsDigit(text[at]) {
      DigitStopIsFinal(text, longer, at + 1);
    }
  }

  lemma StringIsFinal(text: string, longer: string, at: nat, capacity: nat)
    requires text <= longer && at <= |text| && StringAt(text, at, capacity).At?
    ensures StringAt(longer, at, capacity) == StringAt(text, at, capacity)
  {
    var p := Skip(text, at);
    SkipIsFinal(text, longer, at);
    StringStopIsFinal(text, longer, p + 1);
    var stop := StringStop(text, p + 1);
    assert longer[p + 1..stop] == text[p + 1..stop];
  }

  lemma {:induction false} NumberInIsFinal(text: string, longer: string, at: nat, end: nat)
    requires text <= longer && at <= end <= |text|
    ensures NumberIn(longer, at, end) == NumberIn(text, at, end)
    decreases end
  {
    if at != end {
      NumberInIsFinal(text, longer, at, end - 1);
    }
  }

  lemma DigitsAreFinal(text: string, longer: string, at: nat, negative: bool)
    requires text <= longer && at <= |text|
    requires var r := DigitsAt(text, at, negative); r.At? && r.next < |text|
    ensures DigitsAt(longer, at, negative) == DigitsAt(text, at, negative)
  {
    DigitStopIsFinal(text, longer, at);
    NumberInIsFinal(text, longer, at, DigitStop(text, at));
  }

  lemma IntegerIsFinal(text: string, longer: string, at: nat)
    requires text <= longer && at <= |text|
    requires var r := IntegerAt(text, at); r.At? && r.next < |text|
    ensures IntegerAt(longer, at) == IntegerAt(text, at)
  {
    var p := Skip(text, at);
    SkipIsFinal(text, longer, at);
    var negative := p < |text| && text[p] == '-';
    DigitsAreFinal(text, longer, if negative then p + 1 else p, negative);
  }

  lemma MemberIsFinal(names: seq<string>, text: string, longer: string, at: nat)
    requires text <= longer && at <= |text|
    requires var r := MemberAt(names, text, at); r.At? && r.next < |text|
    ensures MemberAt(names, longer, at) == MemberAt(names, text, at)
  {
    hide StringAt, IntegerAt, Skip, CString;
    StringIsFinal(text, longer, at, KEY_CAPACITY);
    var p := StringAt(text, at, KEY_CAPACITY).next;
    SkipIsFinal(text, longer, p);
    IntegerIsFinal(text, longer, Skip(text, p) + 1);
  }

  /** One turn of the member loop, spaces and all. */
  lemma TurnGoesOn(names: seq<string>, text: string, at: nat, done: seq<Field>, p: nat, m: Parsed<Field>, q: nat)
    requires at <= |text| && p == Skip(text, at) && p < |text| && text[p] != '}' && |done| < MAX_FIELDS
    requires m == MemberAt(names, text, p) && m.At? && q == Skip(text, m.next) && q < |text| && text[q] == ','
    ensures MembersAt(names, text, at, done) == MembersAt(names, text, q + 1, done + [m.value])
  {
  }

  lemma TurnIsFinal(names: seq<string>, text: string, longer: string, at: nat, done: seq<Field>)
    returns (p: nat, m: Parsed<Field>, q: nat)
    requires text <= longer && at <= |text| && MembersAt(names, text, at, done).At?
    requires Skip(text, at) < |text| ==> text[Skip(text, at)] != '}'
    ensures p == Skip(text, at) == Skip(longer, at) && p < |text| && |done| < MAX_FIELDS
    ensures m == MemberAt(names, text, p) == MemberAt(names, longer, p) && m.At?
    ensures q == Skip(text, m.next) == Skip(longer, m.next) && m.next <= q < |text|
    ensures text[q] == ',' || text[q] == '}'
  {
    p := Skip(text, at);
    SkipIsFinal(text, longer, at);
    m := MemberAt(names, text, p);
    q := Skip(text, m.next);
    SkipIsFinal(text, longer, m.next);
    MemberIsFinal(names, text, longer, p);
  }

  lemma {:induction false} MembersAreFinal(names: seq<string>, text: string, longer: string, at: nat, done: seq<Field>)
    requires text <= longer && at <= |text| && MembersAt(names, text, at, done).At?
    ensures MembersAt(names, longer, at, done) == MembersAt(names, text, at, done)
    decreases |text| - at
  {
    if Skip(text, at) < |text| && text[Skip(text, at)] == '}' {
      SkipIsFinal(text, longer, at);
    } else {
      var p, m, q := TurnIsFinal(names, text, longer, at, done);
      if text[q] == ',' {
        TurnGoesOn(names, text, at, done, p, m, q);
        TurnGoesOn(names, longer, at, done, p, m, q);
        MembersAreFinal(names, text, longer, q + 1, done + [m.value]);
      }
    }
  }

  /** An accepted event is accepted the same, whatever comes after it. */
  lemma EventIsFinal(names: seq<string>, text: string, longer: string, at: nat)
    requires text <= longer && at <= |text| && EventAt(names, text, at).At?
    ensures EventAt(names, longer, at) == EventAt(names, text, at)
  {
    SkipIsFinal(text, longer, at);
    MembersAreFinal(names, text, longer, Skip(text, at) + 1, []);
  }
}
