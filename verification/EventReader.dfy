/** The benchmark's loops: the event reader, and the two that size an event without printing it. */
module EventReader {
  import opened Event

  method SkipSpaces(text: string, from: nat) returns (at: nat)
    requires from <= |text|
    ensures at == Skip(text, from)
  {
    at := from;
    while at < |text| && IsSpace(text[at])
      invariant from <= at <= |text|
      invariant Skip(text, from) == Skip(text, at)
    {
      at := at + 1;
    }
  }

  /** The characters go into `out` one at a time; it keeps room for the terminator. */
  method ParseString(text: string, from: nat, capacity: nat) returns (r: Parsed<string>)
    requires from <= |text|
    ensures r == StringAt(text, from, capacity)
  {
    var at := SkipSpaces(text, from);
    if at >= |text| || text[at] != '\"' {
      return Failed;
    }
    at := at + 1;
    ghost var start := at;
    var out := "";
    while at < |text| && text[at] != '\"'
      invariant start <= at <= |text|
      invariant StringStop(text, start) == StringStop(text, at)
      invariant out == text[start..at]
      invariant out != [] ==> |out| < capacity
    {
      if text[at] == '\\' || |out| + 1 >= capacity {
        return Failed;
      }
      out := out + [text[at]];
      at := at + 1;
    }
    if at >= |text| || text[at] != '\"' {
      return Failed;
    }
    return At(at + 1, out);
  }

  /** The first row of the table under a name, if there is one. */
  method LookupField(names: seq<string>, name: string) returns (row: nat)
    ensures row <= |names|
    ensures row < |names| <==> name in names
    ensures row < |names| ==> names[row] == name && name !in names[..row]
  {
    for i := 0 to |names|
      invariant name !in names[..i]
    {
      if name == names[i] {
        return i;
      }
    }
    return |names|;
  }

  lemma LowOfStep(n: nat, d: nat)
    ensures Low64(10 * Low64(n) + d) == Low64(10 * n + d)
  {
    var k := n / 0x1_0000_0000_0000_0000;
    assert 10 * n + d == 10 * Low64(n) + d + 0x1_0000_0000_0000_0000 * (10 * k);
    LowAddsWholes(10 * Low64(n) + d, 10 * k);
  }

  /** The digit loop: the accumulator holds what 64 bits keep of the digits so far. */
  method ParseDigits(text: string, from: nat) returns (at: nat, magnitude: nat)
    requires from <= |text|
    ensures at == DigitStop(text, from)
    ensures magnitude == Low64(NumberIn(text, from, at))
  {
    at, magnitude := from, 0;
    while at < |text| && text[at] >= '0' && text[at] <= '9'
      invariant from <= at <= |text|
      invariant DigitStop(text, from) == DigitStop(text, at)
      invariant magnitude == Low64(NumberIn(text, from, at))
    {
      LowOfStep(NumberIn(text, from, at), DigitOf(text[at]));
      magnitude := Low64(magnitude * 10 + (text[at] as int - '0' as int));
      at := at + 1;
    }
  }

  method ParseInteger(text: string, from: nat) returns (r: Parsed<int>)
    requires from <= |text|
    ensures r == IntegerAt(text, from)
  {
    var negative := false;
    var at := SkipSpaces(text, from);
    if at < |text| && text[at] == '-' {
      negative := true;
      at := at + 1;
    }
    if at >= |text| || text[at] < '0' || text[at] > '9' {
      return Failed;
    }
    var next, magnitude := ParseDigits(text, at);
    if negative {
      if magnitude > 9223372036854775808 {
        return Failed;
      }
      return At(next, -(magnitude as int));
    } else {
      if magnitude > INT64_MAX {
        return Failed;
      }
      return At(next, magnitude);
    }
  }

  /** One member: a key the table knows, a colon, an integer. */
  method ParseMember(names: seq<string>, text: string, from: nat) returns (r: Parsed<Field>)
    requires from <= |text|
    ensures r == MemberAt(names, text, from)
  {
    var name := ParseString(text, from, KEY_CAPACITY);
    if name.Failed? {
      return Failed;
    }
    var key := CString(name.value);
    var row := LookupField(names, key);
    if row == |names| {
      return Failed;
    }
    var at := SkipSpaces(text, name.next);
    if at >= |text| || text[at] != ':' {
      return Failed;
    }
    var number := ParseInteger(text, at + 1);
    if number.Failed? {
      return Failed;
    }
    return At(number.next, Field(key, number.value));
  }

  /** The event reader; a comma in front of the closing brace passes. */
  method ParseEvent(names: seq<string>, text: string, from: nat) returns (r: Parsed<seq<Field>>)
    requires from <= |text|
    ensures r == EventAt(names, text, from)
  {
    var at := SkipSpaces(text, from);
    if at >= |text| || text[at] != '{' {
      return Failed;
    }
    at := at + 1;
    var fields: seq<Field> := [];
    while true
      invariant at <= |text|
      invariant EventAt(names, text, from) == MembersAt(names, text, at, fields)
      decreases |text| - at
    {
      at := SkipSpaces(text, at);
      if at < |text| && text[at] == '}' {
        return At(at + 1, fields);
      }
      if |fields| >= MAX_FIELDS {
        return Failed;
      }
      var member := ParseMember(names, text, at);
      if member.Failed? {
        return Failed;
      }
      fields := fields + [member.value];
      at := SkipSpaces(text, member.next);
      if at >= |text| {
        return Failed;
      }
      if text[at] == ',' {
        at := at + 1;
        continue;
      }
      if text[at] == '}' {
        return At(at + 1, fields);
      }
      return Failed;
    }
  }

  /** How many characters a number takes, the lowest one of the range included. */
  method DecimalSize(value: int) returns (size: nat)
    requires INT64_MIN <= value <= INT64_MAX
    ensures size == |Number(value)|
  {
    var magnitude: nat;
    size := 1;
    if value < 0 {
      magnitude := -(value + 1) + 1;
      size := size + 1;
    } else {
      magnitude := value;
    }
    while magnitude >= 10
      invariant size + |Decimal(magnitude)| == |Number(value)| + 1
    {
      magnitude := magnitude / 10;
      size := size + 1;
    }
  }

  /** Braces, commas, quotes, colons, keys and numbers: the length of the printed event. */
  method JsonSize(fields: seq<Field>) returns (size: nat)
    requires forall i | 0 <= i < |fields| :: INT64_MIN <= fields[i].value <= INT64_MAX
    ensures size == |Print(fields)|
  {
    size := 2;
    for i := 0 to |fields|
      invariant size + |Joined(Pieces(fields), i)| + (if 0 < i < |fields| then 1 else 0) == |Print(fields)|
    {
      if i != 0 {
        size := size + 1;
      }
      var digits := DecimalSize(fields[i].value);
      size := size + 2 + |fields[i].key| + 1 + digits;
    }
  }
}
