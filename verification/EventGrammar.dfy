/** Exactly which texts the event reader accepts, and as what: the grammar it follows, given by its pieces. */
module EventGrammar {
  import opened Event

  /** The text of one member, cut where its parts meet. */
  datatype Piece = Piece(before: string, raw: string, colon: string, value: string, minus: bool, digits: string, after: string)

  predicate Blank(s: string) {
    forall i | 0 <= i < |s| :: s[i] in {' ', '\t', '\n', '\U{000B}', '\U{000C}', '\r'}
  }

  /** Nothing in it ends the string, and it fits a buffer of 32 with its terminator. */
  predicate Quotable(raw: string) {
    |raw| < 32 && forall i | 0 <= i < |raw| :: raw[i] != '\"' && raw[i] != '\\'
  }

  /** What stands in the buffer is taken for the key: it is the key, or the key and a terminator and more. */
  predicate TakenFor(raw: string, key: string) {
    && (forall i | 0 <= i < |key| :: key[i] != '\0')
    && |key| <= |raw| && raw[..|key|] == key
    && (|key| < |raw| ==> raw[|key|] == '\0')
  }

  /** The value some digits are taken for: 64 bits of what they write down, if that has a sign bit to spare. */
  predicate Denotes(minus: bool, digits: string, value: int) {
    var kept := NumberOf(digits) % 18446744073709551616;
    if minus then kept <= 9223372036854775808 && value == -kept else kept <= 9223372036854775807 && value == kept
  }

  predicate Spells(names: seq<string>, p: Piece, f: Field) {
    && Blank(p.before) && Blank(p.colon) && Blank(p.value) && Blank(p.after)
    && Quotable(p.raw) && TakenFor(p.raw, f.key) && f.key in names
    && p.digits != [] && AllDigits(p.digits) && Denotes(p.minus, p.digits, f.value)
  }

  predicate AllSpell(names: seq<string>, ps: seq<Piece>, fs: seq<Field>) {
    |ps| == |fs| && forall i | 0 <= i < |ps| :: Spells(names, ps[i], fs[i])
  }

  function Sign(minus: bool): string {
    if minus then "-" else ""
  }

  function NumberPart(p: Piece): string {
    p.value + (Sign(p.minus) + (p.digits + p.after))
  }

  function PieceText(p: Piece): string {
    p.before + ("\"" + (p.raw + ("\"" + (p.colon + (":" + NumberPart(p))))))
  }

  /** Everything behind the opening brace. With `stray` the last member has a comma behind it too. */
  function Rest(ps: seq<Piece>, stray: bool, tail: string): string {
    if ps == [] then tail + "}"
    else PieceText(ps[0]) + (if |ps| > 1 || stray then "," + Rest(ps[1..], stray, tail) else "}")
  }

  function Text(lead: string, ps: seq<Piece>, stray: bool, tail: string): string {
    lead + ("{" + Rest(ps, stray, tail))
  }

  // ---- what is skipped and where strings and numbers stop ----------------------------------------------------

  lemma SpaceIsBlank(c: char)
    ensures IsSpace(c) <==> c in {' ', '\t', '\n', '\U{000B}', '\U{000C}', '\r'}
  {
  }

  lemma {:induction false} SkipBlank(text: string, at: nat, s: string)
    requires Has(text, at, s) && Blank(s) && at + |s| < |text| && !IsSpace(text[at + |s|])
    ensures Skip(text, at) == at + |s|
    decreases s
  {
    if s != [] {
      SpaceIsBlank(s[0]);
      assert s == [s[0]] + s[1..];
      HasBoth(text, at, [s[0]], s[1..]);
      HasFirst(text, at, s[0]);
      SkipBlank(text, at + 1, s[1..]);
    }
  }

  lemma {:induction false} SkippedIsBlank(text: string, at: nat)
    requires at <= |text|
    ensures Blank(text[at..Skip(text, at)])
    ensures Skip(text, at) < |text| ==> !IsSpace(text[Skip(text, at)])
    ensures Skip(text, Skip(text, at)) == Skip(text, at)
    decreases |text| - at
  {
    if at < |text| && IsSpace(text[at]) {
      SpaceIsBlank(text[at]);
      SkippedIsBlank(text, at + 1);
      var to := Skip(text, at);
      assert text[at..to] == [text[at]] + text[at + 1..to];
    }
  }

  lemma {:induction false} StopsBehindRaw(text: string, at: nat, raw: string)
    requires Has(text, at, raw) && (forall i | 0 <= i < |raw| :: raw[i] != '\"' && raw[i] != '\\')
    requires at + |raw| < |text| && text[at + |raw|] == '\"'
    ensures StringStop(text, at) == at + |raw|
    decreases raw
  {
    if raw != [] {
      assert raw == [raw[0]] + raw[1..];
      HasBoth(text, at, [raw[0]], raw[1..]);
      HasFirst(text, at, raw[0]);
      StopsBehindRaw(text, at + 1, raw[1..]);
    }
  }

  lemma {:induction false} StoppedAtFirst(text: string, at: nat)
    requires at <= |text|
    ensures forall i | at <= i < StringStop(text, at) :: text[i] != '\"' && text[i] != '\\'
    decreases |text| - at
  {
    if at < |text| && text[at] != '\"' && text[at] != '\\' {
      StoppedAtFirst(text, at + 1);
    }
  }

  lemma {:induction false} DigitsUpToStop(text: string, at: nat)
    requires at <= |text|
    ensures AllDigits(text[at..DigitStop(text, at)])
    ensures DigitStop(text, at) < |text| ==> !IsDigit(text[DigitStop(text, at)])
    decreases |text| - at
  {
    if at < |text| && IsDigit(text[at]) {
      DigitsUpToStop(text, at + 1);
      var stop := DigitStop(text, at);
      assert text[at..stop] == [text[at]] + text[at + 1..stop];
    }
  }

  lemma {:induction false} CStringIsTaken(raw: string, key: string)
    ensures CString(raw) == key <==> TakenFor(raw, key)
  {
    if raw != [] && raw[0] != '\0' {
      if key != [] && key[0] == raw[0] {
        CStringIsTaken(raw[1..], key[1..]);
        assert key == [key[0]] + key[1..];
        TakenCons(raw, key);
      }
    }
  }

  lemma TakenCons(raw: string, key: string)
    requires raw != [] && key != [] && raw[0] == key[0] != '\0'
    ensures TakenFor(raw, key) <==> TakenFor(raw[1..], key[1..])
  {
    var r, k := raw[1..], key[1..];
    assert forall i | 0 < i < |key| :: key[i] == k[i - 1];
    assert forall i | 0 <= i < |k| :: k[i] == key[i + 1];
    if |key| <= |raw| {
      assert raw[..|key|] == [raw[0]] + r[..|k|];
      assert key == [key[0]] + k;
      assert raw[..|key|] == key <==> r[..|k|] == k by {
        if raw[..|key|] == key {
          assert raw[..|key|][1..] == k;
        }
      }
    }
  }

  // ---- every text of the grammar is read -----------------------------------------------------------------------

  lemma NumberIsRead(text: string, at: nat, p: Piece, value: int)
    requires Has(text, at, p.value + (Sign(p.minus) + p.digits)) && Blank(p.value)
    requires p.digits != [] && AllDigits(p.digits) && Denotes(p.minus, p.digits, value)
    requires
      var end := at + |p.value| + |Sign(p.minus)| + |p.digits|;
      end == |text| || (end < |text| && !IsDigit(text[end]))
    ensures IntegerAt(text, at) == At(at + |p.value| + |Sign(p.minus)| + |p.digits|, value)
  {
    hide Has, NumberOf;
    var sign := Sign(p.minus);
    HasBoth(text, at, p.value, sign + p.digits);
    HasBoth(text, at + |p.value|, sign, p.digits);
    var from, start := at + |p.value|, at + |p.value| + |sign|;
    FirstOfNumber(text, from, p.minus, p.digits);
    SkipBlank(text, at, p.value);
    SkipsNothing(text, from);
    IntegerVerdict(text, from, start, p.minus, p.digits);
  }

  lemma FirstOfNumber(text: string, from: nat, minus: bool, digits: string)
    requires Has(text, from, Sign(minus)) && Has(text, from + |Sign(minus)|, digits) && digits != [] && AllDigits(digits)
    ensures from < |text| && !IsSpace(text[from]) && (if minus then text[from] == '-' else text[from] == digits[0])
  {
    if minus {
      HasFirst(text, from, '-');
    } else {
      assert text[from..from + |digits|][0] == digits[0] && IsDigit(digits[0]);
    }
  }

  lemma SkipsNothing(text: string, at: nat)
    requires at < |text| && !IsSpace(text[at])
    ensures Skip(text, at) == at
  {
  }

  lemma RawIsRead(text: string, at: nat, raw: string)
    requires Has(text, at, "\"" + (raw + "\"")) && Quotable(raw)
    ensures StringAt(text, at, KEY_CAPACITY) == At(at + |raw| + 2, raw)
  {
    hide Has, StringStop, Skip, IsSpace;
    NoneOfThese('\"');
    HasBoth(text, at, "\"", raw + "\"");
    HasFirst(text, at, '\"');
    HasBoth(text, at + 1, raw, "\"");
    HasFirst(text, at + 1 + |raw|, '\"');
    HasInside(text, at + 1, raw);
    SkipsNothing(text, at);
    StopsBehindRaw(text, at + 1, raw);
  }

  /** Where the colon of a member stands. */
  function ColonAt(at: nat, p: Piece): nat {
    at + |p.before| + |p.raw| + 2 + |p.colon|
  }

  /** Where its number ends. */
  function NumberEnd(at: nat, p: Piece): nat {
    ColonAt(at, p) + 1 + |p.value| + |Sign(p.minus)| + |p.digits|
  }

  /** The parts of a member stand one behind the other. */
  ghost predicate Laid(text: string, at: nat, p: Piece) {
    && Has(text, at, p.before)
    && Has(text, at + |p.before|, "\"" + (p.raw + "\""))
    && Has(text, at + |p.before| + |p.raw| + 2, p.colon)
    && Has(text, ColonAt(at, p), ":")
    && Has(text, ColonAt(at, p) + 1, p.value + (Sign(p.minus) + p.digits))
    && Has(text, NumberEnd(at, p), p.after)
  }

  lemma PieceIsLaid(text: string, at: nat, p: Piece)
    ensures Has(text, at, PieceText(p)) <==> Laid(text, at, p)
    ensures |PieceText(p)| == NumberEnd(at, p) + |p.after| - at
  {
    hide Has, Sign;
    var number := p.value + (Sign(p.minus) + p.digits);
    var quoted := "\"" + (p.raw + "\"");
    assert NumberPart(p) == number + p.after;
    assert PieceText(p) == p.before + (quoted + (p.colon + (":" + (number + p.after))));
    HasBoth(text, at, p.before, quoted + (p.colon + (":" + (number + p.after))));
    HasBoth(text, at + |p.before|, quoted, p.colon + (":" + (number + p.after)));
    HasBoth(text, at + |p.before| + |p.raw| + 2, p.colon, ":" + (number + p.after));
    HasBoth(text, ColonAt(at, p), ":", number + p.after);
    HasBoth(text, ColonAt(at, p) + 1, number, p.after);
  }

  lemma MemberIsRead(names: seq<string>, text: string, at: nat, p: Piece, f: Field)
    requires Laid(text, at, p) && Spells(names, p, f)
    requires NumberEnd(at, p) == |text| || (NumberEnd(at, p) < |text| && !IsDigit(text[NumberEnd(at, p)]))
    ensures Skip(text, at) == at + |p.before| < |text| && text[at + |p.before|] == '\"'
    ensures MemberAt(names, text, at + |p.before|) == At(NumberEnd(at, p), f)
  {
    hide Has, Skip, MemberAt, Blank, Quotable, Denotes, TakenFor, Sign, AllDigits, IsDigit, IsSpace, StringAt, IntegerAt;
    NoneOfThese(':');
    NoneOfThese('\"');
    var start, colon := at + |p.before|, ColonAt(at, p);
    HasBoth(text, start, "\"", p.raw + "\"");
    HasFirst(text, start, '\"');
    SkipBlank(text, at, p.before);
    RawIsRead(text, start, p.raw);
    HasFirst(text, colon, ':');
    SkipBlank(text, start + |p.raw| + 2, p.colon);
    NumberIsRead(text, colon + 1, p, f.value);
    KeyAndNumber(names, text, start, p.raw, f.key, colon, NumberEnd(at, p), f.value);
  }

  lemma KeyAndNumber(names: seq<string>, text: string, at: nat, raw: string, key: string, colon: nat, next: nat, value: int)
    requires at + |raw| + 2 <= colon < |text| && text[colon] == ':' && TakenFor(raw, key) && key in names
    requires StringAt(text, at, KEY_CAPACITY) == At(at + |raw| + 2, raw)
    requires Skip(text, at + |raw| + 2) == colon && IntegerAt(text, colon + 1) == At(next, value)
    ensures MemberAt(names, text, at) == At(next, Field(key, value))
  {
    hide StringAt, IntegerAt, CString, TakenFor, Skip;
    CStringIsTaken(raw, key);
  }

  lemma BehindNumber(text: string, at: nat, p: Piece, c: char)
    requires Laid(text, at, p) && Blank(p.after) && Has(text, NumberEnd(at, p) + |p.after|, [c])
    requires c == ',' || c == '}'
    ensures NumberEnd(at, p) < |text| && !IsDigit(text[NumberEnd(at, p)])
    ensures Skip(text, NumberEnd(at, p)) == NumberEnd(at, p) + |p.after|
    ensures NumberEnd(at, p) + |p.after| < |text| && text[NumberEnd(at, p) + |p.after|] == c
  {
    hide Has, Skip, Blank, NumberEnd, IsDigit, IsSpace;
    var end := NumberEnd(at, p);
    HasFirst(text, end + |p.after|, c);
    NoneOfThese(c);
    SkipBlank(text, end, p.after);
    BlankHead(text, end, p.after);
  }

  lemma BlankHead(text: string, at: nat, s: string)
    requires Has(text, at, s) && Blank(s)
    ensures s != [] ==> at < |text| && !IsDigit(text[at])
  {
    hide Blank, IsDigit;
    if s != [] {
      assert text[at..at + |s|][0] == s[0];
      BlankIsNoDigit(s);
    }
  }

  lemma NoneOfThese(c: char)
    requires c in {',', '}', ':', '\"'}
    ensures !IsDigit(c) && !IsSpace(c)
  {
  }

  lemma BlankIsNoDigit(s: string)
    requires s != [] && Blank(s)
    ensures !IsDigit(s[0])
  {
  }

  /** One turn of the member loop over the text of a member. */
  lemma TurnOverPiece(names: seq<string>, text: string, at: nat, done: seq<Field>, p: Piece, f: Field, c: char)
    requires Has(text, at, PieceText(p)) && Spells(names, p, f) && |done| < 16
    requires Has(text, at + |PieceText(p)|, [c]) && (c == ',' || c == '}')
    ensures
      var next := at + |PieceText(p)| + 1;
      && next <= |text|
      && MembersAt(names, text, at, done) ==
         if c == ',' then MembersAt(names, text, next, done + [f]) else At(next, done + [f])
  {
    hide Has, PieceText, Laid, MemberAt, Spells, Skip;
    PieceIsLaid(text, at, p);
    SpellsBlankAfter(names, p, f);
    BehindNumber(text, at, p, c);
    MemberIsRead(names, text, at, p, f);
  }

  lemma SpellsBlankAfter(names: seq<string>, p: Piece, f: Field)
    requires Spells(names, p, f)
    ensures Blank(p.after)
  {
  }

  lemma {:induction false} RestIsRead(names: seq<string>, text: string, at: nat, done: seq<Field>,
                                      ps: seq<Piece>, fs: seq<Field>, stray: bool, tail: string)
    requires Has(text, at, Rest(ps, stray, tail)) && AllSpell(names, ps, fs) && Blank(tail)
    requires |done| + |fs| <= 16
    ensures at <= |text| && MembersAt(names, text, at, done) == At(at + |Rest(ps, stray, tail)|, done + fs)
    decreases ps
  {
    hide Has, PieceText, Spells, Rest, MembersAt, Blank;
    HasInside(text, at, Rest(ps, stray, tail));
    if ps == [] {
      NothingMore(names, text, at, done, stray, tail);
      assert done + fs == done;
    } else {
      var p, f, more := ps[0], fs[0], |ps| > 1 || stray;
      var next := at + |PieceText(p)| + 1;
      assert Spells(names, p, f);
      RestSplits(text, at, ps, stray, tail);
      if more {
        TurnOverPiece(names, text, at, done, p, f, ',');
        assert AllSpell(names, ps[1..], fs[1..]);
        RestIsRead(names, text, next, done + [f], ps[1..], fs[1..], stray, tail);
        assert done + [f] + fs[1..] == done + fs;
      } else {
        TurnOverPiece(names, text, at, done, p, f, '}');
        assert done + [f] == done + fs;
      }
    }
  }

  lemma NothingMore(names: seq<string>, text: string, at: nat, done: seq<Field>, stray: bool, tail: string)
    requires Has(text, at, Rest([], stray, tail)) && Blank(tail)
    ensures at <= |text| && MembersAt(names, text, at, done) == At(at + |Rest([], stray, tail)|, done)
  {
    hide Skip, Blank, MemberAt;
    HasBoth(text, at, tail, "}");
    HasFirst(text, at + |tail|, '}');
    NoneOfThese('}');
    SkipBlank(text, at, tail);
  }

  lemma RestSplits(text: string, at: nat, ps: seq<Piece>, stray: bool, tail: string)
    requires ps != []
    ensures
      var next := at + |PieceText(ps[0])| + 1;
      if |ps| > 1 || stray then
        && |Rest(ps, stray, tail)| == |PieceText(ps[0])| + 1 + |Rest(ps[1..], stray, tail)|
        && (Has(text, at, Rest(ps, stray, tail)) <==>
            Has(text, at, PieceText(ps[0])) && Has(text, next - 1, ",") && Has(text, next, Rest(ps[1..], stray, tail)))
      else
        && |Rest(ps, stray, tail)| == |PieceText(ps[0])| + 1
        && (Has(text, at, Rest(ps, stray, tail)) <==> Has(text, at, PieceText(ps[0])) && Has(text, next - 1, "}"))
  {
    hide Has, PieceText;
    var rest := Rest(ps[1..], stray, tail);
    if |ps| > 1 || stray {
      HasBoth(text, at, PieceText(ps[0]), "," + rest);
      HasBoth(text, at + |PieceText(ps[0])|, ",", rest);
    } else {
      HasBoth(text, at, PieceText(ps[0]), "}");
    }
  }

  lemma HasInside(text: string, at: nat, s: string)
    requires Has(text, at, s)
    ensures at <= at + |s| <= |text| && text[at..at + |s|] == s
  {
  }

  lemma TextIsRead(names: seq<string>, text: string, at: nat, lead: string, ps: seq<Piece>, fs: seq<Field>,
                   stray: bool, tail: string)
    requires Has(text, at, Text(lead, ps, stray, tail)) && AllSpell(names, ps, fs) && Blank(lead) && Blank(tail)
    requires |fs| <= 16
    ensures at <= |text| && EventAt(names, text, at) == At(at + |Text(lead, ps, stray, tail)|, fs)
  {
    hide Has, Rest, MembersAt, AllSpell, Blank, Skip;
    HasInside(text, at, Text(lead, ps, stray, tail));
    HasBoth(text, at, lead, "{" + Rest(ps, stray, tail));
    HasBoth(text, at + |lead|, "{", Rest(ps, stray, tail));
    HasFirst(text, at + |lead|, '{');
    SkipBlank(text, at, lead);
    RestIsRead(names, text, at + |lead| + 1, [], ps, fs, stray, tail);
    assert [] + fs == fs;
  }

  // ---- every text that is read is of the grammar -----------------------------------------------------------------

  lemma NumberIsOfGrammar(text: string, at: nat) returns (value: string, minus: bool, digits: string)
    requires at <= |text| && IntegerAt(text, at).At?
    ensures Blank(value) && digits != [] && AllDigits(digits) && Denotes(minus, digits, IntegerAt(text, at).value)
    ensures at + |value| + |Sign(minus)| + |digits| == IntegerAt(text, at).next <= |text|
    ensures Has(text, at, value + (Sign(minus) + digits))
  {
    hide Skip, IntegerAt, DigitsAt, Denotes, Blank, Has, AllDigits, DigitStop;
    var p := Skip(text, at);
    SkippedIsBlank(text, at);
    value := text[at..p];
    minus := p < |text| && text[p] == '-';
    var start := if minus then p + 1 else p;
    SignOrNot(text, at);
    var stop := DigitStop(text, start);
    digits := text[start..stop];
    DigitsUpToStop(text, start);
    NumberIsNarrowed(text, start, minus);
    SliceIsThere(text, at, p);
    SliceIsThere(text, start, stop);
    SignIsThere(text, p, minus);
    HasBoth(text, p, Sign(minus), digits);
    HasBoth(text, at, value, Sign(minus) + digits);
  }

  lemma SignOrNot(text: string, at: nat)
    requires at <= |text|
    ensures
      var p := Skip(text, at);
      IntegerAt(text, at) ==
      if p < |text| && text[p] == '-' then DigitsAt(text, p + 1, true) else DigitsAt(text, p, false)
  {
  }

  lemma SignIsThere(text: string, at: nat, minus: bool)
    requires at <= |text| && (minus ==> at < |text| && text[at] == '-')
    ensures Has(text, at, Sign(minus))
  {
  }

  lemma NumberIsNarrowed(text: string, start: nat, minus: bool)
    requires start <= |text| && DigitsAt(text, start, minus).At?
    ensures
      var stop := DigitStop(text, start);
      start < stop && DigitsAt(text, start, minus).next == stop
      && Denotes(minus, text[start..stop], DigitsAt(text, start, minus).value)
  {
    var stop := DigitStop(text, start);
    NumberInIsNumberOf(text, start, text[start..stop]);
    hide NumberOf;
  }

  /** The parts a member was read from: everything but the blanks in front of it and behind it. */
  lemma MemberIsOfGrammar(names: seq<string>, text: string, at: nat) returns (p: Piece)
    requires at <= |text| && Skip(text, at) == at && MemberAt(names, text, at).At?
    ensures p.before == [] && p.after == [] && Spells(names, p, MemberAt(names, text, at).value)
    ensures Has(text, at, PieceText(p)) && at + |PieceText(p)| == MemberAt(names, text, at).next
    ensures at < |text| && text[at] == '\"'
  {
    hide MemberAt, StringAt, IntegerAt, Skip, CString, Denotes, Blank, Quotable, TakenFor, Has, AllDigits, PieceText, Sign;
    MemberParts(names, text, at);
    var raw := StringAt(text, at, KEY_CAPACITY).value;
    var behind := StringAt(text, at, KEY_CAPACITY).next;
    var q := Skip(text, behind);
    RawIsOfGrammar(text, at);
    SkippedIsBlank(text, behind);
    SliceIsThere(text, behind, q);
    NothingIsThere(text, at);
    NothingIsThere(text, IntegerAt(text, q + 1).next);
    CStringIsTaken(raw, CString(raw));
    var value, minus, digits := NumberIsOfGrammar(text, q + 1);
    p := Piece([], raw, text[behind..q], value, minus, digits, []);
    PieceIsLaid(text, at, p);
    HasFirst(text, q, ':');
  }

  lemma MemberParts(names: seq<string>, text: string, at: nat)
    requires at <= |text| && MemberAt(names, text, at).At?
    ensures
      var key := StringAt(text, at, KEY_CAPACITY);
      && key.At? && key.next <= |text|
      && var q := Skip(text, key.next);
         && q < |text| && text[q] == ':' && CString(key.value) in names && IntegerAt(text, q + 1).At?
         && MemberAt(names, text, at) == At(IntegerAt(text, q + 1).next, Field(CString(key.value), IntegerAt(text, q + 1).value))
  {
    hide IntegerAt, CString, Skip, StringStop;
  }

  lemma NothingIsThere(text: string, at: nat)
    requires at <= |text|
    ensures Has(text, at, "") && Blank("")
  {
  }

  lemma RawIsOfGrammar(text: string, at: nat)
    requires at <= |text| && Skip(text, at) == at && StringAt(text, at, KEY_CAPACITY).At?
    ensures
      var r := StringAt(text, at, KEY_CAPACITY);
      && Quotable(r.value) && Has(text, at, "\"" + (r.value + "\"")) && r.next == at + |r.value| + 2
      && at < |text| && text[at] == '\"'
  {
    hide Has, StringStop, Skip;
    var stop := StringStop(text, at + 1);
    var raw := text[at + 1..stop];
    StoppedAtFirst(text, at + 1);
    SliceIsThere(text, at + 1, stop);
    HasFirst(text, at, '\"');
    HasFirst(text, stop, '\"');
    HasBoth(text, at + 1, raw, "\"");
    HasBoth(text, at, "\"", raw + "\"");
  }

  /** A member with the blanks around it. */
  lemma BlanksAround(names: seq<string>, text: string, at: nat, p: Piece, f: Field, before: string, after: string)
    requires p.before == [] && p.after == [] && Spells(names, p, f) && Blank(before) && Blank(after)
    requires Has(text, at, before) && Has(text, at + |before|, PieceText(p))
    requires Has(text, at + |before| + |PieceText(p)|, after)
    ensures
      var whole := p.(before := before, after := after);
      && Spells(names, whole, f) && Has(text, at, PieceText(whole))
      && |PieceText(whole)| == |before| + |PieceText(p)| + |after|
  {
    hide Has, PieceText, Sign;
    var whole := p.(before := before, after := after);
    PieceIsLaid(text, at + |before|, p);
    PieceIsLaid(text, at, whole);
  }

  lemma RestOfNothing(stray: bool, stray': bool, tail: string)
    ensures Rest([], stray, tail) == Rest([], stray', tail) == tail + "}"
  {
  }

  lemma {:induction false} MembersAreOfGrammar(names: seq<string>, text: string, at: nat, done: seq<Field>)
    returns (ps: seq<Piece>, fs: seq<Field>, stray: bool, tail: string)
    requires at <= |text| && MembersAt(names, text, at, done).At? && |done| <= 16
    ensures AllSpell(names, ps, fs) && Blank(tail) && |done| + |fs| <= 16
    ensures MembersAt(names, text, at, done) == At(at + |Rest(ps, stray, tail)|, done + fs)
    ensures Has(text, at, Rest(ps, stray, tail))
    decreases |text| - at
  {
    hide Has, PieceText, Spells, Rest, Blank, MemberAt, Skip;
    var start := Skip(text, at);
    SkippedIsBlank(text, at);
    SliceIsThere(text, at, start);
    if text[start] == '}' {
      ps, fs, stray, tail := [], [], false, text[at..start];
      RestOfNothing(false, false, tail);
      HasFirst(text, start, '}');
      HasBoth(text, at, tail, "}");
      assert done + fs == done;
    } else {
      var p, f, s := MemberWithBlanks(names, text, at);
      var size := |PieceText(p)|;
      HasFirst(text, s, text[s]);
      if text[s] == ',' {
        var ps', fs', stray', tail' := MembersAreOfGrammar(names, text, s + 1, done + [f]);
        ps, fs, stray, tail := [p] + ps', [f] + fs', stray' || ps' == [], tail';
        RestOfNothing(stray, stray', tail);
        assert ps[1..] == ps';
        RestKeeps(ps', stray, stray', tail);
        RestSplits(text, at, ps, stray, tail);
        assert done + [f] + fs' == done + fs;
      } else {
        ps, fs, stray, tail := [p], [f], false, [];
        EmptyIsBlank();
        RestSplits(text, at, ps, stray, tail);
      }
    }
  }

  lemma RestKeeps(ps: seq<Piece>, stray: bool, stray': bool, tail: string)
    requires ps == [] || stray == stray'
    ensures Rest(ps, stray, tail) == Rest(ps, stray', tail)
  {
  }

  lemma EmptyIsBlank()
    ensures Blank("")
  {
  }

  lemma SliceIsThere(text: string, at: nat, end: nat)
    requires at <= end <= |text|
    ensures Has(text, at, text[at..end])
  {
  }

  /** One turn of the member loop that reads a member, blanks and all. */
  lemma MemberWithBlanks(names: seq<string>, text: string, at: nat) returns (p: Piece, f: Field, s: nat)
    requires at <= |text| && MemberAt(names, text, Skip(text, at)).At?
    ensures Spells(names, p, f) && Has(text, at, PieceText(p)) && at + |PieceText(p)| == s
    ensures
      var m := MemberAt(names, text, Skip(text, at));
      f == m.value && s == Skip(text, m.next) <= |text|
  {
    hide Has, PieceText, Spells, Blank, MemberAt, Skip;
    var start := Skip(text, at);
    SkippedIsBlank(text, at);
    SliceIsThere(text, at, start);
    var bare := MemberIsOfGrammar(names, text, start);
    var next := MemberAt(names, text, start).next;
    f, s := MemberAt(names, text, start).value, Skip(text, next);
    SkippedIsBlank(text, next);
    SliceIsThere(text, next, s);
    BlanksAround(names, text, at, bare, f, text[at..start], text[next..s]);
    p := bare.(before := text[at..start], after := text[next..s]);
  }

  /** The text from `at` to `next` is of the grammar, and spells these fields. */
  ghost predicate IsTextOf(names: seq<string>, text: string, at: nat, next: nat, fs: seq<Field>,
                           lead: string, ps: seq<Piece>, stray: bool, tail: string) {
    && Blank(lead) && Blank(tail) && AllSpell(names, ps, fs)
    && Has(text, at, Text(lead, ps, stray, tail)) && next == at + |Text(lead, ps, stray, tail)|
  }

  /**
   * Exactly which texts are accepted, and as what: an object of up to sixteen members with blanks between any
   * two parts, where a key may go on behind a terminator, a number is what 64 bits keep of its digits, and the
   * last member may have a comma behind it.
   */
  lemma AcceptedExactly(names: seq<string>, text: string, at: nat, next: nat, fs: seq<Field>)
    requires at <= |text|
    ensures EventAt(names, text, at) == At(next, fs) <==>
            |fs| <= 16 && exists lead, ps, stray, tail :: IsTextOf(names, text, at, next, fs, lead, ps, stray, tail)
  {
    if EventAt(names, text, at) == At(next, fs) {
      EventIsOfGrammar(names, text, at);
    }
    if |fs| <= 16 && exists lead, ps, stray, tail :: IsTextOf(names, text, at, next, fs, lead, ps, stray, tail) {
      var lead, ps, stray, tail :| IsTextOf(names, text, at, next, fs, lead, ps, stray, tail);
      TextIsRead(names, text, at, lead, ps, fs, stray, tail);
    }
  }

  lemma EventIsOfGrammar(names: seq<string>, text: string, at: nat)
    requires at <= |text| && EventAt(names, text, at).At?
    ensures
      var r := EventAt(names, text, at);
      && |r.value| <= 16
      && exists lead, ps, stray, tail :: IsTextOf(names, text, at, r.next, r.value, lead, ps, stray, tail)
  {
    hide Has, Rest, Blank, AllSpell, Skip, MembersAt;
    var start := Skip(text, at);
    SkippedIsBlank(text, at);
    SliceIsThere(text, at, start);
    var lead := text[at..start];
    var ps, fs, stray, tail := MembersAreOfGrammar(names, text, start + 1, []);
    assert [] + fs == fs;
    HasFirst(text, start, '{');
    HasBoth(text, start, "{", Rest(ps, stray, tail));
    HasBoth(text, at, lead, "{" + Rest(ps, stray, tail));
    assert IsTextOf(names, text, at, EventAt(names, text, at).next, fs, lead, ps, stray, tail);
  }
}
