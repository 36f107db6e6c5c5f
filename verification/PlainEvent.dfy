/** The event text in plain characters: which digits a number takes, which pieces an event, and which keys there are. */
module PlainEvent {
  import opened Event

  // ---- numbers -------------------------------------------------------------------------------------------

  function TenTo(k: nat): (p: nat)
    ensures p >= 1
  {
    if k == 0 then 1 else 10 * TenTo(k - 1)
  }

  lemma {:induction false} TenToMonotone(a: nat, b: nat)
    requires a <= b
    ensures TenTo(a) <= TenTo(b)
    decreases b
  {
    if a < b {
      TenToMonotone(a, b - 1);
    }
  }

  /** Some digits write down less than ten to their count, and at least a tenth of that if the first is not zero. */
  lemma {:induction false} DigitsBound(s: string)
    requires AllDigits(s)
    ensures NumberOf(s) < TenTo(|s|)
    ensures s != [] && s[0] != '0' ==> NumberOf(s) >= TenTo(|s| - 1)
  {
    if s != [] {
      var t := s[..|s| - 1];
      DigitsBound(t);
      if |s| == 1 {
        assert NumberOf(t) == 0;
      }
    }
  }

  /** There is one way to write a number without a needless zero in front. */
  lemma {:induction false} OneDecimal(s: string)
    requires s != [] && AllDigits(s) && (|s| > 1 ==> s[0] != '0')
    ensures Decimal(NumberOf(s)) == s
  {
    var n := |s| - 1;
    var t, d := s[..n], DigitOf(s[n]);
    assert s == t + [s[n]] && d < 10 && DigitChar(d) == s[n];
    if n == 0 {
      assert NumberOf(t) == 0;
    } else {
      OneDecimal(t);
      DigitsBound(t);
      TenToMonotone(0, n - 1);
      assert NumberOf(s) == 10 * NumberOf(t) + d && NumberOf(t) >= 1;
      LastDigit(NumberOf(t), d);
    }
  }

  lemma LastDigit(m: nat, d: nat)
    requires m >= 1 && d < 10
    ensures Decimal(10 * m + d) == Decimal(m) + [DigitChar(d)]
  {
    assert (10 * m + d) / 10 == m && (10 * m + d) % 10 == d;
  }

  /** Zero is one zero, and no other number begins with one. */
  lemma {:induction false} NoLeadingZero(n: nat)
    ensures n == 0 ==> Decimal(n) == "0"
    ensures n > 0 ==> Decimal(n)[0] != '0'
  {
    if n >= 10 {
      NoLeadingZero(n / 10);
      assert Decimal(n)[0] == Decimal(n / 10)[0];
    }
  }

  /** A number takes as many digits as it has powers of ten below it. */
  lemma DecimalLength(n: nat, k: nat)
    requires k >= 1 && n < TenTo(k) && (k == 1 || n >= TenTo(k - 1))
    ensures |Decimal(n)| == k
  {
    hide Decimal, NumberOf, TenTo;
    NoLeadingZero(n);
    NumberOfDecimal(n);
    DigitsBound(Decimal(n));
    var l := |Decimal(n)|;
    if l < k {
      TenToMonotone(l, k - 1);
    } else if l > k && n > 0 {
      TenToMonotone(k, l - 1);
    }
  }

  /** No other way of writing a number down is shorter. */
  lemma DecimalIsShortest(s: string)
    requires s != [] && AllDigits(s)
    ensures |Decimal(NumberOf(s))| <= |s|
  {
    hide Decimal, NumberOf, TenTo;
    var n := NumberOf(s);
    NoLeadingZero(n);
    NumberOfDecimal(n);
    DigitsBound(Decimal(n));
    DigitsBound(s);
    if |Decimal(n)| > |s| && n > 0 {
      TenToMonotone(|s|, |Decimal(n)| - 1);
    }
  }

  /** The whole text of a number: a minus sign only below zero, and the digits of what is left. */
  lemma NumberText(value: int)
    ensures value < 0 ==> Number(value) == ['-'] + Decimal(-value)
    ensures value >= 0 ==> Number(value) == Decimal(value)
    ensures value == 0 ==> Number(value) == "0"
    ensures value != 0 ==> Decimal(if value < 0 then -value else value)[0] != '0'
  {
    NoLeadingZero(if value < 0 then -value else value);
  }

  // ---- events ----------------------------------------------------------------------------------------------

  lemma FieldText(f: Field)
    ensures PrintField(f) == ['\"'] + f.key + ['\"', ':'] + Number(f.value)
  {
    hide Number;
  }

  lemma {:induction false} JoinedSnoc(pieces: seq<string>, last: string, i: nat)
    requires i < |pieces|
    ensures Joined(pieces + [last], i) == Joined(pieces, i) + "," + last
    decreases |pieces| - i
  {
    if i + 1 < |pieces| {
      JoinedSnoc(pieces, last, i + 1);
      var a, b := pieces[i], Joined(pieces, i + 1);
      assert a + "," + (b + "," + last) == a + "," + b + "," + last;
    } else {
      assert Joined(pieces + [last], i + 1) == last;
    }
  }

  /** An event is its fields between braces, with a comma in front of each one but the first. */
  lemma EventText(fields: seq<Field>, f: Field)
    ensures Print([]) == "{}"
    ensures Print([f]) == "{" + PrintField(f) + "}"
    ensures fields != [] ==>
              exists inside :: Print(fields) == "{" + inside + "}"
                               && Print(fields + [f]) == "{" + (inside + "," + PrintField(f)) + "}"
  {
    hide PrintField;
    assert Pieces([f]) == [PrintField(f)];
    if fields != [] {
      assert Pieces(fields + [f]) == Pieces(fields) + [PrintField(f)];
      JoinedSnoc(Pieces(fields), PrintField(f), 0);
      var inside := Joined(Pieces(fields), 0);
      assert Print(fields) == "{" + inside + "}";
    }
  }

  /** An event holds up to sixteen fields under known keys, each a signed 64-bit number. */
  lemma PrintableMeans(names: seq<string>, fields: seq<Field>)
    ensures
      Printable(names, fields) <==>
      && |fields| <= 16
      && forall i | 0 <= i < |fields| ::
           fields[i].key in names && -9223372036854775808 <= fields[i].value <= 9223372036854775807
  {
    assert forall i | 0 <= i < |fields| ::
             Holds(names, fields[i]) <==>
             fields[i].key in names && -9223372036854775808 <= fields[i].value <= 9223372036854775807;
  }

  /** The keys a benchmark event may have. */
  lemma KnownKeys(key: string)
    ensures key in NAMES <==>
            key in {"type", "priority", "source_ref", "machine_class", "capability_tag", "ttl", "hazard_class",
                    "severity", "confidence", "x", "y", "z", "radius", "request_class", "target_ref",
                    "authority_class", "jurisdiction", "credential_ref", "validity", "affected_capability",
                    "health", "transport_id", "profile_id", "endpoint_token"}
  {
  }
}
