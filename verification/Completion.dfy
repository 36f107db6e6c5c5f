/** What bytes that are still to come can change about a verdict of `Truncated`. */
module Completion {
  import opened Machine
  import opened Tier0
  import opened Tier0Laws
  import opened Frame
  import opened Message
  import opened Tlv
  import Trailing
  import Uvarint

  // ---- a block of which only the first bytes are in hand -------------------------------------------

  /** The same reader once `more` has arrived. */
  function Filled(st: ReaderState, more: seq<byte>): ReaderState {
    st.(data := st.data + more)
  }

  /** The key is cut one byte before the block ends: whatever that byte, the item is not finished. */
  predicate KeyCutForGood(st: ReaderState, key: seq<byte>, missing: nat) {
    && missing == 1 && 1 <= |key| <= 3 && key[0] != 0x80
    && (st.hasPrevious ==> st.previousId < 64 * Uvarint.Carried(key))
  }

  /** The length is, or can only become, larger than what is left of the block. */
  predicate LengthCutForGood(length: seq<byte>, missing: nat) {
    var l := Uvarint.Decode(length);
    if l.Err? then length != [] && length[0] != 0x80 && |length| + missing <= 4
    else l.value.0 > |length| - l.value.1 + missing
  }

  /** The item the bytes in hand end in cannot be finished inside a block of `size` bytes. */
  predicate ItemCutForGood(st: ReaderState, size: nat)
    requires st.offset <= |st.data| <= size
  {
    var rest, missing := st.data[st.offset..], size - |st.data|;
    missing == 0 ||
    var key := Uvarint.Decode(rest);
    if key.Err? then KeyCutForGood(st, rest, missing) else LengthCutForGood(rest[key.value.1..], missing)
  }

  /** The critical items offered once `item` has been met. */
  function Offered(offered: seq<Extension>, item: Extension): seq<Extension> {
    if item.critical != 0 then offered + [item] else offered
  }

  /**
   * The items in hand are accepted, up to one that cannot be finished. `size` is the announced length
   * of the block, the reader's data are the bytes of it in hand.
   */
  predicate CutForGood(st: ReaderState, size: nat, callback: Callback, offered: seq<Extension>)
    requires st.offset <= |st.data| <= size
    decreases |st.data| - st.offset
  {
    var (st', reading) := Next(st);
    NextAdvances(st);
    match reading
    case Finished => false
    case Refused(e) => e == Truncated && ItemCutForGood(st, size)
    case Read(item, _) =>
      && (item.critical != 0 ==> Accepts(callback, offered, item))
      && CutForGood(st', size, callback, Offered(offered, item))
  }

  /** A call that read an item, or refused for another reason, does the same when more has arrived. */
  lemma NextIsFinal(st: ReaderState, more: seq<byte>)
    requires st.offset <= |st.data|
    requires var r := Next(st).1; r.Read? || (r.Refused? && r.error != Truncated)
    ensures Next(Filled(st, more)) == (Filled(Next(st).0, more), Next(st).1)
  {
    var rest := st.data[st.offset..];
    assert (st.data + more)[st.offset..] == rest + more;
    Uvarint.VerdictIsFinal(rest, more);
    var key := Uvarint.Decode(rest);
    if key.Ok? {
      NextAfterKeyIsFinal(st, key.value.0, key.value.1, more);
    }
  }

  lemma NextAfterKeyIsFinal(st: ReaderState, key: uint32, size: nat, more: seq<byte>)
    requires st.offset + size <= |st.data|
    requires NextAfterKey(st, key, size).1 != Refused(Truncated)
    ensures
      var (st', r) := NextAfterKey(st, key, size);
      NextAfterKey(Filled(st, more), key, size) == (Filled(st', more), r)
  {
    var at := st.offset + size;
    var rest := st.data[at..];
    assert (st.data + more)[at..] == rest + more;
    var length := Uvarint.Decode(rest);
    if length != Err(Truncated) {
      Uvarint.VerdictIsFinal(rest, more);
      if length.Ok? && length.value.0 <= |st.data| - at - length.value.1 {
        var from := at + length.value.1;
        assert (st.data + more)[from..from + length.value.0] == st.data[from..from + length.value.0];
      }
    }
  }

  // ---- cut for good: nothing that arrives helps ------------------------------------------------------

  /** A key cut one byte before the end stays cut, or is whole and leaves no room for a length. */
  lemma CutKeyStaysCut(st: ReaderState, last: byte)
    requires st.offset <= |st.data| && KeyCutForGood(st, st.data[st.offset..], 1)
    requires Uvarint.Decode(st.data[st.offset..]) == Err(Truncated)
    ensures Next(Filled(st, [last])).1 == Refused(Truncated)
  {
    var rest, n := st.data[st.offset..], |st.data| - st.offset;
    var whole := rest + [last];
    assert (st.data + [last])[st.offset..] == whole;
    Uvarint.TruncatedExactly(rest);
    Uvarint.CarriedBounds(rest);
    if last < 0x80 {
      assert whole[..n] == rest;
      Uvarint.DecodeAfterRun(whole, n);
      assert (st.data + [last])[st.offset + n + 1..] == [];
      Uvarint.TruncatedExactly([]);
    } else {
      Uvarint.TruncatedExactly(whole);
    }
  }

  /** A length cut close to the end stays cut, or is whole and larger than what is left. */
  lemma CutLengthStaysLong(length: seq<byte>, more: seq<byte>)
    requires LengthCutForGood(length, |more|)
    requires var l := Uvarint.Decode(length); l.Err? ==> l.error == Truncated
    ensures
      var l := Uvarint.Decode(length + more);
      if l.Err? then l.error == Truncated else l.value.0 > |length + more| - l.value.1
  {
    var whole := length + more;
    if Uvarint.Decode(length).Ok? {
      Uvarint.VerdictIsFinal(length, more);
    } else {
      Uvarint.TruncatedExactly(length);
      Uvarint.TruncatedExactly(whole);
      var n := Uvarint.Run(whole);
      if n < |whole| {
        assert forall i | 0 <= i < |length| :: whole[i] == length[i] && length[i] >= 0x80;
        var p := whole[..n];
        assert p[0] == length[0];
        Uvarint.CarriedBounds(p);
        Uvarint.DecodeAfterRun(whole, n);
      }
    }
  }

  lemma CutItemStaysCut(st: ReaderState, size: nat, more: seq<byte>)
    requires st.offset <= |st.data| && |st.data| + |more| == size
    requires Next(st).1 == Refused(Truncated) && ItemCutForGood(st, size)
    ensures Next(Filled(st, more)).1 == Refused(Truncated)
  {
    hide Uvarint.Decode, LengthCutForGood;
    var rest := st.data[st.offset..];
    var key := Uvarint.Decode(rest);
    if more == [] {
      assert st.data + more == st.data;
    } else if key.Err? {
      assert more == [more[0]];
      CutKeyStaysCut(st, more[0]);
    } else {
      var at := st.offset + key.value.1;
      assert (st.data + more)[st.offset..] == rest + more;
      Uvarint.VerdictIsFinal(rest, more);
      assert rest[key.value.1..] == st.data[at..];
      assert (st.data + more)[at..] == st.data[at..] + more;
      CutLengthStaysLong(st.data[at..], more);
    }
  }

  lemma {:induction false} CutForGoodIsTruncated(st: ReaderState, size: nat, callback: Callback,
                                                offered: seq<Extension>, more: seq<byte>)
    requires st.offset <= |st.data| && |st.data| + |more| == size
    requires CutForGood(st, size, callback, offered)
    ensures Scan(Filled(st, more), callback, offered) == Err(Truncated)
    decreases |st.data| - st.offset
  {
    var (st', reading) := Next(st);
    NextAdvances(st);
    if reading.Read? {
      var item := reading.item;
      NextIsFinal(st, more);
      CutForGoodIsTruncated(st', size, callback, Offered(offered, item), more);
    } else {
      CutItemStaysCut(st, size, more);
    }
  }

  // ---- not cut for good: some completion is told apart -------------------------------------------------

  /** `n` bytes of one value; all zeros or all ones settle every block that can be settled. */
  function Fill(b: byte, n: nat): (r: seq<byte>)
    ensures |r| == n && forall i | 0 <= i < n :: r[i] == b
  {
    seq(n, _ => b)
  }

  predicate ZerosFrom(s: seq<byte>, at: nat) {
    at <= |s| && forall i | at <= i < |s| :: s[i] == 0
  }

  lemma ZeroDecodes(s: seq<byte>)
    requires s != [] && s[0] == 0
    ensures Uvarint.Decode(s) == Ok((0, 1))
  {
    Uvarint.DecodeAfterRun(s, 0);
  }

  /** A reader with nothing but zeros ahead finishes, or refuses the id zero. */
  lemma ZerosAreNoItem(st: ReaderState, callback: Callback, offered: seq<Extension>)
    requires ZerosFrom(st.data, st.offset)
    ensures Scan(st, callback, offered) != Err(Truncated)
  {
    if st.offset < |st.data| {
      ZeroDecodes(st.data[st.offset..]);
    }
  }

  lemma ItemThenZeros(st: ReaderState, callback: Callback, offered: seq<Extension>)
    requires st.offset <= |st.data| && Next(st).1.Read? && ZerosFrom(st.data, Next(st).0.offset)
    ensures Scan(st, callback, offered) != Err(Truncated)
  {
    NextAdvances(st);
    var item := Next(st).1.item;
    ZerosAreNoItem(Next(st).0, callback, Offered(offered, item));
  }

  /** The key has been read and is in order. */
  predicate KeyIsRead(st: ReaderState, key: uint32, size: nat) {
    && st.offset < |st.data| && Uvarint.Decode(st.data[st.offset..]) == Ok((key, size))
    && key / 2 != 0 && (st.hasPrevious ==> st.previousId < key / 2)
  }

  /** A key in hand, in order, with zeros behind the cut length: an empty item, and then no item. */
  lemma LengthThenZeros(st: ReaderState, key: uint32, size: nat, callback: Callback, offered: seq<Extension>)
    requires KeyIsRead(st, key, size)
    requires st.offset + size < |st.data| && ZerosFrom(st.data, st.offset + size)
    ensures Scan(st, callback, offered) != Err(Truncated)
  {
    ZeroDecodes(st.data[st.offset + size..]);
    ItemThenZeros(st, callback, offered);
  }

  /** A length in hand that fits, its value filled up with zeros: an item, and then no item. */
  lemma ValueThenZeros(st: ReaderState, key: uint32, size: nat, callback: Callback, offered: seq<Extension>)
    requires KeyIsRead(st, key, size)
    requires
      var at := st.offset + size;
      && at <= |st.data|
      && var length := Uvarint.Decode(st.data[at..]);
      && length.Ok?
      && at + length.value.1 + length.value.0 <= |st.data|
      && ZerosFrom(st.data, at + length.value.1 + length.value.0)
    ensures Scan(st, callback, offered) != Err(Truncated)
  {
    ItemThenZeros(st, callback, offered);
  }

  lemma RefusedOtherwise(st: ReaderState, callback: Callback, offered: seq<Extension>)
    requires st.offset <= |st.data| && Next(st).1.Refused? && Next(st).1.error != Truncated
    ensures Scan(st, callback, offered) != Err(Truncated)
  {
  }

  predicate Settled(st: ReaderState, missing: nat, callback: Callback, offered: seq<Extension>)
    requires st.offset <= |st.data|
  {
    || Scan(Filled(st, Fill(0, missing)), callback, offered) != Err(Truncated)
    || Scan(Filled(st, Fill(0xFF, missing)), callback, offered) != Err(Truncated)
  }

  lemma FilledRest(st: ReaderState, more: seq<byte>, at: nat)
    requires at <= |st.data|
    ensures Filled(st, more).data[at..] == st.data[at..] + more
  {
  }

  lemma FrontOf(s: seq<byte>, t: seq<byte>)
    ensures (s + t)[..|s|] == s
  {
  }

  /** Ones behind a short run go on with it until it is too long. */
  lemma OnesOverflow(s: seq<byte>, n: nat)
    requires s != [] && Uvarint.Continues(s, |s|) && |s| + n >= Uvarint.UVARINT_MAX
    ensures Uvarint.Decode(s + Fill(0xFF, n)) == Err(OutOfRange)
  {
    Uvarint.FiveContinue(s + Fill(0xFF, n));
  }

  /** A zero behind a short run ends it, as what it carries if that is a value at all. */
  lemma ZeroEndsRun(s: seq<byte>, n: nat)
    requires |s| < Uvarint.UVARINT_MAX && Uvarint.Continues(s, |s|) && n > 0
    ensures
      var v := 0x80 * Uvarint.Carried(s);
      Uvarint.Decode(s + Fill(0, n)) == if v > UINT32_MAX then Err(OutOfRange)
                                        else if s != [] && s[0] == 0x80 then Err(Noncanonical)
                                        else Ok((v, |s| + 1))
  {
    FrontOf(s, Fill(0, n));
    Uvarint.DecodeAfterRun(s + Fill(0, n), |s|);
  }

  lemma KeySettles(st: ReaderState, missing: nat, callback: Callback, offered: seq<Extension>)
    requires st.offset < |st.data| && missing > 0
    requires Uvarint.Decode(st.data[st.offset..]) == Err(Truncated)
    requires !KeyCutForGood(st, st.data[st.offset..], missing)
    ensures Settled(st, missing, callback, offered)
  {
    var rest := st.data[st.offset..];
    Uvarint.TruncatedExactly(rest);
    FilledRest(st, Fill(0, missing), st.offset);
    FilledRest(st, Fill(0xFF, missing), st.offset);
    if |rest| == 4 && rest[0] != 0x80 {
      OnesOverflow(rest, missing);
      RefusedOtherwise(Filled(st, Fill(0xFF, missing)), callback, offered);
    } else {
      ZeroEndsRun(rest, missing);
      if rest[0] == 0x80 {
        RefusedOtherwise(Filled(st, Fill(0, missing)), callback, offered);
      } else {
        Uvarint.CarriedBounds(rest);
        WholeKeySettles(st, rest, missing, callback, offered);
      }
    }
  }

  lemma WholeKeySettles(st: ReaderState, rest: seq<byte>, missing: nat, callback: Callback, offered: seq<Extension>)
    requires st.offset < |st.data| && rest == st.data[st.offset..] && missing > 0
    requires 0 < 0x80 * Uvarint.Carried(rest) <= UINT32_MAX
    requires Uvarint.Decode(Filled(st, Fill(0, missing)).data[st.offset..]) == Ok((0x80 * Uvarint.Carried(rest), |rest| + 1))
    requires missing >= 2 || (st.hasPrevious && st.previousId >= 64 * Uvarint.Carried(rest))
    ensures Settled(st, missing, callback, offered)
  {
    var zeros, key := Filled(st, Fill(0, missing)), 0x80 * Uvarint.Carried(rest);
    assert key / 2 == 64 * Uvarint.Carried(rest);
    if st.hasPrevious && st.previousId >= key / 2 {
      RefusedOtherwise(zeros, callback, offered);
    } else {
      LengthThenZeros(zeros, key, |rest| + 1, callback, offered);
    }
  }

  lemma KeyStays(st: ReaderState, key: uint32, size: nat, more: seq<byte>)
    requires KeyIsRead(st, key, size)
    ensures KeyIsRead(Filled(st, more), key, size)
  {
    Uvarint.VerdictIsFinal(st.data[st.offset..], more);
    FilledRest(st, more, st.offset);
  }

  lemma ValueSettles(st: ReaderState, key: uint32, size: nat, missing: nat, callback: Callback, offered: seq<Extension>)
    requires KeyIsRead(st, key, size)
    requires
      var length := Uvarint.Decode(st.data[st.offset + size..]);
      && length.Ok?
      && |st.data| <= st.offset + size + length.value.1 + length.value.0 <= |st.data| + missing
    ensures Settled(st, missing, callback, offered)
  {
    KeyStays(st, key, size, Fill(0, missing));
    FilledRest(st, Fill(0, missing), st.offset + size);
    Uvarint.VerdictIsFinal(st.data[st.offset + size..], Fill(0, missing));
    ValueThenZeros(Filled(st, Fill(0, missing)), key, size, callback, offered);
  }

  lemma CutLengthSettles(st: ReaderState, key: uint32, size: nat, missing: nat, callback: Callback, offered: seq<Extension>)
    requires KeyIsRead(st, key, size) && missing > 0
    requires Uvarint.Decode(st.data[st.offset + size..]) == Err(Truncated)
    requires !LengthCutForGood(st.data[st.offset + size..], missing)
    ensures Settled(st, missing, callback, offered)
  {
    var rest := st.data[st.offset + size..];
    Uvarint.TruncatedExactly(rest);
    FilledRest(st, Fill(0, missing), st.offset + size);
    FilledRest(st, Fill(0xFF, missing), st.offset + size);
    if rest != [] && rest[0] != 0x80 {
      KeyStays(st, key, size, Fill(0xFF, missing));
      OnesOverflow(rest, missing);
      RefusedOtherwise(Filled(st, Fill(0xFF, missing)), callback, offered);
    } else {
      KeyStays(st, key, size, Fill(0, missing));
      if rest == [] {
        LengthThenZeros(Filled(st, Fill(0, missing)), key, size, callback, offered);
      } else {
        ZeroEndsRun(rest, missing);
        RefusedOtherwise(Filled(st, Fill(0, missing)), callback, offered);
      }
    }
  }

  lemma CutItemSettles(st: ReaderState, size: nat, callback: Callback, offered: seq<Extension>)
    requires st.offset <= |st.data| <= size
    requires Next(st).1 == Refused(Truncated) && !ItemCutForGood(st, size)
    ensures Settled(st, size - |st.data|, callback, offered)
  {
    hide Scan, Settled, KeyCutForGood;
    var rest := st.data[st.offset..];
    var key := Uvarint.Decode(rest);
    if key.Err? {
      KeySettles(st, size - |st.data|, callback, offered);
    } else {
      var length := st.data[st.offset + key.value.1..];
      assert rest[key.value.1..] == length;
      if Uvarint.Decode(length).Ok? {
        ValueSettles(st, key.value.0, key.value.1, size - |st.data|, callback, offered);
      } else {
        CutLengthSettles(st, key.value.0, key.value.1, size - |st.data|, callback, offered);
      }
    }
  }

  lemma ReadSettles(st: ReaderState, missing: nat, callback: Callback, offered: seq<Extension>)
    requires st.offset <= |st.data| && Next(st).1.Read?
    ensures Advances(st, Next(st).0, Next(st).1)
    ensures
      var item := Next(st).1.item;
      (item.critical != 0 ==> Accepts(callback, offered, item)) ==>
        Settled(Next(st).0, missing, callback, Offered(offered, item)) ==> Settled(st, missing, callback, offered)
    ensures
      var item := Next(st).1.item;
      item.critical != 0 && !Accepts(callback, offered, item) ==> Settled(st, missing, callback, offered)
  {
    NextAdvances(st);
    NextIsFinal(st, Fill(0, missing));
    NextIsFinal(st, Fill(0xFF, missing));
  }

  lemma UnreadSettles(st: ReaderState, size: nat, callback: Callback, offered: seq<Extension>)
    requires st.offset <= |st.data| <= size && !Next(st).1.Read?
    requires Next(st).1 == Refused(Truncated) ==> !ItemCutForGood(st, size)
    ensures Settled(st, size - |st.data|, callback, offered)
  {
    var zeros := Fill(0, size - |st.data|);
    if Next(st).1.Finished? {
      ZerosAreNoItem(Filled(st, zeros), callback, offered);
    } else if Next(st).1.error == Truncated {
      CutItemSettles(st, size, callback, offered);
    } else {
      NextIsFinal(st, zeros);
      RefusedOtherwise(Filled(st, zeros), callback, offered);
    }
  }

  /** A block that is not cut for good is told apart from a cut one by zeros, or by ones. */
  lemma {:induction false} OthersSettle(st: ReaderState, size: nat, callback: Callback, offered: seq<Extension>)
    requires st.offset <= |st.data| <= size
    requires !CutForGood(st, size, callback, offered)
    ensures Settled(st, size - |st.data|, callback, offered)
    decreases |st.data| - st.offset
  {
    var (st', reading) := Next(st);
    if reading.Read? {
      ReadSettles(st, size - |st.data|, callback, offered);
      if reading.item.critical == 0 || Accepts(callback, offered, reading.item) {
        OthersSettle(st', size, callback, Offered(offered, reading.item));
      }
    } else {
      UnreadSettles(st, size, callback, offered);
    }
  }

  // ---- whole messages --------------------------------------------------------------------------------

  /** A body whose length is announced, the announced length, and where the block starts. */
  predicate Announces(data: seq<byte>, d: DecodedBody, length: nat, at: nat) {
    && DecodeBody(data) == Ok(d) && d.extensionPresent && d.size <= |data|
    && 1 <= length <= BLOCK_MAX && at >= d.size
    && Uvarint.Decode(data[d.size..]) == Ok((length, at - d.size))
  }

  /** The bytes of the block that are in hand. */
  function InHand(data: seq<byte>, length: nat, at: nat): (hand: seq<byte>)
    requires at <= |data|
    ensures |hand| <= length
  {
    if |data| < at + length then data[at..] else data[at..at + length]
  }

  /** What no further bytes can change: the announced block is cut for good by what is in hand of it. */
  ghost predicate TruncatedForGood(data: seq<byte>, callback: Callback) {
    exists d: DecodedBody, length: nat, at: nat ::
      && Announces(data, d, length, at)
      && at <= |data|
      && CutForGood(Start(InHand(data, length, at)), length, callback, [])
  }

  lemma AnnouncedInside(data: seq<byte>, d: DecodedBody, length: nat, at: nat)
    requires Announces(data, d, length, at)
    ensures d.size < at <= |data|
  {
  }

  /** What is announced stays announced. */
  lemma AnnouncedGrows(data: seq<byte>, d: DecodedBody, length: nat, at: nat, more: seq<byte>)
    requires Announces(data, d, length, at)
    ensures Announces(data + more, d, length, at)
  {
    hide DecodeBody;
    BodyVerdictIsFinal(data, more);
    assert (data + more)[d.size..] == data[d.size..] + more;
    Uvarint.VerdictIsFinal(data[d.size..], more);
  }

  lemma AnnouncedFrame(data: seq<byte>, d: DecodedBody, length: nat, at: nat)
    requires Announces(data, d, length, at)
    ensures at <= |data|
    ensures
      DecodeFrame(data) ==
      if |data| < at + length then Err(Truncated)
      else Ok(Framed(Frame(d.major, d.obj, data[at..at + length]), at + length))
  {
    hide DecodeBody, DecodeFrame;
    BodyThenBehind(data, d);
  }

  /** The block of a filled-up message is what was in hand of it and what it lacked. */
  lemma BlockFills(data: seq<byte>, length: nat, at: nat, more: seq<byte>)
    requires at <= |data| && at + length <= |data + more|
    ensures
      var hand := InHand(data, length, at);
      && length - |hand| <= |more|
      && (data + more)[at..at + length] == hand + more[..length - |hand|]
  {
  }

  lemma ScannedFrame(data: seq<byte>, f: Framed, callback: Callback)
    requires DecodeFrame(data) == Ok(f)
    ensures DecodeExt(data, callback) == Err(Truncated) <==> Scan(Start(f.frame.block), callback, []) == Err(Truncated)
  {
  }

  lemma TruncatedFrameIsTruncated(data: seq<byte>, callback: Callback)
    requires DecodeFrame(data) == Err(Truncated)
    ensures DecodeExt(data, callback) == Err(Truncated)
  {
  }

  /** Bytes that arrive behind an announced block only fill it up, and it is scanned once it is full. */
  lemma AnnouncedThen(data: seq<byte>, d: DecodedBody, length: nat, at: nat, more: seq<byte>, callback: Callback)
    requires Announces(data, d, length, at) && at <= |data|
    ensures |data + more| < at + length ==> DecodeExt(data + more, callback) == Err(Truncated)
    ensures
      var hand := InHand(data, length, at);
      var missing := length - |hand|;
      |data + more| >= at + length ==>
        && missing <= |more|
        && (DecodeExt(data + more, callback) == Err(Truncated) <==>
            Scan(Filled(Start(hand), more[..missing]), callback, []) == Err(Truncated))
  {
    hide DecodeExt, DecodeBody, Scan;
    AnnouncedGrows(data, d, length, at, more);
    AnnouncedFrame(data + more, d, length, at);
    if |data + more| < at + length {
      TruncatedFrameIsTruncated(data + more, callback);
    } else {
      BlockFills(data, length, at, more);
      ScannedFrame(data + more, DecodeFrame(data + more).value, callback);
    }
  }

  /** Soundness: a message that is truncated for good is truncated whatever follows. */
  lemma NothingHelps(data: seq<byte>, d: DecodedBody, length: nat, at: nat, callback: Callback, more: seq<byte>)
    requires Announces(data, d, length, at) && at <= |data|
    requires CutForGood(Start(InHand(data, length, at)), length, callback, [])
    ensures DecodeExt(data + more, callback) == Err(Truncated)
  {
    hide DecodeExt, DecodeBody, Scan;
    AnnouncedThen(data, d, length, at, more, callback);
    if |data + more| >= at + length {
      var hand := InHand(data, length, at);
      CutForGoodIsTruncated(Start(hand), length, callback, [], more[..length - |hand|]);
    }
  }

  /** Completeness, once a block is announced. */
  lemma AnnouncedIsSettled(data: seq<byte>, d: DecodedBody, length: nat, at: nat, callback: Callback)
    returns (more: seq<byte>)
    requires Announces(data, d, length, at) && at <= |data|
    requires !CutForGood(Start(InHand(data, length, at)), length, callback, [])
    ensures DecodeExt(data + more, callback) != Err(Truncated)
  {
    hide DecodeExt, DecodeBody, Scan, CutForGood;
    var hand := InHand(data, length, at);
    var missing := length - |hand|;
    OthersSettle(Start(hand), length, callback, []);
    var b: byte := if Scan(Filled(Start(hand), Fill(0, missing)), callback, []) != Err(Truncated) then 0 else 0xFF;
    more := Fill(b, missing);
    AnnouncedThen(data, d, length, at, more, callback);
    assert more[..missing] == more;
  }

  // ---- frames: more bytes always help ------------------------------------------------------------------

  lemma LongBodiesAreDecided(data: seq<byte>)
    requires |data| >= TIER0_MAX_SIZE
    ensures DecodeBody(data) != Err(Truncated)
  {
  }

  /** A body that is accepted with more bytes behind it is accepted as soon as it is whole. */
  lemma WholeBodyIsEnough(data: seq<byte>, more: seq<byte>)
    requires DecodeBody(data + more).Ok?
    ensures DecodeBody(data + more).value.size <= |data| ==> DecodeBody(data).Ok?
  {
    EncodeOfDecode(data + more);
    var d := DecodeBody(data + more).value;
    if d.size <= |data| {
      assert (data + more)[..d.size] == data[..d.size];
      DecodeOfEncode(d.major, d.obj, if d.extensionPresent then 1 else 0, data[d.size..]);
      assert data[..d.size] + data[d.size..] == data;
    }
  }

  lemma CutBodyMovesOn(data: seq<byte>) returns (more: seq<byte>)
    requires DecodeBody(data) == Err(Truncated)
    ensures var frame := DecodeFrame(data + more); frame.Ok? || frame.error != Truncated
    ensures var frame := DecodeFrame(data + more); frame.Ok? ==> frame.value.frame.block == []
  {
    more := Fill(0, TIER0_MAX_SIZE + 1);
    var whole := data + more;
    LongBodiesAreDecided(whole);
    if DecodeBody(whole).Ok? {
      var d := DecodeBody(whole).value;
      WholeBodyIsEnough(data, more);
      DecodedSizeFits(whole);
      assert d.size <= TIER0_MAX_SIZE < |whole| by {
        EncodeOfDecode(whole);
      }
      assert whole[d.size..][0] == 0;
      ZeroDecodes(whole[d.size..]);
      BodyThenBehind(whole, d);
    }
  }

  lemma CutLengthMovesOn(data: seq<byte>, d: DecodedBody) returns (more: seq<byte>)
    requires DecodeBody(data) == Ok(d) && d.extensionPresent && d.size <= |data|
    requires Uvarint.Decode(data[d.size..]) == Err(Truncated)
    ensures DecodeFrame(data + more) == Err(OutOfRange)
  {
    hide DecodeBody;
    more := Fill(0xFF, Uvarint.UVARINT_MAX);
    var rest := data[d.size..];
    BodyVerdictIsFinal(data, more);
    assert (data + more)[d.size..] == rest + more;
    Uvarint.TruncatedExactly(rest);
    Uvarint.FiveContinue(rest + more);
    BodyThenBehind(data + more, d);
  }

  /** What is truncated behind a whole body has its length cut, or a block announced. */
  lemma TruncatedBehindBody(data: seq<byte>, callback: Callback) returns (d: DecodedBody, length: nat, at: nat)
    requires DecodeExt(data, callback) == Err(Truncated) && DecodeBody(data).Ok?
    ensures DecodeBody(data) == Ok(d) && d.extensionPresent && d.size <= |data|
    ensures Uvarint.Decode(data[d.size..]) == Err(Truncated) || Announces(data, d, length, at)
  {
    hide DecodeBody;
    d := DecodeBody(data).value;
    DecodedSizeFits(data);
    var l := Uvarint.Decode(data[d.size..]);
    length, at := if l.Ok? then l.value.0 else 0, d.size + (if l.Ok? then l.value.1 else 0);
  }

  /** A truncated frame is never truncated for good: some bytes end it, or refuse it otherwise. */
  lemma FrameMovesOn(data: seq<byte>) returns (more: seq<byte>)
    requires DecodeFrame(data) == Err(Truncated)
    ensures DecodeFrame(data + more) != Err(Truncated)
  {
    if DecodeBody(data) == Err(Truncated) {
      more := CutBodyMovesOn(data);
    } else {
      TruncatedFrameIsTruncated(data, NoCallback);
      var d, length, at := TruncatedBehindBody(data, NoCallback);
      if Uvarint.Decode(data[d.size..]).Err? {
        more := CutLengthMovesOn(data, d);
      } else {
        more := Fill(0, length);
        AnnouncedGrows(data, d, length, at, more);
        AnnouncedFrame(data + more, d, length, at);
      }
    }
  }

  // ---- exactly when a verdict of truncated is final ------------------------------------------------------

  /** Completeness: a message that is not truncated for good gets another verdict from some bytes. */
  lemma SomethingHelps(data: seq<byte>, callback: Callback) returns (more: seq<byte>)
    requires !TruncatedForGood(data, callback)
    ensures DecodeExt(data + more, callback) != Err(Truncated)
  {
    if DecodeExt(data, callback) != Err(Truncated) {
      more := [];
      assert data + more == data;
    } else if DecodeBody(data).Err? {
      more := CutBodyMovesOn(data);
    } else {
      var d, length, at := TruncatedBehindBody(data, callback);
      if Uvarint.Decode(data[d.size..]).Err? {
        more := CutLengthMovesOn(data, d);
      } else {
        AnnouncedInside(data, d, length, at);
        more := AnnouncedIsSettled(data, d, length, at, callback);
      }
    }
  }

  /**
   * Exactly when `Truncated` is final. No bytes change it if and only if a block is announced, what is
   * in hand of it is accepted up to an item, and that item cannot be finished inside the block.
   */
  lemma TruncatedForGoodExactly(data: seq<byte>, callback: Callback)
    ensures TruncatedForGood(data, callback) <==>
            forall more: seq<byte> :: DecodeExt(data + more, callback) == Err(Truncated)
  {
    if TruncatedForGood(data, callback) {
      var d: DecodedBody, length: nat, at: nat :|
        && Announces(data, d, length, at)
        && at <= |data|
        && CutForGood(Start(InHand(data, length, at)), length, callback, []);
      forall more: seq<byte>
        ensures DecodeExt(data + more, callback) == Err(Truncated)
      {
        NothingHelps(data, d, length, at, callback, more);
      }
    } else {
      var more := SomethingHelps(data, callback);
    }
  }

  // ---- two families --------------------------------------------------------------------------------------

  /**
   * A complete block whose last item is cut is truncated for good, if the critical items before it are
   * accepted: the message is all there, and what follows it is not looked at.
   */
  lemma CutShortForGood(major: byte, o: Object, block: seq<byte>, callback: Callback, more: seq<byte>)
    requires Sound(Frame(major, o, block)) && block != []
    requires var w := Walk(Start(block)); w.ending == Fail(Truncated) && AllAccepted(callback, [], w.items)
    ensures DecodeExt(FrameBytes(Frame(major, o, block)) + more, callback) == Err(Truncated)
  {
    hide DecodeFrame, FrameBytes, Scan, Walk, AllAccepted;
    var f := Frame(major, o, block);
    FrameRoundTrip(f, more);
    ScanIsWalkThenAsk(Start(block), callback, []);
    ScannedFrame(FrameBytes(f) + more, Framed(NormalFrame(f), |FrameBytes(f)|), callback);
  }

  /** Such is a value that is announced longer than what is left of its block. */
  lemma OverrunForGood(major: byte, o: Object, items: seq<Extension>, e: Extension, length: uint32, part: seq<byte>,
                       callback: Callback, more: seq<byte>)
    requires Encodable(major, o) && WellFormed(items) && Sendable(e) && Trailing.InOrder(items, e.id)
    requires |part| < length && AllAccepted(callback, [], items)
    requires |Block(items) + (Uvarint.Encoding(Key(e)) + (Uvarint.Encoding(length) + part))| <= BLOCK_MAX
    ensures
      var block := Block(items) + (Uvarint.Encoding(Key(e)) + (Uvarint.Encoding(length) + part));
      && Sound(Frame(major, o, block))
      && DecodeExt(FrameBytes(Frame(major, o, block)) + more, callback) == Err(Truncated)
  {
    hide DecodeExt, FrameBytes, Walk, AllAccepted;
    var block := Block(items) + (Uvarint.Encoding(Key(e)) + (Uvarint.Encoding(length) + part));
    Trailing.ValueOverrun(items, e, length, part);
    Uvarint.EncodingSize(length);
    assert block != [];
    CutShortForGood(major, o, block, callback, more);
  }

  /** Nor need the block be complete: a length that is too large for what was announced is enough. */
  lemma OverrunBeforeTheEnd(e: Extension, length: uint32, part: seq<byte>, size: nat, callback: Callback)
    requires Sendable(e)
    requires
      var heads := |Uvarint.Encoding(Key(e))| + |Uvarint.Encoding(length)|;
      heads + |part| <= size < heads + length
    ensures
      var hand := Uvarint.Encoding(Key(e)) + (Uvarint.Encoding(length) + part);
      CutForGood(Start(hand), size, callback, [])
  {
    var k, l := Uvarint.Encoding(Key(e)), Uvarint.Encoding(length);
    var hand := k + (l + part);
    Uvarint.EncodingSize(Key(e));
    Uvarint.EncodingSize(length);
    Uvarint.DecodeOfEncoding(Key(e), l + part);
    Uvarint.DecodeOfEncoding(length, part);
    assert hand[0..] == hand && hand[|k|..] == l + part;
    KeySplits(e);
  }

  lemma PartialMessage(major: byte, o: Object, size: nat, hand: seq<byte>) returns (d: DecodedBody, at: nat)
    requires Encodable(major, o) && 1 <= size <= BLOCK_MAX && |hand| <= size
    ensures
      var data := EncodedBytes(major, o, 1) + (Uvarint.Encoding(size) + hand);
      Announces(data, d, size, at) && at <= |data| && InHand(data, size, at) == hand
  {
    hide DecodeBody, Encodable, EncodedBytes;
    var body, prefix := EncodedBytes(major, o, 1), Uvarint.Encoding(size);
    var data := body + (prefix + hand);
    DecodeOfEncode(major, o, 1, prefix + hand);
    d, at := DecodeBody(data).value, |body| + |prefix|;
    Uvarint.EncodingSize(size);
    Uvarint.DecodeOfEncoding(size, hand);
    assert data[|body|..] == prefix + hand;
    assert data[at..] == hand;
  }

  lemma OverrunBeforeTheEndForGood(major: byte, o: Object, e: Extension, length: uint32, part: seq<byte>, size: nat,
                                   callback: Callback, more: seq<byte>)
    requires Encodable(major, o) && Sendable(e) && size <= BLOCK_MAX
    requires
      var heads := |Uvarint.Encoding(Key(e))| + |Uvarint.Encoding(length)|;
      heads + |part| <= size < heads + length
    ensures
      var hand := Uvarint.Encoding(Key(e)) + (Uvarint.Encoding(length) + part);
      DecodeExt(EncodedBytes(major, o, 1) + (Uvarint.Encoding(size) + hand) + more, callback) == Err(Truncated)
  {
    hide DecodeExt, DecodeBody, Encodable, EncodedBytes, CutForGood;
    var hand := Uvarint.Encoding(Key(e)) + (Uvarint.Encoding(length) + part);
    OverrunBeforeTheEnd(e, length, part, size, callback);
    Uvarint.EncodingSize(length);
    var d, at := PartialMessage(major, o, size, hand);
    NothingHelps(EncodedBytes(major, o, 1) + (Uvarint.Encoding(size) + hand), d, size, at, callback, more);
  }
}
