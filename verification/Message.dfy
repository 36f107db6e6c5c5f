/** Whole Tier-0 messages: an object with the extensions that follow it. */
module Message {
  import opened Machine
  import opened Tier0
  import opened Frame
  import opened Tlv

  /**
   * The caller's say on critical extensions. It may depend on the critical items it was offered
   * before, so a callback that keeps state is covered. No callback accepts nothing.
   */
  datatype Callback = NoCallback | Callback(decides: (seq<Extension>, Extension) -> bool)

  predicate Accepts(callback: Callback, offered: seq<Extension>, e: Extension) {
    callback.Callback? && callback.decides(offered, e)
  }

  /** The items the caller has to be asked about. */
  function Criticals(items: seq<Extension>): seq<Extension> {
    if items == [] then []
    else (if items[0].critical != 0 then [items[0]] else []) + Criticals(items[1..])
  }

  /** Every critical item is accepted, each with the critical items before it as history. */
  predicate AllAccepted(callback: Callback, offered: seq<Extension>, items: seq<Extension>)
    decreases |items|
  {
    items == []
    || (if items[0].critical == 0 then AllAccepted(callback, offered, items[1..])
        else Accepts(callback, offered, items[0]) && AllAccepted(callback, offered + [items[0]], items[1..]))
  }

  /** The whole trace is accepted: each critical item, given all the critical items before it. */
  ghost predicate EachAccepted(callback: Callback, offered: seq<Extension>, c: seq<Extension>) {
    forall k | 0 <= k < |c| :: Accepts(callback, offered + c[..k], c[k])
  }

  lemma {:induction false} AllAcceptedMeans(callback: Callback, offered: seq<Extension>, items: seq<Extension>)
    ensures AllAccepted(callback, offered, items) <==> EachAccepted(callback, offered, Criticals(items))
    decreases |items|
  {
    if items != [] {
      if items[0].critical == 0 {
        AllAcceptedMeans(callback, offered, items[1..]);
        assert Criticals(items) == Criticals(items[1..]);
      } else {
        AllAcceptedMeans(callback, offered + [items[0]], items[1..]);
        EachAcceptedCons(callback, offered, items[0], Criticals(items[1..]));
      }
    }
  }

  lemma EachAcceptedCons(callback: Callback, offered: seq<Extension>, e: Extension, rest: seq<Extension>)
    ensures EachAccepted(callback, offered, [e] + rest) <==>
            Accepts(callback, offered, e) && EachAccepted(callback, offered + [e], rest)
  {
    var c := [e] + rest;
    forall k | 0 <= k < |rest|
      ensures c[k + 1] == rest[k] && offered + c[..k + 1] == offered + [e] + rest[..k]
    {
    }
    assert c[0] == e && offered + c[..0] == offered;
    if Accepts(callback, offered, e) && EachAccepted(callback, offered + [e], rest) {
      forall k | 0 <= k < |c|
        ensures Accepts(callback, offered + c[..k], c[k])
      {
        if k > 0 {
          assert Accepts(callback, offered + [e] + rest[..k - 1], rest[k - 1]);
        }
      }
    }
    if EachAccepted(callback, offered, c) {
      forall k | 0 <= k < |rest|
        ensures Accepts(callback, offered + [e] + rest[..k], rest[k])
      {
        assert Accepts(callback, offered + c[..k + 1], c[k + 1]);
      }
    }
  }

  /** The validating scan: reads to the end and asks about each critical item as it meets it. */
  function Scan(st: ReaderState, callback: Callback, offered: seq<Extension>): Result<seq<Extension>>
    requires st.offset <= |st.data|
    decreases |st.data| - st.offset
  {
    var (st', reading) := Next(st);
    NextAdvances(st);
    match reading
    case Finished => Ok([])
    case Refused(e) => Err(e)
    case Read(item, _) =>
      if item.critical != 0 && !Accepts(callback, offered, item) then Err(UnsupportedSemantic)
      else
        var rest := Scan(st', callback, if item.critical != 0 then offered + [item] else offered);
        if rest.Err? then rest else Ok([item] + rest.value)
  }

  /**
   * Asking along the way is the same as reading everything first and asking afterwards: a refused
   * critical item rejects the block, and only if all were accepted does a malformed rest count.
   */
  lemma {:induction false} ScanIsWalkThenAsk(st: ReaderState, callback: Callback, offered: seq<Extension>)
    requires st.offset <= |st.data|
    ensures
      var w := Walk(st);
      Scan(st, callback, offered) ==
      if !AllAccepted(callback, offered, w.items) then Err(UnsupportedSemantic)
      else if w.ending.Fail? then Err(w.ending.error)
      else Ok(w.items)
    decreases |st.data| - st.offset
  {
    var (st', reading) := Next(st);
    NextAdvances(st);
    if reading.Read? {
      var item := reading.item;
      var w' := Walk(st');
      ScanIsWalkThenAsk(st', callback, if item.critical != 0 then offered + [item] else offered);
      assert ([item] + w'.items)[1..] == w'.items;
    }
  }

  datatype Message = Message(major: byte, obj: Object, items: seq<Extension>)

  /** A message the format has bytes for. */
  predicate Printable(m: Message) {
    Encodable(m.major, m.obj) && WellFormed(m.items) && |Block(m.items)| <= BLOCK_MAX
  }

  /** The message as it comes back: without what its major erases. */
  function Normal(m: Message): Message {
    m.(obj := Erased(m.major, m.obj))
  }

  function FrameOf(m: Message): (f: Frame)
    requires Printable(m)
    ensures Sound(f)
  {
    Frame(m.major, m.obj, Block(m.items))
  }

  /** The message's one byte string. */
  function Bytes(m: Message): seq<byte>
    requires Printable(m)
  {
    FrameBytes(FrameOf(m))
  }

  datatype Decoded = Decoded(message: Message, block: seq<byte>, consumed: nat)

  /** The items of a block, if it parses to the end and the caller accepts the critical ones. */
  function Validated(block: seq<byte>, callback: Callback): Result<seq<Extension>> {
    Scan(Start(block), callback, [])
  }

  /** What the extension-aware decoder answers, for every byte string and every callback. */
  function DecodeExt(data: seq<byte>, callback: Callback): Result<Decoded> {
    var framed := DecodeFrame(data);
    if framed.Err? then Err(framed.error)
    else
      var f := framed.value.frame;
      var items := Validated(f.block, callback);
      if items.Err? then Err(items.error)
      else Ok(Decoded(Message(f.major, f.obj, items.value), f.block, framed.value.consumed))
  }

  /** A block that was printed validates just when its critical items are accepted. */
  lemma ValidatedBlock(items: seq<Extension>, callback: Callback)
    requires WellFormed(items)
    ensures
      Validated(Block(items), callback) == if AllAccepted(callback, [], items) then Ok(items) else Err(UnsupportedSemantic)
  {
    var st := Start(Block(items));
    assert Block(items)[0..] == Block(items);
    WalkOfBlock(st, items);
    ScanIsWalkThenAsk(st, callback, []);
  }

  /** A block that validates is the printed form of the items it validates to. */
  lemma BlockOfValidated(block: seq<byte>, callback: Callback)
    requires Validated(block, callback).Ok?
    ensures
      var items := Validated(block, callback).value;
      WellFormed(items) && Block(items) == block && AllAccepted(callback, [], items)
  {
    var st := Start(block);
    assert block[0..] == block;
    ScanIsWalkThenAsk(st, callback, []);
    BlockOfWalk(st);
  }

  /** What the reader handed out yields afterwards: exactly the items of the message, then the end. */
  lemma ReaderReplays(items: seq<Extension>)
    requires WellFormed(items)
    ensures Walk(Start(Block(items))) == Walked(items, Pass)
  {
    assert Block(items)[0..] == Block(items);
    WalkOfBlock(Start(Block(items)), items);
  }

  /**
   * The decoder undoes the printer. Whatever follows the message, it comes back whole, with exactly
   * its own bytes consumed, if the caller accepts its critical items; otherwise it is refused.
   */
  lemma RoundTrip(m: Message, callback: Callback, tail: seq<byte>)
    requires Printable(m)
    ensures
      DecodeExt(Bytes(m) + tail, callback) ==
      if AllAccepted(callback, [], m.items) then
        Ok(Decoded(Normal(m), Block(m.items), |Bytes(m)|))
      else Err(UnsupportedSemantic)
  {
    FrameRoundTrip(FrameOf(m), tail);
    ValidatedBlock(m.items, callback);
  }

  /**
   * The printer undoes the decoder. Whatever is accepted is a printable message in normal form, all
   * of whose critical items were accepted, and the bytes consumed are exactly its own.
   */
  lemma Canonical(data: seq<byte>, callback: Callback)
    requires DecodeExt(data, callback).Ok?
    ensures
      var r := DecodeExt(data, callback).value;
      && Printable(r.message)
      && Normal(r.message) == r.message
      && AllAccepted(callback, [], r.message.items)
      && r.block == Block(r.message.items)
      && r.consumed == |Bytes(r.message)| <= |data|
      && data[..r.consumed] == Bytes(r.message)
  {
    FrameCanonical(data);
    BlockOfValidated(DecodeFrame(data).value.frame.block, callback);
  }

  /**
   * Exactly which strings are accepted, and as what: those that begin with the bytes of a printable
   * message in normal form whose critical items the caller accepts.
   */
  lemma AcceptedExactly(data: seq<byte>, callback: Callback, m: Message)
    ensures
      DecodeExt(data, callback).Ok? && DecodeExt(data, callback).value.message == m <==>
      Printable(m) && Normal(m) == m && Bytes(m) <= data && AllAccepted(callback, [], m.items)
  {
    if DecodeExt(data, callback).Ok? && DecodeExt(data, callback).value.message == m {
      Canonical(data, callback);
    }
    if Printable(m) && Normal(m) == m && Bytes(m) <= data && AllAccepted(callback, [], m.items) {
      AcceptedIfPrinted(data, callback, m);
    }
  }

  lemma AcceptedIfPrinted(data: seq<byte>, callback: Callback, m: Message)
    requires Printable(m) && Normal(m) == m && Bytes(m) <= data && AllAccepted(callback, [], m.items)
    ensures DecodeExt(data, callback).Ok? && DecodeExt(data, callback).value.message == m
  {
    var bytes := Bytes(m);
    RoundTrip(m, callback, data[|bytes|..]);
    assert data == bytes + data[|bytes|..];
  }

  /**
   * One message, one byte string. Under a fixed major two accepted strings with the same object and
   * the same items have consumed the same bytes, whoever accepted them.
   */
  lemma OneEncoding(a: seq<byte>, b: seq<byte>, ca: Callback, cb: Callback)
    requires DecodeExt(a, ca).Ok? && DecodeExt(b, cb).Ok?
    requires DecodeExt(a, ca).value.message == DecodeExt(b, cb).value.message
    ensures
      var ra, rb := DecodeExt(a, ca).value, DecodeExt(b, cb).value;
      ra.consumed == rb.consumed && ra.consumed <= |a| && rb.consumed <= |b| && a[..ra.consumed] == b[..rb.consumed]
  {
    Canonical(a, ca);
    Canonical(b, cb);
  }

  // ---- what is asked, and what has to be answered --------------------------------------------------------

  lemma {:induction false} CriticalsSnoc(items: seq<Extension>, e: Extension)
    ensures Criticals(items + [e]) == Criticals(items) + (if e.critical != 0 then [e] else [])
  {
    if items != [] {
      CriticalsSnoc(items[1..], e);
      assert (items + [e])[1..] == items[1..] + [e];
    }
  }

  /** The positions of the items whose critical bit is set, in order. */
  ghost predicate Selects(at: seq<nat>, items: seq<Extension>) {
    && (forall k | 0 <= k < |at| :: at[k] < |items| && items[at[k]].critical == 1)
    && (forall j, k | 0 <= j < k < |at| :: at[j] < at[k])
    && forall i | 0 <= i < |items| && items[i].critical == 1 :: i in at
  }

  lemma {:induction false} PositionsGrow(at: seq<nat>, k: nat)
    requires k < |at| && forall i, j | 0 <= i < j < |at| :: at[i] < at[j]
    ensures at[k] >= k
  {
    if k > 0 {
      PositionsGrow(at, k - 1);
      assert at[k - 1] < at[k];
    }
  }

  lemma NoMoreThanItems(at: seq<nat>, items: seq<Extension>)
    requires Selects(at, items)
    ensures |at| <= |items|
  {
    if at != [] {
      PositionsGrow(at, |at| - 1);
    }
  }

  lemma {:induction false} SelectedAreCriticals(at: seq<nat>, items: seq<Extension>)
    requires Selects(at, items) && forall i | 0 <= i < |items| :: items[i].critical <= 1
    ensures |at| == |Criticals(items)|
    ensures forall k | 0 <= k < |at| :: Criticals(items)[k] == items[at[k]]
    decreases |items|
  {
    if items == [] {
      NoMoreThanItems(at, items);
    } else {
      var n := |items| - 1;
      var front, e := items[..n], items[n];
      assert items == front + [e];
      CriticalsSnoc(front, e);
      if e.critical == 1 {
        LastSelected(at, items);
        SelectedAreCriticals(at[..|at| - 1], front);
      } else {
        forall i | 0 <= i < |front| && front[i].critical == 1
          ensures i in at
        {
          assert items[i].critical == 1;
        }
        SelectedAreCriticals(at, front);
      }
    }
  }

  lemma LastSelected(at: seq<nat>, items: seq<Extension>)
    requires Selects(at, items) && items != [] && items[|items| - 1].critical == 1
    ensures at != [] && at[|at| - 1] == |items| - 1
    ensures Selects(at[..|at| - 1], items[..|items| - 1])
  {
    var n, last := |items| - 1, |at| - 1;
    assert n in at;
    var k :| 0 <= k < |at| && at[k] == n;
    assert k == last;
    forall i | 0 <= i < n && items[..n][i].critical == 1
      ensures i in at[..last]
    {
      assert items[i].critical == 1;
      var j :| 0 <= j < |at| && at[j] == i;
      assert at[..last][j] == i;
    }
  }

  /**
   * Nothing critical gets past the caller, said of the callback alone. With `c` the items whose critical
   * bit is set, in order: the message decodes if and only if the block reads to its end and the callback
   * agrees to each of them, given those before it; one refusal makes it an unsupported semantic, whatever
   * else is wrong with the block; without a callback there may be none.
   */
  lemma EveryCriticalIsAsked(data: seq<byte>, framed: Framed, f: (seq<Extension>, Extension) -> bool,
                             at: seq<nat>, c: seq<Extension>)
    requires DecodeFrame(data) == Ok(framed)
    requires
      var items := Walk(Start(framed.frame.block)).items;
      Selects(at, items) && |c| == |at| && forall k | 0 <= k < |at| :: c[k] == items[at[k]]
    ensures
      var w := Walk(Start(framed.frame.block));
      if exists k :: 0 <= k < |c| && !f(c[..k], c[k]) then DecodeExt(data, Callback(f)) == Err(UnsupportedSemantic)
      else if w.ending.Fail? then DecodeExt(data, Callback(f)) == Err(w.ending.error)
      else DecodeExt(data, Callback(f)).Ok?
    ensures
      var w := Walk(Start(framed.frame.block));
      if c != [] then DecodeExt(data, NoCallback) == Err(UnsupportedSemantic)
      else if w.ending.Fail? then DecodeExt(data, NoCallback) == Err(w.ending.error)
      else DecodeExt(data, NoCallback).Ok?
  {
    hide DecodeFrame, Scan, Walk, Criticals, AllAccepted;
    var st := Start(framed.frame.block);
    BlockOfWalk(st);
    SelectedAreCriticals(at, Walk(st).items);
    assert c == Criticals(Walk(st).items);
    ScanIsWalkThenAsk(st, Callback(f), []);
    ScanIsWalkThenAsk(st, NoCallback, []);
    AllAcceptedMeans(Callback(f), [], Walk(st).items);
    AllAcceptedMeans(NoCallback, [], Walk(st).items);
    assert forall k | 0 <= k < |c| :: [] + c[..k] == c[..k];
    if c != [] {
      assert !Accepts(NoCallback, [] + c[..0], c[0]);
    }
    if k :| 0 <= k < |c| && !f(c[..k], c[k]) {
      assert !Accepts(Callback(f), [] + c[..k], c[k]);
    }
  }

  // ---- finality ----------------------------------------------------------------------------------------

  /**
   * Verdicts are final. A verdict other than `Truncated`, the object, the items and the bytes
   * consumed included, does not change when bytes are appended; nor does `Truncated`, if it was an
   * item that overran a complete block.
   */
  lemma VerdictIsFinal(data: seq<byte>, callback: Callback, t: seq<byte>)
    requires DecodeExt(data, callback) != Err(Truncated) || DecodeFrame(data) != Err(Truncated)
    ensures DecodeExt(data + t, callback) == DecodeExt(data, callback)
  {
    FrameVerdictIsFinal(data, t);
  }

  /** Every proper prefix of a message is reported as cut short. */
  lemma CutMessageIsTruncated(m: Message, cut: nat, callback: Callback)
    requires Printable(m) && cut < |Bytes(m)|
    ensures DecodeExt(Bytes(m)[..cut], callback) == Err(Truncated)
  {
    CutFrameIsTruncated(FrameOf(m), cut);
  }

  /** No message is a proper prefix of another. */
  lemma PrefixFree(a: Message, b: Message)
    requires Printable(a) && Printable(b) && Bytes(a) <= Bytes(b)
    ensures Bytes(a) == Bytes(b) && Normal(a) == Normal(b)
  {
    hide Bytes, DecodeExt;
    var all := Callback((_, _) => true);
    AcceptsEverything(all, [], a.items);
    AcceptsEverything(all, [], b.items);
    RoundTrip(a, all, Bytes(b)[|Bytes(a)|..]);
    RoundTrip(b, all, []);
    assert Bytes(a) + Bytes(b)[|Bytes(a)|..] == Bytes(b) == Bytes(b) + [];
  }

  lemma {:induction false} AcceptsEverything(callback: Callback, offered: seq<Extension>, items: seq<Extension>)
    requires callback.Callback? && forall o, e :: callback.decides(o, e)
    ensures AllAccepted(callback, offered, items)
    decreases |items|
  {
    if items != [] {
      AcceptsEverything(callback, if items[0].critical == 0 then offered else offered + [items[0]], items[1..]);
    }
  }
}
