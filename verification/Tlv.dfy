/** Extension blocks: key, length and value after one another, with strictly increasing ids. */
module Tlv {
  import opened Machine
  import Uvarint

  const ID_MAX := UINT32_MAX / 2
  const BLOCK_MAX := 256

  datatype Extension = Extension(id: uint32, critical: byte, value: seq<byte>)

  /** The item's own fields are in range. */
  predicate Sendable(e: Extension) {
    1 <= e.id <= ID_MAX && e.critical <= 1 && |e.value| <= UINT32_MAX
  }

  predicate Increasing(es: seq<Extension>) {
    forall i, j | 0 <= i < j < |es| :: es[i].id < es[j].id
  }

  predicate AllSendable(es: seq<Extension>) {
    forall i | 0 <= i < |es| :: Sendable(es[i])
  }

  predicate WellFormed(es: seq<Extension>) {
    AllSendable(es) && Increasing(es)
  }

  function Key(e: Extension): (k: uint32)
    requires Sendable(e)
  {
    2 * e.id + e.critical
  }

  /** One item on the wire. */
  function Item(e: Extension): seq<byte>
    requires Sendable(e)
  {
    Uvarint.Encoding(Key(e)) + Uvarint.Encoding(|e.value|) + e.value
  }

  function ItemSize(e: Extension): nat
    requires Sendable(e)
  {
    Uvarint.Size(Key(e)) + Uvarint.Size(|e.value|) + |e.value|
  }

  /** A list of items on the wire. */
  function Block(es: seq<Extension>): seq<byte>
    requires AllSendable(es)
  {
    if es == [] then [] else Item(es[0]) + Block(es[1..])
  }

  lemma ItemLength(e: Extension)
    requires Sendable(e)
    ensures |Item(e)| == ItemSize(e) >= 2
  {
    Uvarint.EncodingSize(Key(e));
    Uvarint.EncodingSize(|e.value|);
  }

  lemma {:induction false} BlockSnoc(es: seq<Extension>, e: Extension)
    requires Sendable(e) && AllSendable(es)
    ensures AllSendable(es + [e])
    ensures Block(es + [e]) == Block(es) + Item(e)
  {
    if es == [] {
      assert Block([e]) == Item(e) + Block([]);
    } else {
      BlockSnoc(es[1..], e);
      assert (es + [e])[1..] == es[1..] + [e];
    }
  }

  // ---- reading -------------------------------------------------------------------------------

  datatype ReaderState = ReaderState(data: seq<byte>, offset: nat, previousId: uint32, hasPrevious: bool)

  /** What one call of the reader answers; `at` is where the value sits in the data. */
  datatype Reading = Finished | Read(item: Extension, at: nat) | Refused(error: Error)

  function Start(data: seq<byte>): ReaderState {
    ReaderState(data, 0, 0, false)
  }

  /** One call: the state it leaves, also when it refuses, and its answer. */
  function Next(st: ReaderState): (ReaderState, Reading) {
    if st.offset == |st.data| then (st, Finished)
    else if st.offset > |st.data| then (st, Refused(Truncated))
    else
      var key := Uvarint.Decode(st.data[st.offset..]);
      if key.Err? then (st, Refused(key.error)) else NextAfterKey(st, key.value.0, key.value.1)
  }

  /** The call once a key of `size` bytes has been read. */
  function NextAfterKey(st: ReaderState, key: uint32, size: nat): (ReaderState, Reading)
    requires st.offset + size <= |st.data|
  {
    var id, st1 := key / 2, st.(offset := st.offset + size);
    if id == 0 then (st1, Refused(Noncanonical))
    else if st.hasPrevious && id <= st.previousId then (st1, Refused(Noncanonical))
    else
      var length := Uvarint.Decode(st.data[st1.offset..]);
      if length.Err? then (st1, Refused(length.error))
      else
        var at := st1.offset + length.value.1;
        if length.value.0 > |st.data| - at then (st1.(offset := at), Refused(Truncated))
        else
          var item := Extension(id, key % 2, st.data[at..at + length.value.0]);
          (ReaderState(st.data, at + length.value.0, id, true), Read(item, at))
  }

  /** What every call keeps, and what an item that was read says about the bytes it came from. */
  predicate Advances(st: ReaderState, st': ReaderState, reading: Reading) {
    && st'.data == st.data
    && st.offset <= st'.offset <= |st.data|
    && (!reading.Read? ==> st'.previousId == st.previousId && st'.hasPrevious == st.hasPrevious)
    && (reading.Read? ==>
          && Sendable(reading.item)
          && (st.hasPrevious ==> st.previousId < reading.item.id)
          && st'.hasPrevious && st'.previousId == reading.item.id
          && st.offset + 2 <= reading.at && st'.offset == reading.at + |reading.item.value|
          && st.data[reading.at..st'.offset] == reading.item.value
          && st.data[st.offset..st'.offset] == Item(reading.item))
  }

  lemma NextAdvances(st: ReaderState)
    requires st.offset <= |st.data|
    ensures Advances(st, Next(st).0, Next(st).1)
  {
    if st.offset < |st.data| {
      var rest := st.data[st.offset..];
      var key := Uvarint.Decode(rest);
      if key.Ok? {
        Uvarint.EncodingOfDecode(rest);
        assert st.data[st.offset..st.offset + key.value.1] == rest[..key.value.1];
        NextAfterKeyAdvances(st, key.value.0, key.value.1);
      }
    }
  }

  lemma NextAfterKeyAdvances(st: ReaderState, key: uint32, size: nat)
    requires st.offset + size <= |st.data| && size >= 1
    requires st.data[st.offset..st.offset + size] == Uvarint.Encoding(key)
    ensures Advances(st, NextAfterKey(st, key, size).0, NextAfterKey(st, key, size).1)
  {
    var reading := NextAfterKey(st, key, size).1;
    if reading.Read? {
      var a := st.offset + size;
      Uvarint.EncodingOfDecode(st.data[a..]);
      var n := Uvarint.Decode(st.data[a..]).value.1;
      assert st.data[a..a + n] == st.data[a..][..n];
      assert Key(reading.item) == key;
      ItemBytes(st.data, st.offset, a, a + n, reading.item);
    }
  }

  /** Key, length and value side by side are the item. */
  lemma ItemBytes(data: seq<byte>, o: nat, a: nat, b: nat, e: Extension)
    requires o < a < b && b + |e.value| <= |data| && Sendable(e)
    requires data[o..a] == Uvarint.Encoding(Key(e))
    requires data[a..b] == Uvarint.Encoding(|e.value|)
    requires data[b..b + |e.value|] == e.value
    ensures data[o..b + |e.value|] == Item(e)
  {
    var end := b + |e.value|;
    Abut(data, o, a, b);
    Abut(data, o, b, end);
  }

  /** The reader called until it has no item to give: the items, and how it ended. */
  datatype Walked = Walked(items: seq<Extension>, ending: Outcome)

  function Walk(st: ReaderState): Walked
    requires st.offset <= |st.data|
    decreases |st.data| - st.offset
  {
    var (st', reading) := Next(st);
    NextAdvances(st);
    match reading
    case Finished => Walked([], Pass)
    case Refused(e) => Walked([], Fail(e))
    case Read(item, _) =>
      var rest := Walk(st');
      Walked([item] + rest.items, rest.ending)
  }

  /** A block's length and key read back from the printed item, whatever follows it. */
  lemma NextOfItem(st: ReaderState, e: Extension, tail: seq<byte>)
    requires st.offset <= |st.data| && Sendable(e)
    requires st.data[st.offset..] == Uvarint.Encoding(Key(e)) + (Uvarint.Encoding(|e.value|) + (e.value + tail))
    requires st.hasPrevious ==> st.previousId < e.id
    ensures
      var end := st.offset + ItemSize(e);
      && end <= |st.data| && st.data[end..] == tail
      && Next(st) == (ReaderState(st.data, end, e.id, true), Read(e, end - |e.value|))
  {
    var k, rest := Uvarint.Encoding(Key(e)), Uvarint.Encoding(|e.value|) + (e.value + tail);
    ItemLength(e);
    Uvarint.EncodingSize(Key(e));
    Peel(st.data, st.offset, k, rest);
    Uvarint.DecodeOfEncoding(Key(e), rest);
    NextAfterKeyOfItem(st, e, |k|, tail);
  }

  lemma NextAfterKeyOfItem(st: ReaderState, e: Extension, size: nat, tail: seq<byte>)
    requires st.offset + size <= |st.data| && Sendable(e)
    requires st.data[st.offset + size..] == Uvarint.Encoding(|e.value|) + (e.value + tail)
    requires st.hasPrevious ==> st.previousId < e.id
    ensures
      var end := st.offset + size + Uvarint.Size(|e.value|) + |e.value|;
      && end <= |st.data| && st.data[end..] == tail
      && NextAfterKey(st, Key(e), size) == (ReaderState(st.data, end, e.id, true), Read(e, end - |e.value|))
  {
    var a, l := st.offset + size, Uvarint.Encoding(|e.value|);
    Uvarint.EncodingSize(|e.value|);
    Peel(st.data, a, l, e.value + tail);
    Uvarint.DecodeOfEncoding(|e.value|, e.value + tail);
    Peel(st.data, a + |l|, e.value, tail);
    KeySplits(e);
  }

  lemma KeySplits(e: Extension)
    requires Sendable(e)
    ensures Key(e) / 2 == e.id && Key(e) % 2 == e.critical
  {
  }

  lemma Peel(data: seq<byte>, at: nat, head: seq<byte>, tail: seq<byte>)
    requires at <= |data| && data[at..] == head + tail
    ensures at + |head| <= |data|
    ensures data[at..at + |head|] == head && data[at + |head|..] == tail
  {
    assert data[at..at + |head|] == data[at..][..|head|];
    assert data[at + |head|..] == data[at..][|head|..];
  }

  lemma ItemInFront(e: Extension, tail: seq<byte>)
    requires Sendable(e)
    ensures Item(e) + tail == Uvarint.Encoding(Key(e)) + (Uvarint.Encoding(|e.value|) + (e.value + tail))
  {
  }

  /** The parser undoes the printer: walking a printed list gives back exactly that list. */
  lemma {:induction false} WalkOfBlock(st: ReaderState, es: seq<Extension>)
    requires WellFormed(es) && st.offset <= |st.data|
    requires st.data[st.offset..] == Block(es)
    requires st.hasPrevious && es != [] ==> st.previousId < es[0].id
    ensures Walk(st) == Walked(es, Pass)
    decreases |es|
  {
    if es == [] {
      assert st.offset == |st.data|;
    } else {
      ItemInFront(es[0], Block(es[1..]));
      NextOfItem(st, es[0], Block(es[1..]));
      WalkOfBlock(Next(st).0, es[1..]);
    }
  }

  /** The reader once it is past a printed list. */
  function Past(st: ReaderState, es: seq<Extension>): ReaderState
    requires AllSendable(es)
  {
    if es == [] then st else ReaderState(st.data, st.offset + |Block(es)|, es[|es| - 1].id, true)
  }

  lemma WalkStep(st: ReaderState, st': ReaderState, e: Extension, at: nat)
    requires st.offset <= |st.data| && Next(st) == (st', Read(e, at))
    ensures st'.offset <= |st'.data|
    ensures Walk(st) == Walked([e] + Walk(st').items, Walk(st').ending)
  {
    NextAdvances(st);
  }

  lemma WalkOfItem(st: ReaderState, e: Extension, tail: seq<byte>)
    requires st.offset <= |st.data| && Sendable(e) && st.data[st.offset..] == Item(e) + tail
    requires st.hasPrevious ==> st.previousId < e.id
    ensures st.offset + |Item(e)| <= |st.data| && st.data[st.offset + |Item(e)|..] == tail
    ensures
      var rest := Walk(ReaderState(st.data, st.offset + |Item(e)|, e.id, true));
      Walk(st) == Walked([e] + rest.items, rest.ending)
  {
    ItemInFront(e, tail);
    NextOfItem(st, e, tail);
    ItemLength(e);
    var end := st.offset + ItemSize(e);
    WalkStep(st, ReaderState(st.data, end, e.id, true), e, end - |e.value|);
  }

  lemma BlockSplits(es: seq<Extension>, junk: seq<byte>)
    requires AllSendable(es) && es != []
    ensures AllSendable(es[1..]) && Block(es) + junk == Item(es[0]) + (Block(es[1..]) + junk)
    ensures |Block(es)| == |Item(es[0])| + |Block(es[1..])|
  {
  }

  /** A printed list is walked as itself, whatever follows it, and the walk goes on behind it. */
  lemma {:induction false} WalkPast(st: ReaderState, es: seq<Extension>, junk: seq<byte>)
    requires WellFormed(es) && st.offset <= |st.data|
    requires st.data[st.offset..] == Block(es) + junk
    requires st.hasPrevious && es != [] ==> st.previousId < es[0].id
    ensures Past(st, es).offset <= |st.data| && st.data[Past(st, es).offset..] == junk
    ensures var rest := Walk(Past(st, es)); Walk(st) == Walked(es + rest.items, rest.ending)
    decreases |es|
  {
    if es == [] {
      assert Block(es) + junk == junk;
      assert es + Walk(st).items == Walk(st).items;
    } else {
      hide Walk, Item;
      var e, tail := es[0], es[1..];
      BlockSplits(es, junk);
      WalkOfItem(st, e, Block(tail) + junk);
      var st' := ReaderState(st.data, st.offset + |Item(e)|, e.id, true);
      WalkPast(st', tail, junk);
      assert Past(st', tail) == Past(st, es);
      Regroup(e, tail, Walk(Past(st, es)).items, es);
    }
  }

  lemma Regroup(e: Extension, tail: seq<Extension>, items: seq<Extension>, es: seq<Extension>)
    requires es != [] && e == es[0] && tail == es[1..]
    ensures [e] + (tail + items) == es + items
  {
  }

  /**
   * The printer undoes the parser: whatever the bytes, the items walked are well formed, follow on
   * from the previous id, and print to the stretch of bytes they were read from; when the walk ends
   * well that stretch is everything.
   */
  lemma {:induction false} BlockOfWalk(st: ReaderState)
    requires st.offset <= |st.data|
    ensures
      var w := Walk(st);
      && WellFormed(w.items)
      && (st.hasPrevious && w.items != [] ==> st.previousId < w.items[0].id)
      && Block(w.items) <= st.data[st.offset..]
      && (w.ending.Pass? ==> Block(w.items) == st.data[st.offset..])
    decreases |st.data| - st.offset
  {
    var (st', reading) := Next(st);
    NextAdvances(st);
    if reading.Read? {
      BlockOfWalk(st');
      ItemThenBlock(st.data, st.offset, st'.offset, reading.item, Walk(st').items);
    }
  }

  lemma ItemThenBlock(data: seq<byte>, from: nat, to: nat, e: Extension, es: seq<Extension>)
    requires from <= to <= |data| && Sendable(e) && data[from..to] == Item(e)
    requires WellFormed(es) && (es != [] ==> e.id < es[0].id)
    requires Block(es) <= data[to..]
    ensures WellFormed([e] + es)
    ensures Block([e] + es) == Item(e) + Block(es)
    ensures Block([e] + es) <= data[from..]
    ensures Block(es) == data[to..] ==> Block([e] + es) == data[from..]
  {
    assert ([e] + es)[1..] == es;
    assert data[from..] == data[from..to] + data[to..];
  }
}
