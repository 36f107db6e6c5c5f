/** What the reader makes of bytes that a block has behind its last item. */
module Trailing {
  import opened Machine
  import opened Tlv
  import Uvarint

  /** The reader behind a printed list, in front of the bytes that should not be there. */
  function Behind(es: seq<Extension>, junk: seq<byte>): ReaderState
    requires AllSendable(es)
  {
    Past(Start(Block(es) + junk), es)
  }

  /** They are read as further items, which may end the walk in any way. */
  lemma WalkOfTrailing(es: seq<Extension>, junk: seq<byte>)
    requires WellFormed(es)
    ensures Behind(es, junk).offset <= |Behind(es, junk).data|
    ensures Behind(es, junk).data[Behind(es, junk).offset..] == junk
    ensures
      var rest := Walk(Behind(es, junk));
      Walk(Start(Block(es) + junk)) == Walked(es + rest.items, rest.ending)
  {
    var st := Start(Block(es) + junk);
    assert st.data[st.offset..] == Block(es) + junk;
    WalkPast(st, es, junk);
  }

  /** An id can follow the list. */
  predicate InOrder(es: seq<Extension>, id: nat) {
    id != 0 && (es != [] ==> es[|es| - 1].id < id)
  }

  /** The bytes begin an item that can follow the list, and end before it does. */
  predicate BeginsCutItem(es: seq<Extension>, junk: seq<byte>) {
    var key := Uvarint.Decode(junk);
    if key.Err? then key.error == Truncated
    else
      var length := Uvarint.Decode(junk[key.value.1..]);
      && InOrder(es, key.value.0 / 2)
      && if length.Err? then length.error == Truncated
         else length.value.0 > |junk| - key.value.1 - length.value.1
  }

  /** One call refuses as truncated just when what it meets is a cut item. */
  lemma NextOnCutItem(st: ReaderState, es: seq<Extension>, junk: seq<byte>)
    requires st.offset < |st.data| && st.data[st.offset..] == junk
    requires st.hasPrevious == (es != []) && (es != [] ==> st.previousId == es[|es| - 1].id)
    ensures Next(st).1 == Refused(Truncated) <==> BeginsCutItem(es, junk)
  {
    var key := Uvarint.Decode(junk);
    if key.Ok? {
      assert st.data[st.offset + key.value.1..] == junk[key.value.1..];
    }
  }

  /** Trailing bytes are truncated if and only if they begin an item in order and do not finish it. */
  lemma TruncatedExactly(es: seq<Extension>, junk: seq<byte>)
    requires WellFormed(es) && junk != []
    ensures Walk(Start(Block(es) + junk)) == Walked(es, Fail(Truncated)) <==> BeginsCutItem(es, junk)
  {
    WalkOfTrailing(es, junk);
    NextOnCutItem(Behind(es, junk), es, junk);
    var rest := Walk(Behind(es, junk));
    assert es + rest.items == es <==> rest.items == [] by {
      assert |es + rest.items| == |es| + |rest.items|;
    }
  }

  /** A value that is announced longer than what is left of the block is one such. */
  lemma ValueOverrun(es: seq<Extension>, e: Extension, length: uint32, part: seq<byte>)
    requires WellFormed(es) && Sendable(e) && InOrder(es, e.id) && |part| < length
    ensures Walk(Start(Block(es) + (Uvarint.Encoding(Key(e)) + (Uvarint.Encoding(length) + part))))
            == Walked(es, Fail(Truncated))
  {
    var k, l := Uvarint.Encoding(Key(e)), Uvarint.Encoding(length);
    var junk := k + (l + part);
    Uvarint.EncodingSize(Key(e));
    Uvarint.EncodingSize(length);
    Uvarint.DecodeOfEncoding(Key(e), l + part);
    Uvarint.DecodeOfEncoding(length, part);
    assert junk[|k|..] == l + part;
    KeySplits(e);
    TruncatedExactly(es, junk);
  }

  /** A second item with an id that is not larger is out of order, and non-canonical. */
  lemma OutOfOrder(es: seq<Extension>, e: Extension, tail: seq<byte>)
    requires WellFormed(es) && Sendable(e) && !InOrder(es, e.id)
    ensures Walk(Start(Block(es) + (Item(e) + tail))) == Walked(es, Fail(Noncanonical))
  {
    var junk := Item(e) + tail;
    WalkOfTrailing(es, junk);
    ItemInFront(e, tail);
    Uvarint.DecodeOfEncoding(Key(e), Uvarint.Encoding(|e.value|) + (e.value + tail));
    ItemLength(e);
    KeySplits(e);
    assert es + [] == es;
  }

  /** Five bytes that all continue are no key, and out of range. */
  lemma OutOfRangeKey(es: seq<Extension>, junk: seq<byte>)
    requires WellFormed(es) && |junk| >= Uvarint.UVARINT_MAX && Uvarint.Continues(junk, Uvarint.UVARINT_MAX)
    ensures Walk(Start(Block(es) + junk)) == Walked(es, Fail(OutOfRange))
  {
    WalkOfTrailing(es, junk);
    Uvarint.DecodeIsClassified(junk);
    Uvarint.RunOfFive(junk);
    assert es + [] == es;
  }

  /** An item in order is accepted, as if it had been meant. */
  lemma Accepted(es: seq<Extension>, e: Extension)
    requires WellFormed(es) && Sendable(e) && InOrder(es, e.id)
    ensures Walk(Start(Block(es) + Item(e))) == Walked(es + [e], Pass)
  {
    BlockSnoc(es, e);
    assert Start(Block(es + [e])).data[0..] == Block(es + [e]);
    WalkOfBlock(Start(Block(es + [e])), es + [e]);
  }
}
