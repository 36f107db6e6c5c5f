/** Messages one after the other in one buffer, decoded by stepping over what each consumed. */
module Stream {
  import opened Machine
  import opened Tlv
  import opened Frame
  import opened Message

  predicate AllPrintable(ms: seq<Message>) {
    forall i | 0 <= i < |ms| :: Printable(ms[i])
  }

  /** The bytes of a list of messages. */
  function StreamBytes(ms: seq<Message>): seq<byte>
    requires AllPrintable(ms)
  {
    if ms == [] then [] else Bytes(ms[0]) + StreamBytes(ms[1..])
  }

  function Normals(ms: seq<Message>): (r: seq<Message>)
    ensures |r| == |ms|
    ensures forall i | 0 <= i < |ms| :: r[i] == Normal(ms[i])
  {
    seq(|ms|, i requires 0 <= i < |ms| => Normal(ms[i]))
  }

  lemma NormalsCons(ms: seq<Message>)
    requires ms != []
    ensures Normals(ms) == [Normal(ms[0])] + Normals(ms[1..])
  {
  }

  /**
   * Decodes until the buffer is used up. Message number `k` is decided by `callbacks(k)`, so what a
   * callback remembers from one message to the next is covered.
   */
  function DecodeStream(data: seq<byte>, callbacks: nat -> Callback, k: nat): Result<seq<Message>>
    decreases |data|
  {
    if data == [] then Ok([])
    else
      var first := DecodeExt(data, callbacks(k));
      if first.Err? then Err(first.error)
      else
        ConsumesSomething(data, callbacks(k));
        var rest := DecodeStream(data[first.value.consumed..], callbacks, k + 1);
        if rest.Err? then rest else Ok([first.value.message] + rest.value)
  }

  /** Every message takes at least its header, so the decoding of a buffer ends. */
  lemma ConsumesSomething(data: seq<byte>, callback: Callback)
    requires DecodeExt(data, callback).Ok?
    ensures 2 < DecodeExt(data, callback).value.consumed <= |data|
  {
    Canonical(data, callback);
    DecodedSizeFits(data);
  }

  /** Decoding a buffer that begins with one decodable stretch. */
  lemma StreamStep(data: seq<byte>, d: Decoded, rest: seq<byte>, callbacks: nat -> Callback, k: nat)
    requires DecodeExt(data, callbacks(k)) == Ok(d)
    requires d.consumed <= |data| && data[d.consumed..] == rest
    ensures |rest| < |data|
    ensures
      var tail := DecodeStream(rest, callbacks, k + 1);
      DecodeStream(data, callbacks, k) == if tail.Err? then tail else Ok([d.message] + tail.value)
  {
    ConsumesSomething(data, callbacks(k));
  }

  /** Each message's critical items are accepted by the callback that decides it. */
  predicate AllAgreed(ms: seq<Message>, callbacks: nat -> Callback, k: nat) {
    forall i | 0 <= i < |ms| :: AllAccepted(callbacks(k + i), [], ms[i].items)
  }

  lemma AgreedTail(ms: seq<Message>, callbacks: nat -> Callback, k: nat)
    requires ms != [] && AllAgreed(ms, callbacks, k)
    ensures AllAccepted(callbacks(k), [], ms[0].items)
    ensures AllAgreed(ms[1..], callbacks, k + 1)
  {
    assert AllAccepted(callbacks(k + 0), [], ms[0].items);
    forall i | 0 <= i < |ms[1..]|
      ensures AllAccepted(callbacks(k + 1 + i), [], ms[1..][i].items)
    {
      assert AllAccepted(callbacks(k + (i + 1)), [], ms[i + 1].items);
      assert k + (i + 1) == k + 1 + i;
    }
  }

  /**
   * Messages in front of anything: they decode to themselves, what comes behind them is decoded on its own by
   * the callbacks that are left, and if that is refused so is the whole buffer, with the same status.
   */
  lemma {:induction false} StreamGoesOn(ms: seq<Message>, rest: seq<byte>, callbacks: nat -> Callback, k: nat)
    requires AllPrintable(ms) && AllAgreed(ms, callbacks, k)
    ensures
      var behind := DecodeStream(rest, callbacks, k + |ms|);
      DecodeStream(StreamBytes(ms) + rest, callbacks, k) ==
      if behind.Err? then behind else Ok(Normals(ms) + behind.value)
    decreases |ms|
  {
    hide DecodeStream, Bytes, Printable, AllAccepted, Normal, DecodeExt;
    var behind := DecodeStream(rest, callbacks, k + |ms|);
    if ms == [] {
      assert StreamBytes(ms) + rest == rest;
      assert behind.Ok? ==> Normals(ms) + behind.value == behind.value;
    } else {
      AgreedTail(ms, callbacks, k);
      var later := StreamBytes(ms[1..]) + rest;
      assert StreamBytes(ms) + rest == Bytes(ms[0]) + later;
      FirstOfStream(ms[0], later, callbacks, k);
      StreamGoesOn(ms[1..], rest, callbacks, k + 1);
      NormalsCons(ms);
      assert behind.Ok? ==> [Normal(ms[0])] + (Normals(ms[1..]) + behind.value) == Normals(ms) + behind.value;
    }
  }

  /** Streams joined are the stream of their messages, and one message is its own. */
  lemma {:induction false} StreamsJoin(a: seq<Message>, b: seq<Message>)
    requires AllPrintable(a) && AllPrintable(b)
    ensures AllPrintable(a + b) && StreamBytes(a + b) == StreamBytes(a) + StreamBytes(b)
    ensures |a| == 1 ==> StreamBytes(a) == Bytes(a[0])
    decreases |a|
  {
    hide Bytes, Printable;
    if a == [] {
      assert a + b == b && StreamBytes(a) + StreamBytes(b) == StreamBytes(b);
    } else {
      StreamsJoin(a[1..], b);
      assert (a + b)[1..] == a[1..] + b;
    }
  }

  /**
   * Parsing is unique: a buffer of any messages, of whatever kinds, majors and extensions, decodes to
   * exactly those messages.
   */
  lemma StreamRoundTrip(ms: seq<Message>, callbacks: nat -> Callback, k: nat)
    requires AllPrintable(ms) && AllAgreed(ms, callbacks, k)
    ensures DecodeStream(StreamBytes(ms), callbacks, k) == Ok(Normals(ms))
  {
    StreamGoesOn(ms, [], callbacks, k);
    assert StreamBytes(ms) + [] == StreamBytes(ms) && Normals(ms) + [] == Normals(ms);
  }

  lemma FirstOfStream(m: Message, rest: seq<byte>, callbacks: nat -> Callback, k: nat)
    requires Printable(m) && AllAccepted(callbacks(k), [], m.items)
    ensures
      var tail := DecodeStream(rest, callbacks, k + 1);
      DecodeStream(Bytes(m) + rest, callbacks, k) == if tail.Err? then tail else Ok([Normal(m)] + tail.value)
  {
    var bytes := Bytes(m);
    RoundTrip(m, callbacks(k), rest);
    assert (bytes + rest)[|bytes|..] == rest;
    StreamStep(bytes + rest, Decoded(Normal(m), Block(m.items), |bytes|), rest, callbacks, k);
  }

  /** A buffer that decodes to the end is exactly the bytes of the messages it decodes to. */
  lemma {:induction false} StreamCanonical(data: seq<byte>, callbacks: nat -> Callback, k: nat)
    requires DecodeStream(data, callbacks, k).Ok?
    ensures
      var ms := DecodeStream(data, callbacks, k).value;
      && AllPrintable(ms)
      && Normals(ms) == ms
      && data == StreamBytes(ms)
    decreases |data|
  {
    if data != [] {
      var d := DecodeExt(data, callbacks(k)).value;
      Canonical(data, callbacks(k));
      var rest := data[d.consumed..];
      StreamStep(data, d, rest, callbacks, k);
      StreamCanonical(rest, callbacks, k + 1);
      MessageThenStream(d.message, DecodeStream(rest, callbacks, k + 1).value);
      SplitAt(data, d.consumed);
    }
  }

  lemma SplitAt(data: seq<byte>, n: nat)
    requires n <= |data|
    ensures data == data[..n] + data[n..]
  {
  }

  lemma MessageThenStream(m: Message, ms: seq<Message>)
    requires Printable(m) && Normal(m) == m && AllPrintable(ms) && Normals(ms) == ms
    ensures AllPrintable([m] + ms) && Normals([m] + ms) == [m] + ms
    ensures StreamBytes([m] + ms) == Bytes(m) + StreamBytes(ms)
  {
    var all := [m] + ms;
    assert all[1..] == ms;
    forall i | 0 <= i < |all|
      ensures Printable(all[i]) && Normal(all[i]) == all[i]
    {
      if i > 0 {
        assert all[i] == ms[i - 1] == Normals(ms)[i - 1];
      }
    }
  }
}
