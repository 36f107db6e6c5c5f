/**
 * Messages with extensions in plain bytes: the literals of the length code, the item, the block and the
 * envelope, and the status each call answers with, said without the functions the other modules go through.
 */
module PlainMessage {
  import opened Machine
  import opened Tier0
  import opened Tier0Laws
  import opened Tlv
  import opened ExtensionBlock
  import opened Frame
  import opened Message
  import opened ExtensionCodec
  import Uvarint

  // ---- the length code -----------------------------------------------------------------------------------

  /** One to five bytes, seven bits in each, the most significant first, all but the last above 127. */
  lemma LengthBytes(v: uint32)
    ensures v < 128 ==> Uvarint.Encoding(v) == [v]
    ensures 128 <= v < 16384 ==> Uvarint.Encoding(v) == [128 + v / 128, v % 128]
    ensures 16384 <= v < 2097152 ==> Uvarint.Encoding(v) == [128 + v / 16384, 128 + v / 128 % 128, v % 128]
    ensures 2097152 <= v < 268435456 ==>
              Uvarint.Encoding(v) == [128 + v / 2097152, 128 + v / 16384 % 128, 128 + v / 128 % 128, v % 128]
    ensures 268435456 <= v ==>
              Uvarint.Encoding(v) == [128 + v / 268435456, 128 + v / 2097152 % 128, 128 + v / 16384 % 128,
                                      128 + v / 128 % 128, v % 128]
  {
    hide Uvarint.Continuation, Uvarint.Encoding;
    Hundreds(v);
    LastByte(v);
    MoreBytes(v / 128);
  }

  lemma Hundreds(v: nat)
    ensures v / 128 / 128 == v / 16384 && v / 16384 / 128 == v / 2097152 && v / 2097152 / 128 == v / 268435456
  {
  }

  lemma LastByte(v: nat)
    ensures Uvarint.Encoding(v) == (if v < 128 then [] else Uvarint.Continuation(v / 128)) + [v % 128]
  {
  }

  lemma OneMoreByte(v: nat)
    ensures Uvarint.Continuation(v) == (if v < 128 then [] else Uvarint.Continuation(v / 128)) + [128 + v % 128]
  {
  }

  lemma MoreBytes(v: nat)
    requires v < 33554432
    ensures v < 128 ==> Uvarint.Continuation(v) == [128 + v]
    ensures 128 <= v < 16384 ==> Uvarint.Continuation(v) == [128 + v / 128, 128 + v % 128]
    ensures 16384 <= v < 2097152 ==> Uvarint.Continuation(v) == [128 + v / 16384, 128 + v / 128 % 128, 128 + v % 128]
    ensures 2097152 <= v ==>
              Uvarint.Continuation(v) == [128 + v / 2097152, 128 + v / 16384 % 128, 128 + v / 128 % 128, 128 + v % 128]
  {
    hide Uvarint.Continuation;
    Hundreds(v);
    OneMoreByte(v);
    OneMoreByte(v / 128);
    OneMoreByte(v / 16384);
    OneMoreByte(v / 2097152);
  }

  /** The seven bits of a byte that carry the value. */
  function Group(b: byte): nat {
    b % 128
  }

  /** What any string of bytes is answered: read off its first bytes, up to five of them. */
  lemma LengthIsAnswered(s: seq<byte>)
    ensures |s| >= 1 && s[0] < 128 ==> Uvarint.Decode(s) == Ok((s[0], 1))
    ensures |s| >= 2 && s[0] >= 128 > s[1] ==>
              Uvarint.Decode(s) == if s[0] == 128 then Err(Noncanonical) else Ok((128 * Group(s[0]) + s[1], 2))
    ensures |s| >= 3 && s[0] >= 128 && s[1] >= 128 > s[2] ==>
              Uvarint.Decode(s) ==
              if s[0] == 128 then Err(Noncanonical)
              else Ok((16384 * Group(s[0]) + 128 * Group(s[1]) + s[2], 3))
    ensures |s| >= 4 && s[0] >= 128 && s[1] >= 128 && s[2] >= 128 > s[3] ==>
              Uvarint.Decode(s) ==
              if s[0] == 128 then Err(Noncanonical)
              else Ok((2097152 * Group(s[0]) + 16384 * Group(s[1]) + 128 * Group(s[2]) + s[3], 4))
    ensures |s| >= 5 && s[0] >= 128 && s[1] >= 128 && s[2] >= 128 && s[3] >= 128 ==>
              var front := 2097152 * Group(s[0]) + 16384 * Group(s[1]) + 128 * Group(s[2]) + Group(s[3]);
              Uvarint.Decode(s) ==
              if front > 33554431 || s[4] >= 128 then Err(OutOfRange)
              else if s[0] == 128 then Err(Noncanonical)
              else Ok((128 * front + s[4], 5))
    ensures |s| < 5 && (forall i | 0 <= i < |s| :: s[i] >= 128) ==> Uvarint.Decode(s) == Err(Truncated)
  {
    hide Uvarint.DecodeFrom, Uvarint.Size;
    Turn(s, 0, 0);
    if |s| >= 1 && s[0] >= 128 {
      var a := Group(s[0]);
      Turn(s, 1, a);
      if |s| >= 2 && s[1] >= 128 {
        var b := 128 * a + Group(s[1]);
        Turn(s, 2, b);
        if |s| >= 3 && s[2] >= 128 {
          var c := 128 * b + Group(s[2]);
          Turn(s, 3, c);
          if |s| >= 4 && s[3] >= 128 {
            LastTurns(s, 128 * c + Group(s[3]));
          }
        }
      }
    }
  }

  lemma LastTurns(s: seq<byte>, d: nat)
    requires |s| >= 4 && (s[0] == 128 ==> d < 2097152) && (s[0] > 128 ==> d >= 2097152)
    ensures |s| == 4 ==> Uvarint.DecodeFrom(s, 4, d) == Err(Truncated)
    ensures |s| >= 5 ==>
              Uvarint.DecodeFrom(s, 4, d) ==
              if d > 33554431 || s[4] >= 128 then Err(OutOfRange)
              else if s[0] <= 128 && d < 2097152 then Err(Noncanonical)
              else Ok((128 * d + s[4], 5))
  {
    hide Uvarint.DecodeFrom, Uvarint.Size;
    Turn(s, 4, d);
    if |s| >= 5 && d <= 33554431 && s[4] >= 128 {
      Turn(s, 5, 128 * d + Group(s[4]));
    }
  }

  /** One turn of the decoder's loop. */
  lemma Turn(s: seq<byte>, i: nat, acc: nat)
    requires i <= |s| && i <= 5
    ensures i == |s| && i < 5 ==> Uvarint.DecodeFrom(s, i, acc) == Err(Truncated)
    ensures i == 5 ==> Uvarint.DecodeFrom(s, i, acc) == Err(OutOfRange)
    ensures i < |s| && i < 5 && acc > 33554431 ==> Uvarint.DecodeFrom(s, i, acc) == Err(OutOfRange)
    ensures i < |s| && i < 5 && acc <= 33554431 && s[i] >= 128 ==>
              Uvarint.DecodeFrom(s, i, acc) == Uvarint.DecodeFrom(s, i + 1, 128 * acc + Group(s[i]))
    ensures i < |s| && i < 5 && acc <= 33554431 && s[i] < 128 ==>
              Uvarint.DecodeFrom(s, i, acc) ==
              if (i == 0 && 128 * acc + s[i] >= 128) || (i == 1 && !(128 <= 128 * acc + s[i] < 16384))
                 || (i == 2 && !(16384 <= 128 * acc + s[i] < 2097152))
                 || (i == 3 && !(2097152 <= 128 * acc + s[i] < 268435456))
                 || (i == 4 && 128 * acc + s[i] < 268435456)
              then Err(Noncanonical) else Ok((128 * acc + s[i], i + 1))
  {
    hide Uvarint.Size;
    if i < |s| && i < 5 && acc <= 33554431 && s[i] < 128 {
      LengthSize(128 * acc + s[i]);
    }
  }

  lemma LengthSize(v: uint32)
    ensures Uvarint.Size(v) == if v < 128 then 1 else if v < 16384 then 2 else if v < 2097152 then 3
                               else if v < 268435456 then 4 else 5
  {
    hide Uvarint.Encoding;
    Uvarint.EncodingSize(v);
    LengthBytes(v);
  }

  // ---- items and blocks ------------------------------------------------------------------------------------

  /** An item that can be sent is its key, the length of its value and the value. */
  lemma ItemBytes(e: Extension)
    ensures Sendable(e) <==> 1 <= e.id <= 2147483647 && e.critical <= 1 && |e.value| <= 4294967295
    ensures Sendable(e) ==>
              Item(e) == Uvarint.Encoding(2 * e.id + e.critical) + Uvarint.Encoding(|e.value|) + e.value
  {
  }

  /** The key whose identifier is zero is refused wherever it stands, and the reader has moved past it. */
  lemma ZeroIdIsRefused(st: ReaderState)
    requires st.offset < |st.data| && st.data[st.offset] <= 1
    ensures Next(st) == (st.(offset := st.offset + 1), Refused(Noncanonical))
  {
    var rest := st.data[st.offset..];
    Uvarint.DecodeOfEncoding(rest[0], rest[1..]);
    LengthBytes(rest[0]);
    assert rest == [rest[0]] + rest[1..];
  }

  /** An offset past the end of the data is refused, and one at its end is the end of the block. */
  lemma NothingLeft(st: ReaderState)
    requires st.offset >= |st.data|
    ensures Next(st) == (st, if st.offset == |st.data| then Finished else Refused(Truncated))
  {
  }

  /**
   * A refused call keeps what it had read: nothing of a key that is cut, the key of an item out of order or
   * with a length that is refused, and the key and the length of a value that is cut.
   */
  lemma RefusedCallMoves(st: ReaderState, key: uint32, n: uint32, rest: seq<byte>)
    requires st.offset < |st.data|
    ensures
      var data, code, length := st.data[st.offset..], Uvarint.Encoding(key), Uvarint.Encoding(n);
      var refused := key < 2 || (st.hasPrevious && key / 2 <= st.previousId);
      && (Uvarint.Decode(data).Err? ==> Next(st) == (st, Refused(Uvarint.Decode(data).error)))
      && (data == code + rest && refused ==> Next(st) == (st.(offset := st.offset + |code|), Refused(Noncanonical)))
      && (data == code + rest && !refused && Uvarint.Decode(rest).Err? ==>
            Next(st) == (st.(offset := st.offset + |code|), Refused(Uvarint.Decode(rest).error)))
      && (data == code + (length + rest) && !refused && |rest| < n ==>
            Next(st) == (st.(offset := st.offset + |code| + |length|), Refused(Truncated)))
  {
    hide Uvarint.Decode;
    var data, code, length := st.data[st.offset..], Uvarint.Encoding(key), Uvarint.Encoding(n);
    if data == code + rest {
      KeyInFront(st, key, rest);
    }
    if data == code + (length + rest) {
      KeyInFront(st, key, length + rest);
      Uvarint.DecodeOfEncoding(n, rest);
      Uvarint.EncodingSize(n);
    }
  }

  lemma KeyInFront(st: ReaderState, key: uint32, rest: seq<byte>)
    requires st.offset < |st.data| && st.data[st.offset..] == Uvarint.Encoding(key) + rest
    ensures
      var at := st.offset + |Uvarint.Encoding(key)|;
      && at <= |st.data| && st.data[at..] == rest
      && Next(st) == NextAfterKey(st, key, |Uvarint.Encoding(key)|)
  {
    hide Uvarint.Decode, Uvarint.Encoding, NextAfterKey;
    Uvarint.DecodeOfEncoding(key, rest);
    var code := Uvarint.Encoding(key);
    Uvarint.EncodingSize(key);
    assert st.data[st.offset + |code|..] == st.data[st.offset..][|code|..];
  }

  // ---- messages --------------------------------------------------------------------------------------------

  /** What a message has bytes for, and which. */
  lemma MessageBytes(m: Message)
    ensures Printable(m) <==> Encodable(m.major, m.obj) && WellFormed(m.items) && |Block(m.items)| <= 256
    ensures Printable(m) && m.items == [] ==> Bytes(m) == EncodedBytes(m.major, m.obj, 0)
    ensures Printable(m) && m.items != [] ==>
              Bytes(m) == EncodedBytes(m.major, m.obj, 1) + (Uvarint.Encoding(|Block(m.items)|) + Block(m.items))
  {
    hide EncodedBytes, Encodable;
    if Printable(m) {
      NoEmptyBlock(m.items);
      NothingBehind(EncodedBytes(m.major, m.obj, 0));
    }
  }

  lemma NoEmptyBlock(es: seq<Extension>)
    requires WellFormed(es)
    ensures es == [] <==> Block(es) == []
  {
    if es != [] {
      ItemLength(es[0]);
    }
  }

  lemma NothingBehind(s: seq<byte>)
    ensures s + [] == s
  {
  }

  /**
   * Every length behind an announcing body is answered: zero is not canonical, more than 256 is out of range,
   * and more than there is left is truncated. A block that is all there is handed to the validating scan.
   */
  lemma EnvelopeIsAnswered(major: byte, o: Object, n: uint32, rest: seq<byte>, callback: Callback)
    requires Encodable(major, o)
    ensures
      var data := EncodedBytes(major, o, 1) + (Uvarint.Encoding(n) + rest);
      && (n == 0 ==> DecodeExt(data, callback) == Err(Noncanonical))
      && (n > 256 ==> DecodeExt(data, callback) == Err(OutOfRange))
      && (1 <= n <= 256 && |rest| < n ==> DecodeExt(data, callback) == Err(Truncated))
      && (1 <= n <= 256 && |rest| >= n && Validated(rest[..n], callback).Err? ==>
            DecodeExt(data, callback) == Err(Validated(rest[..n], callback).error))
      && (1 <= n <= 256 && |rest| >= n && Validated(rest[..n], callback).Ok? ==>
            DecodeExt(data, callback) ==
            Ok(Decoded(Message(major, Erased(major, o), Validated(rest[..n], callback).value), rest[..n],
                       |data| - |rest| + n)))
  {
    hide EncodedBytes, Encodable, Validated, DecodeBody, Erased;
    var body, tail := EncodedBytes(major, o, 1), Uvarint.Encoding(n) + rest;
    DecodeOfEncode(major, o, 1, tail);
    BodyThere(major, o, tail);
    Behind(body, n, rest);
  }

  lemma BodyThere(major: byte, o: Object, tail: seq<byte>)
    requires Encodable(major, o)
    ensures |EncodedBytes(major, o, 1)| == EncodedSizeAtMajor(major, o.body.Kind())
  {
  }

  lemma Behind(body: seq<byte>, n: uint32, rest: seq<byte>)
    ensures
      var r := DecodeEnvelope(body + (Uvarint.Encoding(n) + rest), |body|);
      var at := |body| + |Uvarint.Encoding(n)|;
      && (n == 0 ==> r == Err(Noncanonical))
      && (n > 256 ==> r == Err(OutOfRange))
      && (1 <= n <= 256 && |rest| < n ==> r == Err(Truncated))
      && (1 <= n <= 256 && |rest| >= n ==> r == Ok((rest[..n], at + n)))
  {
    var code := Uvarint.Encoding(n);
    var data := body + (code + rest);
    Uvarint.EncodingSize(n);
    Uvarint.DecodeOfEncoding(n, rest);
    assert data[|body|..] == code + rest;
    if 1 <= n <= 256 && |rest| >= n {
      assert data[|body| + |code|..|body| + |code| + n] == rest[..n];
    }
  }

  /** What is wrong with the fixed body is answered first. */
  lemma BodyIsAnsweredFirst(data: seq<byte>, callback: Callback)
    requires DecodeBody(data).Err?
    ensures DecodeExt(data, callback) == Err(DecodeBody(data).error)
  {
  }

  // ---- what the encoder refuses ------------------------------------------------------------------------------

  /** The order of refusals: the first fault of the list, then the object's, then the room for the block. */
  lemma EncodeExtIsAnswered(o: Object, items: seq<Extension>, capacity: nat, e: Error)
    ensures items == [] ==> EncodeExtVerdict(o, items, capacity) == EncodeVerdict(0, o, capacity)
    ensures items != [] && FirstFaultIs(items, 256, OutOfRange, e) ==> EncodeExtVerdict(o, items, capacity) == Fail(e)
    ensures items != [] && WellFormed(items) && |Block(items)| <= 256 && EncodeVerdict(0, o, capacity).Fail? ==>
              EncodeExtVerdict(o, items, capacity) == EncodeVerdict(0, o, capacity)
    ensures items != [] && WellFormed(items) && |Block(items)| <= 256 && EncodeVerdict(0, o, capacity).Pass? ==>
              Encodable(0, o)
              && EncodeExtVerdict(o, items, capacity) ==
                 if |EncodedBytes(0, o, 1)| + |Uvarint.Encoding(|Block(items)|)| + |Block(items)| > capacity
                 then Fail(BufferTooSmall) else Pass
  {
    hide EncodedBytes, EncodeVerdict, FirstFaultIs, BlockVerdict, Bytes, Block;
    FirstFaultDecides(items, 256, OutOfRange, e);
    VerdictMeans(items, 256, OutOfRange);
    EncodableIsCapacityFree(o, capacity);
    PrintableParts(o, items);
    MessageBytes(Message(0, o, items));
  }
}
