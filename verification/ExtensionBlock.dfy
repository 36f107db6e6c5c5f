/** The block encoder, the size calculator that must agree with it, and the block reader. */
module ExtensionBlock {
  import opened Machine
  import Uvarint
  import opened Tlv

  /** Why an item cannot follow the one before it, or `Pass`. */
  function ItemVerdict(es: seq<Extension>, i: nat): Outcome
    requires i < |es|
  {
    if !Sendable(es[i]) then Fail(OutOfRange)
    else if i > 0 && es[i].id <= es[i - 1].id then Fail(Noncanonical)
    else Pass
  }

  /** The first `n` items on the wire, an unsendable one leaving nothing there. */
  function FirstItems(es: seq<Extension>, n: nat): seq<byte>
    requires n <= |es|
    decreases n
  {
    if n == 0 then [] else FirstItems(es, n - 1) + (if Sendable(es[n - 1]) then Item(es[n - 1]) else [])
  }

  function FirstSize(es: seq<Extension>, n: nat): nat
    requires n <= |es|
    decreases n, es
  {
    if n == 0 then 0 else FirstSize(es, n - 1) + (if Sendable(es[n - 1]) then |Item(es[n - 1])| else 0)
  }

  lemma {:induction false} FirstItemsSize(es: seq<Extension>, n: nat)
    requires n <= |es|
    ensures |FirstItems(es, n)| == FirstSize(es, n)
    decreases n
  {
    if n > 0 {
      FirstItemsSize(es, n - 1);
    }
  }

  lemma {:induction false} FirstItemsAreBlock(es: seq<Extension>, n: nat)
    requires n <= |es| && AllSendable(es[..n])
    ensures FirstItems(es, n) == Block(es[..n])
    decreases n
  {
    if n > 0 {
      var p, e := es[..n - 1], es[n - 1];
      assert es[..n] == p + [e];
      assert Sendable(es[..n][n - 1]);
      assert AllSendable(p) by {
        assert forall i | 0 <= i < n - 1 :: p[i] == es[..n][i];
      }
      FirstItemsAreBlock(es, n - 1);
      BlockSnoc(p, e);
    }
  }

  lemma WholeBlock(es: seq<Extension>)
    requires AllSendable(es)
    ensures FirstItems(es, |es|) == Block(es)
  {
    assert es[..|es|] == es;
    FirstItemsAreBlock(es, |es|);
  }

  /** The first fault among the first `n` items, where passing `limit` is the fault `tooBig`. */
  function BlockVerdict(es: seq<Extension>, n: nat, limit: nat, tooBig: Error): Outcome
    requires n <= |es|
    decreases n
  {
    if n == 0 then Pass
    else
      var before := BlockVerdict(es, n - 1, limit, tooBig);
      if before.Fail? then before
      else if ItemVerdict(es, n - 1).Fail? then ItemVerdict(es, n - 1)
      else if FirstSize(es, n) > limit then Fail(tooBig)
      else Pass
  }

  /** Each of the first `n` items can follow the one before it. */
  predicate StepsPass(es: seq<Extension>, n: nat)
    requires n <= |es|
    decreases n
  {
    n == 0 || (StepsPass(es, n - 1) && ItemVerdict(es, n - 1).Pass?)
  }

  /** Adjacent items are in order, and so all are. */
  lemma {:induction false} StepsWellFormed(es: seq<Extension>, n: nat)
    requires n <= |es|
    ensures StepsPass(es, n) ==> forall j | 0 <= j < n :: Sendable(es[j]) && forall i | 0 <= i < j :: es[i].id < es[j].id
    ensures WellFormed(es) ==> StepsPass(es, n)
    decreases n
  {
    if n > 0 {
      StepsWellFormed(es, n - 1);
    }
  }

  lemma {:induction false} VerdictOfSteps(es: seq<Extension>, n: nat, limit: nat, tooBig: Error)
    requires n <= |es|
    ensures BlockVerdict(es, n, limit, tooBig).Pass? <==> StepsPass(es, n) && FirstSize(es, n) <= limit
    decreases n
  {
    if n > 0 {
      VerdictOfSteps(es, n - 1, limit, tooBig);
    }
  }

  /** A list has no fault just when it is well formed and fits the limit. */
  lemma VerdictMeans(es: seq<Extension>, limit: nat, tooBig: Error)
    ensures BlockVerdict(es, |es|, limit, tooBig).Pass? <==> WellFormed(es) && |Block(es)| <= limit
  {
    VerdictOfSteps(es, |es|, limit, tooBig);
    StepsWellFormed(es, |es|);
    FirstItemsSize(es, |es|);
    if WellFormed(es) {
      WholeBlock(es);
    }
  }

  /**
   * Item `i` is the first one at fault, and `e` says why: the items before it are a block within the limit,
   * and it is out of range, or in range but not above its predecessor, or in order but too much.
   */
  ghost predicate FaultAt(es: seq<Extension>, i: nat, limit: nat, tooBig: Error, e: Error)
    requires i < |es|
  {
    var x := es[i];
    && WellFormed(es[..i]) && |Block(es[..i])| <= limit
    && if x.id == 0 || x.id > 2147483647 || x.critical > 1 || |x.value| > 4294967295 then e == OutOfRange
       else if i > 0 && x.id <= es[i - 1].id then e == Noncanonical
       else e == tooBig && |Block(es[..i])| + |Item(x)| > limit
  }

  ghost predicate FirstFaultIs(es: seq<Extension>, limit: nat, tooBig: Error, e: Error) {
    exists i | 0 <= i < |es| :: FaultAt(es, i, limit, tooBig, e)
  }

  lemma {:induction false} PrefixVerdict(es: seq<Extension>, m: nat, n: nat, limit: nat, tooBig: Error)
    requires n <= m <= |es|
    ensures BlockVerdict(es[..m], n, limit, tooBig) == BlockVerdict(es, n, limit, tooBig)
    ensures FirstSize(es[..m], n) == FirstSize(es, n)
    decreases n
  {
    hide Item;
    if n > 0 {
      PrefixVerdict(es, m, n - 1, limit, tooBig);
    }
  }

  lemma PrefixPasses(es: seq<Extension>, n: nat, limit: nat, tooBig: Error)
    requires n <= |es|
    ensures BlockVerdict(es, n, limit, tooBig).Pass? <==> WellFormed(es[..n]) && |Block(es[..n])| <= limit
    ensures WellFormed(es[..n]) ==> FirstSize(es, n) == |Block(es[..n])|
  {
    hide Block, BlockVerdict, WellFormed, FirstSize, Item;
    PrefixVerdict(es, n, n, limit, tooBig);
    VerdictMeans(es[..n], limit, tooBig);
    if WellFormed(es[..n]) {
      WellFormedSize(es[..n]);
    }
  }

  lemma WellFormedSize(es: seq<Extension>)
    requires WellFormed(es)
    ensures FirstSize(es, |es|) == |Block(es)|
  {
    WholeBlock(es);
    FirstItemsSize(es, |es|);
  }

  lemma FaultEndsHere(es: seq<Extension>, i: nat, limit: nat, tooBig: Error, e: Error)
    requires i < |es|
    ensures FaultAt(es, i, limit, tooBig, e) ==> BlockVerdict(es, i + 1, limit, tooBig) == Fail(e)
    ensures BlockVerdict(es, i, limit, tooBig).Pass? && BlockVerdict(es, i + 1, limit, tooBig) == Fail(e) ==>
              FaultAt(es, i, limit, tooBig, e)
  {
    hide Block, WellFormed, Item;
    PrefixPasses(es, i, limit, tooBig);
  }

  lemma {:induction false} FaultIsFound(es: seq<Extension>, n: nat, limit: nat, tooBig: Error, e: Error)
    requires n <= |es| && BlockVerdict(es, n, limit, tooBig) == Fail(e)
    ensures FirstFaultIs(es, limit, tooBig, e)
    decreases n
  {
    hide FaultAt;
    if n > 0 {
      if BlockVerdict(es, n - 1, limit, tooBig).Fail? {
        FaultIsFound(es, n - 1, limit, tooBig, e);
      } else {
        FaultEndsHere(es, n - 1, limit, tooBig, e);
      }
    }
  }

  /** The first fault decides, and a list without one is well formed and within the limit. */
  lemma FirstFaultDecides(es: seq<Extension>, limit: nat, tooBig: Error, e: Error)
    ensures BlockVerdict(es, |es|, limit, tooBig) == Fail(e) <==> FirstFaultIs(es, limit, tooBig, e)
    ensures (WellFormed(es) && |Block(es)| <= limit) <==> !exists e' :: FirstFaultIs(es, limit, tooBig, e')
  {
    hide FaultAt, BlockVerdict, Block;
    VerdictMeans(es, limit, tooBig);
    forall e' | FirstFaultIs(es, limit, tooBig, e')
      ensures BlockVerdict(es, |es|, limit, tooBig) == Fail(e')
    {
      var i :| 0 <= i < |es| && FaultAt(es, i, limit, tooBig, e');
      FaultEndsHere(es, i, limit, tooBig, e');
      FaultStays(es, i + 1, |es|, limit, tooBig);
    }
    if BlockVerdict(es, |es|, limit, tooBig).Fail? {
      FaultIsFound(es, |es|, limit, tooBig, BlockVerdict(es, |es|, limit, tooBig).error);
    }
  }

  /**
   * The size calculator never drifts from the encoder. A list it sizes at `n` encodes into exactly
   * `n` bytes for every capacity of at least `n`, and a list the encoder writes in at most 256 bytes
   * is sized at exactly what was written.
   */
  lemma SizeNeverDrifts(es: seq<Extension>, capacity: nat)
    ensures BlockVerdict(es, |es|, BLOCK_MAX, OutOfRange).Pass? ==>
              && WellFormed(es) && FirstSize(es, |es|) == |Block(es)|
              && (capacity >= |Block(es)| ==> BlockVerdict(es, |es|, capacity, BufferTooSmall).Pass?)
    ensures BlockVerdict(es, |es|, capacity, BufferTooSmall).Pass? ==>
              && WellFormed(es) && FirstItems(es, |es|) == Block(es)
              && (|Block(es)| <= BLOCK_MAX ==> BlockVerdict(es, |es|, BLOCK_MAX, OutOfRange).Pass?)
  {
    VerdictMeans(es, BLOCK_MAX, OutOfRange);
    VerdictMeans(es, capacity, BufferTooSmall);
    if WellFormed(es) {
      WholeBlock(es);
      FirstItemsSize(es, |es|);
    }
  }

  /** The checks the encoder and the size calculator share, one item at a time. */
  method CheckItem(es: seq<Extension>, i: nat, previousId: uint32) returns (r: Outcome)
    requires i < |es| && (i > 0 ==> previousId == es[i - 1].id)
    ensures r == ItemVerdict(es, i)
    ensures r == Fail(OutOfRange) <==>
            es[i].id == 0 || es[i].id > 2147483647 || es[i].critical > 1 || |es[i].value| > 4294967295
    ensures r == Fail(Noncanonical) ==> i > 0 && es[i].id <= es[i - 1].id
    ensures r == Pass ==> i == 0 || es[i].id > es[i - 1].id
    ensures r in {Pass, Fail(OutOfRange), Fail(Noncanonical)}
  {
    var extension := es[i];
    if extension.id == 0 || extension.id > ID_MAX || extension.critical > 1 || |extension.value| > UINT32_MAX {
      return Fail(OutOfRange);
    }
    if i != 0 && extension.id <= previousId {
      return Fail(Noncanonical);
    }
    return Pass;
  }

  /** One turn of the size calculator, each addition checked before it is made. */
  method AddItem(e: Extension, total: nat) returns (r: Result<nat>)
    requires Sendable(e) && total <= BLOCK_MAX
    ensures r == if total + |Item(e)| > BLOCK_MAX then Err(OutOfRange) else Ok(total + |Item(e)|)
  {
    ItemLength(e);
    var keySize := Uvarint.ComputeSize(Key(e));
    var lengthSize := Uvarint.ComputeSize(|e.value|);
    var field := keySize + lengthSize;
    if field > BLOCK_MAX - total {
      return Err(OutOfRange);
    }
    if |e.value| > BLOCK_MAX - (total + field) {
      return Err(OutOfRange);
    }
    return Ok(total + field + |e.value|);
  }

  /** The size the encoder would need, up to the largest block this implementation sends. */
  method ComputeBlockSize(es: seq<Extension>) returns (r: Result<nat>)
    ensures r.Ok? <==> WellFormed(es) && |Block(es)| <= 256
    ensures r.Ok? ==> r.value == |Block(es)|
    ensures r.Err? ==> BlockVerdict(es, |es|, BLOCK_MAX, OutOfRange) == Fail(r.error)
    ensures r.Err? ==> FirstFaultIs(es, 256, OutOfRange, r.error)
  {
    hide FirstFaultIs;
    VerdictMeans(es, BLOCK_MAX, OutOfRange);
    var total := 0;
    var previousId: uint32 := 0;
    for i := 0 to |es|
      invariant BlockVerdict(es, i, BLOCK_MAX, OutOfRange).Pass?
      invariant total == FirstSize(es, i) <= BLOCK_MAX
      invariant i > 0 ==> previousId == es[i - 1].id
    {
      var checked := CheckItem(es, i, previousId);
      if checked.Fail? {
        FaultIsFound(es, i + 1, BLOCK_MAX, OutOfRange, checked.error);
        FaultStays(es, i + 1, |es|, BLOCK_MAX, OutOfRange);
        return Err(checked.error);
      }
      var sum := AddItem(es[i], total);
      if sum.Err? {
        FaultIsFound(es, i + 1, BLOCK_MAX, OutOfRange, OutOfRange);
        FaultStays(es, i + 1, |es|, BLOCK_MAX, OutOfRange);
        return Err(sum.error);
      }
      total := sum.value;
      previousId := es[i].id;
    }
    FirstItemsSize(es, |es|);
    WholeBlock(es);
    return Ok(total);
  }

  /** A fault found early is the fault of the whole list. */
  lemma {:induction false} FaultStays(es: seq<Extension>, n: nat, m: nat, limit: nat, tooBig: Error)
    requires n <= m <= |es| && BlockVerdict(es, n, limit, tooBig).Fail?
    ensures BlockVerdict(es, m, limit, tooBig) == BlockVerdict(es, n, limit, tooBig)
    decreases m
  {
    if n < m {
      FaultStays(es, n, m - 1, limit, tooBig);
    }
  }

  /** Copies a value into the output. */
  method CopyValue(value: seq<byte>, out: array<byte>, start: nat)
    requires start + |value| <= out.Length
    modifies out
    ensures out[..] == Put(old(out[..]), start, value)
  {
    for j := 0 to |value|
      invariant forall k | 0 <= k < out.Length ::
                  out[k] == if start <= k < start + j then value[k - start] else old(out[k])
    {
      out[start + j] := value[j];
    }
  }

  /** The key and the length of an item at `start`, if they fit the capacity left. */
  method EncodeHead(e: Extension, out: array<byte>, start: nat, capacity: nat) returns (r: Result<nat>)
    requires Sendable(e) && start + capacity <= out.Length
    modifies out
    ensures r.Ok? <==> |Head(e)| <= capacity
    ensures r.Err? ==> r.error == BufferTooSmall
    ensures r.Ok? ==> r.value == |Head(e)| && out[..] == Put(old(out[..]), start, Head(e))
    ensures Kept(old(out[..]), out[..], start, start + capacity)
  {
    hide Put, Kept;
    ghost var s, k, l := out[..], Uvarint.Encoding(Key(e)), Uvarint.Encoding(|e.value|);
    Uvarint.EncodingSize(Key(e));
    Uvarint.EncodingSize(|e.value|);
    KeptSame(s, start, start + capacity);
    var keySize := Uvarint.Encode(Key(e), out, start, capacity);
    if keySize.Err? {
      return Err(keySize.error);
    }
    PutKeeps(s, start, k, start, start + capacity);
    var at := keySize.value;
    var lengthSize := Uvarint.Encode(|e.value|, out, start + at, capacity - at);
    if lengthSize.Err? {
      return Err(lengthSize.error);
    }
    PutTwice(s, start, k, l);
    PutKeeps(s, start, k + l, start, start + capacity);
    return Ok(at + lengthSize.value);
  }

  function Head(e: Extension): seq<byte>
    requires Sendable(e)
  {
    Uvarint.Encoding(Key(e)) + Uvarint.Encoding(|e.value|)
  }

  /** One turn of the block encoder: the item at `start`, if it fits the capacity left. */
  method EncodeItem(e: Extension, out: array<byte>, start: nat, capacity: nat) returns (r: Result<nat>)
    requires Sendable(e) && start + capacity <= out.Length
    modifies out
    ensures r.Ok? <==> |Item(e)| <= capacity
    ensures r.Err? ==> r.error == BufferTooSmall
    ensures r.Ok? ==> r.value == |Item(e)| && out[..] == Put(old(out[..]), start, Item(e))
    ensures Kept(old(out[..]), out[..], start, start + capacity)
  {
    assert Item(e) == Head(e) + e.value;
    hide Put, Kept, Head;
    ghost var s := out[..];
    var head := EncodeHead(e, out, start, capacity);
    if head.Err? {
      return Err(head.error);
    }
    if |e.value| > capacity - head.value {
      return Err(BufferTooSmall);
    }
    CopyValue(e.value, out, start + head.value);
    PutTwice(s, start, Head(e), e.value);
    PutKeeps(s, start, Item(e), start, start + capacity);
    return Ok(head.value + |e.value|);
  }

  /** One turn of the encoder's loop: item `i` behind the ones before it, checked and put in place. */
  method EncodeNext(es: seq<Extension>, i: nat, previousId: uint32, ghost s: seq<byte>, out: array<byte>,
                    start: nat, offset: nat, capacity: nat)
    returns (r: Result<nat>)
    requires i < |es| && (i > 0 ==> previousId == es[i - 1].id)
    requires BlockVerdict(es, i, capacity, BufferTooSmall).Pass?
    requires offset == |FirstItems(es, i)| <= capacity && start + capacity <= out.Length == |s|
    requires out[..] == Put(s, start, FirstItems(es, i))
    modifies out
    ensures r.Err? ==> BlockVerdict(es, i + 1, capacity, BufferTooSmall) == Fail(r.error)
    ensures r.Ok? ==> BlockVerdict(es, i + 1, capacity, BufferTooSmall).Pass?
    ensures r.Ok? ==> r.value == |FirstItems(es, i + 1)| <= capacity && out[..] == Put(s, start, FirstItems(es, i + 1))
    ensures Kept(s, out[..], start, start + capacity)
  {
    hide Put, Kept;
    FirstItemsSize(es, i);
    PutKeeps(s, start, FirstItems(es, i), start, start + capacity);
    ghost var before := out[..];
    var checked := CheckItem(es, i, previousId);
    if checked.Fail? {
      return Err(checked.error);
    }
    var item := EncodeItem(es[i], out, start + offset, capacity - offset);
    KeptThen(s, before, out[..], start, start + capacity, start + offset, start + capacity);
    if item.Err? {
      return Err(item.error);
    }
    PutTwice(s, start, FirstItems(es, i), Item(es[i]));
    return Ok(offset + item.value);
  }

  /** Encodes a list at `start`, if `capacity` bytes from there have room for it. */
  method EncodeBlock(es: seq<Extension>, out: array<byte>, start: nat, capacity: nat) returns (r: Result<nat>)
    requires start + capacity <= out.Length
    modifies out
    ensures r.Ok? <==> WellFormed(es) && |Block(es)| <= capacity
    ensures r.Err? ==> BlockVerdict(es, |es|, capacity, BufferTooSmall) == Fail(r.error)
    ensures r.Err? ==> FirstFaultIs(es, capacity, BufferTooSmall, r.error)
    ensures r.Ok? ==> r.value == |Block(es)|
    ensures r.Ok? ==> out[..] == Put(old(out[..]), start, Block(es))
    ensures Kept(old(out[..]), out[..], start, start + capacity)
  {
    hide Put, Kept, FirstFaultIs;
    ghost var s := out[..];
    PutNothing(s, start);
    KeptSame(s, start, start + capacity);
    VerdictMeans(es, capacity, BufferTooSmall);
    var offset := 0;
    var previousId: uint32 := 0;
    for i := 0 to |es|
      invariant BlockVerdict(es, i, capacity, BufferTooSmall).Pass?
      invariant offset == |FirstItems(es, i)| <= capacity
      invariant out[..] == Put(s, start, FirstItems(es, i)) && Kept(s, out[..], start, start + capacity)
      invariant i > 0 ==> previousId == es[i - 1].id
    {
      var next := EncodeNext(es, i, previousId, s, out, start, offset, capacity);
      if next.Err? {
        FaultIsFound(es, i + 1, capacity, BufferTooSmall, next.error);
        FaultStays(es, i + 1, |es|, capacity, BufferTooSmall);
        return Err(next.error);
      }
      offset := next.value;
      previousId := es[i].id;
    }
    WholeBlock(es);
    return Ok(offset);
  }

  /** Hands out the items of a block one call at a time, and never goes back. */
  class ExtensionReader {
    var data: seq<byte>
    var offset: nat
    var previousId: uint32
    var hasPrevious: bool

    constructor (data: seq<byte>)
      ensures State() == Start(data)
      ensures this.data == data && offset == 0 && previousId == 0 && !hasPrevious
    {
      this.data, offset, previousId, hasPrevious := data, 0, 0, false;
    }

    function State(): ReaderState
      reads this
    {
      ReaderState(data, offset, previousId, hasPrevious)
    }

    method Init(data: seq<byte>)
      modifies this
      ensures State() == Start(data)
      ensures this.data == data && offset == 0 && previousId == 0 && !hasPrevious
    {
      this.data, offset, previousId, hasPrevious := data, 0, 0, false;
    }

    /** The fields may hold anything; a refused call may already have moved past what it read. */
    method NextItem() returns (r: Reading)
      modifies this
      ensures (State(), r) == Next(old(State()))
    {
      if offset == |data| {
        return Finished;
      }
      if offset > |data| {
        return Refused(Truncated);
      }
      var key := Uvarint.DecodeValue(data[offset..]);
      if key.Err? {
        return Refused(key.error);
      }
      offset := offset + key.value.1;
      var id := key.value.0 / 2;
      if id == 0 {
        return Refused(Noncanonical);
      }
      if hasPrevious && id <= previousId {
        return Refused(Noncanonical);
      }
      var length := Uvarint.DecodeValue(data[offset..]);
      if length.Err? {
        return Refused(length.error);
      }
      offset := offset + length.value.1;
      if length.value.0 > |data| - offset {
        return Refused(Truncated);
      }
      var at := offset;
      offset := offset + length.value.0;
      previousId := id;
      hasPrevious := true;
      return Read(Extension(id, key.value.0 % 2, data[at..offset]), at);
    }
  }

  // ---- runs of the reader -----------------------------------------------------------------------

  /** A run of the reader: the states it passes through and the answers it gives on the way. */
  ghost predicate IsRun(states: seq<ReaderState>, answers: seq<Reading>) {
    && |states| == |answers| + 1
    && states[0].offset <= |states[0].data|
    && forall k | 0 <= k < |answers| :: Next(states[k]) == (states[k + 1], answers[k])
  }

  ghost predicate AllAdvance(states: seq<ReaderState>, answers: seq<Reading>, n: nat) {
    && n <= |answers| == |states| - 1
    && forall k | 0 <= k < n :: Advances(states[k], states[k + 1], answers[k])
  }

  lemma {:induction false} RunAdvances(states: seq<ReaderState>, answers: seq<Reading>, n: nat)
    requires IsRun(states, answers) && n <= |answers|
    ensures AllAdvance(states, answers, n)
    ensures states[n].offset <= |states[n].data|
    decreases n
  {
    if n > 0 {
      RunAdvances(states, answers, n - 1);
      NextAdvances(states[n - 1]);
      assert Next(states[n - 1]) == (states[n], answers[n - 1]);
    }
  }

  /** Between any two points of a run nothing goes backwards, and nothing leaves the block. */
  lemma {:induction false} NothingGoesBack(states: seq<ReaderState>, answers: seq<Reading>, m: nat, n: nat)
    requires AllAdvance(states, answers, |answers|) && m <= n < |states|
    ensures
      var a, b := states[m], states[n];
      && a.data == b.data
      && a.offset <= b.offset
      && (a.hasPrevious ==> b.hasPrevious && a.previousId <= b.previousId)
    decreases n
  {
    if m < n {
      NothingGoesBack(states, answers, m, n - 1);
      assert Advances(states[n - 1], states[n], answers[n - 1]);
    }
  }

  /**
   * Over any run of calls, refused ones included, the ids handed out strictly increase and stay in
   * range, the values lie inside the block, one behind the other, and the offset never leaves it.
   */
  lemma RunIsOrdered(states: seq<ReaderState>, answers: seq<Reading>, i: nat, j: nat)
    requires IsRun(states, answers) && i < j < |answers|
    requires answers[i].Read? && answers[j].Read?
    ensures
      var a, b, data := answers[i], answers[j], states[0].data;
      && 1 <= a.item.id < b.item.id <= ID_MAX
      && states[0].offset < a.at && a.at + |a.item.value| < b.at
      && b.at + |b.item.value| <= |data|
      && a.item.value == data[a.at..a.at + |a.item.value|]
      && b.item.value == data[b.at..b.at + |b.item.value|]
  {
    RunAdvances(states, answers, |answers|);
    NothingGoesBack(states, answers, 0, i);
    NothingGoesBack(states, answers, i + 1, j);
    assert Advances(states[i], states[i + 1], answers[i]);
    assert Advances(states[j], states[j + 1], answers[j]);
  }

  // ---- how many items a block can hold ------------------------------------------------------------

  function LeastSize(n: nat): nat {
    2 * n + (if n > 63 then n - 63 else 0)
  }

  /** Ids only go up, so later items need longer keys: `n` items need at least this many bytes. */
  lemma {:induction false} ItemsNeedRoom(es: seq<Extension>)
    requires WellFormed(es)
    ensures |Block(es)| >= LeastSize(|es|)
    ensures es != [] ==> es[|es| - 1].id >= |es|
  {
    if es != [] {
      var n := |es| - 1;
      ItemsNeedRoom(es[..n]);
      BlockSnoc(es[..n], es[n]);
      ItemLength(es[n]);
      assert es == es[..n] + [es[n]];
      if n > 0 {
        assert es[..n][n - 1] == es[n - 1];
        assert es[n - 1].id < es[n].id;
      }
      assert Key(es[n]) >= 2 * |es|;
      assert |es| > 63 ==> Uvarint.Size(Key(es[n])) >= 2;
    }
  }

  /** The largest block holds at most 106 items. */
  lemma BlockHoldsAtMost106(es: seq<Extension>)
    requires WellFormed(es) && |Block(es)| <= BLOCK_MAX
    ensures |es| <= 106
  {
    ItemsNeedRoom(es);
  }

  function EmptyItems(n: nat): (es: seq<Extension>)
    requires n <= 8191
    ensures |es| == n
    ensures forall i | 0 <= i < n :: es[i] == Extension(i + 1, 0, [])
  {
    seq(n, i requires 0 <= i < n => Extension(i + 1, 0, []))
  }

  /** The bound is met: the ids 1 to `n` with empty values take exactly that many bytes. */
  lemma {:induction false} LeastSizeIsReached(n: nat)
    requires n <= 8191
    ensures WellFormed(EmptyItems(n)) && |Block(EmptyItems(n))| == LeastSize(n)
  {
    if n > 0 {
      LeastSizeIsReached(n - 1);
      var es := EmptyItems(n);
      assert es == EmptyItems(n - 1) + [es[n - 1]];
      BlockSnoc(EmptyItems(n - 1), es[n - 1]);
      ItemLength(es[n - 1]);
      assert Key(es[n - 1]) == 2 * n;
      assert 2 * n / 0x80 < 0x80;
      assert Uvarint.Size(2 * n) == if n > 63 then 2 else 1;
    }
  }
}
