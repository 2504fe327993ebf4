/**
 * The byte format of a MultiMsg: a packed 33-byte header (a count and eight u16 pairs)
 * followed by the payloads. Everything here is about byte strings; module MultiMsgs
 * holds the code that builds and reads them in place.
 */
module MsgCodec {
  import opened Bytes

  const HEADER_SIZE := 33
  const MAX_MULTI_MSG := 8

  datatype Fetched = Missing | Found(value: seq<Byte>) | OutOfBounds

  // ---- reading the header fields ----

  function Num(b: seq<Byte>): nat
    requires HEADER_SIZE <= |b|
  {
    b[0]
  }

  function Off(b: seq<Byte>, i: nat): (r: nat)
    requires HEADER_SIZE <= |b| && i < MAX_MULTI_MSG
    ensures r < U16_RANGE
  {
    b[1 + 4 * i] as int + 256 * b[2 + 4 * i] as int
  }

  function Sz(b: seq<Byte>, i: nat): (r: nat)
    requires HEADER_SIZE <= |b| && i < MAX_MULTI_MSG
    ensures r < U16_RANGE
  {
    b[3 + 4 * i] as int + 256 * b[4 + 4 * i] as int
  }

  // ---- the unbounded offsets that the u16 accumulator of sanity_check wraps ----

  function FullOff(b: seq<Byte>, i: nat): (r: nat)
    requires HEADER_SIZE <= |b| && i <= MAX_MULTI_MSG
    ensures HEADER_SIZE <= r
  {
    if i == 0 then HEADER_SIZE else FullOff(b, i - 1) + Sz(b, i - 1)
  }

  /** What sanity_check accepts, stated without its loop. */
  predicate Accepts(b: seq<Byte>, sz: nat)
    requires HEADER_SIZE <= |b|
  {
    && Num(b) <= MAX_MULTI_MSG
    && (forall i :: 0 <= i < Num(b) ==> Off(b, i) == Wrap16(FullOff(b, i)))
    && Wrap16(FullOff(b, Num(b))) <= sz
  }

  predicate InBounds(b: seq<Byte>, i: nat)
    requires HEADER_SIZE <= |b| && i < MAX_MULTI_MSG
  {
    Off(b, i) + Sz(b, i) <= |b|
  }

  /** The reads of query_one: an absent entry, its bytes, or a read past the buffer. */
  function Fetch(b: seq<Byte>, i: nat): Fetched
    requires HEADER_SIZE <= |b| && Num(b) <= MAX_MULTI_MSG
  {
    if i >= Num(b) then Missing
    else if !InBounds(b, i) then OutOfBounds
    else Found(b[Off(b, i)..Off(b, i) + Sz(b, i)])
  }

  lemma {:induction false} FullOffMonotone(b: seq<Byte>, i: nat, j: nat)
    requires HEADER_SIZE <= |b| && i <= j <= MAX_MULTI_MSG
    ensures FullOff(b, i) <= FullOff(b, j)
  {
    if i < j {
      FullOffMonotone(b, i, j - 1);
    }
  }

  lemma {:induction false} NoWrapWhileInBounds(b: seq<Byte>, k: nat)
    requires HEADER_SIZE <= |b| < U16_RANGE && Accepts(b, |b|) && k <= Num(b)
    requires forall i :: 0 <= i < k ==> InBounds(b, i)
    ensures FullOff(b, k) <= |b|
  {
    if k > 0 {
      NoWrapWhileInBounds(b, k - 1);
      assert InBounds(b, k - 1);
    }
  }

  /**
   * Acceptance alone does not keep the entries inside the buffer. It does exactly when
   * the sum of the header and the sizes, not wrapped to 16 bits, stays below 2^16.
   */
  lemma AcceptedEntriesInBoundsIff(b: seq<Byte>)
    requires HEADER_SIZE <= |b| < U16_RANGE && Accepts(b, |b|)
    ensures (forall i :: 0 <= i < Num(b) ==> InBounds(b, i)) <==> FullOff(b, Num(b)) < U16_RANGE
  {
    if forall i :: 0 <= i < Num(b) ==> InBounds(b, i) {
      NoWrapWhileInBounds(b, Num(b));
    }
    if FullOff(b, Num(b)) < U16_RANGE {
      forall i | 0 <= i < Num(b)
        ensures InBounds(b, i)
      {
        FullOffMonotone(b, i, Num(b));
        FullOffMonotone(b, i + 1, Num(b));
      }
    }
  }

  /** Entries of an accepted, unwrapped header lie one after the other, without overlap. */
  lemma AcceptedEntriesDisjoint(b: seq<Byte>, i: nat, j: nat)
    requires HEADER_SIZE <= |b| && Accepts(b, |b|)
    requires FullOff(b, Num(b)) < U16_RANGE
    requires i < j < Num(b)
    ensures HEADER_SIZE <= Off(b, i) && Off(b, i) + Sz(b, i) <= Off(b, j)
  {
    FullOffMonotone(b, i, Num(b));
    FullOffMonotone(b, j, Num(b));
    FullOffMonotone(b, i + 1, j);
  }

  /** A header of two entries whose sizes add up past 2^16, with zeros behind it. */
  const WRAPPING_HEADER: seq<Byte> :=
    [2] + ToLE(33, 2) + ToLE(60000, 2) + ToLE(60033, 2) + ToLE(6000, 2) + Zeros(4096 - 9)

  lemma WrappingHeaderFields()
    ensures |WRAPPING_HEADER| == 4096 && Num(WRAPPING_HEADER) == 2
    ensures Off(WRAPPING_HEADER, 0) == 33 && Sz(WRAPPING_HEADER, 0) == 60000
    ensures Off(WRAPPING_HEADER, 1) == 60033 && Sz(WRAPPING_HEADER, 1) == 6000
  {
    assert ToLE(33, 2) == [33, 0];
    assert ToLE(60000, 2) == [96, 234];
    assert ToLE(60033, 2) == [129, 234];
    assert ToLE(6000, 2) == [112, 23];
  }

  /** The wrapped sum lets a 4096-byte buffer pass although its first entry ends at 60033. */
  lemma AcceptedButOutOfBounds()
    ensures Accepts(WRAPPING_HEADER, |WRAPPING_HEADER|)
    ensures Fetch(WRAPPING_HEADER, 0) == OutOfBounds
  {
    WrappingHeaderFields();
    var b := WRAPPING_HEADER;
    assert FullOff(b, 1) == 33 + 60000;
    assert FullOff(b, 2) == 66033;
  }

  // ---- the encoding of a list of messages ----

  /** Offset of message `i`; for `i == |msgs|`, the length of the whole encoding. */
  function Start(msgs: seq<seq<Byte>>, i: nat): (r: nat)
    requires i <= |msgs|
    ensures HEADER_SIZE <= r
  {
    if i == 0 then HEADER_SIZE else Start(msgs, i - 1) + |msgs[i - 1]|
  }

  function Concat(msgs: seq<seq<Byte>>): (r: seq<Byte>)
  {
    if msgs == [] then [] else Concat(msgs[..|msgs| - 1]) + msgs[|msgs| - 1]
  }

  function Lo(n: nat): Byte { n % 256 }

  function Hi(n: nat): Byte { n / 256 % 256 }

  /** Byte `r` of entry `i`: the offset, then the size, each low byte first. */
  function EntryByte(msgs: seq<seq<Byte>>, i: nat, r: nat): Byte {
    if i >= |msgs| then 0
    else if r == 0 then Lo(Start(msgs, i))
    else if r == 1 then Hi(Start(msgs, i))
    else if r == 2 then Lo(|msgs[i]|)
    else Hi(|msgs[i]|)
  }

  function HeaderByte(msgs: seq<seq<Byte>>, j: nat): Byte {
    if j == 0 then Lo(|msgs|) else EntryByte(msgs, (j - 1) / 4, (j - 1) % 4)
  }

  function HeaderBytes(msgs: seq<seq<Byte>>): (r: seq<Byte>)
    ensures |r| == HEADER_SIZE
  {
    seq(HEADER_SIZE, j requires 0 <= j => HeaderByte(msgs, j))
  }

  function Encode(msgs: seq<seq<Byte>>): (r: seq<Byte>)
    ensures HEADER_SIZE <= |r|
  {
    HeaderBytes(msgs) + Concat(msgs)
  }

  /** The lists that a MultiMsg of at most 2^16 - 1 bytes can hold. */
  predicate Fits(msgs: seq<seq<Byte>>) {
    |msgs| <= MAX_MULTI_MSG && Start(msgs, |msgs|) < U16_RANGE
  }

  lemma {:induction false} StartOfPrefix(msgs: seq<seq<Byte>>, more: seq<seq<Byte>>, i: nat)
    requires i <= |msgs|
    ensures Start(msgs + more, i) == Start(msgs, i)
  {
    if i > 0 {
      StartOfPrefix(msgs, more, i - 1);
    }
  }

  lemma {:induction false} StartMonotone(msgs: seq<seq<Byte>>, i: nat, j: nat)
    requires i <= j <= |msgs|
    ensures Start(msgs, i) <= Start(msgs, j)
  {
    if i < j {
      StartMonotone(msgs, i, j - 1);
    }
  }

  lemma {:induction false} EncodeLength(msgs: seq<seq<Byte>>)
    ensures |Encode(msgs)| == Start(msgs, |msgs|)
  {
    if msgs != [] {
      var front := msgs[..|msgs| - 1];
      EncodeLength(front);
      StartOfPrefix(front, [msgs[|msgs| - 1]], |front|);
      assert front + [msgs[|msgs| - 1]] == msgs;
    }
  }

  lemma {:induction false} ConcatSlice(msgs: seq<seq<Byte>>, i: nat)
    requires i < |msgs|
    ensures HEADER_SIZE + |Concat(msgs)| == Start(msgs, |msgs|) >= Start(msgs, i + 1)
    ensures Concat(msgs)[Start(msgs, i) - HEADER_SIZE..Start(msgs, i + 1) - HEADER_SIZE] == msgs[i]
  {
    EncodeLength(msgs);
    StartMonotone(msgs, i + 1, |msgs|);
    var front, last := msgs[..|msgs| - 1], msgs[|msgs| - 1];
    assert front + [last] == msgs;
    StartOfPrefix(front, [last], i);
    if i < |front| {
      ConcatSlice(front, i);
      StartOfPrefix(front, [last], i + 1);
      var lo, hi := Start(msgs, i) - HEADER_SIZE, Start(msgs, i + 1) - HEADER_SIZE;
      assert Concat(msgs)[lo..hi] == Concat(front)[lo..hi];
    } else {
      EncodeLength(front);
    }
  }

  lemma PayloadSlice(msgs: seq<seq<Byte>>, i: nat)
    requires i < |msgs|
    ensures Start(msgs, i + 1) <= |Encode(msgs)|
    ensures Encode(msgs)[Start(msgs, i)..Start(msgs, i + 1)] == msgs[i]
  {
    ConcatSlice(msgs, i);
    var lo, hi := Start(msgs, i), Start(msgs, i + 1);
    assert Encode(msgs)[lo..hi] == Concat(msgs)[lo - HEADER_SIZE..hi - HEADER_SIZE];
  }

  lemma LoHi(n: nat)
    requires n < U16_RANGE
    ensures Lo(n) as int + 256 * Hi(n) as int == n
  {
  }

  lemma EntryByteAt(msgs: seq<seq<Byte>>, i: nat, r: nat)
    requires r < 4
    ensures HeaderByte(msgs, 1 + 4 * i + r) == EntryByte(msgs, i, r)
  {
    assert (4 * i + r) / 4 == i && (4 * i + r) % 4 == r;
  }

  lemma {:induction false} EncodedFields(msgs: seq<seq<Byte>>, b: seq<Byte>, i: nat)
    requires Fits(msgs) && HeaderBytes(msgs) <= b && i < |msgs|
    ensures Off(b, i) == Start(msgs, i) && Sz(b, i) == |msgs[i]|
  {
    StartMonotone(msgs, i + 1, |msgs|);
    assert forall j :: 0 <= j < HEADER_SIZE ==> b[j] == HeaderByte(msgs, j);
    EntryByteAt(msgs, i, 0);
    EntryByteAt(msgs, i, 1);
    EntryByteAt(msgs, i, 2);
    EntryByteAt(msgs, i, 3);
    LoHi(Start(msgs, i));
    LoHi(|msgs[i]|);
  }

  lemma {:induction false} EncodedFullOff(msgs: seq<seq<Byte>>, b: seq<Byte>, i: nat)
    requires Fits(msgs) && HeaderBytes(msgs) <= b && i <= |msgs|
    ensures FullOff(b, i) == Start(msgs, i)
  {
    if i > 0 {
      EncodedFullOff(msgs, b, i - 1);
      EncodedFields(msgs, b, i - 1);
    }
  }

  lemma EncodedNum(msgs: seq<seq<Byte>>, b: seq<Byte>)
    requires Fits(msgs) && HeaderBytes(msgs) <= b
    ensures Num(b) == |msgs|
  {
    assert b[0] == HeaderByte(msgs, 0);
  }

  /** Every encoding is accepted, whatever bytes follow it in the buffer. */
  lemma EncodingAccepted(msgs: seq<seq<Byte>>, tail: seq<Byte>)
    requires Fits(msgs)
    ensures Accepts(Encode(msgs) + tail, |Encode(msgs) + tail|)
    ensures Num(Encode(msgs) + tail) == |msgs|
  {
    var b := Encode(msgs) + tail;
    EncodeLength(msgs);
    assert HeaderBytes(msgs) <= b;
    EncodedNum(msgs, b);
    EncodedFullOff(msgs, b, |msgs|);
    forall i | 0 <= i < |msgs|
      ensures Off(b, i) == Wrap16(FullOff(b, i))
    {
      EncodedFullOff(msgs, b, i);
      EncodedFields(msgs, b, i);
    }
  }

  /** The round trip: entry `i` of an encoding is message `i`, whatever bytes follow. */
  lemma FetchOfEncode(msgs: seq<seq<Byte>>, tail: seq<Byte>, i: nat)
    requires Fits(msgs)
    ensures Num(Encode(msgs) + tail) == |msgs|
    ensures Fetch(Encode(msgs) + tail, i) == if i < |msgs| then Found(msgs[i]) else Missing
  {
    var e := Encode(msgs);
    var b := e + tail;
    EncodingAccepted(msgs, tail);
    if i < |msgs| {
      assert HeaderBytes(msgs) <= b;
      EncodedFields(msgs, b, i);
      PayloadSlice(msgs, i);
      var lo, hi := Start(msgs, i), Start(msgs, i + 1);
      assert b[lo..hi] == e[lo..hi];
    }
  }

  /** Entries tile the encoding: each begins where the one before it ends. */
  lemma EncodingTiles(msgs: seq<seq<Byte>>, i: nat)
    requires Fits(msgs) && i < |msgs|
    ensures Off(Encode(msgs), 0) == HEADER_SIZE
    ensures Off(Encode(msgs), i) + Sz(Encode(msgs), i)
         == if i + 1 < |msgs| then Off(Encode(msgs), i + 1) else |Encode(msgs)|
  {
    EncodeLength(msgs);
    assert HeaderBytes(msgs) <= Encode(msgs);
    EncodedFields(msgs, Encode(msgs), 0);
    EncodedFields(msgs, Encode(msgs), i);
    if i + 1 < |msgs| {
      EncodedFields(msgs, Encode(msgs), i + 1);
    }
  }

  /**
   * The packed layout, byte for byte: the count, then per entry its offset and its size in two
   * bytes each, the low one first; the entry's bytes are found there.
   */
  lemma EncodingLayout(msgs: seq<seq<Byte>>, i: nat)
    requires Fits(msgs) && i < |msgs|
    ensures var b := Encode(msgs);
            var off, sz := b[1 + 4 * i] as int + 256 * b[2 + 4 * i] as int,
                           b[3 + 4 * i] as int + 256 * b[4 + 4 * i] as int;
            && b[0] == |msgs| && sz == |msgs[i]|
            && 33 <= off && off + sz <= |b| && b[off..off + sz] == msgs[i]
            && (i == 0 ==> off == 33)
  {
    assert HeaderBytes(msgs) <= Encode(msgs);
    EncodedNum(msgs, Encode(msgs));
    EncodedFields(msgs, Encode(msgs), i);
    PayloadSlice(msgs, i);
  }
}
