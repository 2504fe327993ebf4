/**
 * MultiMsg as the source has it: a growable string, and a raw pointer to the header that
 * lives in the string's own storage. An append that outgrows the storage moves the string,
 * and the pointer then denotes the storage that was given up.
 */
module MultiMsgs {
  import opened Bytes
  import opened MsgCodec
  import opened Wrappers

  function Max(a: nat, b: nat): nat { if a < b then b else a }

  function Min(a: nat, b: nat): nat { if a < b then a else b }

  /** std::string: `data.Length` is its capacity. */
  class ByteString {
    var data: array<Byte>
    var size: nat

    ghost predicate Valid()
      reads this
    {
      size <= data.Length
    }

    ghost function Contents(): (s: seq<Byte>)
      requires Valid()
      reads this, data
    {
      data[..size]
    }

    constructor (init: seq<Byte>)
      ensures Valid() && fresh(data) && Contents() == init && data.Length == |init|
    {
      size := |init|;
      data := new Byte[|init|](i requires 0 <= i < |init| => init[i]);
    }

    /** Moves to larger storage; the library may take more than `need`, and at least doubles. */
    method Grow(need: nat)
      requires Valid() && data.Length < need
      modifies this
      ensures Valid() && fresh(data) && need <= data.Length && 2 * old(data.Length) <= data.Length
      ensures Contents() == old(Contents()) && size == old(size)
    {
      var slack :| 0 <= slack;
      var bigger := new Byte[Max(need, 2 * data.Length) + slack];
      for i := 0 to size
        modifies bigger
        invariant bigger[..i] == data[..i]
      {
        bigger[i] := data[i];
      }
      data := bigger;
    }

    method Reserve(n: nat)
      requires Valid()
      modifies this
      ensures Valid() && Contents() == old(Contents()) && size == old(size)
      ensures if n <= old(data.Length) then data == old(data)
              else fresh(data) && n <= data.Length && 2 * old(data.Length) <= data.Length
    {
      if data.Length < n {
        Grow(n);
      }
    }

    method Append(msg: seq<Byte>)
      requires Valid()
      modifies this, data
      ensures Valid() && Contents() == old(Contents()) + msg
      ensures if old(size) + |msg| <= old(data.Length) then data == old(data) else fresh(data)
    {
      if data.Length < size + |msg| {
        Grow(size + |msg|);
      }
      var d, n := data, size;
      ghost var before := Contents();
      for i := 0 to |msg|
        modifies d
        invariant d[..n + i] == before + msg[..i]
      {
        d[n + i] := msg[i];
      }
      size := n + |msg|;
    }
  }

  // ---- what a run of appends does, on values ----

  predicate Takes(msgs: seq<seq<Byte>>, m: seq<Byte>, maxSize: nat) {
    Start(msgs, |msgs|) + |m| <= maxSize && |msgs| < MAX_MULTI_MSG
  }

  function AppendSpec(msgs: seq<seq<Byte>>, m: seq<Byte>, maxSize: nat): seq<seq<Byte>> {
    if Takes(msgs, m, maxSize) then msgs + [m] else msgs
  }

  function AppendRun(msgs: seq<seq<Byte>>, ms: seq<seq<Byte>>, maxSize: nat): seq<seq<Byte>>
    decreases |ms|
  {
    if ms == [] then msgs else AppendRun(AppendSpec(msgs, ms[0], maxSize), ms[1..], maxSize)
  }

  /** A message is taken exactly if the longer list still has an encoding within the limits. */
  lemma TakesIff(msgs: seq<seq<Byte>>, m: seq<Byte>, maxSize: nat)
    ensures Takes(msgs, m, maxSize) <==> |Encode(msgs + [m])| <= maxSize && |msgs + [m]| <= 8
    ensures |Encode(msgs + [m])| == |Encode(msgs)| + |m|
  {
    EncodeLength(msgs);
    EncodeLength(msgs + [m]);
    StartOfPrefix(msgs, [m], |msgs|);
  }

  lemma AppendSpecTotal(msgs: seq<seq<Byte>>, m: seq<Byte>, maxSize: nat)
    ensures var next := AppendSpec(msgs, m, maxSize);
            Start(next, |next|) == Start(msgs, |msgs|) + if Takes(msgs, m, maxSize) then |m| else 0
  {
    StartOfPrefix(msgs, [m], |msgs|);
  }

  lemma {:induction false} AppendRunKeeps(msgs: seq<seq<Byte>>, ms: seq<seq<Byte>>, maxSize: nat)
    requires Start(msgs, |msgs|) <= maxSize < U16_RANGE && |msgs| <= MAX_MULTI_MSG
    ensures msgs <= AppendRun(msgs, ms, maxSize)
    ensures Fits(AppendRun(msgs, ms, maxSize))
    ensures var r := AppendRun(msgs, ms, maxSize); Start(msgs, |msgs|) <= Start(r, |r|) <= maxSize
    decreases |ms|
  {
    if ms != [] {
      AppendSpecTotal(msgs, ms[0], maxSize);
      AppendRunKeeps(AppendSpec(msgs, ms[0], maxSize), ms[1..], maxSize);
    }
  }

  lemma EncodeSnoc(msgs: seq<seq<Byte>>, m: seq<Byte>)
    ensures Encode(msgs + [m]) == (HeaderBytes(msgs + [m]) + Concat(msgs)) + m
  {
    assert (msgs + [m])[..|msgs|] == msgs;
  }

  // ---- the header in place ----

  method StoreU16(block: array<Byte>, at: nat, v: nat)
    requires at + 2 <= block.Length
    modifies block
    ensures block[at] == Lo(v) && block[at + 1] == Hi(v)
    ensures forall j :: 0 <= j < block.Length && j != at && j != at + 1 ==> block[j] == old(block[j])
  {
    block[at] := Lo(v);
    block[at + 1] := Hi(v);
  }

  lemma HeaderByteStep(msgs: seq<seq<Byte>>, m: seq<Byte>, j: nat)
    requires Fits(msgs) && |msgs| < MAX_MULTI_MSG && j < HEADER_SIZE
    ensures var n := |msgs|;
            HeaderByte(msgs + [m], j) ==
            if j == 0 then Lo(n + 1)
            else if j == 1 + 4 * n then Lo(Start(msgs, n))
            else if j == 2 + 4 * n then Hi(Start(msgs, n))
            else if j == 3 + 4 * n then Lo(|m|)
            else if j == 4 + 4 * n then Hi(|m|)
            else HeaderByte(msgs, j)
  {
    var n := |msgs|;
    if j > 0 {
      var i, r := (j - 1) / 4, (j - 1) % 4;
      assert j == 1 + 4 * i + r;
      if i <= n {
        StartOfPrefix(msgs, [m], i);
      }
    }
  }

  /** append_one: writes one entry and bumps the count, through the header pointer. */
  method AppendOne(header: array<Byte>, m: seq<Byte>, ghost msgs: seq<seq<Byte>>) returns (ok: bool)
    requires Fits(msgs) && HEADER_SIZE <= header.Length && header[..HEADER_SIZE] == HeaderBytes(msgs)
    modifies header
    ensures ok <==> |msgs| < MAX_MULTI_MSG
    ensures header[..HEADER_SIZE] == HeaderBytes(if ok then msgs + [m] else msgs)
    ensures header[HEADER_SIZE..] == old(header[HEADER_SIZE..])
  {
    EncodedNum(msgs, header[..]);
    var num := header[0];
    if num >= MAX_MULTI_MSG {
      return false;
    }
    var off := HEADER_SIZE;
    if num != 0 {
      EncodedFields(msgs, header[..], num - 1);
      var last := EntryAt(header, num - 1);
      off := Wrap16(last.0 + last.1);
    }
    PutEntry(header, off, m, msgs);
    return true;
  }

  function EntryAt(header: array<Byte>, i: nat): (e: (nat, nat))
    requires HEADER_SIZE <= header.Length && i < MAX_MULTI_MSG
    reads header
    ensures e == (Off(header[..], i), Sz(header[..], i))
  {
    (header[1 + 4 * i] as int + 256 * header[2 + 4 * i] as int,
     header[3 + 4 * i] as int + 256 * header[4 + 4 * i] as int)
  }

  method PutEntry(header: array<Byte>, off: nat, m: seq<Byte>, ghost msgs: seq<seq<Byte>>)
    requires Fits(msgs) && HEADER_SIZE <= header.Length && header[..HEADER_SIZE] == HeaderBytes(msgs)
    requires |msgs| < MAX_MULTI_MSG && off == Start(msgs, |msgs|)
    modifies header
    ensures header[..HEADER_SIZE] == HeaderBytes(msgs + [m])
    ensures header[HEADER_SIZE..] == old(header[HEADER_SIZE..])
  {
    EncodedNum(msgs, header[..]);
    assert forall j :: 0 <= j < HEADER_SIZE ==> header[j] == HeaderBytes(msgs)[j];
    var num := header[0];
    StoreU16(header, 1 + 4 * num, off);
    StoreU16(header, 3 + 4 * num, |m|);
    header[0] := num + 1;
    forall j | 0 <= j < HEADER_SIZE
      ensures header[j] == HeaderByte(msgs + [m], j)
    {
      HeaderByteStep(msgs, m, j);
    }
  }

  // ---- the check of a received header ----

  lemma {:induction false} FullOffOfPrefix(b: seq<Byte>, c: seq<Byte>, i: nat)
    requires HEADER_SIZE <= |b| && b <= c && i <= MAX_MULTI_MSG
    ensures FullOff(b, i) == FullOff(c, i)
  {
    if i > 0 {
      FullOffOfPrefix(b, c, i - 1);
    }
  }

  /** The check reads nothing but the first 33 bytes. */
  lemma AcceptsOfPrefix(c: seq<Byte>, n: nat)
    requires HEADER_SIZE <= n <= |c|
    ensures Accepts(c[..n], n) <==> Accepts(c, n)
  {
    forall i: nat | i <= MAX_MULTI_MSG
      ensures FullOff(c[..n], i) == FullOff(c, i)
    {
      FullOffOfPrefix(c[..n], c, i);
    }
    assert forall i: nat :: i < MAX_MULTI_MSG ==> Off(c[..n], i) == Off(c, i);
  }

  /** PastEnd: a field is read that lies behind the string and its terminating zero. */
  datatype Check = Accepted | Rejected | PastEnd

  function U16At(b: seq<Byte>, at: nat): nat
    requires at + 2 <= |b|
  {
    b[at] as int + 256 * b[at + 1] as int
  }

  /** The loop of sanity_check from entry `i` on; `t` is a string with its terminating zero. */
  function CheckFrom(t: seq<Byte>, i: nat, curOff: nat): Check
    requires t != [] && i <= t[0]
    decreases t[0] - i
  {
    if i == t[0] then if curOff <= |t| - 1 then Accepted else Rejected
    else if |t| < 3 + 4 * i then PastEnd
    else if U16At(t, 1 + 4 * i) != curOff then Rejected
    else if |t| < 5 + 4 * i then PastEnd
    else CheckFrom(t, i + 1, Add16(curOff, U16At(t, 3 + 4 * i)))
  }

  function CheckSpec(b: seq<Byte>): Check {
    var t := b + [0];
    if t[0] > MAX_MULTI_MSG then Rejected else CheckFrom(t, 0, HEADER_SIZE)
  }

  /** `cur_off += sz` on a u16. */
  function Add16(a: nat, b: nat): nat {
    Wrap16(a + b)
  }

  lemma WrapAdd(n: nat, m: nat)
    ensures Add16(Wrap16(n), m) == Wrap16(n + m)
  {
  }

  /** Entry `k` begins where the sizes before it say, in 16 bits. */
  predicate Follows(c: seq<Byte>, k: nat)
    requires HEADER_SIZE <= |c| && k < MAX_MULTI_MSG
  {
    Off(c, k) == Wrap16(FullOff(c, k))
  }

  lemma AcceptsByFollows(c: seq<Byte>, sz: nat)
    requires HEADER_SIZE <= |c| && Num(c) <= MAX_MULTI_MSG
    ensures Accepts(c, sz) <==>
              (forall k :: 0 <= k < Num(c) ==> Follows(c, k)) && Wrap16(FullOff(c, Num(c))) <= sz
  {
    if forall k :: 0 <= k < Num(c) ==> Follows(c, k) {
      forall k | 0 <= k < Num(c)
        ensures Off(c, k) == Wrap16(FullOff(c, k))
      {
        assert Follows(c, k);
      }
    }
  }

  lemma CheckStep(t: seq<Byte>, c: seq<Byte>, i: nat)
    requires t != [] && i < t[0] <= MAX_MULTI_MSG && HEADER_SIZE <= |c| && t <= c && 5 + 4 * i <= |t|
    ensures CheckFrom(t, i, Wrap16(FullOff(c, i)))
         == if Follows(c, i) then CheckFrom(t, i + 1, Wrap16(FullOff(c, i + 1))) else Rejected
  {
    assert U16At(t, 1 + 4 * i) == Off(c, i) && U16At(t, 3 + 4 * i) == Sz(c, i);
    WrapAdd(FullOff(c, i), Sz(c, i));
  }

  lemma {:induction false} CheckFromAccepts(t: seq<Byte>, c: seq<Byte>, i: nat)
    requires t != [] && i <= t[0] <= MAX_MULTI_MSG && HEADER_SIZE <= |c| && t <= c && 1 + 4 * i <= |t|
    requires forall k :: 0 <= k < i ==> Follows(c, k)
    ensures CheckFrom(t, i, Wrap16(FullOff(c, i))) == Accepted <==>
              && 1 + 4 * t[0] <= |t|
              && (forall k :: 0 <= k < t[0] ==> Follows(c, k))
              && Wrap16(FullOff(c, t[0])) <= |t| - 1
    decreases t[0] - i
  {
    if i < t[0] && 5 + 4 * i <= |t| {
      CheckStep(t, c, i);
      if Follows(c, i) {
        CheckFromAccepts(t, c, i + 1);
      }
    }
  }

  lemma {:induction false} CheckFromReadsPast(t: seq<Byte>, c: seq<Byte>, i: nat)
    requires t != [] && i <= t[0] <= MAX_MULTI_MSG && HEADER_SIZE <= |c| && t <= c && 1 + 4 * i <= |t|
    requires forall k :: 0 <= k < i ==> Follows(c, k)
    ensures CheckFrom(t, i, Wrap16(FullOff(c, i))) == PastEnd <==>
              |t| < 1 + 4 * t[0] && forall k :: 0 <= k < t[0] && 3 + 4 * k <= |t| ==> Follows(c, k)
    decreases t[0] - i
  {
    if i == t[0] || |t| < 3 + 4 * i {
      assert forall k :: 0 <= k < t[0] && 3 + 4 * k <= |t| ==> k < i;
    } else if |t| < 5 + 4 * i {
      assert U16At(t, 1 + 4 * i) == Off(c, i);
      if Follows(c, i) {
        assert forall k :: 0 <= k < t[0] && 3 + 4 * k <= |t| ==> k <= i;
      }
    } else {
      CheckStep(t, c, i);
      if Follows(c, i) {
        CheckFromReadsPast(t, c, i + 1);
      }
    }
  }

  /** The string as the head of a header padded with zeros. */
  function PaddedHeader(b: seq<Byte>): (c: seq<Byte>)
    ensures HEADER_SIZE <= |c|
  {
    b + Zeros(HEADER_SIZE)
  }

  /**
   * sanity_check on a string of any length, its terminating zero included. It accepts a
   * string that holds the fields of the entries it announces, if offsets and final value are
   * right. It reads past a string that does not hold them, unless an offset it does hold is wrong.
   */
  lemma CheckMeans(b: seq<Byte>)
    ensures var c := PaddedHeader(b);
            && (CheckSpec(b) == Accepted <==> 4 * Num(c) <= |b| && Accepts(c, |b|))
            && (CheckSpec(b) == PastEnd <==>
                  && |b| < 4 * Num(c) && Num(c) <= MAX_MULTI_MSG
                  && forall k :: 0 <= k < Num(c) && 2 + 4 * k <= |b| ==> Follows(c, k))
  {
    var t, c := b + [0], PaddedHeader(b);
    assert t <= c && Num(c) == t[0];
    if t[0] <= MAX_MULTI_MSG {
      AcceptsByFollows(c, |b|);
      CheckFromAccepts(t, c, 0);
      CheckFromReadsPast(t, c, 0);
    }
  }

  lemma FullHeaderCheck(b: seq<Byte>)
    requires HEADER_SIZE <= |b|
    ensures CheckSpec(b) == if Accepts(b, |b|) then Accepted else Rejected
  {
    var t := b + [0];
    AcceptsOfPrefix(t, |b|);
    assert t[..|b|] == b;
    if t[0] <= MAX_MULTI_MSG {
      AcceptsByFollows(t, |b|);
      CheckFromAccepts(t, t, 0);
      CheckFromReadsPast(t, t, 0);
    }
  }

  /** A string of one byte is read past; of two, the terminating zero decides. */
  lemma ShortMessageReadPast()
    ensures CheckSpec([1]) == PastEnd && CheckSpec([1, 34]) == Rejected
  {
    assert U16At([1, 34, 0], 1) == 34;
  }

  /** Five bytes are taken for a message although its one entry is not in them. */
  lemma ShortMessageAccepted()
    ensures var b := [1, 33, 0, 0xdf, 0xff];
            CheckSpec(b) == Accepted && U16At(b, 1) + U16At(b, 3) > |b|
  {
    var t: seq<Byte> := [1, 33, 0, 0xdf, 0xff, 0];
    assert [1, 33, 0, 0xdf, 0xff] + [0] == t;
    assert U16At(t, 3) == 0xffdf;
    assert CheckFrom(t, 1, Add16(33, 0xffdf)) == Accepted;
  }

  /** In general an accepted string shorter than a header has a first entry that is not in it. */
  lemma ShortMessageLies(b: seq<Byte>)
    requires |b| < HEADER_SIZE && CheckSpec(b) == Accepted
    ensures var c := PaddedHeader(b); 0 < Num(c) && Off(c, 0) + Sz(c, 0) > |b|
  {
    CheckMeans(b);
    AcceptsByFollows(PaddedHeader(b), |b|);
  }

  /** A byte of the string, or its terminating zero. */
  function ByteAt(header: array<Byte>, sz: nat, at: nat): Byte
    requires at <= sz <= header.Length
    reads header
  {
    if at < sz then header[at] else 0
  }

  /** sanity_check: the loop that accumulates the expected offset in 16 bits. */
  method SanityCheck(header: array<Byte>, sz: nat) returns (r: Check)
    requires sz <= header.Length
    ensures r == CheckSpec(header[..sz])
    ensures HEADER_SIZE <= sz ==> r == if Accepts(header[..sz], sz) then Accepted else Rejected
  {
    ghost var t := header[..sz] + [0];
    if HEADER_SIZE <= sz {
      FullHeaderCheck(header[..sz]);
    }
    assert forall k :: 0 <= k <= sz ==> ByteAt(header, sz, k) == t[k];
    var num := ByteAt(header, sz, 0) as int;
    if num > MAX_MULTI_MSG {
      return Rejected;
    }
    var curOff: nat := HEADER_SIZE;
    for i := 0 to num
      invariant CheckFrom(t, i, curOff) == CheckSpec(header[..sz])
    {
      if sz < 2 + 4 * i {
        return PastEnd;
      }
      var off := ByteAt(header, sz, 1 + 4 * i) as int + 256 * ByteAt(header, sz, 2 + 4 * i) as int;
      if off != curOff {
        return Rejected;
      }
      if sz < 4 + 4 * i {
        return PastEnd;
      }
      var size := ByteAt(header, sz, 3 + 4 * i) as int + 256 * ByteAt(header, sz, 4 + 4 * i) as int;
      curOff := Add16(curOff, size);
    }
    return if curOff <= sz then Accepted else Rejected;
  }

  datatype Received = Refused | Taken(msg: MultiMsg) | ReadsPast

  class MultiMsg {
    const maxSize: nat
    var header: array<Byte>
    var buf: ByteString
    ghost var msgs: seq<seq<Byte>>

    /** The header pointer denotes the start of the current storage. */
    ghost predicate HeaderLive()
      reads this, buf
    {
      header == buf.data
    }

    /** The buffer is exactly the encoding of the messages taken so far. */
    ghost predicate Built()
      reads this, buf, buf.data
    {
      && HEADER_SIZE < maxSize < U16_RANGE
      && buf.Valid()
      && Fits(msgs) && Start(msgs, |msgs|) <= maxSize
      && buf.Contents() == Encode(msgs)
    }

    /** A message whose header has been checked, or that was built here. */
    ghost predicate Readable()
      reads this, buf, buf.data
    {
      buf.Valid() && HeaderLive() && HEADER_SIZE <= buf.size && Num(buf.Contents()) <= MAX_MULTI_MSG
    }

    constructor (maxSize: nat, reserveSize: nat)
      requires HEADER_SIZE < maxSize < U16_RANGE
      ensures Built() && HeaderLive() && msgs == [] && this.maxSize == maxSize
      ensures fresh(buf) && fresh(buf.data)
      ensures Min(Max(reserveSize, HEADER_SIZE), maxSize) <= buf.data.Length
      ensures HEADER_SIZE < reserveSize ==> 2 * HEADER_SIZE <= buf.data.Length
    {
      this.maxSize := maxSize;
      var zeroed := new ByteString(Zeros(HEADER_SIZE));
      zeroed.Reserve(Min(Max(reserveSize, HEADER_SIZE), maxSize));
      buf := zeroed;
      header := zeroed.data;
      msgs := [];
      new;
      assert Zeros(HEADER_SIZE) == Encode([]);
    }

    constructor FromReceived(maxSize: nat, b: ByteString)
      requires b.Valid()
      ensures buf == b && header == b.data && this.maxSize == maxSize
    {
      this.maxSize := maxSize;
      buf := b;
      header := b.data;
      msgs := [];
    }

    /** create_exact: nothing when the payload cannot fit. */
    static method CreateExact(maxSize: nat, sz: nat) returns (r: Option<MultiMsg>)
      requires HEADER_SIZE < maxSize < U16_RANGE
      ensures r.None? <==> sz + HEADER_SIZE > maxSize
      ensures r.Some? ==>
        var m := r.value;
        && m.Built() && m.HeaderLive() && m.msgs == [] && m.maxSize == maxSize
        && fresh(m) && fresh(m.buf) && fresh(m.buf.data)
        && sz + HEADER_SIZE <= m.buf.data.Length && (0 < sz ==> 2 * HEADER_SIZE <= m.buf.data.Length)
    {
      if sz + HEADER_SIZE > maxSize {
        return None;
      }
      var m := new MultiMsg(maxSize, sz + HEADER_SIZE);
      return Some(m);
    }

    /** create_from: takes over a received buffer, of any size, when its header passes the check. */
    static method CreateFrom(maxSize: nat, b: ByteString) returns (r: Received)
      requires b.Valid()
      ensures b.size > maxSize ==> r == Refused
      ensures b.size <= maxSize ==>
        match CheckSpec(b.Contents()) {
          case Accepted => r.Taken?
          case Rejected => r == Refused
          case PastEnd => r == ReadsPast
        }
      ensures r.Taken? ==> fresh(r.msg) && r.msg.buf == b && r.msg.HeaderLive()
      ensures HEADER_SIZE <= b.size ==>
        && !r.ReadsPast?
        && (r.Taken? <==> b.size <= maxSize && Accepts(b.Contents(), b.size))
        && (r.Taken? ==> r.msg.Readable())
    {
      if b.size > maxSize {
        return Refused;
      }
      var m := new MultiMsg.FromReceived(maxSize, b);
      var check := SanityCheck(m.header, b.size);
      return match check
             case Accepted => Taken(m)
             case Rejected => Refused
             case PastEnd => ReadsPast;
    }

    /** The part of append that goes through the header pointer: the payload stays as it is. */
    method AppendEntry(m: seq<Byte>) returns (ok: bool)
      requires Built() && HeaderLive()
      modifies buf.data
      ensures ok <==> |msgs| < MAX_MULTI_MSG
      ensures buf.Contents() == HeaderBytes(if ok then msgs + [m] else msgs) + Concat(msgs)
    {
      EncodeLength(msgs);
      assert header[..HEADER_SIZE] == buf.Contents()[..HEADER_SIZE] == HeaderBytes(msgs);
      assert header[HEADER_SIZE..][..buf.size - HEADER_SIZE] == buf.Contents()[HEADER_SIZE..] == Concat(msgs);
      ok := AppendOne(header, m, msgs);
      assert buf.Contents() == header[..HEADER_SIZE] + header[HEADER_SIZE..][..buf.size - HEADER_SIZE];
    }

    /**
     * append: refuses without a change, or adds the message at the end. Unless the size
     * alone refuses, it uses the header pointer, which must be good; it is good afterwards
     * exactly when the new size still fits the storage it had.
     */
    method Append(m: seq<Byte>) returns (ok: bool)
      requires Built() && (HeaderLive() || maxSize < buf.size + |m|)
      modifies this`msgs, buf, buf.data
      ensures Built()
      ensures ok <==> Takes(old(msgs), m, maxSize)
      ensures msgs == AppendSpec(old(msgs), m, maxSize)
      ensures !ok ==> buf.Contents() == old(buf.Contents())
      ensures HeaderLive() <==> old(HeaderLive()) && Start(msgs, |msgs|) <= old(buf.data.Length)
      ensures buf.data == old(buf.data) || fresh(buf.data)
    {
      EncodeLength(msgs);
      if buf.size + |m| > maxSize {
        return false;
      }
      ok := AppendEntry(m);
      if !ok {
        return;
      }
      AppendSpecTotal(msgs, m, maxSize);
      buf.Append(m);
      EncodeSnoc(msgs, m);
      msgs := msgs + [m];
    }

    method NumMsg() returns (n: nat)
      requires Readable()
      ensures n == Num(buf.Contents())
    {
      n := header[0];
    }

    /** query_one: a copy of one entry; an entry past the buffer would be a wild read. */
    method QueryOne(idx: nat) returns (r: Fetched)
      requires Readable()
      ensures r == Fetch(buf.Contents(), idx)
    {
      if idx >= header[0] {
        return Missing;
      }
      var (off, sz) := EntryAt(header, idx);
      assert off == Off(buf.Contents(), idx) && sz == Sz(buf.Contents(), idx);
      if off + sz > buf.size {
        return OutOfBounds;
      }
      return Found(buf.data[off..off + sz]);
    }

    /** What was appended as message `idx` is what query_one returns. */
    method QueryAppended(idx: nat) returns (r: Fetched)
      requires Built() && HeaderLive()
      ensures r == if idx < |msgs| then Found(msgs[idx]) else Missing
    {
      BuiltIsReadable(idx);
      r := QueryOne(idx);
    }

    lemma BuiltIsReadable(idx: nat)
      requires Built() && HeaderLive()
      ensures Readable() && Num(buf.Contents()) == |msgs|
      ensures Fetch(buf.Contents(), idx) == if idx < |msgs| then Found(msgs[idx]) else Missing
    {
      FetchOfEncode(msgs, [], idx);
      assert Encode(msgs) + [] == buf.Contents();
    }
  }

  /**
   * Appends in a row, for as long as the header pointer is good. It survives all of them
   * exactly when the final size is within the storage held at the start; then nothing moved,
   * and the message is that of the whole run. Otherwise it dies at the append that outgrows it.
   */
  method AppendAll(m: MultiMsg, ms: seq<seq<Byte>>) returns (done: nat)
    requires m.Built() && m.HeaderLive()
    modifies m`msgs, m.buf, m.buf.data
    ensures m.Built() && done <= |ms|
    ensures AppendRun(m.msgs, ms[done..], m.maxSize) == AppendRun(old(m.msgs), ms, m.maxSize)
    ensures var end := AppendRun(old(m.msgs), ms, m.maxSize);
            m.HeaderLive() <==> Start(end, |end|) <= old(m.buf.data.Length)
    ensures m.HeaderLive() ==>
              m.buf.data == old(m.buf.data) && m.msgs == AppendRun(old(m.msgs), ms, m.maxSize)
  {
    done := 0;
    EncodeLength(m.msgs);
    while done < |ms| && m.header == m.buf.data
      invariant m.Built() && done <= |ms|
      invariant AppendRun(m.msgs, ms[done..], m.maxSize) == AppendRun(old(m.msgs), ms, m.maxSize)
      invariant m.HeaderLive() <==> Start(m.msgs, |m.msgs|) <= old(m.buf.data.Length)
      invariant m.HeaderLive() ==> m.buf.data == old(m.buf.data)
      invariant m.buf.data == old(m.buf.data) || fresh(m.buf.data)
    {
      assert ms[done..][1..] == ms[done + 1..];
      var _ := m.Append(ms[done]);
      done := done + 1;
    }
    AppendRunKeeps(m.msgs, ms[done..], m.maxSize);
  }

  /** With the default reservation the header pointer survives every sequence of appends. */
  method BuildDefault(maxSize: nat, ms: seq<seq<Byte>>) returns (m: MultiMsg)
    requires HEADER_SIZE < maxSize < U16_RANGE
    ensures fresh(m) && m.Built() && m.HeaderLive() && m.msgs == AppendRun([], ms, maxSize)
  {
    m := new MultiMsg(maxSize, maxSize);
    AppendRunKeeps([], ms, maxSize);
    var _ := AppendAll(m, ms);
  }

  /** With create_exact(sz) it survives if the payload taken stays within `sz`. */
  method BuildExact(maxSize: nat, sz: nat, ms: seq<seq<Byte>>) returns (m: Option<MultiMsg>)
    requires HEADER_SIZE < maxSize < U16_RANGE
    ensures m.None? <==> sz + HEADER_SIZE > maxSize
    ensures m.Some? ==> fresh(m.value) && m.value.Built()
    ensures m.Some? && |Concat(AppendRun([], ms, maxSize))| <= sz ==>
              m.value.HeaderLive() && m.value.msgs == AppendRun([], ms, maxSize)
  {
    m := MultiMsg.CreateExact(maxSize, sz);
    if m.Some? {
      EncodeLength(AppendRun([], ms, maxSize));
      var _ := AppendAll(m.value, ms);
    }
  }

  /** MsgsIter: a cursor over the entries of a message that it does not own. */
  class MsgsIter {
    const source: MultiMsg
    var curIdx: nat

    constructor (source: MultiMsg)
      ensures this.source == source && curIdx == 0
    {
      this.source := source;
      curIdx := 0;
    }

    method HasCur() returns (r: bool)
      requires source.Readable()
      ensures r <==> curIdx < Num(source.buf.Contents())
    {
      r := curIdx < source.header[0];
    }

    method Next()
      modifies this
      ensures curIdx == old(curIdx) + 1
    {
      curIdx := curIdx + 1;
    }

    method CurMsg() returns (r: Fetched)
      requires source.Readable() && curIdx < Num(source.buf.Contents())
      ensures r == Fetch(source.buf.Contents(), curIdx)
    {
      r := source.QueryOne(curIdx);
    }

    /** The same two on a message built here, in terms of what was appended. */
    method HasAppended() returns (r: bool)
      requires source.Built() && source.HeaderLive()
      ensures r <==> curIdx < |source.msgs|
    {
      source.BuiltIsReadable(0);
      r := HasCur();
    }

    method CurAppended() returns (m: seq<Byte>)
      requires source.Built() && source.HeaderLive() && curIdx < |source.msgs|
      ensures m == source.msgs[curIdx]
    {
      source.BuiltIsReadable(curIdx);
      var r := CurMsg();
      m := r.value;
    }
  }

  /** The documented loop over a MsgsIter yields the appended messages, in order. */
  method IterateAll(source: MultiMsg) returns (out: seq<seq<Byte>>)
    requires source.Built() && source.HeaderLive()
    ensures out == source.msgs
  {
    out := [];
    var iter := new MsgsIter(source);
    var more := iter.HasAppended();
    while more
      invariant iter.source == source && iter.curIdx <= |source.msgs|
      invariant more <==> iter.curIdx < |source.msgs|
      invariant out == source.msgs[..iter.curIdx]
      decreases |source.msgs| - iter.curIdx
    {
      var m := iter.CurAppended();
      out := out + [m];
      iter.Next();
      more := iter.HasAppended();
    }
  }
}
