/**
 * The text that the two ends exchange over a socket: numbers in hexadecimal, fixed widths,
 * colons between them, and a 16-byte gid as 32 digits. `sprintf` and `sscanf` follow
 * sections 7.21.6.1 and 7.21.6.2 of ISO C11 for the conversions that the format uses.
 */
module Handshake {
  import opened Bytes
  import opened Wrappers

  const DIGITS: string := "0123456789abcdef"

  // ---- sprintf: %0Nx and %Nx ----

  function HexDigit(d: nat): char
    requires d < 16
  {
    DIGITS[d]
  }

  /** The digits of `%x`. */
  function Hex(v: nat): (s: string)
    ensures s != []
  {
    if v < 16 then [HexDigit(v)] else Hex(v / 16) + [HexDigit(v % 16)]
  }

  function Padded(v: nat, width: nat, pad: char): string {
    var digits := Hex(v);
    if |digits| >= width then digits else Fill(width - |digits|, pad) + digits
  }

  // ---- sscanf: %x ----

  predicate IsSpace(c: char) {
    c == ' ' || '\t' <= c <= '\r'
  }

  function DigitValue(c: char): Option<nat> {
    if '0' <= c <= '9' then Some(c as int - '0' as int)
    else if 'a' <= c <= 'f' then Some(c as int - 'a' as int + 10)
    else if 'A' <= c <= 'F' then Some(c as int - 'A' as int + 10)
    else None
  }

  predicate IsDigit(c: char) {
    DigitValue(c).Some?
  }

  function SkipSpaces(s: string): string {
    if s != [] && IsSpace(s[0]) then SkipSpaces(s[1..]) else s
  }

  /** The value of the digits at the front, on top of `acc`, and what follows them. */
  function TakeDigits(s: string, acc: nat): (nat, string) {
    if s != [] && IsDigit(s[0]) then TakeDigits(s[1..], 16 * acc + DigitValue(s[0]).value) else (acc, s)
  }

  datatype Scanned = NoMatch | Match(value: int, rest: string)

  /** One %x: white space, a sign, a 0x prefix, then at least one digit. */
  function ScanHex(s: string): Scanned {
    var t := SkipSpaces(s);
    var negative := t != [] && t[0] == '-';
    ScanUnsigned(if negative || (t != [] && t[0] == '+') then t[1..] else t, if negative then -1 else 1)
  }

  function ScanUnsigned(s: string, sign: int): Scanned {
    var t := if |s| >= 2 && s[0] == '0' && (s[1] == 'x' || s[1] == 'X') then s[2..] else s;
    if t == [] || !IsDigit(t[0]) then NoMatch
    else var (v, rest) := TakeDigits(t, 0); Match(sign * v, rest)
  }

  // ---- printing and scanning one number ----

  lemma DigitRoundTrip(d: nat)
    requires d < 16
    ensures DigitValue(HexDigit(d)) == Some(d)
    ensures var c := HexDigit(d); !IsSpace(c) && c != 'x' && c != 'X' && c != '-' && c != '+'
  {
  }

  predicate PlainDigits(s: string) {
    forall k :: 0 <= k < |s| ==> s[k] in DIGITS
  }

  lemma PlainDigit(c: char)
    requires c in DIGITS
    ensures IsDigit(c) && !IsSpace(c) && c != 'x' && c != 'X' && c != '-' && c != '+'
  {
    var d :| 0 <= d < |DIGITS| && DIGITS[d] == c;
    DigitRoundTrip(d);
  }

  /** Scanning a printed number from zero is scanning what follows it from that number. */
  lemma {:induction false} TakeHex(v: nat, after: string)
    ensures TakeDigits(Hex(v) + after, 0) == TakeDigits(after, v)
  {
    DigitRoundTrip(v % 16);
    var digit := [HexDigit(v % 16)];
    assert (digit + after)[1..] == after;
    if v >= 16 {
      TakeHex(v / 16, digit + after);
      assert Hex(v) + after == Hex(v / 16) + (digit + after);
      assert 16 * (v / 16) + v % 16 == v;
    }
  }

  function Fill(n: nat, pad: char): (s: string)
    ensures |s| == n
  {
    if n == 0 then [] else [pad] + Fill(n - 1, pad)
  }

  lemma {:induction false} TakeZeros(n: nat, s: string)
    ensures TakeDigits(Fill(n, '0') + s, 0) == TakeDigits(s, 0)
  {
    if n > 0 {
      assert (Fill(n, '0') + s)[1..] == Fill(n - 1, '0') + s;
      TakeZeros(n - 1, s);
    } else {
      assert Fill(n, '0') + s == s;
    }
  }

  lemma {:induction false} SkipFill(n: nat, s: string)
    requires s != [] && !IsSpace(s[0])
    ensures SkipSpaces(Fill(n, ' ') + s) == s
  {
    if n > 0 {
      assert (Fill(n, ' ') + s)[1..] == Fill(n - 1, ' ') + s;
      SkipFill(n - 1, s);
    } else {
      assert Fill(n, ' ') + s == s;
    }
  }

  lemma {:induction false} HexIsPlain(v: nat)
    ensures PlainDigits(Hex(v))
  {
    if v >= 16 {
      HexIsPlain(v / 16);
    }
  }

  predicate StopsNumber(s: string) {
    s == [] || s[0] == ':'
  }

  /** Digits in front of a stop are scanned as such: they hold no sign and no prefix. */
  lemma ScanPlain(s: string, after: string)
    requires PlainDigits(s) && s != [] && StopsNumber(after)
    ensures ScanHex(s + after) == var (v, rest) := TakeDigits(s + after, 0); Match(v, rest)
  {
    PlainDigit(s[0]);
    if |s| > 1 {
      PlainDigit(s[1]);
    }
  }

  lemma ScanHexSkips(n: nat, s: string)
    requires s != [] && !IsSpace(s[0])
    ensures ScanHex(Fill(n, ' ') + s) == ScanHex(s)
  {
    SkipFill(n, s);
  }

  /** Plain digits that amount to `v` are scanned as `v`. */
  lemma ScanTaken(text: string, v: nat, after: string)
    requires PlainDigits(text) && text != [] && StopsNumber(after)
    requires TakeDigits(text + after, 0) == TakeDigits(after, v)
    ensures ScanHex(text + after) == Match(v, after)
  {
    ScanPlain(text, after);
  }

  lemma ScanUnpadded(v: nat, after: string)
    requires StopsNumber(after)
    ensures ScanHex(Hex(v) + after) == Match(v, after)
  {
    HexIsPlain(v);
    TakeHex(v, after);
    ScanTaken(Hex(v), v, after);
  }

  lemma TakeZeroPadded(n: nat, v: nat, after: string)
    ensures TakeDigits(Fill(n, '0') + Hex(v) + after, 0) == TakeDigits(after, v)
  {
    TakeHex(v, after);
    TakeZeros(n, Hex(v) + after);
    assert Fill(n, '0') + Hex(v) + after == Fill(n, '0') + (Hex(v) + after);
  }

  lemma ZeroPaddedIsPlain(n: nat, v: nat)
    ensures PlainDigits(Fill(n, '0') + Hex(v))
  {
    HexIsPlain(v);
    FillIsPlain(n);
  }

  lemma ScanZeroPadded(n: nat, v: nat, after: string)
    requires StopsNumber(after)
    ensures ScanHex(Fill(n, '0') + Hex(v) + after) == Match(v, after)
  {
    ZeroPaddedIsPlain(n, v);
    TakeZeroPadded(n, v, after);
    ScanTaken(Fill(n, '0') + Hex(v), v, after);
  }

  lemma ScanSpacePadded(n: nat, v: nat, after: string)
    requires StopsNumber(after)
    ensures ScanHex(Fill(n, ' ') + Hex(v) + after) == Match(v, after)
  {
    HexIsPlain(v);
    PlainDigit(Hex(v)[0]);
    ScanHexSkips(n, Hex(v) + after);
    ScanUnpadded(v, after);
    assert Fill(n, ' ') + Hex(v) + after == Fill(n, ' ') + (Hex(v) + after);
  }

  /** A padded number in front of a colon, or at the end, is scanned back. */
  lemma ScanPadded(v: nat, width: nat, pad: char, after: string)
    requires (pad == '0' || pad == ' ') && StopsNumber(after)
    ensures ScanHex(Padded(v, width, pad) + after) == Match(v, after)
  {
    if |Hex(v)| >= width {
      ScanUnpadded(v, after);
    } else if pad == '0' {
      ScanZeroPadded(width - |Hex(v)|, v, after);
    } else {
      ScanSpacePadded(width - |Hex(v)|, v, after);
    }
  }

  lemma {:induction false} FillIsPlain(n: nat)
    ensures PlainDigits(Fill(n, '0'))
  {
    assert DIGITS[0] == '0';
    if n > 0 {
      FillIsPlain(n - 1);
    }
  }

  // ---- the message ----

  /** The struct's numbers: 32 bits each, and a 64-bit address. */
  datatype Info = Info(lid: U32, qpn: U32, psn: U32, rKey: U32, vaddr: U64, gid: string)

  /** A number with its width and padding. */
  type Field = (nat, nat, char)

  /** Numbers, each followed by a colon, in front of a last part. */
  function FormatFields(fields: seq<Field>, last: string): string {
    if fields == [] then last
    else Padded(fields[0].0, fields[0].1, fields[0].2) + (":" + FormatFields(fields[1..], last))
  }

  function FieldsOf(i: Info): seq<Field> {
    [(i.lid, 4, '0'), (i.qpn, 6, '0'), (i.psn, 6, '0'), (i.rKey, 8, '0'), (i.vaddr, 16, ' ')]
  }

  /** sprintf(msg, "%04x:%06x:%06x:%08x:%16lx:%s", ...). */
  function Format(i: Info): string {
    FormatFields(FieldsOf(i), i.gid)
  }

  /** `n` times %x and a literal colon. */
  function ScanFields(s: string, n: nat): Option<(seq<int>, string)>
    decreases n
  {
    if n == 0 then Some(([], s))
    else
      match ScanHex(s)
      case NoMatch => None
      case Match(v, rest) =>
        if rest == [] || rest[0] != ':' then None
        else
          match ScanFields(rest[1..], n - 1)
          case None => None
          case Some((vs, end)) => Some(([v] + vs, end))
  }

  function Word(s: string): string {
    if s != [] && !IsSpace(s[0]) then [s[0]] + Word(s[1..]) else []
  }

  /** sscanf(msg, "%x:%x:%x:%x:%lx:%s", ...). */
  function Scan(s: string): Option<(seq<int>, string)> {
    match ScanFields(s, 5)
    case None => None
    case Some((vs, end)) =>
      var word := Word(SkipSpaces(end));
      if word == [] then None else Some((vs, word))
  }

  function Values(fields: seq<Field>): seq<int> {
    if fields == [] then [] else [fields[0].0] + Values(fields[1..])
  }

  lemma {:induction false} ScanFieldsRoundTrip(fields: seq<Field>, last: string)
    requires forall f :: f in fields ==> f.2 == '0' || f.2 == ' '
    ensures ScanFields(FormatFields(fields, last), |fields|) == Some((Values(fields), last))
  {
    if fields != [] {
      var f := fields[0];
      var after := ":" + FormatFields(fields[1..], last);
      assert f in fields && forall g :: g in fields[1..] ==> g in fields;
      ScanPadded(f.0, f.1, f.2, after);
      ScanFieldsRoundTrip(fields[1..], last);
      assert after[1..] == FormatFields(fields[1..], last);
    }
  }

  predicate GoodGid(gid: string) {
    |gid| == 32 && PlainDigits(gid)
  }

  lemma {:induction false} WordOfPlain(s: string)
    requires PlainDigits(s)
    ensures Word(s) == s
  {
    if s != [] {
      PlainDigit(s[0]);
      WordOfPlain(s[1..]);
    }
  }

  /** Scanning a printed message gives every field back, the space-padded address included. */
  lemma MessageRoundTrip(i: Info)
    requires GoodGid(i.gid)
    ensures Scan(Format(i)) == Some(([i.lid, i.qpn, i.psn, i.rKey, i.vaddr], i.gid))
  {
    var f := FieldsOf(i);
    ScanFieldsRoundTrip(f, i.gid);
    ValuesOfFields(i);
    PlainDigit(i.gid[0]);
    WordOfPlain(i.gid);
  }

  lemma ValuesOfFields(i: Info)
    ensures Values(FieldsOf(i)) == [i.lid, i.qpn, i.psn, i.rKey, i.vaddr]
  {
    var f := FieldsOf(i);
    assert f[1..][1..] == f[2..] && f[2..][1..] == f[3..] && f[3..][1..] == f[4..];
    assert Values(f[4..]) == [f[4].0];
    assert Values(f[3..]) == [f[3].0, f[4].0];
    assert Values(f[2..]) == [f[2].0, f[3].0, f[4].0];
    assert Values(f[1..]) == [f[1].0, f[2].0, f[3].0, f[4].0];
  }

  // ---- widths ----

  function Pow16(k: nat): nat {
    if k == 0 then 1 else 16 * Pow16(k - 1)
  }

  lemma Pow16Plus4(k: nat)
    ensures Pow16(k + 4) == 0x1_0000 * Pow16(k)
  {
    assert Pow16(k + 4) == 16 * Pow16(k + 3) == 16 * (16 * Pow16(k + 2)) == 16 * (16 * (16 * Pow16(k + 1)));
  }

  lemma Pow16Values()
    ensures Pow16(4) == 0x1_0000 && Pow16(6) == 0x100_0000
    ensures Pow16(8) == U32_RANGE && Pow16(16) == U64_RANGE
  {
    Pow16Plus4(0);
    Pow16Plus4(2);
    Pow16Plus4(4);
    Pow16Plus4(8);
    Pow16Plus4(12);
  }

  lemma {:induction false} HexLength(v: nat, k: nat)
    requires 1 <= k
    ensures v < Pow16(k) <==> |Hex(v)| <= k
  {
    if v >= 16 {
      if k > 1 {
        HexLength(v / 16, k - 1);
      } else {
        assert Pow16(1) == 16;
      }
    } else if k > 1 {
      HexLength(v, k - 1);
    } else {
      assert Pow16(1) == 16;
    }
  }

  lemma PaddedLength(v: nat, k: nat, pad: char)
    requires 1 <= k
    ensures |Padded(v, k, pad)| == k <==> v < Pow16(k)
    ensures |Padded(v, k, pad)| >= k
  {
    HexLength(v, k);
  }

  /** The message fills its 77 characters exactly when the first three numbers fit their fields. */
  lemma MessageLengthIff(i: Info)
    requires GoodGid(i.gid)
    ensures |Format(i)| == 77 <==> i.lid < 0x1_0000 && i.qpn < 0x100_0000 && i.psn < 0x100_0000
  {
    Pow16Values();
    PaddedLength(i.lid, 4, '0');
    PaddedLength(i.qpn, 6, '0');
    PaddedLength(i.psn, 6, '0');
    PaddedLength(i.rKey, 8, '0');
    PaddedLength(i.vaddr, 16, ' ');
    FormatLength(i);
  }

  /** What stands where in a message whose numbers fit: fixed-width digits, and colons between. */
  lemma MessageLayout(i: Info)
    requires GoodGid(i.gid) && i.lid < 0x1_0000 && i.qpn < 0x100_0000 && i.psn < 0x100_0000
    ensures var s := Format(i);
            && |s| == 77
            && s[..5] == FixedHex(i.lid, 4) + ":" && s[5..12] == FixedHex(i.qpn, 6) + ":"
            && s[12..19] == FixedHex(i.psn, 6) + ":" && s[19..28] == FixedHex(i.rKey, 8) + ":"
            && s[28..45] == Padded(i.vaddr, 16, ' ') + ":" && s[45..] == i.gid
  {
    FormatText(i);
    Pow16Values();
    PaddedIsFixed(i.lid, 4);
    PaddedIsFixed(i.qpn, 6);
    PaddedIsFixed(i.psn, 6);
    PaddedIsFixed(i.rKey, 8);
    PaddedLength(i.vaddr, 16, ' ');
    FivePartsAndRest(Padded(i.lid, 4, '0') + ":", Padded(i.qpn, 6, '0') + ":", Padded(i.psn, 6, '0') + ":",
                     Padded(i.rKey, 8, '0') + ":", Padded(i.vaddr, 16, ' ') + ":", i.gid);
  }

  lemma FivePartsAndRest(a: string, b: string, c: string, d: string, e: string, rest: string)
    requires |a| == 5 && |b| == |c| == 7 && |d| == 9 && |e| == 17
    ensures var s := a + (b + (c + (d + (e + rest))));
            && s[..5] == a && s[5..12] == b && s[12..19] == c && s[19..28] == d && s[28..45] == e && s[45..] == rest
  {
  }

  lemma FieldText(f: Field, fields: seq<Field>, last: string)
    ensures FormatFields([f] + fields, last) == (Padded(f.0, f.1, f.2) + ":") + FormatFields(fields, last)
  {
    assert ([f] + fields)[1..] == fields;
    Regroup(Padded(f.0, f.1, f.2), ":", FormatFields(fields, last));
  }

  lemma Regroup(a: string, b: string, c: string)
    ensures a + (b + c) == (a + b) + c
  {
  }

  lemma FormatText(i: Info)
    ensures Format(i)
         == (Padded(i.lid, 4, '0') + ":") + ((Padded(i.qpn, 6, '0') + ":") + ((Padded(i.psn, 6, '0') + ":")
            + ((Padded(i.rKey, 8, '0') + ":") + ((Padded(i.vaddr, 16, ' ') + ":") + i.gid))))
  {
    var f := FieldsOf(i);
    FieldText(f[4], [], i.gid);
    FieldText(f[3], f[4..], i.gid);
    FieldText(f[2], f[3..], i.gid);
    FieldText(f[1], f[2..], i.gid);
    FieldText(f[0], f[1..], i.gid);
    assert f == [f[0]] + f[1..] && f[1..] == [f[1]] + f[2..] && f[2..] == [f[2]] + f[3..];
    assert f[3..] == [f[3]] + f[4..] && f[4..] == [f[4]] + [];
  }

  lemma FormatLength(i: Info)
    ensures |Format(i)| == |Padded(i.lid, 4, '0')| + |Padded(i.qpn, 6, '0')| + |Padded(i.psn, 6, '0')|
                         + |Padded(i.rKey, 8, '0')| + |Padded(i.vaddr, 16, ' ')| + 5 + |i.gid|
  {
    FormatText(i);
  }

  // ---- the gid ----

  datatype Endian = Little | Big

  /** A 32-bit load of four bytes, in the host's order. */
  function Load(e: Endian, b: seq<Byte>): nat
    requires |b| == 4
  {
    if e.Big? then BigEndian(b) else BigEndian([b[3], b[2], b[1], b[0]])
  }

  function BigEndian(b: seq<Byte>): (v: nat)
    requires |b| == 4
    ensures v < U32_RANGE
  {
    ((b[0] as int * 256 + b[1] as int) * 256 + b[2] as int) * 256 + b[3] as int
  }

  function Shr8(v: nat): nat {
    v / 256
  }

  function Low8(v: nat): Byte {
    v % 256
  }

  lemma ByteStep(v: nat, b: Byte)
    ensures Shr8(v * 256 + b as int) == v && Low8(v * 256 + b as int) == b
  {
  }

  function ToBigEndian(v: nat): (b: seq<Byte>)
    ensures |b| == 4
  {
    [Low8(Shr8(Shr8(Shr8(v)))), Low8(Shr8(Shr8(v))), Low8(Shr8(v)), Low8(v)]
  }

  /** The four bytes that a 32-bit store writes, in the host's order. */
  function Store(e: Endian, v: nat): (b: seq<Byte>)
    ensures |b| == 4
  {
    var b := ToBigEndian(v);
    if e.Big? then b else [b[3], b[2], b[1], b[0]]
  }

  /** htonl and ntohl: the identity or a byte swap. */
  function Htonl(e: Endian, v: nat): nat {
    if e.Big? then v else var b := ToBigEndian(v); BigEndian([b[3], b[2], b[1], b[0]])
  }

  lemma BigEndianRoundTrip(b: seq<Byte>)
    requires |b| == 4
    ensures ToBigEndian(BigEndian(b)) == b
  {
    var two := b[0] as int * 256 + b[1] as int;
    var three := two * 256 + b[2] as int;
    ByteStep(three, b[3]);
    ByteStep(two, b[2]);
    ByteStep(b[0], b[1]);
    ByteStep(0, b[0]);
  }

  lemma HostOrderCancels(e: Endian, b: seq<Byte>)
    requires |b| == 4
    ensures Htonl(e, Load(e, b)) == BigEndian(b)
    ensures Store(e, Htonl(e, BigEndian(b))) == b
  {
    BigEndianRoundTrip(b);
    var swapped := [b[3], b[2], b[1], b[0]];
    BigEndianRoundTrip(swapped);
  }

  function HexOfByte(b: Byte): string {
    [HexDigit(b / 16), HexDigit(b % 16)]
  }

  function HexOfBytes(bs: seq<Byte>): (s: string)
    ensures |s| == 2 * |bs|
  {
    if bs == [] then [] else HexOfBytes(bs[..|bs| - 1]) + HexOfByte(bs[|bs| - 1])
  }

  /** The `w` low digits of `v`. */
  function FixedHex(v: nat, w: nat): (s: string)
    ensures |s| == w
  {
    if w == 0 then [] else FixedHex(v / 16, w - 1) + [HexDigit(v % 16)]
  }

  lemma {:induction false} FixedHexOfZero(w: nat)
    ensures FixedHex(0, w) == Fill(w, '0')
  {
    if w > 0 {
      FixedHexOfZero(w - 1);
      FillSnoc(w - 1, '0');
    }
  }

  lemma {:induction false} FillSnoc(n: nat, pad: char)
    ensures Fill(n + 1, pad) == Fill(n, pad) + [pad]
  {
    if n > 0 {
      FillSnoc(n - 1, pad);
    }
  }

  type Nibble = d: int | 0 <= d < 16

  lemma FixedHexSnoc(v: nat, d: Nibble, w: nat)
    ensures FixedHex(v * 16 + d as int, w + 1) == FixedHex(v, w) + [HexDigit(d)]
  {
    assert (v * 16 + d as int) / 16 == v && (v * 16 + d as int) % 16 == d;
  }

  lemma HexSnoc(q: nat, d: Nibble)
    requires 1 <= q
    ensures Hex(q * 16 + d as int) == Hex(q) + [HexDigit(d)]
  {
    assert (q * 16 + d as int) / 16 == q && (q * 16 + d as int) % 16 == d;
  }

  lemma PaddedSnoc(q: nat, d: Nibble, w: nat)
    requires 1 <= q < Pow16(w) && 1 <= w
    ensures Padded(q * 16 + d as int, w + 1, '0') == Padded(q, w, '0') + [HexDigit(d)]
  {
    HexSnoc(q, d);
    HexLength(q, w);
  }

  lemma LastDigit(v: nat, w: nat) returns (q: nat, d: Nibble)
    requires 16 <= v < Pow16(w)
    ensures v == q * 16 + d as int && 2 <= w && 1 <= q < Pow16(w - 1)
  {
    q, d := v / 16, v % 16;
    assert Pow16(1) == 16;
  }

  lemma {:induction false} PaddedIsFixed(v: nat, w: nat)
    requires 1 <= w && v < Pow16(w)
    ensures Padded(v, w, '0') == FixedHex(v, w)
    decreases w
  {
    if v < 16 {
      FixedHexOfZero(w - 1);
    } else {
      var q, d := LastDigit(v, w);
      PaddedIsFixed(q, w - 1);
      PaddedSnoc(q, d, w - 1);
      FixedHexSnoc(q, d, w - 1);
    }
  }

  /** The number and the text of hexadecimal digits, most significant first. */
  function Number(ds: seq<Nibble>): nat {
    if ds == [] then 0 else Number(ds[..|ds| - 1]) * 16 + ds[|ds| - 1] as int
  }

  function Text(ds: seq<Nibble>): string {
    if ds == [] then [] else Text(ds[..|ds| - 1]) + [HexDigit(ds[|ds| - 1])]
  }

  lemma {:induction false} FixedHexOfDigits(ds: seq<Nibble>, w: nat)
    requires w == |ds|
    ensures FixedHex(Number(ds), w) == Text(ds)
    decreases w
  {
    if w > 0 {
      FixedHexOfDigits(ds[..w - 1], w - 1);
      FixedHexSnoc(Number(ds[..w - 1]), ds[w - 1], w - 1);
    }
  }

  function NibblesOf(b: seq<Byte>): (ds: seq<Nibble>)
    ensures |ds| == 2 * |b|
  {
    if b == [] then [] else NibblesOf(b[..|b| - 1]) + [b[|b| - 1] / 16, b[|b| - 1] % 16]
  }

  lemma TwoDigits(ds: seq<Nibble>, b: Byte)
    ensures Text(ds + [b / 16, b % 16]) == Text(ds) + HexOfByte(b)
    ensures Number(ds + [b / 16, b % 16]) == Number(ds) * 256 + b as int
  {
    var one, two := ds + [b / 16], ds + [b / 16, b % 16];
    assert two[..|one|] == one && one[..|ds|] == ds;
    assert 16 * (b / 16) + b % 16 == b;
  }

  /** Bytes as one number, most significant first. */
  function Leading(b: seq<Byte>): nat {
    if b == [] then 0 else Leading(b[..|b| - 1]) * 256 + b[|b| - 1] as int
  }

  lemma {:induction false} DigitsOfBytes(b: seq<Byte>)
    ensures Text(NibblesOf(b)) == HexOfBytes(b) && Number(NibblesOf(b)) == Leading(b)
  {
    if b != [] {
      DigitsOfBytes(b[..|b| - 1]);
      TwoDigits(NibblesOf(b[..|b| - 1]), b[|b| - 1]);
    }
  }

  lemma LeadingOfFour(b: seq<Byte>)
    requires |b| == 4
    ensures Leading(b) == BigEndian(b)
  {
    var b3, b2, b1 := b[..3], b[..2], b[..1];
    assert b3[..2] == b2 && b2[..1] == b1;
    assert Leading(b1) == b[0] as int;
    assert Leading(b2) == Leading(b1) * 256 + b[1] as int;
    assert Leading(b3) == Leading(b2) * 256 + b[2] as int;
  }

  lemma FixedHexOfBytes(b: seq<Byte>, v: nat, w: nat)
    requires v == Leading(b) && w == 2 * |b|
    ensures FixedHex(v, w) == HexOfBytes(b)
  {
    DigitsOfBytes(b);
    FixedHexOfDigits(NibblesOf(b), w);
  }

  /** One 32-bit word of the gid is printed as its bytes in order, on either host. */
  lemma WordText(e: Endian, b: seq<Byte>)
    requires |b| == 4
    ensures Padded(Htonl(e, Load(e, b)), 8, '0') == HexOfBytes(b)
  {
    HostOrderCancels(e, b);
    Pow16Values();
    PaddedIsFixed(BigEndian(b), 8);
    LeadingOfFour(b);
    FixedHexOfBytes(b, BigEndian(b), 8);
  }

  lemma {:induction false} HexOfConcat(a: seq<Byte>, b: seq<Byte>)
    ensures HexOfBytes(a + b) == HexOfBytes(a) + HexOfBytes(b)
    decreases |b|
  {
    if b == [] {
      assert a + b == a;
    } else {
      assert (a + b)[..|a + b| - 1] == a + b[..|b| - 1];
      HexOfConcat(a, b[..|b| - 1]);
    }
  }

  lemma {:induction false} HexOfBytesIsPlain(bs: seq<Byte>)
    ensures PlainDigits(HexOfBytes(bs))
  {
    if bs != [] {
      HexOfBytesIsPlain(bs[..|bs| - 1]);
    }
  }

  /** gid_to_wire_gid: four words, each written with its terminating zero over the last one's. */
  method GidToWire(e: Endian, gid: seq<Byte>, wgid: array<char>)
    requires |gid| == 16 && 33 <= wgid.Length
    modifies wgid
    ensures wgid[..32] == HexOfBytes(gid) && wgid[32] == 0 as char
    ensures GoodGid(wgid[..32])
  {
    for i := 0 to 4
      invariant wgid[..8 * i] == HexOfBytes(gid[..4 * i])
      invariant i > 0 ==> wgid[8 * i] == 0 as char
    {
      PrintNext(e, gid, i, wgid);
    }
    assert gid[..16] == gid;
    HexOfBytesIsPlain(gid);
  }

  method PrintNext(e: Endian, gid: seq<Byte>, i: nat, wgid: array<char>)
    requires |gid| == 16 && i < 4 && 33 <= wgid.Length && wgid[..8 * i] == HexOfBytes(gid[..4 * i])
    modifies wgid
    ensures wgid[..8 * (i + 1)] == HexOfBytes(gid[..4 * (i + 1)]) && wgid[8 * (i + 1)] == 0 as char
  {
    var text := WordString(e, gid[4 * i..4 * i + 4]);
    NextWord(gid, i);
    PrintWord(wgid, 8 * i, text);
  }

  /** What "%08x" prints for one word of the gid. */
  function WordString(e: Endian, word: seq<Byte>): (text: string)
    requires |word| == 4
    ensures text == HexOfBytes(word)
  {
    WordText(e, word);
    Padded(Htonl(e, Load(e, word)), 8, '0')
  }

  lemma NextWord(gid: seq<Byte>, i: nat)
    requires |gid| == 16 && i < 4
    ensures HexOfBytes(gid[..4 * (i + 1)]) == HexOfBytes(gid[..4 * i]) + HexOfBytes(gid[4 * i..4 * i + 4])
  {
    HexOfConcat(gid[..4 * i], gid[4 * i..4 * i + 4]);
    assert gid[..4 * (i + 1)] == gid[..4 * i] + gid[4 * i..4 * i + 4];
  }

  /** sprintf of eight digits, and the zero behind them. */
  method PrintWord(wgid: array<char>, at: nat, text: string)
    requires |text| == 8 && at + 9 <= wgid.Length
    modifies wgid
    ensures wgid[..at + 8] == old(wgid[..at]) + text && wgid[at + 8] == 0 as char
  {
    for k := 0 to 8
      invariant wgid[..at + k] == old(wgid[..at]) + text[..k]
    {
      wgid[at + k] := text[k];
    }
    wgid[at + 8] := 0 as char;
  }

  /** One step of wire_gid_to_gid: scan eight digits and convert the word to the host's order. */
  method ScanWord(e: Endian, tmp: string, ghost word: seq<Byte>) returns (bytes: seq<Byte>)
    requires |word| == 4 && tmp == HexOfBytes(word)
    ensures bytes == word
  {
    WordText(e, word);
    HostOrderCancels(e, word);
    ScanPadded(BigEndian(word), 8, '0', []);
    assert tmp + [] == tmp;
    var v32 := ScanHex(tmp);
    bytes := Store(e, Htonl(e, v32.value));
  }

  /** wire_gid_to_gid: eight digits at a time, each stored as a word in the host's order. */
  method WireToGid(e: Endian, wgid: seq<char>, raw: array<Byte>, ghost gid: seq<Byte>)
    requires |gid| == raw.Length == 16 && wgid == HexOfBytes(gid)
    modifies raw
    ensures raw[..] == gid
  {
    for i := 0 to 4
      invariant raw[..4 * i] == gid[..4 * i]
    {
      WordOfHex(gid, i);
      var bytes := ScanWord(e, wgid[8 * i..8 * i + 8], gid[4 * i..4 * i + 4]);
      raw[4 * i], raw[4 * i + 1], raw[4 * i + 2], raw[4 * i + 3] := bytes[0], bytes[1], bytes[2], bytes[3];
      assert raw[..4 * i + 4] == raw[..4 * i] + bytes;
      assert gid[..4 * i + 4] == gid[..4 * i] + gid[4 * i..4 * i + 4];
    }
    assert raw[..] == raw[..16] && gid == gid[..16];
  }

  lemma WordOfHex(gid: seq<Byte>, i: nat)
    requires |gid| == 16 && i < 4
    ensures HexOfBytes(gid)[8 * i..8 * i + 8] == HexOfBytes(gid[4 * i..4 * i + 4])
  {
    var a, b, c := gid[..4 * i], gid[4 * i..4 * i + 4], gid[4 * i + 4..];
    assert gid == a + (b + c);
    HexOfConcat(a, b + c);
    HexOfConcat(b, c);
  }
}
