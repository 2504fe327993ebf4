/**
 * The packed structs of the control plane's requests and replies, byte for byte, and what
 * Marshal reads back from them. A name is the C string at the start of its struct.
 */
module Proto {
  import opened Bytes
  import opened Wrappers

  const MAX_NAME_LEN := 63

  // CallbackStatus
  const ST_OK: Byte := 0
  const ST_ERR: Byte := 1
  const ST_NOT_FOUND: Byte := 2
  const ST_WRONG_ARG: Byte := 3
  const ST_CONNECT_ERR: Byte := 4
  const ST_AUTH_ERR: Byte := 5

  type Name = seq<Byte>

  datatype QPAttr = QPAttr(
    subnetPrefix: U64, interfaceId: U64, localId: U32, lid: U64, psn: U64, portId: U64, qpn: U64, qkey: U64)

  const NO_ATTR := QPAttr(0, 0, 0, 0, 0, 0, 0, 0)

  /** What rc_handler reads of a request, apart from what it passes on to the driver. */
  datatype RCReq = RCReq(name: Name, whetherCreate: Byte, nicId: U64)

  datatype DelReq = DelReq(name: Name, key: U64)

  datatype RCReply = RCReply(status: Byte, attr: QPAttr, key: U64)

  const RC_REQ_SIZE := 246
  const DEL_REQ_SIZE := 72
  const RC_REPLY_SIZE := 69
  /** MRReply and DCReply: two shorter structs of one size. */
  const OTHER_REPLY_SIZE := 25

  // ---- fields ----

  function Sum(widths: seq<nat>): nat {
    if widths == [] then 0 else widths[0] + Sum(widths[1..])
  }

  predicate Fitting(vs: seq<nat>, widths: seq<nat>) {
    |vs| == |widths| && forall i :: 0 <= i < |vs| ==> vs[i] < Pow256(widths[i])
  }

  /** Little-endian fields one after the other. */
  function PackFields(vs: seq<nat>, widths: seq<nat>): (b: seq<Byte>)
    requires |vs| == |widths|
    ensures |b| == Sum(widths)
  {
    if vs == [] then [] else ToLE(vs[0], widths[0]) + PackFields(vs[1..], widths[1..])
  }

  function UnpackFields(b: seq<Byte>, widths: seq<nat>): (vs: seq<nat>)
    requires Sum(widths) <= |b|
    ensures Fitting(vs, widths)
    decreases |widths|
  {
    if widths == [] then []
    else
      FromLEBound(b[..widths[0]]);
      [FromLE(b[..widths[0]])] + UnpackFields(b[widths[0]..], widths[1..])
  }

  lemma FirstPart(first: seq<Byte>, rest: seq<Byte>, tail: seq<Byte>)
    ensures (first + rest + tail)[..|first|] == first && (first + rest + tail)[|first|..] == rest + tail
  {
  }

  lemma {:induction false} FieldsRoundTrip(vs: seq<nat>, widths: seq<nat>, tail: seq<Byte>)
    requires Fitting(vs, widths)
    ensures UnpackFields(PackFields(vs, widths) + tail, widths) == vs
    decreases |vs|
  {
    if vs != [] {
      var first, rest := ToLE(vs[0], widths[0]), PackFields(vs[1..], widths[1..]);
      FromLEOfToLE(vs[0], widths[0]);
      FirstPart(first, rest, tail);
      FieldsRoundTrip(vs[1..], widths[1..], tail);
    }
  }

  function U64Field(b: seq<Byte>, at: nat): U64
    requires at + 8 <= |b|
  {
    FromLEBound(b[at..at + 8]);
    Pow256Of8();
    FromLE(b[at..at + 8])
  }

  /** A u64 as a field. */
  function Word(v: U64): (b: seq<Byte>)
    ensures |b| == 8
  {
    WordFits(v);
    PackFields([v], [8])
  }

  lemma WordFits(v: U64)
    ensures Fitting([v], [8]) && Sum([8]) == 8
  {
    Pow256Of8();
    SumOfEights([8]);
  }

  lemma FromWord(v: U64)
    ensures FromLE(Word(v)) == v
  {
    WordFits(v);
    FieldsRoundTrip([v], [8], []);
    assert PackFields([v], [8]) + [] == Word(v);
    assert Word(v)[..8] == Word(v);
  }

  lemma U64FieldOf(front: seq<Byte>, v: U64, back: seq<Byte>)
    ensures U64Field(front + (Word(v) + back), |front|) == v
  {
    FromWord(v);
    assert (front + (Word(v) + back))[|front|..|front| + 8] == Word(v);
  }

  // ---- replies ----

  const ATTR_WIDTHS: seq<nat> := [8, 8, 4, 8, 8, 8, 8, 8]

  lemma AttrSize()
    ensures Sum(ATTR_WIDTHS) == 60
    ensures Pow256(4) == U32_RANGE && Pow256(8) == U64_RANGE
  {
    Pow256Of8();
    assert Pow256(4) == U32_RANGE;
    SumOfEights(ATTR_WIDTHS[3..]);
    assert ATTR_WIDTHS[1..][1..] == ATTR_WIDTHS[2..] && ATTR_WIDTHS[2..][1..] == ATTR_WIDTHS[3..];
  }

  lemma {:induction false} SumOfEights(widths: seq<nat>)
    requires forall i :: 0 <= i < |widths| ==> widths[i] == 8
    ensures Sum(widths) == 8 * |widths|
  {
    if widths != [] {
      SumOfEights(widths[1..]);
    }
  }

  function AttrValues(a: QPAttr): (vs: seq<nat>)
    ensures Fitting(vs, ATTR_WIDTHS)
  {
    AttrSize();
    [a.subnetPrefix, a.interfaceId, a.localId, a.lid, a.psn, a.portId, a.qpn, a.qkey]
  }

  function DumpAttr(a: QPAttr): (b: seq<Byte>)
    ensures |b| == 60
  {
    AttrSize();
    PackFields(AttrValues(a), ATTR_WIDTHS)
  }

  function AttrOf(vs: seq<nat>): QPAttr
    requires Fitting(vs, ATTR_WIDTHS)
  {
    AttrSize();
    QPAttr(vs[0], vs[1], vs[2], vs[3], vs[4], vs[5], vs[6], vs[7])
  }

  function ParseAttr(b: seq<Byte>): QPAttr
    requires |b| == 60
  {
    AttrSize();
    AttrOf(UnpackFields(b, ATTR_WIDTHS))
  }

  lemma AttrRoundTrip(a: QPAttr)
    ensures ParseAttr(DumpAttr(a)) == a
  {
    AttrSize();
    FieldsRoundTrip(AttrValues(a), ATTR_WIDTHS, []);
    assert PackFields(AttrValues(a), ATTR_WIDTHS) + [] == DumpAttr(a);
  }

  function DumpReply(r: RCReply): (b: seq<Byte>)
    ensures |b| == RC_REPLY_SIZE
  {
    [r.status] + (DumpAttr(r.attr) + Word(r.key))
  }

  function ParseReply(b: seq<Byte>): (r: Option<RCReply>)
    ensures r.Some? <==> RC_REPLY_SIZE <= |b|
  {
    if |b| < RC_REPLY_SIZE then None
    else Some(RCReply(b[0], ParseAttr(b[1..61]), U64Field(b, 61)))
  }

  lemma ReplyLayout(status: Byte, attr: seq<Byte>, key: U64, tail: seq<Byte>)
    requires |attr| == 60
    ensures var b := [status] + (attr + Word(key)) + tail;
            b[0] == status && b[1..61] == attr && U64Field(b, 61) == key
  {
    U64FieldOf([status] + attr, key, tail);
    assert [status] + (attr + Word(key)) + tail == ([status] + attr) + (Word(key) + tail);
  }

  /** A reply is read back as it was written, whatever follows it. */
  lemma ReplyStructRoundTrip(r: RCReply, tail: seq<Byte>)
    ensures ParseReply(DumpReply(r) + tail) == Some(r)
  {
    ReplyLayout(r.status, DumpAttr(r.attr), r.key, tail);
    AttrRoundTrip(r.attr);
  }

  // ---- requests ----

  /** The bytes before the first zero. */
  function CString(b: seq<Byte>): (name: Name)
    ensures |name| <= |b| && 0 !in name
    ensures name <= b && (|name| < |b| ==> b[|name|] == 0)
  {
    if b == [] || b[0] == 0 then [] else [b[0]] + CString(b[1..])
  }

  /** A name in its zeroed array of 64 characters. */
  function NameField(name: Name): (b: seq<Byte>)
    requires |name| <= MAX_NAME_LEN
    ensures |b| == 64
  {
    name + Zeros(64 - |name|)
  }

  function DumpDelete(r: DelReq): (b: seq<Byte>)
    requires |r.name| <= MAX_NAME_LEN
    ensures |b| == DEL_REQ_SIZE
  {
    NameField(r.name) + Word(r.key)
  }

  function ParseDelete(b: seq<Byte>): (r: Option<DelReq>)
    ensures r.Some? <==> DEL_REQ_SIZE <= |b|
  {
    if |b| < DEL_REQ_SIZE then None else Some(DelReq(CString(b[..DEL_REQ_SIZE]), U64Field(b, 64)))
  }

  /** The same struct is QPReq; its name is copied into a zeroed request before it is used. */
  function ParseFetch(b: seq<Byte>): (r: Option<Name>)
    ensures r.Some? <==> DEL_REQ_SIZE <= |b|
  {
    if |b| < DEL_REQ_SIZE then None else Some(CString(b[..64]))
  }

  /** What cc_rc sends: no receive queue, `config` and `attr` for the driver, the default size. */
  function DumpCreate(r: RCReq, config: seq<Byte>, attr: QPAttr): (b: seq<Byte>)
    requires |r.name| <= MAX_NAME_LEN && |config| == 40
    ensures |b| == RC_REQ_SIZE
  {
    NameField(r.name) + (Zeros(64) + ([r.whetherCreate, 0] + (Word(r.nicId)
      + (config + (DumpAttr(attr) + Word(4096))))))
  }

  function ParseCreate(b: seq<Byte>): (r: Option<RCReq>)
    ensures r.Some? <==> RC_REQ_SIZE <= |b|
  {
    if |b| < RC_REQ_SIZE then None else Some(RCReq(CString(b[..RC_REQ_SIZE]), b[128], U64Field(b, 130)))
  }

  lemma {:induction false} CStringOfName(name: Name, rest: seq<Byte>)
    requires rest != [] && rest[0] == 0
    ensures CString(name + rest) == CString(name)
  {
    if name != [] && name[0] != 0 {
      assert (name + rest)[1..] == name[1..] + rest;
      CStringOfName(name[1..], rest);
    } else if name == [] {
      assert name + rest == rest;
    }
  }

  lemma {:induction false} CStringOfPlain(name: Name)
    requires 0 !in name
    ensures CString(name) == name
  {
    if name != [] {
      CStringOfPlain(name[1..]);
    }
  }

  /** A name shorter than its array is read back up to its first zero: whole, if it has none. */
  lemma NameRoundTrip(name: Name, rest: seq<Byte>)
    requires |name| <= MAX_NAME_LEN
    ensures CString(NameField(name) + rest) == CString(name)
    ensures CString(name) == name <==> 0 !in name
  {
    var zeros := Zeros(64 - |name|);
    CStringOfName(name, zeros + rest);
    assert NameField(name) + rest == name + (zeros + rest);
    if 0 !in name {
      CStringOfPlain(name);
    }
  }

  lemma DeleteRoundTrip(r: DelReq)
    requires |r.name| <= MAX_NAME_LEN
    ensures ParseDelete(DumpDelete(r)) == Some(DelReq(CString(r.name), r.key))
    ensures ParseDelete(DumpDelete(r)) == Some(r) <==> 0 !in r.name
    ensures ParseFetch(DumpDelete(r)) == Some(CString(r.name))
  {
    NameRoundTrip(r.name, Word(r.key));
    NameRoundTrip(r.name, []);
    assert DumpDelete(r)[..64] == NameField(r.name) + [];
    U64FieldOf(NameField(r.name), r.key, []);
    assert DumpDelete(r) == NameField(r.name) + (Word(r.key) + []);
    assert DumpDelete(r)[..DEL_REQ_SIZE] == DumpDelete(r);
  }

  lemma CreateRoundTrip(r: RCReq, config: seq<Byte>, attr: QPAttr)
    requires |r.name| <= MAX_NAME_LEN && |config| == 40
    ensures ParseCreate(DumpCreate(r, config, attr)) == Some(r.(name := CString(r.name)))
    ensures ParseCreate(DumpCreate(r, config, attr)) == Some(r) <==> 0 !in r.name
  {
    var b := DumpCreate(r, config, attr);
    FromWord(r.nicId);
    CreateParts(NameField(r.name), [r.whetherCreate, 0], Word(r.nicId), config, DumpAttr(attr), Word(4096));
    NameRoundTrip(r.name, b[64..]);
    assert b == NameField(r.name) + b[64..] && b[..RC_REQ_SIZE] == b;
  }

  // ---- the layouts, byte by byte ----

  lemma {:induction false} FieldAt(vs: seq<nat>, widths: seq<nat>, i: nat)
    requires Fitting(vs, widths) && i < |vs|
    ensures Sum(widths[..i]) + widths[i] <= Sum(widths)
    ensures var at := Sum(widths[..i]); FromLE(PackFields(vs, widths)[at..at + widths[i]]) == vs[i]
    decreases i
  {
    var first, rest := ToLE(vs[0], widths[0]), PackFields(vs[1..], widths[1..]);
    if i == 0 {
      FromLEOfToLE(vs[0], widths[0]);
      assert PackFields(vs, widths)[..widths[0]] == first;
    } else {
      FieldAt(vs[1..], widths[1..], i - 1);
      assert widths[..i][1..] == widths[1..][..i - 1];
      var at := Sum(widths[1..][..i - 1]);
      SliceBehind(first, rest, at, at + widths[i]);
    }
  }

  lemma SliceBehind(a: seq<Byte>, b: seq<Byte>, lo: nat, hi: nat)
    requires lo <= hi <= |b|
    ensures (a + b)[|a| + lo..|a| + hi] == b[lo..hi]
  {
  }

  /** Where the fields of QPAttr begin. */
  lemma AttrOffsets(i: nat)
    requires i < 8
    ensures Sum(ATTR_WIDTHS[..i]) == [0, 8, 16, 20, 28, 36, 44, 52][i]
  {
    if i <= 2 {
      SumOfEights(ATTR_WIDTHS[..i]);
    } else {
      SumConcat(ATTR_WIDTHS[..2], ATTR_WIDTHS[2..i]);
      assert ATTR_WIDTHS[..2] + ATTR_WIDTHS[2..i] == ATTR_WIDTHS[..i];
      SumOfEights(ATTR_WIDTHS[..2]);
      SumOfEights(ATTR_WIDTHS[3..i]);
      assert ATTR_WIDTHS[2..i][1..] == ATTR_WIDTHS[3..i];
    }
  }

  lemma {:induction false} SumConcat(a: seq<nat>, b: seq<nat>)
    ensures Sum(a + b) == Sum(a) + Sum(b)
  {
    if a == [] {
      assert a + b == b;
    } else {
      assert (a + b)[1..] == a[1..] + b;
      SumConcat(a[1..], b);
    }
  }

  lemma AttrField(a: QPAttr, i: nat)
    requires i < 8
    ensures var at, end := Sum(ATTR_WIDTHS[..i]), Sum(ATTR_WIDTHS[..i]) + ATTR_WIDTHS[i];
            end <= 60 && FromLE(DumpAttr(a)[at..end]) == AttrValues(a)[i]
  {
    AttrSize();
    FieldAt(AttrValues(a), ATTR_WIDTHS, i);
  }

  /** The packed attributes: each field where the struct has it, least significant byte first. */
  lemma AttrLayout(a: QPAttr)
    ensures var b := DumpAttr(a);
            && FromLE(b[0..8]) == a.subnetPrefix && FromLE(b[8..16]) == a.interfaceId
            && FromLE(b[16..20]) == a.localId && FromLE(b[20..28]) == a.lid && FromLE(b[28..36]) == a.psn
            && FromLE(b[36..44]) == a.portId && FromLE(b[44..52]) == a.qpn && FromLE(b[52..60]) == a.qkey
  {
    forall i: nat | i < 8
      ensures var at, end := Sum(ATTR_WIDTHS[..i]), Sum(ATTR_WIDTHS[..i]) + ATTR_WIDTHS[i];
              end <= 60 && FromLE(DumpAttr(a)[at..end]) == AttrValues(a)[i]
    {
      AttrField(a, i);
    }
    AttrOffsets(0);
    AttrOffsets(1);
    AttrOffsets(2);
    AttrOffsets(3);
    AttrOffsets(4);
    AttrOffsets(5);
    AttrOffsets(6);
    AttrOffsets(7);
  }

  /** The packed reply: status, attributes, key. */
  lemma ReplyStructLayout(r: RCReply)
    ensures var b := DumpReply(r); b[0] == r.status && b[1..61] == DumpAttr(r.attr) && FromLE(b[61..69]) == r.key
  {
    FromWord(r.key);
    var b := DumpReply(r);
    assert b[1..61] == DumpAttr(r.attr) && b[61..69] == Word(r.key);
  }

  /** The packed delete request: the name in its zeroed array, then the key. */
  lemma DeleteStructLayout(r: DelReq)
    requires |r.name| <= MAX_NAME_LEN
    ensures var b := DumpDelete(r);
            r.name <= b && (forall i :: |r.name| <= i < 64 ==> b[i] == 0) && FromLE(b[64..72]) == r.key
  {
    FromWord(r.key);
    assert DumpDelete(r)[64..72] == Word(r.key);
  }

  /**
   * The packed create request, field by field: it carries the caller's configuration and the
   * local queue pair's attributes, which the daemon connects to.
   */
  lemma CreateStructLayout(r: RCReq, config: seq<Byte>, attr: QPAttr)
    requires |r.name| <= MAX_NAME_LEN && |config| == 40
    ensures var b := DumpCreate(r, config, attr);
            && r.name <= b && (forall i :: |r.name| <= i < 128 ==> b[i] == 0)
            && b[128] == r.whetherCreate && b[129] == 0 && FromLE(b[130..138]) == r.nicId
            && b[138..178] == config && b[178..238] == DumpAttr(attr) && ParseAttr(b[178..238]) == attr
            && FromLE(b[238..246]) == 4096
  {
    FromWord(r.nicId);
    FromWord(4096);
    AttrRoundTrip(attr);
    CreateParts(NameField(r.name), [r.whetherCreate, 0], Word(r.nicId), config, DumpAttr(attr), Word(4096));
  }

  lemma CreateParts(name: seq<Byte>, flags: seq<Byte>, nic: seq<Byte>, config: seq<Byte>, attr: seq<Byte>,
                    size: seq<Byte>)
    requires |name| == 64 && |flags| == 2 && |nic| == 8 && |config| == 40 && |attr| == 60 && |size| == 8
    ensures var b := name + (Zeros(64) + (flags + (nic + (config + (attr + size)))));
            && |b| == 246 && name <= b && (forall i :: 64 <= i < 128 ==> b[i] == 0)
            && b[128] == flags[0] && b[129] == flags[1] && b[130..138] == nic && b[138..178] == config
            && b[178..238] == attr && b[238..246] == size
  {
  }
}
