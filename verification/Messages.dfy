/** The backend messages of src/protocol.rs: what each one looks like on the wire
    (PostgreSQL 13 manual, section 52.7), the serialisers that fill a reused
    buffer.  MessageDecoder inverts them. */
module Messages {
  import opened Wrappers
  import opened ByteOrder
  import Utf8

  type Oid = x: int | 0 < x < 0x1_0000_0000 witness 1
  type AttrNumber = x: int | 0 < x < 0x1_0000 witness 1

  datatype XactStatus = NotInBlock | InBlock | Failed

  datatype ErrFields = ErrFields(severity: Option<string>, code: Option<string>, msg: Option<string>)

  datatype Format = Text

  datatype FieldDesc = FieldDesc(name: string, reloid: Option<Oid>, typoid: Oid, typmod: i32,
                                 attnum: Option<AttrNumber>, typlen: i16, format: Format)

  datatype Message =
    | ErrorResponse(fields: ErrFields)
    | AuthenticationOk
    | BackendKeyData(backendid: u32, key: u32)
    | ReadyForQuery(status: XactStatus)
    | CommandComplete(tag: string)
    | ParameterStatus(name: string, value: string)
    | EmptyQueryResponse
    | RowDescription(columns: seq<FieldDesc>)
    | DataRow(data: seq<Option<seq<u8>>>)

  // ---------- strings on the wire ----------

  datatype ProtoError = TooShort | NoTerminator | NotUtf8 | NoUser | EmptyQuery

  /** `find`: the first position of `val` at or after `start`, or -1. */
  function Find(d: seq<u8>, start: nat, val: u8): (r: int)
    requires start <= |d|
    ensures -1 <= r < |d|
    ensures r >= 0 ==> start <= r && d[r] == val
    ensures forall k :: start <= k < (if r >= 0 then r else |d|) ==> d[k] != val
    decreases |d| - start
  {
    if start == |d| then -1
    else if d[start] == val then start
    else Find(d, start + 1, val)
  }

  /** `read_cstr`: the string that ends at the next zero byte, and the position past that byte. */
  function ReadCstr(d: seq<u8>, pos: nat): (r: Result<(string, nat), ProtoError>)
    requires pos <= |d|
    ensures r.Ok? ==> pos < r.value.1 <= |d| && '\0' !in r.value.0
                      && At(d, pos, Cstr(r.value.0)) && r.value.1 == pos + |Cstr(r.value.0)|
  {
    hide Utf8.Encode;
    hide Utf8.Decode;
    hide At;
    hide Cstr;
    var idx := Find(d, pos, 0);
    if idx < 0 then Err(NoTerminator)
    else
      match Utf8.Decode(d[pos..idx])
      case None => Err(NotUtf8)
      case Some(s) =>
        CstrAt(d, pos, idx, s);
        Ok((s, idx + 1))
  }

  lemma CstrAt(d: seq<u8>, pos: nat, idx: nat, s: string)
    requires pos <= idx < |d| && d[idx] == 0 && Utf8.Encode(s) == d[pos..idx] && 0 !in d[pos..idx]
    ensures At(d, pos, Cstr(s)) && idx + 1 == pos + |Cstr(s)| && '\0' !in s
  {
    hide Utf8.Encode;
    Utf8.ZeroByteIsNul(s);
    assert d[pos..idx + 1] == d[pos..idx] + [d[idx]];
  }

  function Cstr(s: string): (b: seq<u8>)
    ensures b != []
  {
    Utf8.Encode(s) + [0]
  }

  lemma ReadCstrInverts(d: seq<u8>, pos: nat, s: string)
    requires '\0' !in s && At(d, pos, Cstr(s))
    ensures ReadCstr(d, pos) == Ok((s, pos + |Cstr(s)|))
  {
    hide Utf8.Encode, Utf8.Decode;
    var e := Utf8.Encode(s);
    var z: seq<u8> := [0];
    Utf8.ZeroByteIsNul(s);
    Utf8.DecodeInverts(s);
    AtSplit(d, pos, e, z);
    var idx := pos + |e|;
    assert d[pos..idx] == e && d[idx..idx + 1] == z;
    assert d[idx] == d[idx..idx + 1][0];
    forall k | pos <= k < idx ensures d[k] != 0 {
      assert d[k] == e[k - pos];
    }
    assert Find(d, pos, 0) == idx;
  }

  /** A string is refused for want of a zero byte, or because what precedes the first one is not UTF-8. */
  lemma ReadCstrFails(d: seq<u8>, pos: nat)
    requires pos <= |d|
    ensures ReadCstr(d, pos) == Err(NoTerminator) <==> forall k :: pos <= k < |d| ==> d[k] != 0
    ensures ReadCstr(d, pos) == Err(NotUtf8) <==>
              exists k :: pos <= k < |d| && d[k] == 0 && (forall j :: pos <= j < k ==> d[j] != 0) && Utf8.Decode(d[pos..k]).None?
  {
    hide Utf8.Decode, Cstr, At;
    var idx := Find(d, pos, 0);
  }

  // ---------- wire images ----------

  function TypeByte(m: Message): u8 {
    match m
    case ErrorResponse(_) => 'E' as int
    case AuthenticationOk => 'R' as int
    case BackendKeyData(_, _) => 'K' as int
    case ReadyForQuery(_) => 'Z' as int
    case CommandComplete(_) => 'C' as int
    case ParameterStatus(_, _) => 'S' as int
    case EmptyQueryResponse => 'I' as int
    case RowDescription(_) => 'T' as int
    case DataRow(_) => 'D' as int
  }

  function StatusByte(s: XactStatus): u8 {
    match s
    case NotInBlock => 'I' as int
    case InBlock => 'T' as int
    case Failed => 'E' as int
  }

  function ErrField(tag: u8, v: Option<string>): seq<u8> {
    if v.None? then [] else [tag] + Cstr(v.value)
  }

  /** An absent oid or attribute number is sent as zero. */
  function OrZero(v: Option<int>): nat
    requires v.Some? ==> v.value > 0
  {
    if v.None? then 0 else v.value
  }

  function FieldTail(f: FieldDesc): seq<u8> {
    Widths();
    BigEndian(4, OrZero(f.reloid)) + BigEndian(2, OrZero(f.attnum)) + BigEndian(4, f.typoid)
      + BigEndian(2, Pattern(2, f.typlen)) + BigEndian(4, Pattern(4, f.typmod)) + BigEndian(2, 0)
  }

  function Field(f: FieldDesc): seq<u8> {
    Cstr(f.name) + FieldTail(f)
  }

  function Column(c: Option<seq<u8>>): seq<u8> {
    Widths();
    match c
    case None => BigEndian(4, Pattern(4, -1))
    case Some(v) => BigEndian(4, |v|) + v
  }

  function Body(m: Message): seq<u8> {
    match m
    case ErrorResponse(f) => ErrField('S' as int, f.severity) + (ErrField('C' as int, f.code) + (ErrField('M' as int, f.msg) + [0]))
    case AuthenticationOk => BigEndian(4, 0)
    case BackendKeyData(id, key) => BigEndian(4, id) + BigEndian(4, key)
    case ReadyForQuery(s) => [StatusByte(s)]
    case CommandComplete(tag) => Cstr(tag)
    case ParameterStatus(n, v) => Cstr(n) + Cstr(v)
    case EmptyQueryResponse => []
    case RowDescription(fs) => BigEndian(2, |fs|) + Flat(Field, fs)
    case DataRow(cs) => BigEndian(2, |cs|) + Flat(Column, cs)
  }

  /** A frame: one type byte, the length of everything after it, the body.  `BigEndian` keeps
      the low bytes only, as the `as u32` and `as u16` casts of the source do. */
  function Encode(m: Message): (b: seq<u8>)
    ensures |b| == 5 + |Body(m)|
  {
    [TypeByte(m)] + (BigEndian(4, 4 + |Body(m)|) + Body(m))
  }

  /** What a frame can carry without losing anything. */
  predicate Encodable(m: Message) {
    4 + |Body(m)| < 0x1_0000_0000 && SafeParts(m)
  }

  predicate SafeParts(m: Message) {
    match m
    case ErrorResponse(f) => OptNulFree(f.severity) && OptNulFree(f.code) && OptNulFree(f.msg)
    case CommandComplete(tag) => '\0' !in tag
    case ParameterStatus(n, v) => '\0' !in n && '\0' !in v
    case RowDescription(fs) => |fs| < 0x1_0000 && forall f :: f in fs ==> NamedSafely(f)
    case DataRow(cs) => |cs| < 0x1_0000 && forall c :: c in cs ==> ShortEnough(c)
    case _ => true
  }

  predicate OptNulFree(v: Option<string>) { v.Some? ==> '\0' !in v.value }

  predicate NamedSafely(f: FieldDesc) { '\0' !in f.name }

  predicate ShortEnough(c: Option<seq<u8>>) { c.Some? ==> |c.value| < 0x8000_0000 }

  /** The length field of every frame that fits counts everything but the type byte. */
  lemma LengthField(m: Message)
    requires 4 + |Body(m)| < 0x1_0000_0000
    ensures FromBigEndian(Encode(m)[1..5]) == |Encode(m)| - 1
  {
    hide BigEndian, FromBigEndian, Body, TypeByte, Range;
    Widths();
    ReadBack(4, 4 + |Body(m)|);
    assert Encode(m)[1..5] == BigEndian(4, 4 + |Body(m)|);
  }

  // ---------- serialisers ----------

  lemma SameLowByte(n: nat, m: nat, q: nat)
    requires n == m + q * 256
    ensures n % 256 == m % 256 && n / 256 == m / 256 + q
  {
  }

  lemma CastKeepsLowBytes(n: nat)
    ensures BigEndian(2, n % 0x1_0000) == BigEndian(2, n)
    ensures BigEndian(4, n % 0x1_0000_0000) == BigEndian(4, n)
  {
    hide BigEndian;
    var q, m := n / 0x1_0000_0000, n % 0x1_0000_0000;
    SameLowByte(n, m, q * 0x100_0000);
    SameLowByte(n / 256, m / 256, q * 0x1_0000);
    SameLowByte(n / 256 / 256, m / 256 / 256, q * 0x100);
    SameLowByte(n / 256 / 256 / 256, m / 256 / 256 / 256, q);
    FourBytes(n);
    FourBytes(m);
    var r, l := n / 0x1_0000, n % 0x1_0000;
    SameLowByte(n, l, r * 0x100);
    SameLowByte(n / 256, l / 256, r);
    TwoBytes(n);
    TwoBytes(l);
  }

  lemma TwoBytes(n: nat)
    ensures BigEndian(2, n) == [n / 256 % 256, n % 256]
  {
    assert BigEndian(2, n) == BigEndian(1, n / 256) + [n % 256];
  }

  lemma {:induction false} FourBytes(n: nat)
    ensures BigEndian(4, n) == [n / 256 / 256 / 256 % 256, n / 256 / 256 % 256, n / 256 % 256, n % 256]
  {
    var a, b, c := n / 256, n / 256 / 256, n / 256 / 256 / 256;
    assert BigEndian(1, c) == BigEndian(0, c / 256) + [c % 256];
    assert BigEndian(2, b) == BigEndian(1, c) + [b % 256];
    assert BigEndian(3, a) == BigEndian(2, b) + [a % 256];
    assert BigEndian(4, n) == BigEndian(3, a) + [n % 256];
  }

  lemma Regroup(h: seq<u8>, a: seq<u8>, b: seq<u8>, c: seq<u8>)
    ensures h + (a + b) + c == h + (a + (b + c))
  {
  }

  /** The closing step of every variable-length serialiser: five copies of the type byte
      stand in front of the body, and the length overwrites the last four. */
  method PatchLength(buf: ByteBuf, ghost m: Message)
    requires |buf.data| == 5 + |Body(m)| && buf.data[0] == TypeByte(m) && buf.data[5..] == Body(m)
    modifies buf
    ensures buf.data == Encode(m)
  {
    hide BigEndian;
    hide Body;
    var msglen := |buf.data| - 1;
    Widths();
    CastKeepsLowBytes(msglen);
    buf.SerBeAt(1, 4, msglen % 0x1_0000_0000);
    var len, rest := BigEndian(4, msglen), old(buf.data)[5..];
    assert old(buf.data)[..1] == [TypeByte(m)];
    Regroup([], [TypeByte(m)], len, rest);
  }

  method SerCstr(buf: ByteBuf, s: string)
    modifies buf
    ensures buf.data == old(buf.data) + Cstr(s)
  {
    buf.Extend(Utf8.Encode(s));
    buf.Push(0);
    assert buf.data == old(buf.data) + Cstr(s);
  }

  method WriteField(buf: ByteBuf, tag: u8, v: Option<string>)
    modifies buf
    ensures buf.data == old(buf.data) + ErrField(tag, v)
  {
    if v.Some? {
      buf.Push(tag);
      SerCstr(buf, v.value);
      assert buf.data == old(buf.data) + ErrField(tag, v);
    }
  }

  method SerializeErrmsg(fields: ErrFields, buf: ByteBuf)
    modifies buf
    ensures buf.data == Encode(ErrorResponse(fields))
  {
    hide BigEndian, ErrField;
    buf.Clear();
    buf.Resize(5, 'E' as int);
    ghost var head := buf.data;
    WriteField(buf, 'S' as int, fields.severity);
    WriteField(buf, 'C' as int, fields.code);
    WriteField(buf, 'M' as int, fields.msg);
    buf.Push(0);
    ghost var s, c, m := ErrField('S' as int, fields.severity), ErrField('C' as int, fields.code), ErrField('M' as int, fields.msg);
    Regroup(head, s, c, m);
    Regroup(head, s, c + m, [0]);
    Regroup([], c, m, [0]);
    assert buf.data == head + Body(ErrorResponse(fields));
    PatchLength(buf, ErrorResponse(fields));
  }

  method SerializeCommandComplete(tag: string, buf: ByteBuf)
    modifies buf
    ensures buf.data == Encode(CommandComplete(tag))
  {
    buf.Clear();
    buf.Resize(5, 'C' as int);
    SerCstr(buf, tag);
    PatchLength(buf, CommandComplete(tag));
  }

  method SerializeParameterStatus(name: string, value: string, buf: ByteBuf)
    modifies buf
    ensures buf.data == Encode(ParameterStatus(name, value))
  {
    buf.Clear();
    buf.Resize(5, 'S' as int);
    ghost var head := buf.data;
    SerCstr(buf, name);
    SerCstr(buf, value);
    Join(head, Cstr(name), Cstr(value));
    PatchLength(buf, ParameterStatus(name, value));
  }

  method SerializeField(f: FieldDesc, buf: ByteBuf)
    modifies buf
    ensures buf.data == old(buf.data) + Field(f)
  {
    hide BigEndian, Cstr, Pattern;
    Widths();
    var attnum := OrZero(f.attnum);
    SerCstr(buf, f.name);
    ghost var head := buf.data;
    buf.SerBe(4, OrZero(f.reloid));
    ghost var t := BigEndian(4, OrZero(f.reloid));
    t := SerMore(buf, head, t, 2, attnum);
    t := SerMore(buf, head, t, 4, f.typoid);
    t := SerMore(buf, head, t, 2, Pattern(2, f.typlen));
    t := SerMore(buf, head, t, 4, Pattern(4, f.typmod));
    t := SerMore(buf, head, t, 2, 0);
    assert t == FieldTail(f);
    assert head + t == old(buf.data) + (Cstr(f.name) + t);
  }

  method SerMore(buf: ByteBuf, ghost head: seq<u8>, ghost t: seq<u8>, w: nat, v: nat) returns (ghost r: seq<u8>)
    requires v < Range(w) && buf.data == head + t
    modifies buf
    ensures r == t + BigEndian(w, v) && buf.data == head + r
  {
    hide BigEndian, Range;
    buf.SerBe(w, v);
    r := t + BigEndian(w, v);
    assert head + t + BigEndian(w, v) == head + r;
  }

  method SerializeRowDescription(fields: seq<FieldDesc>, buf: ByteBuf)
    modifies buf
    ensures buf.data == Encode(RowDescription(fields))
  {
    hide BigEndian, Field;
    buf.Clear();
    buf.Resize(5, 'T' as int);
    ghost var head := buf.data;
    Widths();
    CastKeepsLowBytes(|fields|);
    buf.SerBe(2, |fields| % 0x1_0000);
    for k := 0 to |fields|
      invariant buf.data == head + (BigEndian(2, |fields|) + Flat(Field, fields[..k]))
    {
      SerializeField(fields[k], buf);
      assert fields[..k + 1] == fields[..k] + [fields[k]];
      FlatPush(Field, fields[..k], fields[k]);
      Regroup(head, BigEndian(2, |fields|), Flat(Field, fields[..k]), Field(fields[k]));
    }
    assert fields[..|fields|] == fields;
    PatchLength(buf, RowDescription(fields));
  }

  method SerializeDataRow(data: seq<Option<seq<u8>>>, buf: ByteBuf)
    modifies buf
    ensures buf.data == Encode(DataRow(data))
  {
    hide BigEndian;
    buf.Clear();
    buf.Resize(5, 'D' as int);
    ghost var head := buf.data;
    Widths();
    CastKeepsLowBytes(|data|);
    buf.SerBe(2, |data| % 0x1_0000);
    for k := 0 to |data|
      invariant buf.data == head + (BigEndian(2, |data|) + Flat(Column, data[..k]))
    {
      ghost var before := buf.data;
      match data[k] {
        case None =>
          buf.SerBe(4, Pattern(4, -1));
        case Some(dataval) =>
          CastKeepsLowBytes(|dataval|);
          buf.SerBe(4, |dataval| % 0x1_0000_0000);
          buf.Extend(dataval);
      }
      assert buf.data == before + Column(data[k]);
      assert data[..k + 1] == data[..k] + [data[k]];
      FlatPush(Column, data[..k], data[k]);
      Regroup(head, BigEndian(2, |data|), Flat(Column, data[..k]), Column(data[k]));
    }
    assert data[..|data|] == data;
    PatchLength(buf, DataRow(data));
  }

  /** `Message::serialize`: whatever the buffer held before, it ends up holding exactly the frame. */
  method Serialize(m: Message, buf: ByteBuf)
    modifies buf
    ensures buf.data == Encode(m)
  {
    hide BigEndian;
    Widths();
    match m {
      case ErrorResponse(fields) => SerializeErrmsg(fields, buf);
      case AuthenticationOk =>
        buf.Clear();
        buf.Push('R' as int);
        buf.SerBe(4, 8);
        buf.SerBe(4, 0);
      case BackendKeyData(id, key) =>
        buf.Clear();
        buf.Push('K' as int);
        buf.SerBe(4, 12);
        buf.SerBe(4, id);
        buf.SerBe(4, key);
      case ReadyForQuery(status) =>
        buf.Clear();
        buf.Push('Z' as int);
        buf.SerBe(4, 5);
        buf.Push(StatusByte(status));
      case CommandComplete(tag) => SerializeCommandComplete(tag, buf);
      case ParameterStatus(name, value) => SerializeParameterStatus(name, value, buf);
      case EmptyQueryResponse =>
        buf.Clear();
        buf.Push('I' as int);
        buf.SerBe(4, 4);
      case RowDescription(fields) => SerializeRowDescription(fields, buf);
      case DataRow(data) => SerializeDataRow(data, buf);
    }
  }
}
