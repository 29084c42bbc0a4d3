/** A decoder for the backend frames, and the proof that it and the serialisers
    undo each other, on one frame and on a whole stream of them. */
module MessageDecoder {
  import opened Wrappers
  import opened ByteOrder
  import opened Messages

  datatype Parsed<+T> = Bad | Good(value: T, next: nat)

  function ReadUint(b: seq<u8>, i: nat, w: nat): (r: Parsed<nat>) {
    if i + w > |b| then Bad else Good(FromBigEndian(b[i..i + w]), i + w)
  }

  lemma ReadUintSound(b: seq<u8>, i: nat, w: nat)
    requires ReadUint(b, i, w).Good?
    ensures var v := ReadUint(b, i, w).value;
            v < Range(w) && At(b, i, BigEndian(w, v)) && ReadUint(b, i, w).next == i + w <= |b|
  {
    hide BigEndian, FromBigEndian, Range;
    var x := b[i..i + w];
    assert |x| == w;
    WriteBack(x);
  }

  lemma ReadsSomewhere(b: seq<u8>, i: nat, w: nat)
    requires i + w <= |b|
    ensures ReadUint(b, i, w).Good?
    ensures var v := ReadUint(b, i, w).value;
            v < Range(w) && At(b, i, BigEndian(w, v))
  {
    hide BigEndian, Range, At;
    ReadUintSound(b, i, w);
  }

  lemma ReadUintInverts(b: seq<u8>, i: nat, w: nat, v: nat)
    requires v < Range(w) && At(b, i, BigEndian(w, v))
    ensures ReadUint(b, i, w) == Good(v, i + w)
  {
    ReadBack(w, v);
  }

  function ReadString(b: seq<u8>, i: nat): (r: Parsed<string>)
    ensures r.Good? ==> '\0' !in r.value && At(b, i, Cstr(r.value)) && r.next == i + |Cstr(r.value)|
  {
    if i > |b| then Bad
    else
      match ReadCstr(b, i)
      case Err(_) => Bad
      case Ok((s, next)) => Good(s, next)
  }

  /** An error field is there exactly when its tag is. */
  function ReadErrField(b: seq<u8>, i: nat, tag: u8): Parsed<Option<string>> {
    if i >= |b| then Bad
    else if b[i] != tag then Good(None, i)
    else
      match ReadString(b, i + 1)
      case Bad => Bad
      case Good(s, next) => Good(Some(s), next)
  }

  lemma ReadErrFieldSound(b: seq<u8>, i: nat, tag: u8)
    requires ReadErrField(b, i, tag).Good?
    ensures var v := ReadErrField(b, i, tag).value;
            OptNulFree(v) && At(b, i, ErrField(tag, v)) && ReadErrField(b, i, tag).next == i + |ErrField(tag, v)|
  {
    hide At, Cstr, ReadString;
    match ReadErrField(b, i, tag).value
    case None => AtNothing(b, i);
    case Some(s) =>
      AtByte(b, i, tag);
      AtSplit(b, i, [tag], Cstr(s));
  }

  lemma ReadErrFieldInverts(b: seq<u8>, i: nat, tag: u8, v: Option<string>)
    requires OptNulFree(v) && At(b, i, ErrField(tag, v))
    requires v.None? ==> i < |b| && b[i] != tag
    ensures ReadErrField(b, i, tag) == Good(v, i + |ErrField(tag, v)|)
  {
    hide At, Cstr, ReadCstr;
    match v
    case None =>
    case Some(s) =>
      AtSplit(b, i, [tag], Cstr(s));
      AtByte(b, i, tag);
      AtFits(b, i + 1, Cstr(s));
      ReadCstrInverts(b, i + 1, s);
  }

  lemma FirstByte(b: seq<u8>, i: nat, tag: u8, v: Option<string>)
    requires At(b, i, ErrField(tag, v))
    ensures if v.None? then |ErrField(tag, v)| == 0 else i < |b| && b[i] == tag
  {
    if v.Some? {
      AtSplit(b, i, [tag], Cstr(v.value));
      AtByte(b, i, tag);
    }
  }

  lemma ErrFieldsSplit(b: seq<u8>, i: nat, f: ErrFields)
    ensures var i1 := i + |ErrField('S' as int, f.severity)|;
            var i2 := i1 + |ErrField('C' as int, f.code)|;
            var i3 := i2 + |ErrField('M' as int, f.msg)|;
            && |Body(ErrorResponse(f))| == i3 + 1 - i
            && (At(b, i, Body(ErrorResponse(f))) <==>
                  At(b, i, ErrField('S' as int, f.severity)) && At(b, i1, ErrField('C' as int, f.code))
                  && At(b, i2, ErrField('M' as int, f.msg)) && At(b, i3, [0]))
  {
    hide ErrField, At;
    var z: seq<u8> := [0];
    var s, c, m := ErrField('S' as int, f.severity), ErrField('C' as int, f.code), ErrField('M' as int, f.msg);
    AtSplit(b, i + |s| + |c|, m, z);
    AtSplit(b, i + |s|, c, m + z);
    AtSplit(b, i, s, c + (m + z));
  }

  function ReadErrFields(b: seq<u8>, i: nat): Parsed<ErrFields> {
    var s := ReadErrField(b, i, 'S' as int);
    if s.Bad? then Bad
    else
      var c := ReadErrField(b, s.next, 'C' as int);
      if c.Bad? then Bad
      else
        var m := ReadErrField(b, c.next, 'M' as int);
        if m.Bad? || m.next >= |b| || b[m.next] != 0 then Bad
        else Good(ErrFields(s.value, c.value, m.value), m.next + 1)
  }

  lemma ReadErrFieldsSound(b: seq<u8>, i: nat)
    requires ReadErrFields(b, i).Good?
    ensures var f := ReadErrFields(b, i).value;
            && OptNulFree(f.severity) && OptNulFree(f.code) && OptNulFree(f.msg)
            && At(b, i, Body(ErrorResponse(f))) && ReadErrFields(b, i).next == i + |Body(ErrorResponse(f))|
  {
    hide ErrField, Body, At, ReadErrField;
    var f := ReadErrFields(b, i).value;
    ReadErrFieldSound(b, i, 'S' as int);
    ReadErrFieldSound(b, ReadErrField(b, i, 'S' as int).next, 'C' as int);
    ReadErrFieldSound(b, ReadErrField(b, ReadErrField(b, i, 'S' as int).next, 'C' as int).next, 'M' as int);
    AtByte(b, ReadErrFields(b, i).next - 1, 0);
    ErrFieldsSplit(b, i, f);
  }

  lemma ReadErrFieldsInverts(b: seq<u8>, i: nat, f: ErrFields)
    requires OptNulFree(f.severity) && OptNulFree(f.code) && OptNulFree(f.msg)
    requires At(b, i, Body(ErrorResponse(f)))
    ensures ReadErrFields(b, i) == Good(f, i + |Body(ErrorResponse(f))|)
  {
    hide Body, At, ReadErrField;
    var tagS: u8, tagC: u8, tagM: u8 := 'S' as int, 'C' as int, 'M' as int;
    ErrFieldsSplit(b, i, f);
    var i1 := i + |ErrField(tagS, f.severity)|;
    var i2 := i1 + |ErrField(tagC, f.code)|;
    var i3 := i2 + |ErrField(tagM, f.msg)|;
    AtByte(b, i3, 0);
    FirstByte(b, i2, tagM, f.msg);
    FirstByte(b, i1, tagC, f.code);
    ReadErrFieldInverts(b, i2, tagM, f.msg);
    ReadErrFieldInverts(b, i1, tagC, f.code);
    ReadErrFieldInverts(b, i, tagS, f.severity);
  }

  // ---------- repeated parts ----------

  function ReadMany<T>(dec: (seq<u8>, nat) -> Parsed<T>, b: seq<u8>, i: nat, n: nat): Parsed<seq<T>>
    decreases n
  {
    if n == 0 then Good([], i)
    else
      match dec(b, i)
      case Bad => Bad
      case Good(x, next) =>
        match ReadMany(dec, b, next, n - 1)
        case Bad => Bad
        case Good(xs, last) => Good([x] + xs, last)
  }

  lemma {:induction false} ReadManyInverts<T(!new)>(enc: T -> seq<u8>, dec: (seq<u8>, nat) -> Parsed<T>, b: seq<u8>, i: nat, xs: seq<T>)
    requires forall x, j: nat :: x in xs && At(b, j, enc(x)) ==> dec(b, j) == Good(x, j + |enc(x)|)
    requires i <= |b| && At(b, i, Flat(enc, xs))
    ensures ReadMany(dec, b, i, |xs|) == Good(xs, i + |Flat(enc, xs)|)
    decreases |xs|
  {
    hide At, Flat;
    FlatFront(enc, xs);
    if xs != [] {
      AtSplit(b, i, enc(xs[0]), Flat(enc, xs[1..]));
      AtFits(b, i, enc(xs[0]));
      assert xs[0] in xs && forall x :: x in xs[1..] ==> x in xs;
      ReadManyInverts(enc, dec, b, i + |enc(xs[0])|, xs[1..]);
      assert xs == [xs[0]] + xs[1..];
    }
  }

  lemma {:induction false} ReadManySound<T(!new)>(enc: T -> seq<u8>, dec: (seq<u8>, nat) -> Parsed<T>, p: T -> bool, b: seq<u8>, i: nat, n: nat)
    requires forall j: nat :: dec(b, j).Good? ==>
               var x := dec(b, j).value; p(x) && At(b, j, enc(x)) && dec(b, j).next == j + |enc(x)|
    requires i <= |b| && ReadMany(dec, b, i, n).Good?
    ensures var xs := ReadMany(dec, b, i, n).value;
            |xs| == n && At(b, i, Flat(enc, xs)) && ReadMany(dec, b, i, n).next == i + |Flat(enc, xs)|
            && forall x :: x in xs ==> p(x)
    decreases n
  {
    hide At, Flat;
    if n > 0 {
      var x := dec(b, i).value;
      var next := dec(b, i).next;
      AtFits(b, i, enc(x));
      ReadManySound(enc, dec, p, b, next, n - 1);
      var xs := ReadMany(dec, b, next, n - 1).value;
      FlatCons(enc, x, xs);
      AtSplit(b, i, enc(x), Flat(enc, xs));
    } else {
      AtNothing(b, i);
      FlatFront(enc, ReadMany(dec, b, i, n).value);
    }
  }

  function Present(v: nat): (r: Option<int>)
    ensures r.Some? ==> r.value == v > 0
    ensures OrZero(r) == v
  {
    if v == 0 then None else Some(v)
  }

  function ReadFieldTail(b: seq<u8>, i: nat, name: string): Parsed<FieldDesc> {
    if i + 18 > |b| then Bad
    else
      Widths();
      var typoid := ReadUint(b, i + 6, 4).value;
      if typoid == 0 || ReadUint(b, i + 16, 2).value != 0 then Bad
      else
        Good(FieldDesc(name, Present(ReadUint(b, i, 4).value), typoid, Signed(4, ReadUint(b, i + 12, 4).value),
                       Present(ReadUint(b, i + 4, 2).value), Signed(2, ReadUint(b, i + 10, 2).value), Text), i + 18)
  }

  lemma ReadFieldTailSound(b: seq<u8>, i: nat, name: string)
    requires ReadFieldTail(b, i, name).Good?
    ensures var f := ReadFieldTail(b, i, name).value;
            f.name == name && At(b, i, FieldTail(f)) && ReadFieldTail(b, i, name).next == i + |FieldTail(f)|
  {
    hide BigEndian, At, ReadUint, Signed, Pattern, FieldTail;
    Widths();
    var f := ReadFieldTail(b, i, name).value;
    ReadsSomewhere(b, i, 4);
    ReadsSomewhere(b, i + 4, 2);
    ReadsSomewhere(b, i + 6, 4);
    ReadsSomewhere(b, i + 10, 2);
    ReadsSomewhere(b, i + 12, 4);
    ReadsSomewhere(b, i + 16, 2);
    PatternOfSigned(2, ReadUint(b, i + 10, 2).value);
    PatternOfSigned(4, ReadUint(b, i + 12, 4).value);
    TailSplits(b, i, f);
  }

  lemma TailSplits(b: seq<u8>, i: nat, f: FieldDesc)
    ensures Range(2) == 0x1_0000 && Range(4) == 0x1_0000_0000
    ensures At(b, i, FieldTail(f)) <==>
              At(b, i, BigEndian(4, OrZero(f.reloid))) && At(b, i + 4, BigEndian(2, OrZero(f.attnum)))
              && At(b, i + 6, BigEndian(4, f.typoid)) && At(b, i + 10, BigEndian(2, Pattern(2, f.typlen)))
              && At(b, i + 12, BigEndian(4, Pattern(4, f.typmod))) && At(b, i + 16, BigEndian(2, 0))
    ensures |FieldTail(f)| == 18
  {
    hide BigEndian, At, Pattern, OrZero;
    Widths();
    var t0 := BigEndian(4, OrZero(f.reloid));
    var t1 := t0 + BigEndian(2, OrZero(f.attnum));
    var t2 := t1 + BigEndian(4, f.typoid);
    var t3 := t2 + BigEndian(2, Pattern(2, f.typlen));
    var t4 := t3 + BigEndian(4, Pattern(4, f.typmod));
    AtSplit(b, i, t4, BigEndian(2, 0));
    AtSplit(b, i, t3, BigEndian(4, Pattern(4, f.typmod)));
    AtSplit(b, i, t2, BigEndian(2, Pattern(2, f.typlen)));
    AtSplit(b, i, t1, BigEndian(4, f.typoid));
    AtSplit(b, i, t0, BigEndian(2, OrZero(f.attnum)));
  }

  function ReadField(b: seq<u8>, i: nat): Parsed<FieldDesc> {
    match ReadString(b, i)
    case Bad => Bad
    case Good(name, next) => ReadFieldTail(b, next, name)
  }

  lemma ReadFieldSound(b: seq<u8>, i: nat)
    requires ReadField(b, i).Good?
    ensures var f := ReadField(b, i).value;
            NamedSafely(f) && At(b, i, Field(f)) && ReadField(b, i).next == i + |Field(f)|
  {
    hide At, Cstr, ReadString, ReadFieldTail, FieldTail;
    var name := ReadString(b, i);
    ReadFieldTailSound(b, name.next, name.value);
    AtSplit(b, i, Cstr(name.value), FieldTail(ReadField(b, i).value));
  }

  lemma ReadFieldTailInverts(b: seq<u8>, j: nat, f: FieldDesc)
    requires At(b, j, FieldTail(f))
    ensures ReadFieldTail(b, j, f.name) == Good(f, j + |FieldTail(f)|)
  {
    hide BigEndian, At, Signed, Pattern, ReadUint;
    Widths();
    SignedOfPattern(2, f.typlen);
    SignedOfPattern(4, f.typmod);
    TailSplits(b, j, f);
    ReadUintInverts(b, j, 4, OrZero(f.reloid));
    ReadUintInverts(b, j + 4, 2, OrZero(f.attnum));
    ReadUintInverts(b, j + 6, 4, f.typoid);
    ReadUintInverts(b, j + 10, 2, Pattern(2, f.typlen));
    ReadUintInverts(b, j + 12, 4, Pattern(4, f.typmod));
    ReadUintInverts(b, j + 16, 2, 0);
    AtFits(b, j + 16, BigEndian(2, 0));
    assert Present(OrZero(f.reloid)) == f.reloid && Present(OrZero(f.attnum)) == f.attnum;
    assert f.format == Text;
  }

  lemma ReadFieldInverts(b: seq<u8>, i: nat, f: FieldDesc)
    requires NamedSafely(f) && At(b, i, Field(f))
    ensures ReadField(b, i) == Good(f, i + |Field(f)|)
  {
    hide FieldTail, Cstr, At, ReadFieldTail, ReadCstr;
    AtSplit(b, i, Cstr(f.name), FieldTail(f));
    AtFits(b, i, Cstr(f.name));
    ReadCstrInverts(b, i, f.name);
    ReadFieldTailInverts(b, i + |Cstr(f.name)|, f);
  }

  function ReadColumn(b: seq<u8>, i: nat): Parsed<Option<seq<u8>>> {
    match ReadUint(b, i, 4)
    case Bad => Bad
    case Good(n, next) =>
      if n == 0xFFFF_FFFF then Good(None, next)
      else if n >= 0x8000_0000 || next + n > |b| then Bad
      else Good(Some(b[next..next + n]), next + n)
  }

  lemma ReadColumnSound(b: seq<u8>, i: nat)
    requires ReadColumn(b, i).Good?
    ensures var c := ReadColumn(b, i).value;
            ShortEnough(c) && At(b, i, Column(c)) && ReadColumn(b, i).next == i + |Column(c)|
  {
    hide BigEndian, At, ReadUint;
    Widths();
    ReadUintSound(b, i, 4);
    match ReadColumn(b, i).value
    case None =>
    case Some(v) =>
      AtSlice(b, i + 4, i + 4 + |v|);
      AtSplit(b, i, BigEndian(4, |v|), v);
  }

  lemma ReadColumnInverts(b: seq<u8>, i: nat, c: Option<seq<u8>>)
    requires ShortEnough(c) && At(b, i, Column(c))
    ensures ReadColumn(b, i) == Good(c, i + |Column(c)|)
  {
    hide BigEndian;
    Widths();
    match c
    case None =>
      ReadUintInverts(b, i, 4, Pattern(4, -1));
    case Some(v) =>
      AtSplit(b, i, BigEndian(4, |v|), v);
      ReadUintInverts(b, i, 4, |v|);
  }

  // ---------- whole frames ----------

  function StatusOf(x: u8): Option<XactStatus> {
    if x == 'I' as int then Some(NotInBlock)
    else if x == 'T' as int then Some(InBlock)
    else if x == 'E' as int then Some(Failed)
    else None
  }

  function Lift<T, U>(p: Parsed<T>, f: T -> U): Parsed<U> {
    match p
    case Bad => Bad
    case Good(x, next) => Good(f(x), next)
  }

  function ReadCounted<T>(dec: (seq<u8>, nat) -> Parsed<T>, b: seq<u8>, i: nat): Parsed<seq<T>> {
    match ReadUint(b, i, 2)
    case Bad => Bad
    case Good(n, next) => ReadMany(dec, b, next, n)
  }

  lemma ReadCountedSound<T(!new)>(enc: T -> seq<u8>, dec: (seq<u8>, nat) -> Parsed<T>, p: T -> bool, b: seq<u8>, i: nat)
    requires forall j: nat :: dec(b, j).Good? ==>
               var x := dec(b, j).value; p(x) && At(b, j, enc(x)) && dec(b, j).next == j + |enc(x)|
    requires ReadCounted(dec, b, i).Good?
    ensures var xs := ReadCounted(dec, b, i).value;
            var e := BigEndian(2, |xs|) + Flat(enc, xs);
            |xs| < 0x1_0000 && At(b, i, e) && ReadCounted(dec, b, i).next == i + |e| && forall x :: x in xs ==> p(x)
  {
    hide BigEndian, At;
    Widths();
    ReadUintSound(b, i, 2);
    var n := ReadUint(b, i, 2).value;
    AtFits(b, i, BigEndian(2, n));
    ReadManySound(enc, dec, p, b, i + 2, n);
    AtSplit(b, i, BigEndian(2, n), Flat(enc, ReadCounted(dec, b, i).value));
  }

  lemma ReadCountedInverts<T(!new)>(enc: T -> seq<u8>, dec: (seq<u8>, nat) -> Parsed<T>, b: seq<u8>, i: nat, xs: seq<T>)
    requires forall x, j: nat :: x in xs && At(b, j, enc(x)) ==> dec(b, j) == Good(x, j + |enc(x)|)
    requires |xs| < 0x1_0000 && At(b, i, BigEndian(2, |xs|) + Flat(enc, xs))
    ensures ReadCounted(dec, b, i) == Good(xs, i + 2 + |Flat(enc, xs)|)
  {
    hide BigEndian, At;
    Widths();
    AtSplit(b, i, BigEndian(2, |xs|), Flat(enc, xs));
    AtFits(b, i, BigEndian(2, |xs|));
    ReadUintInverts(b, i, 2, |xs|);
    ReadManyInverts(enc, dec, b, i + 2, xs);
  }

  function KeyData(id: nat, key: nat, next: nat): Parsed<Message> {
    if id < 0x1_0000_0000 && key < 0x1_0000_0000 then Good(BackendKeyData(id, key), next) else Bad
  }

  function ReadBody(b: seq<u8>, i: nat, t: u8): Parsed<Message> {
    if t == 'E' as int then Lift(ReadErrFields(b, i), f => ErrorResponse(f))
    else if t == 'R' as int then
      var r := ReadUint(b, i, 4);
      if r.Good? && r.value == 0 then Good(AuthenticationOk, r.next) else Bad
    else if t == 'K' as int then
      var r := ReadUint(b, i, 4);
      if r.Bad? then Bad
      else
        var k := ReadUint(b, r.next, 4);
        if k.Bad? then Bad else KeyData(r.value, k.value, k.next)
    else if t == 'Z' as int then
      if i < |b| && StatusOf(b[i]).Some? then Good(ReadyForQuery(StatusOf(b[i]).value), i + 1) else Bad
    else if t == 'C' as int then Lift(ReadString(b, i), s => CommandComplete(s))
    else if t == 'S' as int then
      var n := ReadString(b, i);
      if n.Bad? then Bad else Lift(ReadString(b, n.next), v => ParameterStatus(n.value, v))
    else if t == 'I' as int then Good(EmptyQueryResponse, i)
    else if t == 'T' as int then Lift(ReadCounted(ReadField, b, i), fs => RowDescription(fs))
    else if t == 'D' as int then Lift(ReadCounted(ReadColumn, b, i), cs => DataRow(cs))
    else Bad
  }

  lemma ReadBodySound(b: seq<u8>, i: nat, t: u8)
    requires i <= |b| && ReadBody(b, i, t).Good?
    ensures var m := ReadBody(b, i, t).value;
            TypeByte(m) == t && SafeParts(m) && At(b, i, Body(m)) && ReadBody(b, i, t).next == i + |Body(m)|
  {
    hide BigEndian, Cstr, ErrField, ReadUint, ReadString, ReadErrFields, ReadCounted, At, Field, Column, ReadField, ReadColumn;
    match ReadBody(b, i, t).value {
      case ErrorResponse(f) => ReadErrFieldsSound(b, i);
      case AuthenticationOk => ReadUintSound(b, i, 4);
      case BackendKeyData(id, key) =>
        ReadUintSound(b, i, 4);
        ReadUintSound(b, i + 4, 4);
        AtSplit(b, i, BigEndian(4, id), BigEndian(4, key));
      case ReadyForQuery(s) => AtByte(b, i, StatusByte(s));
      case CommandComplete(tag) =>
      case ParameterStatus(n, v) => AtSplit(b, i, Cstr(n), Cstr(v));
      case EmptyQueryResponse => assert b[i..i] == []; AtSplit(b, i, [], []); AtNothing(b, i);
      case RowDescription(fs) =>
        forall j: nat | ReadField(b, j).Good?
          ensures var f := ReadField(b, j).value;
                  NamedSafely(f) && At(b, j, Field(f)) && ReadField(b, j).next == j + |Field(f)|
        {
          ReadFieldSound(b, j);
        }
        ReadCountedSound(Field, ReadField, NamedSafely, b, i);
      case DataRow(cs) =>
        forall j: nat | ReadColumn(b, j).Good?
          ensures var c := ReadColumn(b, j).value;
                  ShortEnough(c) && At(b, j, Column(c)) && ReadColumn(b, j).next == j + |Column(c)|
        {
          ReadColumnSound(b, j);
        }
        ReadCountedSound(Column, ReadColumn, ShortEnough, b, i);
    }
  }

  lemma ReadBodyInverts(b: seq<u8>, i: nat, m: Message)
    requires SafeParts(m) && At(b, i, Body(m))
    ensures ReadBody(b, i, TypeByte(m)) == Good(m, i + |Body(m)|)
  {
    hide BigEndian, Cstr, ErrField, ReadUint, ReadErrFields, ReadCounted, ReadCstr, At, Field, Column, ReadField, ReadColumn;
    Widths();
    match m {
      case ErrorResponse(f) => ReadErrFieldsInverts(b, i, f);
      case AuthenticationOk => ReadUintInverts(b, i, 4, 0);
      case BackendKeyData(id, key) =>
        AtSplit(b, i, BigEndian(4, id), BigEndian(4, key));
        ReadUintInverts(b, i, 4, id);
        ReadUintInverts(b, i + 4, 4, key);
      case ReadyForQuery(s) => AtByte(b, i, StatusByte(s));
      case CommandComplete(tag) =>
        AtFits(b, i, Cstr(tag));
        ReadCstrInverts(b, i, tag);
      case ParameterStatus(n, v) =>
        AtSplit(b, i, Cstr(n), Cstr(v));
        AtFits(b, i, Cstr(n));
        AtFits(b, i + |Cstr(n)|, Cstr(v));
        ReadCstrInverts(b, i, n);
        ReadCstrInverts(b, i + |Cstr(n)|, v);
      case EmptyQueryResponse =>
      case RowDescription(fs) =>
        forall f, j: nat | f in fs && At(b, j, Field(f)) ensures ReadField(b, j) == Good(f, j + |Field(f)|) {
          ReadFieldInverts(b, j, f);
        }
        ReadCountedInverts(Field, ReadField, b, i, fs);
      case DataRow(cs) =>
        forall c, j: nat | c in cs && At(b, j, Column(c)) ensures ReadColumn(b, j) == Good(c, j + |Column(c)|) {
          ReadColumnInverts(b, j, c);
        }
        ReadCountedInverts(Column, ReadColumn, b, i, cs);
    }
  }

  /** One frame: type byte, length, and a body that ends where the length says. */
  function DecodeAt(b: seq<u8>, i: nat): Parsed<Message> {
    if i + 5 > |b| then Bad
    else
      var r := ReadBody(b, i + 5, b[i]);
      if r.Good? && FromBigEndian(b[i + 1..i + 5]) == r.next - i - 1 then r else Bad
  }

  /** The decoder inverts the encoder exactly: it accepts the images of the encodable
      messages and nothing else, and gives each message back. */
  lemma DecodeAtExact(b: seq<u8>, i: nat, m: Message, next: nat)
    ensures DecodeAt(b, i) == Good(m, next) <==> Encodable(m) && At(b, i, Encode(m)) && next == i + |Encode(m)|
  {
    hide BigEndian, At, ReadBody, Body;
    Widths();
    var len, body := BigEndian(4, 4 + |Body(m)|), Body(m);
    AtSplit(b, i, [TypeByte(m)], len + body);
    AtSplit(b, i + 1, len, body);
    AtByte(b, i, TypeByte(m));
    if DecodeAt(b, i) == Good(m, next) {
      ReadBodySound(b, i + 5, b[i]);
      WriteBack(b[i + 1..i + 5]);
      AtSlice(b, i + 1, i + 5);
    }
    if Encodable(m) && At(b, i, Encode(m)) {
      AtFits(b, i + 5, body);
      AtIsSlice(b, i + 1, len);
      ReadBack(4, 4 + |body|);
      ReadBodyInverts(b, i + 5, m);
    }
  }

  /** A message survives the wire exactly when a frame can carry it. */
  lemma RoundTripIffEncodable(m: Message)
    ensures DecodeAt(Encode(m), 0) == Good(m, |Encode(m)|) <==> Encodable(m)
  {
    hide Encode, DecodeAt, Encodable;
    DecodeAtExact(Encode(m), 0, m, |Encode(m)|);
    assert Encode(m)[0..|Encode(m)|] == Encode(m);
  }

  // ---------- streams ----------

  function DecodeStream(b: seq<u8>, i: nat): Option<seq<Message>>
    decreases |b| - i
  {
    if i >= |b| then Some([])
    else
      match DecodeAt(b, i)
      case Bad => None
      case Good(m, next) =>
        if next <= i then None
        else
          match DecodeStream(b, next)
          case None => None
          case Some(ms) => Some([m] + ms)
  }

  lemma StreamStep(b: seq<u8>, i: nat)
    requires i < |b|
    ensures DecodeStream(b, i)
            == match DecodeAt(b, i)
               case Bad => None
               case Good(m, next) =>
                 if next > i && DecodeStream(b, next).Some? then Some([m] + DecodeStream(b, next).value) else None
  {
    hide DecodeAt;
  }

  lemma StreamEnd(b: seq<u8>, i: nat)
    requires i >= |b|
    ensures DecodeStream(b, i) == Some([])
  {
  }

  predicate AllEncodable(ms: seq<Message>) {
    forall m :: m in ms ==> Encodable(m)
  }

  lemma EncodableCons(m: Message, ms: seq<Message>)
    ensures AllEncodable([m] + ms) <==> Encodable(m) && AllEncodable(ms)
  {
    hide Encodable;
    assert forall x :: x in [m] + ms <==> x == m || x in ms;
  }

  lemma {:induction false} StreamSound(b: seq<u8>, i: nat)
    requires i <= |b| && DecodeStream(b, i).Some?
    ensures var ms := DecodeStream(b, i).value;
            AllEncodable(ms) && At(b, i, Flat(Encode, ms)) && i + |Flat(Encode, ms)| == |b|
    decreases |b| - i
  {
    hide At, DecodeAt, DecodeStream, Encodable, Encode, Flat;
    if i == |b| {
      StreamEnd(b, i);
      AtNothing(b, i);
      FlatFront(Encode, []);
    } else {
      hide AllEncodable;
      StreamStep(b, i);
      var m, next := DecodeAt(b, i).value, DecodeAt(b, i).next;
      DecodeAtExact(b, i, m, next);
      AtFits(b, i, Encode(m));
      StreamSound(b, next);
      var rest := DecodeStream(b, next).value;
      FlatCons(Encode, m, rest);
      EncodableCons(m, rest);
      AtSplit(b, i, Encode(m), Flat(Encode, rest));
    }
  }

  lemma {:induction false} StreamInverts(b: seq<u8>, i: nat, ms: seq<Message>)
    requires AllEncodable(ms) && At(b, i, Flat(Encode, ms)) && i + |Flat(Encode, ms)| == |b|
    ensures DecodeStream(b, i) == Some(ms)
    decreases |ms|
  {
    hide At, DecodeAt, DecodeStream, AllEncodable, Encodable, Encode, Flat;
    if ms == [] {
      FlatFront(Encode, ms);
      StreamEnd(b, i);
    } else {
      var m, rest := ms[0], ms[1..];
      assert ms == [m] + rest;
      FlatCons(Encode, m, rest);
      EncodableCons(m, rest);
      AtSplit(b, i, Encode(m), Flat(Encode, rest));
      var next := i + |Encode(m)|;
      DecodeAtExact(b, i, m, next);
      StreamStep(b, i);
      StreamInverts(b, next, rest);
    }
  }

  /** A byte stream splits into one message sequence at most, and it is the sequence that was sent. */
  lemma StreamExact(b: seq<u8>, ms: seq<Message>)
    ensures DecodeStream(b, 0) == Some(ms) <==> AllEncodable(ms) && b == Flat(Encode, ms)
  {
    hide Encode, DecodeAt, DecodeStream, Encodable, AllEncodable, Flat;
    var whole := Flat(Encode, ms);
    assert b[0..|b|] == b;
    if DecodeStream(b, 0).Some? {
      StreamSound(b, 0);
    }
    if b == whole && AllEncodable(ms) {
      StreamInverts(b, 0, ms);
    }
  }
}
