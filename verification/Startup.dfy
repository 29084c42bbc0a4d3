/** The first packet of a session: cancel request, TLS request or start-up
    (src/protocol.rs; PostgreSQL 13 manual, section 52.7). */
module Startup {
  import opened Wrappers
  import opened Chars
  import opened ByteOrder
  import opened Messages

  // ---------- CancelRequest, SSLRequest ----------

  datatype CancelRequest = CancelRequest(sess: nat, key: nat)

  const CANCEL_CODE: seq<u8> := [0x04, 0xd2, 0x16, 0x2e]
  const SSL_CODE: seq<u8> := [0x04, 0xd2, 0x16, 0x2f]

  function DeserializeCancel(d: seq<u8>): Option<CancelRequest> {
    if |d| != 12 || d[..4] != CANCEL_CODE then None
    else Some(CancelRequest(FromBigEndian(d[4..8]), FromBigEndian(d[8..12])))
  }

  predicate IsSsl(d: seq<u8>) {
    d == SSL_CODE
  }

  function EncodeCancel(c: CancelRequest): seq<u8> {
    CANCEL_CODE + BigEndian(4, c.sess) + BigEndian(4, c.key)
  }

  lemma CancelExact(d: seq<u8>, c: CancelRequest)
    ensures DeserializeCancel(d) == Some(c) <==>
              c.sess < 0x1_0000_0000 && c.key < 0x1_0000_0000 && d == EncodeCancel(c)
  {
    hide BigEndian, FromBigEndian;
    Widths();
    if DeserializeCancel(d) == Some(c) {
      WriteBack(d[4..8]);
      WriteBack(d[8..12]);
      assert d == d[..4] + d[4..8] + d[8..12];
    }
    if c.sess < 0x1_0000_0000 && c.key < 0x1_0000_0000 && d == EncodeCancel(c) {
      ReadBack(4, c.sess);
      ReadBack(4, c.key);
      assert d[..4] == CANCEL_CODE && d[4..8] == BigEndian(4, c.sess) && d[8..12] == BigEndian(4, c.key);
    }
  }

  // ---------- StartupMessage ----------

  datatype StartupMessage = StartupMessage(majorVer: u16, minorVer: u16, username: string, params: map<string, string>) {
    /** The database defaults to the user. */
    function Database(): string {
      if DATABASE_PARAM in params then params[DATABASE_PARAM] else username
    }

    predicate CheckClientEncoding(expected: string) {
      CLIENT_ENCODING_PARAM in params ==> EqIgnoreAsciiCase(params[CLIENT_ENCODING_PARAM], expected)
    }
  }

  const USER_PARAM := "user"
  const DATABASE_PARAM := "database"
  const CLIENT_ENCODING_PARAM := "client_encoding"

  predicate EqIgnoreAsciiCase(s: string, t: string) {
    |s| == |t| && forall k :: 0 <= k < |s| ==> AsciiLower(s[k]) == AsciiLower(t[k])
  }

  type Pair = (string, string)

  /** The loop over name and value strings, up to the first empty name. */
  function ReadPairs(d: seq<u8>, pos: nat, acc: map<string, string>): (r: Result<map<string, string>, ProtoError>)
    requires pos <= |d|
    decreases |d| - pos
  {
    match ReadCstr(d, pos)
    case Err(e) => Err(e)
    case Ok((name, next)) =>
      if name == "" then Ok(acc)
      else
        match ReadCstr(d, next)
        case Err(e) => Err(e)
        case Ok((val, last)) => ReadPairs(d, last, acc[name := val])
  }

  function FromLeBytes(lo: int, hi: int): u16
    requires 0 <= lo < 0x100 && 0 <= hi < 0x100
  {
    hi * 256 + lo
  }

  function DeserializeStartup(d: seq<u8>): Result<StartupMessage, ProtoError> {
    if |d| < 4 then Err(TooShort)
    else
      match ReadPairs(d[4..], 0, map[])
      case Err(e) => Err(e)
      case Ok(params) =>
        if USER_PARAM !in params then Err(NoUser)
        else Ok(StartupMessage(FromLeBytes(d[1], d[0]), FromLeBytes(d[3], d[2]), params[USER_PARAM], params))
  }

  /** `StartupMessage::deserialize`, as the loop over a cursor that it is. */
  method Deserialize(d: seq<u8>) returns (r: Result<StartupMessage, ProtoError>)
    ensures r == DeserializeStartup(d)
  {
    if |d| < 4 {
      return Err(TooShort);
    }
    var minorVer := FromLeBytes(d[3], d[2]);
    var majorVer := FromLeBytes(d[1], d[0]);
    var data := d[4..];
    var position: nat := 0;
    var params: map<string, string> := map[];
    while true
      invariant position <= |data|
      invariant ReadPairs(data, 0, map[]) == ReadPairs(data, position, params)
      decreases |data| - position
    {
      var name := ReadCstr(data, position);
      if name.Err? {
        return Err(name.error);
      }
      position := name.value.1;
      if name.value.0 == "" {
        break;
      }
      var val := ReadCstr(data, position);
      if val.Err? {
        return Err(val.error);
      }
      position := val.value.1;
      params := params[name.value.0 := val.value.0];
    }
    if USER_PARAM !in params {
      return Err(NoUser);
    }
    return Ok(StartupMessage(majorVer, minorVer, params[USER_PARAM], params));
  }

  // ---------- what the client sends ----------

  function EncodePair(p: Pair): seq<u8> {
    Cstr(p.0) + Cstr(p.1)
  }

  predicate ValidPair(p: Pair) {
    p.0 != "" && '\0' !in p.0 && '\0' !in p.1
  }

  /** Version, pairs, an empty name, and whatever follows it. */
  function EncodeStartup(majorVer: u16, minorVer: u16, pairs: seq<Pair>, rest: seq<u8>): seq<u8> {
    BigEndian(2, majorVer) + BigEndian(2, minorVer) + (Flat(EncodePair, pairs) + (Cstr("") + rest))
  }

  ghost predicate Named(pairs: seq<Pair>, n: string) {
    exists k :: 0 <= k < |pairs| && pairs[k].0 == n
  }

  /** Pair `k` is the last one that carries the name `n`. */
  ghost predicate IsLast(pairs: seq<Pair>, k: int, n: string) {
    0 <= k < |pairs| && pairs[k].0 == n && forall l :: k < l < |pairs| ==> pairs[l].0 != n
  }

  /** The parameter map holds the names of the pairs, each with the value of its last pair. */
  ghost predicate IsLastWins(m: map<string, string>, pairs: seq<Pair>) {
    && (forall n :: n in m <==> Named(pairs, n))
    && (forall k, n :: IsLast(pairs, k, n) && n in m ==> m[n] == pairs[k].1)
  }

  function InsertAll(acc: map<string, string>, pairs: seq<Pair>): map<string, string>
    decreases |pairs|
  {
    if pairs == [] then acc else InsertAll(acc[pairs[0].0 := pairs[0].1], pairs[1..])
  }

  lemma {:induction false} InsertAllValue(acc: map<string, string>, pairs: seq<Pair>, n: string)
    ensures n in InsertAll(acc, pairs) <==> n in acc || Named(pairs, n)
    ensures !Named(pairs, n) && n in acc ==> InsertAll(acc, pairs)[n] == acc[n]
    ensures forall k :: IsLast(pairs, k, n) ==> InsertAll(acc, pairs)[n] == pairs[k].1
    decreases |pairs|
  {
    if pairs != [] {
      var acc', rest := acc[pairs[0].0 := pairs[0].1], pairs[1..];
      InsertAllValue(acc', rest, n);
      assert forall k :: 1 <= k < |pairs| ==> pairs[k] == rest[k - 1];
      assert forall k :: 0 <= k < |rest| ==> rest[k] == pairs[k + 1];
      assert Named(pairs, n) <==> pairs[0].0 == n || Named(rest, n);
      forall k | IsLast(pairs, k, n) ensures InsertAll(acc, pairs)[n] == pairs[k].1 {
        if k > 0 {
          assert IsLast(rest, k - 1, n);
        } else {
          assert !Named(rest, n);
        }
      }
    }
  }

  lemma InsertAllIsLastWins(pairs: seq<Pair>)
    ensures IsLastWins(InsertAll(map[], pairs), pairs)
  {
    hide Named, InsertAll;
    var m := InsertAll(map[], pairs);
    forall n ensures n in m <==> Named(pairs, n) {
      InsertAllValue(map[], pairs, n);
    }
    forall k, n | IsLast(pairs, k, n) && n in m ensures m[n] == pairs[k].1 {
      InsertAllValue(map[], pairs, n);
    }
  }

  lemma {:induction false} ReadPairsInverts(d: seq<u8>, pos: nat, acc: map<string, string>, pairs: seq<Pair>)
    requires forall p :: p in pairs ==> ValidPair(p)
    requires At(d, pos, Flat(EncodePair, pairs) + Cstr("")) && pos <= |d|
    ensures ReadPairs(d, pos, acc) == Ok(InsertAll(acc, pairs))
    decreases |pairs|
  {
    hide At, Cstr, ReadCstr;
    AtSplit(d, pos, Flat(EncodePair, pairs), Cstr(""));
    if pairs == [] {
      AtFits(d, pos, Cstr(""));
      ReadCstrInverts(d, pos, "");
    } else {
      var (n, v) := pairs[0];
      assert ValidPair(pairs[0]);
      assert forall p :: p in pairs[1..] ==> p in pairs;
      var rest := Flat(EncodePair, pairs[1..]);
      var at1 := pos + |Cstr(n)|;
      var at2 := at1 + |Cstr(v)|;
      AtSplit(d, pos, EncodePair(pairs[0]), rest);
      AtSplit(d, pos, Cstr(n), Cstr(v));
      AtSplit(d, at2, rest, Cstr(""));
      AtFits(d, pos, Cstr(n));
      AtFits(d, at1, Cstr(v));
      ReadCstrInverts(d, pos, n);
      ReadCstrInverts(d, at1, v);
      ReadPairsInverts(d, at2, acc[n := v], pairs[1..]);
    }
  }

  /** Only a run of well-formed pairs before an empty name is accepted. */
  lemma {:induction false} ReadPairsSound(d: seq<u8>, pos: nat, acc: map<string, string>) returns (pairs: seq<Pair>)
    requires pos <= |d| && ReadPairs(d, pos, acc).Ok?
    ensures forall p :: p in pairs ==> ValidPair(p)
    ensures At(d, pos, Flat(EncodePair, pairs) + Cstr(""))
    ensures ReadPairs(d, pos, acc) == Ok(InsertAll(acc, pairs))
    decreases |d| - pos
  {
    hide At, Cstr, ReadCstr;
    var (n, next) := ReadCstr(d, pos).value;
    if n == "" {
      pairs := [];
      AtNothing(d, pos);
      AtSplit(d, pos, [], Cstr(""));
    } else {
      var (v, last) := ReadCstr(d, next).value;
      var rest := ReadPairsSound(d, last, acc[n := v]);
      pairs := [(n, v)] + rest;
      assert pairs[1..] == rest;
      var tail := Flat(EncodePair, rest);
      AtSplit(d, pos, Cstr(n), Cstr(v));
      AtSplit(d, last, tail, Cstr(""));
      AtSplit(d, pos, EncodePair((n, v)), tail);
      AtSplit(d, pos, Flat(EncodePair, pairs), Cstr(""));
    }
  }

  lemma VersionBytes(v: u16)
    ensures BigEndian(2, v) == [v / 256, v % 256]
  {
    TwoBytes(v);
  }

  /** Decoding what a client sends gives its version and the last-wins parameters, whatever
      bytes follow the terminator. */
  lemma StartupInverts(majorVer: u16, minorVer: u16, pairs: seq<Pair>, rest: seq<u8>)
    requires forall p :: p in pairs ==> ValidPair(p)
    requires Named(pairs, USER_PARAM)
    ensures var r := DeserializeStartup(EncodeStartup(majorVer, minorVer, pairs, rest));
            && r.Ok? && r.value.majorVer == majorVer && r.value.minorVer == minorVer
            && IsLastWins(r.value.params, pairs)
            && USER_PARAM in r.value.params && r.value.username == r.value.params[USER_PARAM]
            && (!Named(pairs, DATABASE_PARAM) ==> r.value.Database() == r.value.username)
            && (forall k :: IsLast(pairs, k, DATABASE_PARAM) ==> r.value.Database() == pairs[k].1)
  {
    hide BigEndian, Cstr, ReadPairs;
    var d := EncodeStartup(majorVer, minorVer, pairs, rest);
    var e := Flat(EncodePair, pairs) + Cstr("");
    StartupLayout(majorVer, minorVer, pairs, rest);
    assert d[4..][0..|e|] == e;
    ReadPairsInverts(d[4..], 0, map[], pairs);
    InsertAllIsLastWins(pairs);
    var m := InsertAll(map[], pairs);
    assert USER_PARAM in m;
    assert FromLeBytes(majorVer % 256, majorVer / 256) == majorVer;
    assert FromLeBytes(minorVer % 256, minorVer / 256) == minorVer;
  }

  lemma StartupLayout(majorVer: u16, minorVer: u16, pairs: seq<Pair>, rest: seq<u8>)
    ensures EncodeStartup(majorVer, minorVer, pairs, rest)
            == [majorVer / 256, majorVer % 256, minorVer / 256, minorVer % 256] + (Flat(EncodePair, pairs) + Cstr("") + rest)
  {
    hide BigEndian, Cstr;
    VersionBytes(majorVer);
    VersionBytes(minorVer);
    Join(Flat(EncodePair, pairs), Cstr(""), rest);
  }

  /** Conversely, an accepted packet is such an encoding, with a user among its names. */
  lemma StartupSound(d: seq<u8>) returns (pairs: seq<Pair>, rest: seq<u8>)
    requires DeserializeStartup(d).Ok?
    ensures var m := DeserializeStartup(d).value;
            && d == EncodeStartup(m.majorVer, m.minorVer, pairs, rest)
            && IsLastWins(m.params, pairs)
    ensures forall p :: p in pairs ==> ValidPair(p)
    ensures Named(pairs, USER_PARAM)
  {
    hide BigEndian, Cstr, ReadPairs, Named, At, EncodeStartup;
    var m := DeserializeStartup(d).value;
    var tail := d[4..];
    pairs := ReadPairsSound(tail, 0, map[]);
    InsertAllIsLastWins(pairs);
    var e := Flat(EncodePair, pairs) + Cstr("");
    AtIsSlice(tail, 0, e);
    rest := tail[|e|..];
    StartupLayout(m.majorVer, m.minorVer, pairs, rest);
    assert tail == e + rest;
    assert d == [d[0], d[1], d[2], d[3]] + tail;
  }

  /** A start-up packet of any protocol version other than 1234 is neither a cancel nor a TLS
      request; version 3.0 in particular. */
  lemma StartupIsNoRequest(majorVer: u16, minorVer: u16, pairs: seq<Pair>, rest: seq<u8>)
    ensures var d := EncodeStartup(majorVer, minorVer, pairs, rest);
            majorVer != 1234 ==> DeserializeCancel(d).None? && !IsSsl(d)
    ensures BigEndian(2, 1234) == CANCEL_CODE[..2] == SSL_CODE[..2]
  {
    hide BigEndian, Cstr;
    VersionBytes(majorVer);
    VersionBytes(1234);
    var d := EncodeStartup(majorVer, minorVer, pairs, rest);
    StartupLayout(majorVer, minorVer, pairs, rest);
    assert d[..4] == [majorVer / 256, majorVer % 256, minorVer / 256, minorVer % 256];
    if majorVer != 1234 {
      assert majorVer / 256 != 4 || majorVer % 256 != 0xd2;
      assert d[..4][0] != CANCEL_CODE[0] || d[..4][1] != CANCEL_CODE[1];
      assert d[0] != SSL_CODE[0] || d[1] != SSL_CODE[1];
    }
  }

  /** The codes of the two requests: 1234 in the upper half, 5678 and 5679 in the lower. */
  lemma RequestCodes(d: seq<u8>, sess: u32, key: u32)
    ensures IsSsl(d) <==> d == BigEndian(2, 1234) + BigEndian(2, 5679)
    ensures DeserializeCancel(d) == Some(CancelRequest(sess, key))
            <==> d == BigEndian(2, 1234) + BigEndian(2, 5678) + BigEndian(4, sess) + BigEndian(4, key)
  {
    hide BigEndian, DeserializeCancel;
    TwoBytes(1234);
    TwoBytes(5678);
    TwoBytes(5679);
    CancelExact(d, CancelRequest(sess, key));
  }

  /** The packet of a client that gives its user last of all, and perhaps a database before it. */
  lemma UserAndDatabase(majorVer: u16, minorVer: u16, pairs: seq<Pair>, user: string, database: string, rest: seq<u8>)
    requires forall p :: p in pairs ==> ValidPair(p) && p.0 != "database"
    requires '\0' !in user && '\0' !in database
    ensures var r := DeserializeStartup(EncodeStartup(majorVer, minorVer, pairs + [("user", user)], rest));
            r.Ok? && r.value.username == user && r.value.Database() == user
    ensures var r := DeserializeStartup(EncodeStartup(majorVer, minorVer, pairs + [("database", database), ("user", user)], rest));
            r.Ok? && r.value.username == user && r.value.Database() == database
  {
    hide EncodeStartup, DeserializeStartup, InsertAll;
    var ps, qs := pairs + [("user", user)], pairs + [("database", database), ("user", user)];
    var n, m := |pairs|, |pairs| + 1;
    assert ps[n] == ("user", user) && qs[n] == ("database", database) && qs[m] == ("user", user);
    assert IsLast(ps, n, USER_PARAM) && IsLast(qs, m, USER_PARAM) && IsLast(qs, n, DATABASE_PARAM);
    assert Named(ps, USER_PARAM) && Named(qs, USER_PARAM) && Named(qs, DATABASE_PARAM);
    forall k | 0 <= k < |ps| ensures ps[k].0 != DATABASE_PARAM {
      if k < n {
        assert ps[k] in pairs;
      }
    }
    assert !Named(ps, DATABASE_PARAM);
    StartupInverts(majorVer, minorVer, ps, rest);
    StartupInverts(majorVer, minorVer, qs, rest);
  }

  /** The one complaint about a well-formed packet is that it names no user; a packet too short for
      a version is told apart. */
  lemma Complaints(majorVer: u16, minorVer: u16, pairs: seq<Pair>, rest: seq<u8>, d: seq<u8>)
    requires forall p :: p in pairs ==> ValidPair(p) && p.0 != "user"
    ensures DeserializeStartup(EncodeStartup(majorVer, minorVer, pairs, rest)) == Err(NoUser)
    ensures DeserializeStartup(d) == Err(TooShort) <==> |d| < 4
  {
    hide BigEndian, Cstr, ReadPairs, Named;
    var p := EncodeStartup(majorVer, minorVer, pairs, rest);
    var e := Flat(EncodePair, pairs) + Cstr("");
    StartupLayout(majorVer, minorVer, pairs, rest);
    assert p[4..][0..|e|] == e;
    ReadPairsInverts(p[4..], 0, map[], pairs);
    InsertAllIsLastWins(pairs);
    assert !Named(pairs, USER_PARAM) by { NobodyNamed(pairs); }
    if |d| >= 4 && DeserializeStartup(d).Err? {
      ReadPairsError(d[4..], 0, map[]);
    }
  }

  lemma NobodyNamed(pairs: seq<Pair>)
    requires forall p :: p in pairs ==> p.0 != "user"
    ensures !Named(pairs, USER_PARAM)
  {
    forall k | 0 <= k < |pairs| ensures pairs[k].0 != USER_PARAM {
      assert pairs[k] in pairs;
    }
  }

  lemma {:induction false} ReadPairsError(d: seq<u8>, pos: nat, acc: map<string, string>)
    requires pos <= |d|
    ensures ReadPairs(d, pos, acc).Err? ==> ReadPairs(d, pos, acc).error in {NoTerminator, NotUtf8}
    decreases |d| - pos
  {
    hide Cstr, At;
    var r := ReadCstr(d, pos);
    if r.Ok? && r.value.0 != "" {
      var v := ReadCstr(d, r.value.1);
      if v.Ok? {
        ReadPairsError(d, v.value.1, acc[r.value.0 := v.value.0]);
      }
    }
  }
}
