/** What every session's output looks like: the trace grammar of the start-up and
    simple-query flows (PostgreSQL 13 manual, sections 52.2.1 and 52.2.2). */
module SessionTraces {
  import opened Wrappers
  import opened ByteOrder
  import Utf8
  import opened Messages
  import opened Framing
  import Startup
  import opened GucStates
  import MessageDecoder
  import opened Session

  // ---------- the grammar ----------

  /** `Z (C Z)*` with `n` completed queries. */
  function Rounds(n: nat): seq<Event> {
    if n == 0 then [READY] else [READY, DONE] + Rounds(n - 1)
  }

  /** A parse of a trace: what a rejected, and what a served client is sent. */
  datatype Shape =
    | Rejected(ssl: bool, error: SessionError)
    | Served(ssl: bool, queries: nat, failure: Option<SessionError>)

  function Ssl(ssl: bool): seq<Event> {
    if ssl then [RefuseSsl] else []
  }

  /** `N? (E | R S* K Z (C Z)* E?)`. */
  function Word(s: Server, shape: Shape): seq<Event>
    requires ValidServer(s)
  {
    match shape
    case Rejected(ssl, error) => Ssl(ssl) + [ErrorEvent(s, error)]
    case Served(ssl, n, failure) =>
      Ssl(ssl) + (Greeting(s) + (Rounds(n) + (if failure.Some? then [ErrorEvent(s, failure.value)] else [])))
  }

  lemma {:induction false} ServeShape(input: seq<u8>, faults: nat -> bool, pos: nat, tick: nat) returns (n: nat)
    ensures Serve(input, faults, pos, tick).events == Rounds(n)
    decreases |input| - pos
  {
    hide MessageAt, DeserializeQuery;
    var o := Serve(input, faults, pos, tick);
    if o.events == [READY] {
      n := 0;
    } else {
      var next := MessageAt(input, pos).value.1;
      var m := ServeShape(input, faults, next, tick + 2);
      n := m + 1;
    }
  }

  /** The output of every session that does not take the process down is a word of the grammar. */
  lemma TraceInGrammar(s: Server, input: seq<u8>, faults: nat -> bool) returns (shape: Shape)
    requires ValidServer(s) && !Conversation(s, input, faults).end.Panicked?
    ensures Trace(s, input, faults) == Word(s, shape)
  {
    hide BodyAt, Login, Greeting;
    var o := Conversation(s, input, faults);
    if o.end.Broke? && (o.events == [] || o.events == [RefuseSsl]) {
      shape := Rejected(o.events == [RefuseSsl], o.end.error);
    } else {
      var packet := BodyAt(input, 0).value;
      var ssl := Startup.IsSsl(packet.0);
      var failure := if o.end.Broke? then Some(o.end.error) else None;
      var last := if ssl then BodyAt(input, packet.1).value else packet;
      var tick := if ssl then 4 else 1;
      var n := LoginShape(s, input, faults, last.0, last.1, tick);
      shape := Served(ssl, n, failure);
      var err := if failure.Some? then [ErrorEvent(s, failure.value)] else [];
      assert Ssl(ssl) + (Greeting(s) + Rounds(n)) + err == Ssl(ssl) + (Greeting(s) + (Rounds(n) + err));
    }
  }

  lemma LoginShape(s: Server, input: seq<u8>, faults: nat -> bool, packet: seq<u8>, pos: nat, tick: nat) returns (n: nat)
    requires ValidServer(s)
    ensures var o := Login(s, input, faults, packet, pos, tick);
            o.events == Greeting(s) + Rounds(n) || (o.events == [] && o.end.Broke?)
  {
    hide Serve, Greeting;
    n := ServeShape(input, faults, pos, tick);
  }

  // ---------- counting ----------

  function Tag(e: Event): u8 {
    match e
    case RefuseSsl => 'N' as int
    case Sent(m) => TypeByte(m)
  }

  function CountTag(t: seq<Event>, tag: u8): nat {
    if t == [] then 0 else (if Tag(t[0]) == tag then 1 else 0) + CountTag(t[1..], tag)
  }

  lemma {:induction false} CountTagConcat(t: seq<Event>, u: seq<Event>, tag: u8)
    ensures CountTag(t + u, tag) == CountTag(t, tag) + CountTag(u, tag)
  {
    if t == [] {
      assert t + u == u;
    } else {
      assert (t + u)[1..] == t[1..] + u;
      CountTagConcat(t[1..], u, tag);
    }
  }

  lemma {:induction false} CountRounds(n: nat, tag: u8)
    ensures CountTag(Rounds(n), tag) == (if tag == 'Z' as int then n + 1 else if tag == 'C' as int then n else 0)
  {
    if n == 0 {
      assert CountTag([READY], tag) == (if Tag(READY) == tag then 1 else 0) + CountTag([], tag);
    } else {
      CountRounds(n - 1, tag);
      CountTagConcat([READY, DONE], Rounds(n - 1), tag);
      assert [READY, DONE][1..] == [DONE];
      assert CountTag([DONE], tag) == (if Tag(DONE) == tag then 1 else 0) + CountTag([], tag);
    }
  }

  lemma {:induction false} CountReports(s: Server, n: nat, tag: u8)
    requires ValidServer(s) && n <= |s.order| && tag != 'S' as int
    ensures CountTag(Reports(s, n), tag) == 0
  {
    hide Report, CountTag;
    if n == 0 {
      CountNone(tag);
    } else {
      CountReports(s, n - 1, tag);
      CountReport(s, s.order[n - 1], tag);
      CountTagConcat(Reports(s, n - 1), Report(s, s.order[n - 1]), tag);
    }
  }

  lemma CountNone(tag: u8)
    ensures CountTag([], tag) == 0
  {
  }

  lemma CountReport(s: Server, name: string, tag: u8)
    requires ValidServer(s) && name in s.order && tag != 'S' as int
    ensures CountTag(Report(s, name), tag) == 0
  {
    hide Show, MetaAt, ShouldReport;
    var r := Report(s, name);
    if r != [] {
      assert r[1..] == [];
    }
  }

  lemma CountGreeting(s: Server, tag: u8)
    requires ValidServer(s) && tag != 'S' as int
    ensures CountTag(Greeting(s), tag) == (if tag == 'R' as int || tag == 'K' as int then 1 else 0)
  {
    hide Reports;
    var r, k := [Sent(AuthenticationOk)], [Sent(BackendKeyData(0, 0))];
    CountReports(s, |s.order|, tag);
    CountTagConcat(r, Reports(s, |s.order|), tag);
    CountTagConcat(r + Reports(s, |s.order|), k, tag);
    assert r[1..] == [] && k[1..] == [];
  }

  /** In every trace of a served client there is one Z more than there are C, R and K occur once, and an
      E occurs at most once, at the very end. */
  lemma ServedCounts(s: Server, shape: Shape)
    requires ValidServer(s) && shape.Served?
    ensures var t := Word(s, shape);
            && CountTag(t, 'C' as int) == shape.queries
            && CountTag(t, 'Z' as int) == CountTag(t, 'C' as int) + 1
            && CountTag(t, 'R' as int) == CountTag(t, 'K' as int) == 1
            && CountTag(t, 'E' as int) == (if shape.failure.Some? then 1 else 0)
            && (shape.failure.Some? ==> Tag(t[|t| - 1]) == 'E' as int)
  {
    CountWord(s, shape, 'C' as int);
    CountWord(s, shape, 'Z' as int);
    CountWord(s, shape, 'R' as int);
    CountWord(s, shape, 'K' as int);
    CountWord(s, shape, 'E' as int);
  }

  lemma CountWord(s: Server, shape: Shape, tag: u8)
    requires ValidServer(s) && shape.Served? && tag != 'S' as int && tag != 'N' as int
    ensures CountTag(Word(s, shape), tag)
            == (if tag == 'R' as int || tag == 'K' as int then 1 else 0)
             + (if tag == 'Z' as int then shape.queries + 1 else if tag == 'C' as int then shape.queries else 0)
             + (if tag == 'E' as int && shape.failure.Some? then 1 else 0)
  {
    hide Greeting, Rounds, ValidServer;
    var err := if shape.failure.Some? then [ErrorEvent(s, shape.failure.value)] else [];
    var g, r := Greeting(s), Rounds(shape.queries);
    CountGreeting(s, tag);
    CountRounds(shape.queries, tag);
    CountTagConcat(r, err, tag);
    CountTagConcat(g, r + err, tag);
    CountTagConcat(Ssl(shape.ssl), g + (r + err), tag);
    if err != [] {
      assert err[1..] == [];
    }
    if shape.ssl {
      assert Ssl(true)[1..] == [];
    }
  }

  // ---------- parameter reports ----------

  function CountReportsOf(t: seq<Event>, name: string): nat {
    if t == [] then 0
    else CountReportsOf(t[..|t| - 1], name)
         + (match t[|t| - 1]
            case Sent(ParameterStatus(n, _)) => if n == name then 1 else 0
            case _ => 0)
  }

  lemma CountAppendReport(t: seq<Event>, r: seq<Event>, name: string)
    requires |r| <= 1
    ensures CountReportsOf(t + r, name) == CountReportsOf(t, name) + CountReportsOf(r, name)
  {
    if r == [] {
      assert t + r == t;
    } else {
      assert (t + r)[..|t|] == t && r[..0] == [];
    }
  }

  lemma {:induction false} ReportsOfPrefix(s: Server, n: nat, name: string)
    requires ValidServer(s) && n <= |s.order| && name in s.order
    ensures CountReportsOf(Reports(s, n), name)
            == (if name in s.order[..n] && ShouldReport(MetaAt(s.reg, s.reg.nameMap[name])) then 1 else 0)
  {
    hide Show, CountReportsOf, Report, ShouldReport, MetaAt;
    if n > 0 {
      ReportsOfPrefix(s, n - 1, name);
      var last := s.order[n - 1];
      OneReport(s, last, name);
      CountAppendReport(Reports(s, n - 1), Report(s, last), name);
      assert s.order[..n] == s.order[..n - 1] + [last];
      assert last !in s.order[..n - 1];
    } else {
      assert CountReportsOf([], name) == 0 by { NoReports(name); }
    }
  }

  lemma NoReports(name: string)
    ensures CountReportsOf([], name) == 0
  {
  }

  lemma OneReport(s: Server, last: string, name: string)
    requires ValidServer(s) && last in s.order
    ensures CountReportsOf(Report(s, last), name)
            == (if last == name && ShouldReport(MetaAt(s.reg, s.reg.nameMap[name])) then 1 else 0)
    ensures |Report(s, last)| <= 1
  {
    hide Show, MetaAt, ShouldReport;
    var r := Report(s, last);
    NoReports(name);
    if r != [] {
      assert r[..0] == [];
    }
  }

  /** The greeting reports every setting flagged for it exactly once, no other setting, and each
      with its current value, whatever the iteration order of the name map. */
  lemma ReportsExactly(s: Server, name: string)
    requires ValidServer(s) && name in s.reg.nameMap
    ensures CountReportsOf(Reports(s, |s.order|), name)
            == (if ShouldReport(MetaAt(s.reg, s.reg.nameMap[name])) then 1 else 0)
  {
    ReportsOfPrefix(s, |s.order|, name);
    assert s.order[..|s.order|] == s.order;
  }

  lemma {:induction false} ReportedValues(s: Server, n: nat, k: nat)
    requires ValidServer(s) && n <= |s.order| && k < |Reports(s, n)|
    ensures exists name :: name in s.order
              && Reports(s, n)[k] == Sent(ParameterStatus(name, Show(s.reg, s.fl, s.vals, s.reg.nameMap[name])))
  {
    hide Show;
    if k < |Reports(s, n - 1)| {
      ReportedValues(s, n - 1, k);
    }
  }

  // ---------- queries and answers ----------

  /** How many frames, from the first on, are queries the server can read. */
  function GoodQueries(fs: seq<Frame>): nat {
    if fs == [] || fs[0].kind != QUERY || DeserializeQuery(fs[0].body).Err? then 0 else 1 + GoodQueries(fs[1..])
  }

  /** Without I/O faults the server answers every readable query, and no more. */
  lemma {:induction false} ServeAnswersQueries(input: seq<u8>, faults: nat -> bool, pos: nat, tick: nat)
    requires forall k: nat :: k >= tick ==> !faults(k)
    ensures Serve(input, faults, pos, tick).events == Rounds(GoodQueries(ReadFrames(input, pos)))
    decreases |input| - pos
  {
    hide MessageAt, DeserializeQuery;
    match MessageAt(input, pos) {
      case Got((f, next)) =>
        var fs := ReadFrames(input, pos);
        assert fs[1..] == ReadFrames(input, next);
        ServeAnswersQueries(input, faults, next, tick + 2);
      case _ =>
    }
  }

  function Terminate(): Frame {
    Frame(TERMINATE, [])
  }

  /** What a client sends after logging in: its queries, then a Terminate. */
  function Script(qs: seq<string>): seq<Frame> {
    QueryFrames(qs) + [Terminate()]
  }

  lemma {:induction false} ScriptServed(input: seq<u8>, faults: nat -> bool, pos: nat, tick: nat, qs: seq<string>, rest: seq<u8>)
    requires forall k: nat :: k >= tick ==> !faults(k)
    requires forall k :: 0 <= k < |qs| ==> |Cstr(qs[k])| + 4 < 0x1_0000_0000
    requires At(input, pos, Flat(EncodeFrame, Script(qs)) + rest)
    ensures Serve(input, faults, pos, tick) == Outcome(Rounds(|qs|), Closed)
    decreases |qs|
  {
    hide At, MessageAt, EncodeFrame, DeserializeQuery, Cstr;
    var fs := Script(qs);
    var f := if qs == [] then Terminate() else QueryFrame(qs[0]);
    assert fs[0] == f;
    AtSplit(input, pos, Flat(EncodeFrame, fs), rest);
    AtSplit(input, pos, EncodeFrame(f), Flat(EncodeFrame, fs[1..]));
    MessageAtExact(input, pos, f, pos + |EncodeFrame(f)|);
    if qs != [] {
      QueryBodyReads(qs[0]);
      assert fs[1..] == Script(qs[1..]);
      AtSplit(input, pos + |EncodeFrame(f)|, Flat(EncodeFrame, fs[1..]), rest);
      ScriptServed(input, faults, pos + |EncodeFrame(f)|, tick + 2, qs[1..], rest);
    }
  }

  lemma QueryBodyReads(q: string)
    ensures DeserializeQuery(Cstr(q)) == Ok(q)
  {
    DeserializeQueryExact(Cstr(q), q);
  }

  /** A client that logs in properly, sends queries and terminates gets the greeting and one
      completion per query, each before the next ReadyForQuery; with the TLS refusal in front if it asked. */
  lemma EndToEnd(s: Server, faults: nat -> bool, ssl: bool, packet: seq<u8>, qs: seq<string>, rest: seq<u8>)
    requires ValidServer(s) && forall k: nat :: !faults(k)
    requires 4 + |packet| < 0x1_0000_0000
    requires Startup.DeserializeStartup(packet).Ok?
    requires Startup.DeserializeStartup(packet).value.CheckClientEncoding(s.vals.strs[s.clientEncoding])
    requires Startup.DeserializeCancel(packet).None? && !Startup.IsSsl(packet)
    requires forall k :: 0 <= k < |qs| ==> |Cstr(qs[k])| + 4 < 0x1_0000_0000
    ensures var session := EncodeBody(packet) + (Flat(EncodeFrame, Script(qs)) + rest);
            var input := if ssl then EncodeBody(Startup.SSL_CODE) + session else session;
            Trace(s, input, faults) == Word(s, Served(ssl, |qs|, None))
  {
    hide At, EncodeBody, Cstr, Trace, Word;
    var tail := Flat(EncodeFrame, Script(qs)) + rest;
    var session := EncodeBody(packet) + tail;
    var first := EncodeBody(Startup.SSL_CODE);
    AtSuffix(first, session);
    AtSuffix([], session);
    assert [] + session == session;
    if ssl {
      AtSuffix([], first + session);
      assert [] + (first + session) == first + session;
      BodyLength(Startup.SSL_CODE);
      AtSplit(first + session, 0, first, session);
      TlsThenLogin(s, first + session, faults, packet, qs, rest);
    } else {
      PlainLogin(s, session, faults, packet, qs, rest);
    }
  }

  ghost predicate LoggedIn(s: Server, input: seq<u8>, pos: nat, packet: seq<u8>, qs: seq<string>, rest: seq<u8>) {
    && At(input, pos, EncodeBody(packet) + (Flat(EncodeFrame, Script(qs)) + rest))
    && 4 + |packet| < 0x1_0000_0000
    && forall k :: 0 <= k < |qs| ==> |Cstr(qs[k])| + 4 < 0x1_0000_0000
  }

  lemma LoginServed(s: Server, input: seq<u8>, faults: nat -> bool, pos: nat, tick: nat, packet: seq<u8>, qs: seq<string>, rest: seq<u8>)
    requires ValidServer(s) && forall k: nat :: !faults(k)
    requires LoggedIn(s, input, pos, packet, qs, rest)
    requires Startup.DeserializeStartup(packet).Ok?
    requires Startup.DeserializeStartup(packet).value.CheckClientEncoding(s.vals.strs[s.clientEncoding])
    ensures BodyAt(input, pos) == Got((packet, pos + 4 + |packet|))
    ensures Login(s, input, faults, packet, pos + 4 + |packet|, tick) == Outcome(Greeting(s) + Rounds(|qs|), Closed)
  {
    hide At, BodyAt, Serve, Login, EncodeBody, Greeting, Rounds, Startup.DeserializeStartup, Cstr, ValidServer, EncodeFrame, Flat, Script;
    BodyLength(packet);
    LoginAccepts(s, input, faults, packet, pos + 4 + |packet|, tick);
    AtSplit(input, pos, EncodeBody(packet), Flat(EncodeFrame, Script(qs)) + rest);
    BodyAtExact(input, pos, packet, pos + 4 + |packet|);
    ScriptServed(input, faults, pos + 4 + |packet|, tick, qs, rest);
  }

  lemma LoginAccepts(s: Server, input: seq<u8>, faults: nat -> bool, packet: seq<u8>, pos: nat, tick: nat)
    requires ValidServer(s) && Startup.DeserializeStartup(packet).Ok?
    requires Startup.DeserializeStartup(packet).value.CheckClientEncoding(s.vals.strs[s.clientEncoding])
    ensures var loop := Serve(input, faults, pos, tick);
            Login(s, input, faults, packet, pos, tick) == Outcome(Greeting(s) + loop.events, loop.end)
  {
    hide Serve, Greeting, Startup.DeserializeStartup;
  }

  lemma PlainLogin(s: Server, input: seq<u8>, faults: nat -> bool, packet: seq<u8>, qs: seq<string>, rest: seq<u8>)
    requires ValidServer(s) && forall k: nat :: !faults(k)
    requires LoggedIn(s, input, 0, packet, qs, rest)
    requires Startup.DeserializeStartup(packet).Ok?
    requires Startup.DeserializeStartup(packet).value.CheckClientEncoding(s.vals.strs[s.clientEncoding])
    requires Startup.DeserializeCancel(packet).None? && !Startup.IsSsl(packet)
    ensures Trace(s, input, faults) == Word(s, Served(false, |qs|, None))
  {
    hide BodyAt, LoggedIn, Login, Greeting, Rounds, Startup.DeserializeStartup, Startup.DeserializeCancel, Startup.IsSsl;
    LoginServed(s, input, faults, 0, 1, packet, qs, rest);
    var g := Greeting(s) + Rounds(|qs|);
    assert Ssl(false) + (Greeting(s) + (Rounds(|qs|) + [])) == g;
  }

  lemma TlsThenLogin(s: Server, input: seq<u8>, faults: nat -> bool, packet: seq<u8>, qs: seq<string>, rest: seq<u8>)
    requires ValidServer(s) && forall k: nat :: !faults(k)
    requires At(input, 0, EncodeBody(Startup.SSL_CODE)) && LoggedIn(s, input, 8, packet, qs, rest)
    requires Startup.DeserializeStartup(packet).Ok?
    requires Startup.DeserializeStartup(packet).value.CheckClientEncoding(s.vals.strs[s.clientEncoding])
    ensures Trace(s, input, faults) == Word(s, Served(true, |qs|, None))
  {
    hide At, BodyAt, LoggedIn, Login, Greeting, Rounds, Startup.DeserializeStartup, Startup.DeserializeCancel, Startup.IsSsl;
    NotCancel();
    BodyAtExact(input, 0, Startup.SSL_CODE, 8);
    LoginServed(s, input, faults, 8, 4, packet, qs, rest);
    var g := Greeting(s) + Rounds(|qs|);
    assert Ssl(true) + (Greeting(s) + (Rounds(|qs|) + [])) == Ssl(true) + g;
  }

  lemma AtSuffix(x: seq<u8>, y: seq<u8>)
    ensures At(x + y, |x|, y)
  {
  }

  lemma NotCancel()
    ensures Startup.DeserializeCancel(Startup.SSL_CODE).None? && Startup.IsSsl(Startup.SSL_CODE)
  {
  }

  // ---------- what the client reads ----------

  /** The messages of a trace. */
  function MessagesOf(t: seq<Event>): seq<Message> {
    if t == [] then []
    else
      var last := t[|t| - 1];
      MessagesOf(t[..|t| - 1]) + (if last.Sent? then [last.m] else [])
  }

  lemma {:induction false} BytesOfMessages(t: seq<Event>)
    requires forall k :: 0 <= k < |t| ==> t[k].Sent?
    ensures Flat(EventBytes, t) == Flat(Encode, MessagesOf(t))
  {
    hide Encode, EventBytes, Flat;
    if t == [] {
      NoBytes(EventBytes);
      NoBytes(Encode);
    } else {
      var init, last := t[..|t| - 1], t[|t| - 1];
      BytesOfMessages(init);
      BytesPush(init, last);
      assert t == init + [last];
    }
  }

  lemma NoBytes<T>(enc: T -> seq<u8>)
    ensures Flat(enc, []) == []
  {
  }

  lemma BytesPush(init: seq<Event>, last: Event)
    requires last.Sent? && Flat(EventBytes, init) == Flat(Encode, MessagesOf(init))
    ensures Flat(EventBytes, init + [last]) == Flat(Encode, MessagesOf(init) + [last.m])
  {
    hide Encode, Flat, MessagesOf;
    FlatPush(EventBytes, init, last);
    FlatPush(Encode, MessagesOf(init), last.m);
  }

  /** What the client can decode: a message that a frame can carry. */
  predicate Carried(e: Event) {
    e.Sent? && Encodable(e.m)
  }

  predicate AllCarried(t: seq<Event>) {
    forall k :: 0 <= k < |t| ==> Carried(t[k])
  }

  /** The client's decoder turns the bytes of messages back into the messages. */
  lemma MessagesRead(t: seq<Event>)
    requires AllCarried(t)
    ensures MessageDecoder.DecodeStream(Flat(EventBytes, t), 0) == Some(MessagesOf(t))
  {
    hide Encode, Encodable, EventBytes;
    BytesOfMessages(t);
    AllEncodable(t);
    MessageDecoder.StreamExact(Flat(EventBytes, t), MessagesOf(t));
  }

  lemma {:induction false} AllEncodable(t: seq<Event>)
    requires AllCarried(t)
    ensures forall m :: m in MessagesOf(t) ==> Encodable(m)
  {
    hide Encodable;
    if t != [] {
      AllEncodable(t[..|t| - 1]);
    }
  }

  /** NUL-free, and less than a GiB as UTF-8. */
  predicate CleanText(t: string) {
    '\0' !in t && |Utf8.Encode(t)| < 0x4000_0000
  }

  predicate CleanReport(s: Server, name: string)
    requires ValidServer(s) && name in s.order
  {
    CleanText(name) && CleanText(Show(s.reg, s.fl, s.vals, s.reg.nameMap[name]))
  }

  /** Every setting to be reported, and every error text, is clean. */
  ghost predicate CleanServer(s: Server)
    requires ValidServer(s)
  {
    && (forall n :: n in s.order && ShouldReport(MetaAt(s.reg, s.reg.nameMap[n])) ==> CleanReport(s, n))
    && (forall e :: CleanText(s.errorText(e)))
  }

  lemma {:induction false} ServeCarried(input: seq<u8>, faults: nat -> bool, pos: nat, tick: nat)
    ensures AllCarried(Serve(input, faults, pos, tick).events)
    decreases |input| - pos
  {
    hide MessageAt, DeserializeQuery, Carried;
    AnswersCarried();
    var o := Serve(input, faults, pos, tick);
    if o.events != [READY] {
      ServeCarried(input, faults, MessageAt(input, pos).value.1, tick + 2);
    }
  }

  lemma AnswersCarried()
    ensures Carried(READY) && Carried(DONE)
  {
    hide Utf8.Encode;
    ShortText(TAG);
  }

  lemma ShortText(t: string)
    requires |t| < 100 && '\0' !in t
    ensures CleanText(t)
  {
    EncodeLength(t);
  }

  lemma {:induction false} EncodeLength(t: string)
    ensures |Utf8.Encode(t)| <= 4 * |t|
  {
    if t != "" {
      EncodeLength(t[1..]);
    }
  }

  lemma ReportCarried(s: Server, name: string)
    requires ValidServer(s) && CleanServer(s) && name in s.order
    ensures AllCarried(Report(s, name))
  {
    hide Show, MetaAt, ShouldReport, ValidServer, Utf8.Encode;
    if Report(s, name) != [] {
      assert CleanReport(s, name);
    }
  }

  lemma {:induction false} ReportsCarried(s: Server, n: nat)
    requires ValidServer(s) && CleanServer(s) && n <= |s.order|
    ensures AllCarried(Reports(s, n))
  {
    hide Report, CleanServer, Carried;
    if n > 0 {
      ReportsCarried(s, n - 1);
      ReportCarried(s, s.order[n - 1]);
    }
  }

  lemma GreetingCarried(s: Server)
    requires ValidServer(s) && CleanServer(s)
    ensures AllCarried(Greeting(s))
  {
    hide Reports, CleanServer, ValidServer;
    Widths();
    ReportsCarried(s, |s.order|);
    assert Carried(Sent(AuthenticationOk)) && Carried(Sent(BackendKeyData(0, 0)));
  }

  lemma ErrorCarried(s: Server, e: SessionError)
    requires ValidServer(s) && CleanServer(s)
    ensures Carried(ErrorEvent(s, e))
  {
    hide Show, MetaAt, ShouldReport, ValidServer, Utf8.Encode;
    assert CleanText(s.errorText(e));
    ShortText(SEVERITY_FATAL);
    ShortText(ErrCode(e));
  }

  lemma LoginCarried(s: Server, input: seq<u8>, faults: nat -> bool, packet: seq<u8>, pos: nat, tick: nat)
    requires ValidServer(s) && CleanServer(s)
    ensures AllCarried(Login(s, input, faults, packet, pos, tick).events)
  {
    hide Serve, Greeting, Carried, CleanServer;
    GreetingCarried(s);
    ServeCarried(input, faults, pos, tick);
  }

  /** A trace without the answer to a TLS request, which is a byte and no message. */
  function AfterTls(t: seq<Event>): seq<Event> {
    if t != [] && t[0].RefuseSsl? then t[1..] else t
  }

  lemma TraceCarried(s: Server, input: seq<u8>, faults: nat -> bool)
    requires ValidServer(s) && CleanServer(s)
    ensures AllCarried(AfterTls(Trace(s, input, faults)))
  {
    hide BodyAt, Login, Encodable, CleanServer, ValidServer, ErrorEvent, Startup.DeserializeCancel, Startup.IsSsl;
    var o := Conversation(s, input, faults);
    assert AllCarried(AfterTls(o.events)) by {
      if packet :| BodyAt(input, 0) == Got(packet) {
        if Startup.IsSsl(packet.0) {
          if second :| BodyAt(input, packet.1) == Got(second) {
            LoginCarried(s, input, faults, second.0, second.1, 4);
          }
        } else {
          LoginCarried(s, input, faults, packet.0, packet.1, 1);
        }
      }
    }
    if o.end.Broke? {
      ErrorCarried(s, o.end.error);
    }
  }

  /** Whatever the input and the faults, the client can decode every byte a session writes after
      the answer to a TLS request, and gets exactly the messages of its trace. */
  lemma ClientReadsTrace(s: Server, input: seq<u8>, faults: nat -> bool)
    requires ValidServer(s) && CleanServer(s)
    ensures var t := Trace(s, input, faults);
            && Flat(EventBytes, t) == (if t != [] && t[0].RefuseSsl? then ['N' as int] else []) + Flat(EventBytes, AfterTls(t))
            && MessageDecoder.DecodeStream(Flat(EventBytes, AfterTls(t)), 0) == Some(MessagesOf(AfterTls(t)))
  {
    hide Trace, AllCarried, CleanServer;
    TraceCarried(s, input, faults);
    MessagesRead(AfterTls(Trace(s, input, faults)));
  }
}
