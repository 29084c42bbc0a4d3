/** Which shape each session has, decided from the bytes the client sends: who is turned away,
    how many queries are answered, and how the session ends (no I/O fails here). */
module SessionOutcomes {
  import opened Wrappers
  import opened ByteOrder
  import Utf8
  import opened Messages
  import opened Framing
  import Startup
  import opened GucRegistry
  import opened GucStates
  import opened Session
  import opened SessionTraces

  ghost predicate NoFaults(faults: nat -> bool) {
    forall k: nat :: !faults(k)
  }

  ghost predicate NoFaultBefore(faults: nat -> bool, n: nat) {
    forall k: nat :: k < n ==> !faults(k)
  }

  /** The number of I/O operations before the query loop: one read, or that and the three of a TLS
      request (a write, a flush, a second read). */
  function FirstOp(ssl: bool): nat {
    if ssl then 4 else 1
  }

  // ---------- who is turned away ----------

  /** The same character, or the same ASCII letter in the other case. */
  predicate SameLetter(c: char, d: char) {
    || c == d
    || ('A' <= c <= 'Z' && d as int == c as int + 0x20)
    || ('A' <= d <= 'Z' && c as int == d as int + 0x20)
  }

  predicate SameText(s: string, t: string) {
    |s| == |t| && forall k :: 0 <= k < |s| ==> SameLetter(s[k], t[k])
  }

  /** The client names an encoding, and it is not the server's. */
  predicate WrongEncoding(s: Server, params: map<string, string>)
    requires ValidServer(s)
  {
    "client_encoding" in params && !SameText(params["client_encoding"], s.vals.strs[s.clientEncoding])
  }

  /** What a client sends first: a TLS request if it wants, then its start-up packet. */
  function Opening(ssl: bool, packet: seq<u8>): seq<u8> {
    (if ssl then [0, 0, 0, 8, 0x04, 0xd2, 0x16, 0x2f] else []) + EncodeBody(packet)
  }

  /** A first packet that is neither a cancel request nor a TLS request. */
  predicate Plain(packet: seq<u8>) {
    !(|packet| == 12 && packet[..4] == [0x04, 0xd2, 0x16, 0x2e]) && packet != [0x04, 0xd2, 0x16, 0x2f]
  }

  lemma EncodingChecked(m: Startup.StartupMessage, s: Server)
    requires ValidServer(s)
    ensures m.CheckClientEncoding(s.vals.strs[s.clientEncoding]) <==> !WrongEncoding(s, m.params)
  {
    if "client_encoding" in m.params {
      SameIgnoringCase(m.params["client_encoding"], s.vals.strs[s.clientEncoding]);
    }
  }

  lemma SameIgnoringCase(s: string, t: string)
    ensures Startup.EqIgnoreAsciiCase(s, t) <==> SameText(s, t)
  {
  }

  /** Where the conversation stands after the opening. */
  lemma Opened(s: Server, faults: nat -> bool, ssl: bool, packet: seq<u8>, tail: seq<u8>)
    requires ValidServer(s) && NoFaultBefore(faults, FirstOp(ssl)) && 4 + |packet| < 0x1_0000_0000 && (!ssl ==> Plain(packet))
    ensures var input := Opening(ssl, packet) + tail;
            var pos := |Opening(ssl, packet)|;
            var login := Login(s, input, faults, packet, pos, FirstOp(ssl));
            Conversation(s, input, faults) == Outcome(Ssl(ssl) + login.events, login.end)
  {
    hide BodyAt, Login, EncodeBody, At, ValidServer;
    var input := Opening(ssl, packet) + tail;
    BodyLength(packet);
    if ssl {
      var first := EncodeBody(Startup.SSL_CODE);
      SslBody();
      NotCancel();
      var rest := EncodeBody(packet) + tail;
      assert input == first + rest;
      AtPrefix(first, rest);
      BodyAtExact(input, 0, Startup.SSL_CODE, 8);
      AtMiddle(first, EncodeBody(packet), tail);
      assert input == first + EncodeBody(packet) + tail;
      BodyAtExact(input, 8, packet, 8 + 4 + |packet|);
    } else {
      assert input == EncodeBody(packet) + tail;
      AtPrefix(EncodeBody(packet), tail);
      BodyAtExact(input, 0, packet, 4 + |packet|);
      var login := Login(s, input, faults, packet, 4 + |packet|, 1);
      assert Ssl(false) + login.events == login.events;
    }
  }

  lemma SslBody()
    ensures EncodeBody(Startup.SSL_CODE) == [0, 0, 0, 8, 0x04, 0xd2, 0x16, 0x2f]
  {
    hide BigEndian;
    FourBytes(8);
  }

  lemma AtPrefix(x: seq<u8>, y: seq<u8>)
    ensures At(x + y, 0, x)
  {
  }

  lemma AtMiddle(x: seq<u8>, y: seq<u8>, z: seq<u8>)
    ensures At(x + y + z, |x|, y)
  {
  }

  /** A client is turned away exactly when its packet does not decode or names an encoding other
      than the server's; whatever it sends after that, it is sent one error and nothing else. */
  lemma TurnedAwayIff(s: Server, faults: nat -> bool, ssl: bool, packet: seq<u8>, tail: seq<u8>)
    requires ValidServer(s) && NoFaults(faults) && 4 + |packet| < 0x1_0000_0000 && (!ssl ==> Plain(packet))
    ensures var t := Trace(s, Opening(ssl, packet) + tail, faults);
            match Startup.DeserializeStartup(packet)
            case Err(e) => t == Word(s, Rejected(ssl, BadStartup(e)))
            case Ok(m) =>
              if WrongEncoding(s, m.params) then t == Word(s, Rejected(ssl, BadEncoding))
              else Ssl(ssl) + Greeting(s) <= t
  {
    hide Serve, Greeting, Startup.DeserializeStartup, Opening, Conversation, ValidServer;
    Opened(s, faults, ssl, packet, tail);
    if Startup.DeserializeStartup(packet).Ok? {
      EncodingChecked(Startup.DeserializeStartup(packet).value, s);
    }
  }

  /** Input that ends before the first packet does is answered by an error. */
  lemma NoPacket(s: Server, input: seq<u8>, faults: nat -> bool)
    requires ValidServer(s) && NoFaults(faults)
    requires |input| < 4 || (4 <= FromBigEndian(input[..4]) && |input| < FromBigEndian(input[..4]))
    ensures Trace(s, input, faults) == Word(s, Rejected(false, IoFailed))
  {
    hide FromBigEndian, ValidServer;
    if |input| >= 4 {
      assert input[0..4] == input[..4];
    }
  }

  // ---------- how many queries, and how it ends ----------

  /** Well-formed UTF-8. */
  ghost predicate IsText(b: seq<u8>) {
    exists q :: Utf8.WellFormed(b, q)
  }

  /** A query the server can read: UTF-8 text and one more byte. */
  ghost predicate IsQuery(f: Frame) {
    && f.kind == 'Q' as int && 4 + |f.body| < 0x1_0000_0000
    && f.body != [] && IsText(f.body[..|f.body| - 1])
  }

  ghost predicate AreQueries(fs: seq<Frame>) {
    forall f :: f in fs ==> IsQuery(f)
  }

  /** The bytes begin with the frame. */
  predicate Begins(b: seq<u8>, f: Frame) {
    FrameFits(f) && EncodeFrame(f) <= b
  }

  /** The bytes end before a frame does. */
  predicate Truncated(b: seq<u8>) {
    |b| < 5 || (4 <= FromBigEndian(b[1..5]) && |b| < 1 + FromBigEndian(b[1..5]))
  }

  /** The length field of the frame does not even cover itself. */
  predicate Undersized(b: seq<u8>) {
    |b| >= 5 && FromBigEndian(b[1..5]) < 4
  }

  /** How a served session ends on the bytes that follow its last query: quietly on a Terminate or
      a -1, otherwise with an error. */
  ghost predicate EndsOn(b: seq<u8>, failure: Option<SessionError>) {
    match failure
    case None => exists f :: Begins(b, f) && (f.kind == 'X' as int || f.kind == -1)
    case Some(ReadFailed) => Truncated(b)
    case Some(UnexpectedMessage(kind)) =>
      kind != 'Q' as int && kind != 'X' as int && kind != -1 && exists f :: Begins(b, f) && f.kind == kind
    case Some(BadQuery(EmptyQuery)) => Begins(b, Frame('Q' as int, []))
    case Some(BadQuery(NotUtf8)) =>
      exists f :: Begins(b, f) && f.kind == 'Q' as int && f.body != [] && !IsText(f.body[..|f.body| - 1])
    case _ => false
  }

  lemma QueryReads(f: Frame)
    requires 4 + |f.body| < 0x1_0000_0000 && f.kind == 'Q' as int
    ensures DeserializeQuery(f.body).Ok? <==> IsQuery(f)
    ensures DeserializeQuery(f.body) == Err(EmptyQuery) <==> f.body == []
    ensures DeserializeQuery(f.body) == Err(NotUtf8) <==> f.body != [] && !IsText(f.body[..|f.body| - 1])
  {
    hide Utf8.WellFormed, Utf8.Decode;
    if f.body != [] {
      var b := f.body[..|f.body| - 1];
      forall q ensures Utf8.Decode(b) == Some(q) <==> Utf8.WellFormed(b, q) {
        Utf8.DecodeExact(b, q);
      }
      if Utf8.Decode(b).Some? {
        assert Utf8.WellFormed(b, Utf8.Decode(b).value);
      }
    }
  }

  /** One frame at the head of what is left. */
  lemma FrameThere(input: seq<u8>, pos: nat, f: Frame)
    requires pos <= |input| && Begins(input[pos..], f)
    ensures MessageAt(input, pos) == Got((f, pos + |EncodeFrame(f)|))
    ensures pos + |EncodeFrame(f)| <= |input| && input[pos + |EncodeFrame(f)|..] == input[pos..][|EncodeFrame(f)|..]
  {
    hide MessageAt, EncodeFrame, FrameFits;
    var e := EncodeFrame(f);
    assert input[pos..pos + |e|] == input[pos..][..|e|];
    MessageAtExact(input, pos, f, pos + |e|);
  }

  lemma NoFrameThere(input: seq<u8>, pos: nat)
    requires pos <= |input|
    ensures Truncated(input[pos..]) ==> MessageAt(input, pos) == IoError
    ensures Undersized(input[pos..]) ==> MessageAt(input, pos) == Crashed
  {
    hide FromBigEndian;
    if pos + 5 <= |input| {
      assert input[pos..][1..5] == input[pos + 1..pos + 5];
    }
  }

  lemma EndServed(input: seq<u8>, faults: nat -> bool, pos: nat, tick: nat, failure: Option<SessionError>)
    requires NoFaults(faults) && pos <= |input| && EndsOn(input[pos..], failure)
    ensures Serve(input, faults, pos, tick) == Outcome([READY], if failure.None? then Closed else Broke(failure.value))
  {
    hide MessageAt, Begins, Truncated, DeserializeQuery, IsText;
    var b := input[pos..];
    match failure
    case None =>
      var f :| Begins(b, f) && (f.kind == 'X' as int || f.kind == -1);
      FrameThere(input, pos, f);
    case Some(ReadFailed) =>
      NoFrameThere(input, pos);
    case Some(UnexpectedMessage(kind)) =>
      var f :| Begins(b, f) && f.kind == kind;
      FrameThere(input, pos, f);
    case Some(BadQuery(EmptyQuery)) =>
      FrameThere(input, pos, Frame('Q' as int, []));
      QueryReads(Frame('Q' as int, []));
    case Some(BadQuery(NotUtf8)) =>
      var f :| Begins(b, f) && f.kind == 'Q' as int && f.body != [] && !IsText(f.body[..|f.body| - 1]);
      FrameThere(input, pos, f);
      BeginsFits(b, f);
      QueryReads(f);
  }

  lemma BeginsFits(b: seq<u8>, f: Frame)
    requires Begins(b, f)
    ensures 4 + |f.body| < 0x1_0000_0000 && EncodeFrame(f) <= b
  {
  }

  lemma QueryServed(input: seq<u8>, faults: nat -> bool, pos: nat, tick: nat, f: Frame)
    requires !faults(tick) && !faults(tick + 1) && pos <= |input| && IsQuery(f) && Begins(input[pos..], f)
    ensures var rest := Serve(input, faults, pos + |EncodeFrame(f)|, tick + 2);
            Serve(input, faults, pos, tick) == Outcome([READY, DONE] + rest.events, rest.end)
  {
    hide MessageAt, Begins, DeserializeQuery, EncodeFrame, IsQuery;
    FrameThere(input, pos, f);
    BeginsFits(input[pos..], f);
    assert f.kind == 'Q' as int by { QueryKind(f); }
    QueryReads(f);
  }

  lemma QueryKind(f: Frame)
    requires IsQuery(f)
    ensures f.kind == 'Q' as int && FrameFits(f)
  {
  }

  /** The first of some queries, and where the others begin. */
  lemma FirstQuery(input: seq<u8>, pos: nat, fs: seq<Frame>, after: seq<u8>)
    requires pos <= |input| && fs != [] && AreQueries(fs) && input[pos..] == Flat(EncodeFrame, fs) + after
    ensures var next := pos + |EncodeFrame(fs[0])|;
            && IsQuery(fs[0]) && AreQueries(fs[1..]) && Begins(input[pos..], fs[0])
            && next <= |input| && input[next..] == Flat(EncodeFrame, fs[1..]) + after
  {
    hide IsQuery, EncodeFrame, Flat, FrameFits;
    FlatFront(EncodeFrame, fs);
    var f, rest := fs[0], Flat(EncodeFrame, fs[1..]);
    assert IsQuery(f) && forall g :: g in fs[1..] ==> g in fs;
    QueryKind(f);
    Join(EncodeFrame(f), rest, after);
    assert EncodeFrame(f) <= input[pos..];
    assert input[pos + |EncodeFrame(f)|..] == input[pos..][|EncodeFrame(f)|..] == rest + after;
  }

  /** Every query is answered, and then the session ends as the next bytes say. */
  lemma {:induction false} QueriesServed(input: seq<u8>, faults: nat -> bool, pos: nat, tick: nat, fs: seq<Frame>, after: seq<u8>, end: End)
    requires NoFaults(faults) && pos <= |input| && AreQueries(fs) && input[pos..] == Flat(EncodeFrame, fs) + after
    requires forall at: nat, t: nat :: at <= |input| && input[at..] == after ==> Serve(input, faults, at, t) == Outcome([READY], end)
    ensures Serve(input, faults, pos, tick) == Outcome(Rounds(|fs|), end)
    decreases |fs|
  {
    hide Serve, Begins, AreQueries, IsQuery, EncodeFrame, Flat;
    if fs == [] {
      FlatFront(EncodeFrame, fs);
      assert input[pos..] == after;
    } else {
      FirstQuery(input, pos, fs, after);
      var f := fs[0];
      var next := pos + |EncodeFrame(f)|;
      QueryServed(input, faults, pos, tick, f);
      QueriesServed(input, faults, next, tick + 2, fs[1..], after, end);
    }
  }

  lemma ServedWord(s: Server, input: seq<u8>, faults: nat -> bool, ssl: bool, n: nat, failure: Option<SessionError>)
    requires ValidServer(s)
    requires Conversation(s, input, faults)
             == Outcome(Ssl(ssl) + (Greeting(s) + Rounds(n)), if failure.None? then Closed else Broke(failure.value))
    ensures Trace(s, input, faults) == Word(s, Served(ssl, n, failure))
  {
    hide Greeting, Rounds, Conversation, ValidServer, ErrorEvent, Ssl;
    var err := if failure.Some? then [ErrorEvent(s, failure.value)] else [];
    var z, g, r := Ssl(ssl), Greeting(s), Rounds(n);
    assert z + (g + r) + err == z + (g + (r + err));
  }

  /** A client that is let in gets the greeting, one completion per query up to the first bytes that
      are not one, and the end those bytes call for. */
  lemma ServedExactly(s: Server, faults: nat -> bool, ssl: bool, packet: seq<u8>, fs: seq<Frame>, after: seq<u8>, failure: Option<SessionError>)
    requires ValidServer(s) && NoFaults(faults) && 4 + |packet| < 0x1_0000_0000 && (!ssl ==> Plain(packet))
    requires Startup.DeserializeStartup(packet).Ok? && !WrongEncoding(s, Startup.DeserializeStartup(packet).value.params)
    requires AreQueries(fs) && EndsOn(after, failure)
    ensures Trace(s, Opening(ssl, packet) + (Flat(EncodeFrame, fs) + after), faults) == Word(s, Served(ssl, |fs|, failure))
  {
    hide Serve, Greeting, Rounds, Startup.DeserializeStartup, Opening, Conversation, ValidServer, EndsOn, AreQueries, Flat, EncodeFrame;
    var tail := Flat(EncodeFrame, fs) + after;
    var input := Opening(ssl, packet) + tail;
    var pos := |Opening(ssl, packet)|;
    Opened(s, faults, ssl, packet, tail);
    EncodingChecked(Startup.DeserializeStartup(packet).value, s);
    assert input[pos..] == tail;
    var end := if failure.None? then Closed else Broke(failure.value);
    forall at: nat, t: nat | at <= |input| && input[at..] == after ensures Serve(input, faults, at, t) == Outcome([READY], end) {
      EndServed(input, faults, at, t, failure);
    }
    QueriesServed(input, faults, pos, FirstOp(ssl), fs, after, end);
    ServedWord(s, input, faults, ssl, |fs|, failure);
  }

  /** Any bytes after the opening are some queries and then bytes that end the session, or an
      undersized length, which takes the process down. */
  lemma {:induction false} TailSplits(b: seq<u8>) returns (fs: seq<Frame>, after: seq<u8>, failure: Option<SessionError>)
    ensures b == Flat(EncodeFrame, fs) + after && AreQueries(fs)
    ensures EndsOn(after, failure) || Undersized(after)
    decreases |b|
  {
    hide EncodeFrame, MessageAt, DeserializeQuery, Truncated, Undersized, IsText, Flat, Begins;
    fs, after, failure := [], b, None;
    FlatFront(EncodeFrame, fs);
    assert b == [] + b;
    FrameOrNot(b);
    if f :| Begins(b, f) {
      BeginsFits(b, f);
      if f.kind == 'Q' as int {
        QueryReads(f);
        if IsQuery(f) {
          var e := EncodeFrame(f);
          FrameNotEmpty(f);
          var gs, rest, how := TailSplits(b[|e|..]);
          fs, after, failure := [f] + gs, rest, how;
          FlatCons(EncodeFrame, f, gs);
          assert b == e + b[|e|..];
          Join(e, Flat(EncodeFrame, gs), rest);
        } else if f.body == [] {
          failure := Some(BadQuery(EmptyQuery));
          assert f == Frame('Q' as int, []);
        } else {
          failure := Some(BadQuery(NotUtf8));
        }
      } else if f.kind != 'X' as int && f.kind != -1 {
        failure := Some(UnexpectedMessage(f.kind));
      }
    } else if Truncated(b) {
      failure := Some(ReadFailed);
    }
  }

  lemma FrameOrNot(b: seq<u8>)
    ensures Truncated(b) || Undersized(b) || exists f :: Begins(b, f)
  {
    hide EncodeFrame, FrameFits, FromBigEndian;
    if !Truncated(b) && !Undersized(b) {
      var m := MessageAt(b, 0);
      assert b[1..5] == b[0 + 1..0 + 1 + 4];
      var (f, next) := m.value;
      MessageAtExact(b, 0, f, next);
      AtIsSlice(b, 0, EncodeFrame(f));
      assert Begins(b, f);
    }
  }

  // ---------- what takes the process down ----------

  /** A cancel request is not implemented: nothing is sent, and the process panics. */
  lemma CancelPanics(s: Server, faults: nat -> bool, sess: u32, key: u32, tail: seq<u8>)
    requires ValidServer(s) && NoFaultBefore(faults, 1)
    ensures var packet := [0x04, 0xd2, 0x16, 0x2e] + BigEndian(4, sess) + BigEndian(4, key);
            Conversation(s, EncodeBody(packet) + tail, faults) == Outcome([], Panicked)
  {
    hide BodyAt, Login, EncodeBody, At, ValidServer, BigEndian;
    var packet := [0x04, 0xd2, 0x16, 0x2e] + BigEndian(4, sess) + BigEndian(4, key);
    AtPrefix(EncodeBody(packet), tail);
    BodyAtExact(EncodeBody(packet) + tail, 0, packet, 16);
    assert packet[..4] == [0x04, 0xd2, 0x16, 0x2e];
  }

  /** So it does on a length field below 4 after any number of answered queries. */
  lemma UndersizedPanics(s: Server, faults: nat -> bool, ssl: bool, packet: seq<u8>, fs: seq<Frame>, after: seq<u8>)
    requires ValidServer(s) && NoFaults(faults) && 4 + |packet| < 0x1_0000_0000 && (!ssl ==> Plain(packet))
    requires Startup.DeserializeStartup(packet).Ok? && !WrongEncoding(s, Startup.DeserializeStartup(packet).value.params)
    requires AreQueries(fs) && Undersized(after)
    ensures Conversation(s, Opening(ssl, packet) + (Flat(EncodeFrame, fs) + after), faults)
            == Outcome(Ssl(ssl) + (Greeting(s) + Rounds(|fs|)), Panicked)
  {
    hide Serve, Greeting, Rounds, Startup.DeserializeStartup, Opening, Conversation, ValidServer, AreQueries, Flat, EncodeFrame, Undersized;
    var tail := Flat(EncodeFrame, fs) + after;
    var input := Opening(ssl, packet) + tail;
    var pos := |Opening(ssl, packet)|;
    Opened(s, faults, ssl, packet, tail);
    EncodingChecked(Startup.DeserializeStartup(packet).value, s);
    assert input[pos..] == tail;
    forall at: nat, t: nat | at <= |input| && input[at..] == after ensures Serve(input, faults, at, t) == Outcome([READY], Panicked) {
      NoFrameThere(input, at);
      PanicServed(input, faults, at, t);
    }
    QueriesServed(input, faults, pos, FirstOp(ssl), fs, after, Panicked);
  }

  lemma PanicServed(input: seq<u8>, faults: nat -> bool, pos: nat, tick: nat)
    requires NoFaults(faults) && MessageAt(input, pos) == Crashed
    ensures Serve(input, faults, pos, tick) == Outcome([READY], Panicked)
  {
    hide MessageAt;
  }

  // ---------- the first I/O failure ----------

  /** Operation `k` is the first that fails. */
  ghost predicate FirstFault(faults: nat -> bool, k: nat) {
    faults(k) && NoFaultBefore(faults, k)
  }

  /** Each turn of the loop flushes and then reads: the operation that fails decides how many queries
      have been answered and which error ends the session. */
  lemma {:induction false} FaultInLoop(input: seq<u8>, faults: nat -> bool, pos: nat, tick: nat, fs: seq<Frame>, after: seq<u8>, i: nat, reading: bool)
    requires pos <= |input| && AreQueries(fs) && input[pos..] == Flat(EncodeFrame, fs) + after && i <= |fs|
    requires FirstFault(faults, tick + 2 * i + (if reading then 1 else 0))
    ensures Serve(input, faults, pos, tick) == Outcome(Rounds(i), Broke(if reading then ReadFailed else IoFailed))
    decreases i
  {
    hide Begins, AreQueries, IsQuery, EncodeFrame, Flat, Serve;
    if i == 0 {
      FaultNow(input, faults, pos, tick, reading);
    } else {
      FirstQuery(input, pos, fs, after);
      var f := fs[0];
      var next := pos + |EncodeFrame(f)|;
      QueryServed(input, faults, pos, tick, f);
      FaultInLoop(input, faults, next, tick + 2, fs[1..], after, i - 1, reading);
    }
  }

  lemma FaultNow(input: seq<u8>, faults: nat -> bool, pos: nat, tick: nat, reading: bool)
    requires FirstFault(faults, tick + (if reading then 1 else 0))
    ensures Serve(input, faults, pos, tick) == Outcome(Rounds(0), Broke(if reading then ReadFailed else IoFailed))
  {
    hide MessageAt;
  }

  /** A failure in the loop of a client that was let in. */
  lemma LoopFails(s: Server, faults: nat -> bool, ssl: bool, packet: seq<u8>, fs: seq<Frame>, after: seq<u8>, i: nat, reading: bool)
    requires ValidServer(s) && 4 + |packet| < 0x1_0000_0000 && (!ssl ==> Plain(packet))
    requires Startup.DeserializeStartup(packet).Ok? && !WrongEncoding(s, Startup.DeserializeStartup(packet).value.params)
    requires AreQueries(fs) && i <= |fs| && FirstFault(faults, FirstOp(ssl) + 2 * i + (if reading then 1 else 0))
    ensures Trace(s, Opening(ssl, packet) + (Flat(EncodeFrame, fs) + after), faults)
            == Word(s, Served(ssl, i, Some(if reading then ReadFailed else IoFailed)))
  {
    hide Serve, Greeting, Rounds, Startup.DeserializeStartup, Opening, Conversation, ValidServer, AreQueries, Flat, EncodeFrame;
    var tail := Flat(EncodeFrame, fs) + after;
    var input := Opening(ssl, packet) + tail;
    var pos := |Opening(ssl, packet)|;
    Opened(s, faults, ssl, packet, tail);
    EncodingChecked(Startup.DeserializeStartup(packet).value, s);
    assert input[pos..] == tail;
    FaultInLoop(input, faults, pos, FirstOp(ssl), fs, after, i, reading);
    ServedWord(s, input, faults, ssl, i, Some(if reading then ReadFailed else IoFailed));
  }

  /** A failure before it: nothing but the error is sent, after the TLS answer if that was written. */
  lemma OpeningFails(s: Server, faults: nat -> bool, packet: seq<u8>, tail: seq<u8>, ssl: bool, k: nat)
    requires ValidServer(s) && FirstFault(faults, k) && k < FirstOp(ssl)
    ensures Trace(s, Opening(ssl, packet) + tail, faults) == Word(s, Rejected(k >= 2, IoFailed))
  {
    hide BodyAt, Login, EncodeBody, At, ValidServer;
    if ssl && k > 0 {
      var first := EncodeBody(Startup.SSL_CODE);
      SslBody();
      NotCancel();
      var rest := EncodeBody(packet) + tail;
      assert Opening(ssl, packet) + tail == first + rest;
      AtPrefix(first, rest);
      BodyAtExact(first + rest, 0, Startup.SSL_CODE, 8);
    }
  }

  // ---------- what is on the wire ----------

  /** The fixed messages of a session, byte for byte. */
  lemma FixedMessages()
    ensures EventBytes(RefuseSsl) == ['N' as int]
    ensures EventBytes(Sent(AuthenticationOk)) == ['R' as int, 0, 0, 0, 8, 0, 0, 0, 0]
    ensures EventBytes(Sent(BackendKeyData(0, 0))) == ['K' as int, 0, 0, 0, 12, 0, 0, 0, 0, 0, 0, 0, 0]
    ensures EventBytes(READY) == ['Z' as int, 0, 0, 0, 5, 'I' as int]
  {
    hide BigEndian;
    FourBytes(0);
    FourBytes(5);
    FourBytes(8);
    FourBytes(12);
  }

  /** A completed query is answered by its tag. */
  lemma Completion()
    ensures DONE == Sent(CommandComplete("HELLOWORLD"))
    ensures EventBytes(DONE)[..5] == ['C' as int, 0, 0, 0, 15] && EventBytes(DONE)[5..] == Cstr("HELLOWORLD")
  {
    hide BigEndian, Cstr;
    FourBytes(15);
    assert |Cstr("HELLOWORLD")| == 11 by { AsciiLength("HELLOWORLD"); }
  }

  lemma {:induction false} AsciiLength(s: string)
    requires forall k :: 0 <= k < |s| ==> s[k] as int < 0x80
    ensures |Utf8.Encode(s)| == |s|
    ensures |Cstr(s)| == |s| + 1
  {
    if s != "" {
      AsciiLength(s[1..]);
    }
  }

  /** Every error is fatal, with the code of a failed connection for a read, of an internal error for
      other I/O, and of a protocol violation for everything the client did. */
  lemma ErrorSays(s: Server, e: SessionError)
    ensures ErrorEvent(s, e) == Sent(ErrorResponse(ErrFields(Some("FATAL"),
              Some(if e == IoFailed then "XX000" else if e == ReadFailed then "08006" else "08P01"), Some(s.errorText(e)))))
  {
  }

  /** The first byte of each thing sent. */
  function Letters(t: seq<Event>): seq<u8> {
    if t == [] then [] else [EventBytes(t[0])[0]] + Letters(t[1..])
  }

  function Repeat(x: seq<u8>, n: nat): seq<u8> {
    if n == 0 then [] else x + Repeat(x, n - 1)
  }

  lemma {:induction false} LettersConcat(t: seq<Event>, u: seq<Event>)
    ensures Letters(t + u) == Letters(t) + Letters(u)
  {
    hide EventBytes;
    if t == [] {
      assert t + u == u;
    } else {
      LettersConcat(t[1..], u);
      assert (t + u)[1..] == t[1..] + u;
    }
  }

  lemma LettersOne(e: Event)
    ensures Letters([e]) == [EventBytes(e)[0]]
  {
    hide EventBytes;
    assert [e][1..] == [];
  }

  lemma FirstByte(m: Message)
    ensures EventBytes(Sent(m))[0] == TypeByte(m)
  {
    hide Body, BigEndian, TypeByte;
  }

  lemma LoopLetters()
    ensures Letters([READY]) == ['Z' as int] && Letters([DONE]) == ['C' as int]
  {
    hide EventBytes, Letters;
    LettersOne(READY);
    LettersOne(DONE);
    FirstByte(ReadyForQuery(NotInBlock));
    FirstByte(CommandComplete(TAG));
  }

  lemma ReportLetter(name: string, value: string)
    ensures Letters([Sent(ParameterStatus(name, value))]) == ['S' as int]
  {
    hide EventBytes, Letters;
    LettersOne(Sent(ParameterStatus(name, value)));
    FirstByte(ParameterStatus(name, value));
  }

  lemma {:induction false} RoundLetters(n: nat)
    ensures Letters(Rounds(n)) == ['Z' as int] + Repeat(['C' as int, 'Z' as int], n)
  {
    hide Letters;
    LoopLetters();
    if n > 0 {
      RoundLetters(n - 1);
      assert Rounds(n) == [READY] + ([DONE] + Rounds(n - 1));
      LettersConcat([DONE], Rounds(n - 1));
      LettersConcat([READY], [DONE] + Rounds(n - 1));
      var cz := ['C' as int, 'Z' as int];
      assert ['C' as int] + (['Z' as int] + Repeat(cz, n - 1)) == cz + Repeat(cz, n - 1);
    }
  }

  lemma {:induction false} ReportLetters(s: Server, n: nat)
    requires ValidServer(s) && n <= |s.order|
    ensures Letters(Reports(s, n)) == Repeat(['S' as int], |Reports(s, n)|)
  {
    hide Show, MetaAt, ShouldReport, Letters, Repeat;
    if n > 0 {
      ReportLetters(s, n - 1);
      var init, name := Reports(s, n - 1), s.order[n - 1];
      var last := Report(s, name);
      LettersConcat(init, last);
      if last == [] {
        assert init + last == init;
      } else {
        ReportLetter(name, last[0].m.value);
        RepeatPush(['S' as int], |init|);
      }
    } else {
      NoLetters();
      NoRepeat(['S' as int]);
    }
  }

  lemma NoRepeat(x: seq<u8>)
    ensures Repeat(x, 0) == []
  {
  }

  lemma {:induction false} RepeatPush(x: seq<u8>, n: nat)
    ensures Repeat(x, n + 1) == Repeat(x, n) + x
  {
    if n > 0 {
      RepeatPush(x, n - 1);
      assert x + (Repeat(x, n - 1) + x) == x + Repeat(x, n - 1) + x;
    } else {
      assert x + [] == [] + x;
    }
  }

  /** The words of the grammar, letter by letter: N? (E | R S* K Z (C Z)* E?). */
  lemma WordLetters(s: Server, shape: Shape)
    requires ValidServer(s)
    ensures var n: seq<u8> := if shape.ssl then ['N' as int] else [];
            Letters(Word(s, shape))
            == match shape
               case Rejected(_, _) => n + ['E' as int]
               case Served(_, queries, failure) =>
                 n + (['R' as int] + Repeat(['S' as int], |Reports(s, |s.order|)|) + ['K' as int]
                      + (['Z' as int] + Repeat(['C' as int, 'Z' as int], queries) + (if failure.Some? then ['E' as int] else [])))
  {
    hide Reports, Rounds, Letters, ValidServer;
    var z := Ssl(shape.ssl);
    assert Letters(z) == if shape.ssl then ['N' as int] else [] by { LettersOne(RefuseSsl); NoLetters(); }
    match shape
    case Rejected(_, error) =>
      LettersOne(ErrorEvent(s, error));
      LettersConcat(z, [ErrorEvent(s, error)]);
    case Served(_, queries, failure) =>
      var err := if failure.Some? then [ErrorEvent(s, failure.value)] else [];
      assert Letters(err) == if failure.Some? then ['E' as int] else [] by {
        NoLetters();
        if failure.Some? {
          LettersOne(err[0]);
        }
      }
      RoundLetters(queries);
      GreetingLetters(s);
      LettersConcat(Rounds(queries), err);
      LettersConcat(Greeting(s), Rounds(queries) + err);
      LettersConcat(z, Greeting(s) + (Rounds(queries) + err));
  }

  lemma NoLetters()
    ensures Letters([]) == []
  {
  }

  lemma GreetingLetters(s: Server)
    requires ValidServer(s)
    ensures Letters(Greeting(s)) == ['R' as int] + Repeat(['S' as int], |Reports(s, |s.order|)|) + ['K' as int]
  {
    hide Reports;
    var r, k := Sent(AuthenticationOk), Sent(BackendKeyData(0, 0));
    LettersOne(r);
    LettersOne(k);
    ReportLetters(s, |s.order|);
    LettersConcat([r], Reports(s, |s.order|));
    LettersConcat([r] + Reports(s, |s.order|), [k]);
  }

  /** A server with one string setting, its encoding, meets everything asked of servers above. */
  lemma SomeServer(fl: Floats, text: string)
    requires CleanText(text)
    ensures var meta := Meta(Internal, 0x10, None, None);
            var s := Server(Registry(map["client_encoding" := S(0)], [], [], [meta], []), fl, GucVals([], [], ["UTF8"], []),
                            ["client_encoding"], 0, _ => text);
            ValidServer(s) && CleanServer(s)
  {
    hide Utf8.Encode;
    ShortText("client_encoding");
    ShortText("UTF8");
  }
}
