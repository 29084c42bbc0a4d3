/** One client session: `postgres_main`, `do_postgres_main` and `on_error` of src/lib.rs,
    with `report_all_gucs` of src/protocol.rs. */
module Session {
  import opened Wrappers
  import opened ByteOrder
  import opened Messages
  import opened Framing
  import Startup
  import opened GucStates
  import opened GucRegistry

  /** What the process shares with every session: the settings, the order in which the name
      map happens to be iterated, the slot of `client_encoding`, and the text of each error. */
  datatype Server = Server(reg: Registry, fl: Floats, vals: GucVals, order: seq<string>, clientEncoding: nat,
                           errorText: SessionError -> string)

  datatype SessionError =
    | IoFailed
    | BadStartup(error: ProtoError)
    | BadEncoding
    | ReadFailed
    | UnexpectedMessage(kind: int)
    | BadQuery(error: ProtoError)

  /** `errcode`: only errors that carry a context have a code of their own. */
  function ErrCode(e: SessionError): string {
    match e
    case IoFailed => "XX000"
    case ReadFailed => "08006"
    case _ => "08P01"
  }

  const SEVERITY_FATAL := "FATAL"
  const TAG := "HELLOWORLD"

  datatype Event = RefuseSsl | Sent(m: Message)

  datatype End = Closed | Broke(error: SessionError) | Panicked

  datatype Outcome = Outcome(events: seq<Event>, end: End)

  predicate ValidServer(s: Server) {
    && ValidRegistry(s.reg) && Fits(s.reg, s.vals) && s.clientEncoding < |s.reg.strs|
    && (forall n :: n in s.order ==> n in s.reg.nameMap) && (forall n :: n in s.reg.nameMap ==> n in s.order)
    && (forall j, k :: 0 <= j < k < |s.order| ==> s.order[j] != s.order[k])
  }

  function EventBytes(e: Event): seq<u8> {
    match e
    case RefuseSsl => ['N' as int]
    case Sent(m) => Encode(m)
  }

  // ---------- the greeting ----------

  function Report(s: Server, name: string): seq<Event>
    requires ValidServer(s) && name in s.order
  {
    var idx := s.reg.nameMap[name];
    if ShouldReport(MetaAt(s.reg, idx)) then [Sent(ParameterStatus(name, Show(s.reg, s.fl, s.vals, idx)))] else []
  }

  /** `report_all_gucs`, over the first `n` names of the map. */
  function Reports(s: Server, n: nat): seq<Event>
    requires ValidServer(s) && n <= |s.order|
  {
    if n == 0 then [] else Reports(s, n - 1) + Report(s, s.order[n - 1])
  }

  function Greeting(s: Server): seq<Event>
    requires ValidServer(s)
  {
    [Sent(AuthenticationOk)] + Reports(s, |s.order|) + [Sent(BackendKeyData(0, 0))]
  }

  const READY := Sent(ReadyForQuery(NotInBlock))
  const DONE := Sent(CommandComplete(TAG))

  // ---------- what a run sends ----------

  /** The query loop, from input position `pos` and I/O operation `tick` on. */
  function Serve(input: seq<u8>, faults: nat -> bool, pos: nat, tick: nat): Outcome
    decreases |input| - pos
  {
    if faults(tick) then Outcome([READY], Broke(IoFailed))
    else if faults(tick + 1) then Outcome([READY], Broke(ReadFailed))
    else
      match MessageAt(input, pos)
      case IoError => Outcome([READY], Broke(ReadFailed))
      case Crashed => Outcome([READY], Panicked)
      case Got((f, next)) =>
        if f.kind == EOF || f.kind == TERMINATE then Outcome([READY], Closed)
        else if f.kind != QUERY then Outcome([READY], Broke(UnexpectedMessage(f.kind)))
        else
          match DeserializeQuery(f.body)
          case Err(e) => Outcome([READY], Broke(BadQuery(e)))
          case Ok(_) =>
            var rest := Serve(input, faults, next, tick + 2);
            Outcome([READY, DONE] + rest.events, rest.end)
  }

  /** From a startup packet on. */
  function Login(s: Server, input: seq<u8>, faults: nat -> bool, packet: seq<u8>, pos: nat, tick: nat): Outcome
    requires ValidServer(s)
  {
    match Startup.DeserializeStartup(packet)
    case Err(e) => Outcome([], Broke(BadStartup(e)))
    case Ok(m) =>
      if !m.CheckClientEncoding(s.vals.strs[s.clientEncoding]) then Outcome([], Broke(BadEncoding))
      else
        var loop := Serve(input, faults, pos, tick);
        Outcome(Greeting(s) + loop.events, loop.end)
  }

  function Conversation(s: Server, input: seq<u8>, faults: nat -> bool): Outcome
    requires ValidServer(s)
  {
    if faults(0) then Outcome([], Broke(IoFailed))
    else
      match BodyAt(input, 0)
      case IoError => Outcome([], Broke(IoFailed))
      case Crashed => Outcome([], Panicked)
      case Got((packet, pos)) =>
        if Startup.DeserializeCancel(packet).Some? then Outcome([], Panicked)
        else if !Startup.IsSsl(packet) then Login(s, input, faults, packet, pos, 1)
        else if faults(1) then Outcome([], Broke(IoFailed))
        else if faults(2) || faults(3) then Outcome([RefuseSsl], Broke(IoFailed))
        else
          match BodyAt(input, pos)
          case IoError => Outcome([RefuseSsl], Broke(IoFailed))
          case Crashed => Outcome([RefuseSsl], Panicked)
          case Got((second, pos2)) =>
            var rest := Login(s, input, faults, second, pos2, 4);
            Outcome([RefuseSsl] + rest.events, rest.end)
  }

  function ErrorEvent(s: Server, e: SessionError): Event {
    Sent(ErrorResponse(ErrFields(Some(SEVERITY_FATAL), Some(ErrCode(e)), Some(s.errorText(e)))))
  }

  /** Everything a session sends: `on_error` adds the error response. */
  function Trace(s: Server, input: seq<u8>, faults: nat -> bool): seq<Event>
    requires ValidServer(s)
  {
    var o := Conversation(s, input, faults);
    o.events + (if o.end.Broke? then [ErrorEvent(s, o.end.error)] else [])
  }

  // ---------- the server side ----------

  class Backend {
    const server: Server
    const faults: nat -> bool
    const sock: Sock
    const inmsgbuf: ByteBuf
    var tick: nat
    ghost var events: seq<Event>

    constructor (server: Server, input: seq<u8>, faults: nat -> bool, bigEndianHost: bool)
      ensures this.server == server && this.faults == faults && sock.input == input
      ensures fresh(sock) && fresh(sock.serbuf) && fresh(inmsgbuf)
      ensures Started() && sock.pos == 0 && tick == 0 && events == []
    {
      this.server, this.faults := server, faults;
      var serbuf := new ByteBuf(bigEndianHost);
      sock := new Sock(input, serbuf);
      inmsgbuf := new ByteBuf(bigEndianHost);
      tick, events := 0, [];
    }

    /** The buffers are distinct and what has been written is what the events say. */
    ghost predicate Started()
      reads this, sock
    {
      inmsgbuf != sock.serbuf && sock.out == Flat(EventBytes, events)
    }

    /** Whether the next fallible I/O operation fails. */
    method Fails() returns (b: bool)
      requires Started()
      modifies this`tick
      ensures Started()
      ensures b == faults(old(tick)) && tick == old(tick) + 1
    {
      b := faults(tick);
      tick := tick + 1;
    }

    method Send(m: Message)
      requires Started()
      modifies this`events, sock`out, sock.serbuf
      ensures Started() && events == old(events) + [Sent(m)]
    {
      sock.WriteMessage(m);
      events := events + [Sent(m)];
      FlatPush(EventBytes, old(events), Sent(m));
    }

    method NextMessage() returns (r: Read<int>)
      requires Started()
      modifies sock`pos, inmsgbuf
      ensures Started()
      ensures match MessageAt(sock.input, old(sock.pos))
              case Got((f, next)) => r == Got(f.kind) && inmsgbuf.data == f.body && sock.pos == next
              case IoError => r == IoError
              case Crashed => r == Crashed
    {
      hide MessageAt, Flat, EventBytes;
      r := sock.ReadMessage(inmsgbuf);
    }

    method NextPacket() returns (r: Read<()>)
      requires Started()
      modifies sock`pos, inmsgbuf
      ensures Started()
      ensures match BodyAt(sock.input, old(sock.pos))
              case Got((body, next)) => r == Got(()) && inmsgbuf.data == body && sock.pos == next
              case IoError => r == IoError
              case Crashed => r == Crashed
    {
      hide BodyAt, Flat, EventBytes;
      r := sock.ReadBody(inmsgbuf);
    }

    /** `report_guc` for every name of the map. */
    method ReportAllGucs()
      requires Started() && ValidServer(server)
      modifies this`events, sock`out, sock.serbuf
      ensures Started() && events == old(events) + Reports(server, |server.order|)
    {
      hide Started, Show, Flat, EventBytes, Get, Fits, MetaAt;
      for k := 0 to |server.order|
        invariant Started() && events == old(events) + Reports(server, k)
      {
        var name := server.order[k];
        var idx := server.reg.nameMap[name];
        if ShouldReport(MetaAt(server.reg, idx)) {
          var value := Show(server.reg, server.fl, server.vals, idx);
          Send(ParameterStatus(name, value));
        }
        assert Reports(server, k + 1) == Reports(server, k) + Report(server, name);
      }
    }

    /** One turn of the query loop: the end of the session, or one more answered query. */
    method ServeOne() returns (end: Option<End>)
      requires Started()
      modifies this`tick, this`events, sock, sock.serbuf, inmsgbuf
      ensures Started()
      ensures var o := Serve(sock.input, faults, old(sock.pos), old(tick));
              if end.Some? then o == Outcome([READY], end.value) && events == old(events) + [READY]
              else
                var rest := Serve(sock.input, faults, sock.pos, tick);
                o == Outcome([READY, DONE] + rest.events, rest.end) && events == old(events) + [READY, DONE]
                && old(sock.pos) < sock.pos <= |sock.input|
    {
      hide Started, MessageAt, DeserializeQuery, Flat, EventBytes;
      Send(ReadyForQuery(NotInBlock));
      var flushFailed := Fails();
      if flushFailed {
        return Some(Broke(IoFailed));
      }
      var readFailed := Fails();
      if readFailed {
        return Some(Broke(ReadFailed));
      }
      var msgtype := NextMessage();
      if msgtype.Crashed? {
        return Some(Panicked);
      }
      if msgtype.IoError? {
        return Some(Broke(ReadFailed));
      }
      if msgtype.value == EOF || msgtype.value == TERMINATE {
        return Some(Closed);
      }
      if msgtype.value != QUERY {
        return Some(Broke(UnexpectedMessage(msgtype.value)));
      }
      var query := DeserializeQuery(inmsgbuf.data);
      if query.Err? {
        return Some(Broke(BadQuery(query.error)));
      }
      Send(CommandComplete(TAG));
      return None;
    }

    /** The query loop. */
    method ServeQueries() returns (end: End)
      requires Started()
      modifies this`tick, this`events, sock, sock.serbuf, inmsgbuf
      ensures Started()
      ensures var o := Serve(sock.input, faults, old(sock.pos), old(tick));
              events == old(events) + o.events && end == o.end
    {
      hide Started, Serve;
      ghost var all := Serve(sock.input, faults, sock.pos, tick);
      while true
        invariant Started()
        invariant var rest := Serve(sock.input, faults, sock.pos, tick);
                  old(events) + all.events == events + rest.events && all.end == rest.end
        decreases |sock.input| - sock.pos
      {
        ghost var before := events;
        var stop := ServeOne();
        ghost var rest := Serve(sock.input, faults, sock.pos, tick);
        if stop.Some? {
          return stop.value;
        }
        assert before + ([READY, DONE] + rest.events) == events + rest.events;
      }
    }

    method ServeLogin() returns (end: End)
      requires Started() && ValidServer(server)
      modifies this`tick, this`events, sock, sock.serbuf, inmsgbuf
      ensures Started()
      ensures var o := Login(server, sock.input, faults, old(inmsgbuf.data), old(sock.pos), old(tick));
              events == old(events) + o.events && end == o.end
    {
      hide Started, Serve, Reports, Startup.DeserializeStartup;
      var startup := Startup.Deserialize(inmsgbuf.data);
      if startup.Err? {
        return Broke(BadStartup(startup.error));
      }
      if !startup.value.CheckClientEncoding(server.vals.strs[server.clientEncoding]) {
        return Broke(BadEncoding);
      }
      Send(AuthenticationOk);
      ReportAllGucs();
      Send(BackendKeyData(0, 0));
      assert events == old(events) + Greeting(server);
      end := ServeQueries();
    }

    /** `do_postgres_main`; the cancel branch is `todo!()` there. */
    method DoPostgresMain() returns (end: End)
      requires Started() && ValidServer(server) && sock.pos == 0 && tick == 0
      modifies this`tick, this`events, sock, sock.serbuf, inmsgbuf
      ensures Started()
      ensures var o := Conversation(server, sock.input, faults);
              events == old(events) + o.events && end == o.end
    {
      hide Started, BodyAt, Login, ValidServer, Startup.DeserializeCancel, Startup.IsSsl, Flat;
      var readFailed := Fails();
      if readFailed {
        return Broke(IoFailed);
      }
      var packet := NextPacket();
      match packet {
        case Crashed => return Panicked;
        case IoError => return Broke(IoFailed);
        case Got(_) =>
      }
      if Startup.DeserializeCancel(inmsgbuf.data).Some? {
        return Panicked;
      }
      if Startup.IsSsl(inmsgbuf.data) {
        var writeFailed := Fails();
        if writeFailed {
          return Broke(IoFailed);
        }
        RefuseTls();
        var flushFailed := Fails();
        if flushFailed {
          return Broke(IoFailed);
        }
        readFailed := Fails();
        if readFailed {
          return Broke(IoFailed);
        }
        packet := NextPacket();
        match packet {
          case Crashed => return Panicked;
          case IoError => return Broke(IoFailed);
          case Got(_) =>
        }
      }
      end := ServeLogin();
    }

    method RefuseTls()
      requires Started()
      modifies this`events, sock`out
      ensures Started() && events == old(events) + [RefuseSsl]
    {
      sock.out := sock.out + ['N' as int];
      events := events + [RefuseSsl];
      FlatPush(EventBytes, old(events), RefuseSsl);
    }

    /** `postgres_main`: the conversation, then the error response if it broke. */
    method PostgresMain()
      requires Started() && ValidServer(server) && sock.pos == 0 && tick == 0 && events == []
      modifies this`tick, this`events, sock, sock.serbuf, inmsgbuf
      ensures events == Trace(server, sock.input, faults)
      ensures sock.out == Flat(EventBytes, Trace(server, sock.input, faults))
    {
      var end := DoPostgresMain();
      if end.Broke? {
        Send(ErrorResponse(ErrFields(Some(SEVERITY_FATAL), Some(ErrCode(end.error)), Some(server.errorText(end.error)))));
      }
    }
  }
}
