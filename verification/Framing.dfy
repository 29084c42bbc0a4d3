/** Frames in and out of a client socket: `read_message` into a reused buffer,
    `write_message` through a reused buffer (src/protocol.rs, `Sock` in src/lib.rs). */
module Framing {
  import opened Wrappers
  import opened ByteOrder
  import Utf8
  import opened Messages

  /** The outcome of a read.  A length below 4 underflows `len - 4` and takes the process down. */
  datatype Read<+T> = Got(value: T) | IoError | Crashed

  datatype Frame = Frame(kind: int, body: seq<u8>)

  function BodyAt(input: seq<u8>, pos: nat): (r: Read<(seq<u8>, nat)>)
    ensures r.Got? ==> pos + 4 <= r.value.1 <= |input|
  {
    if pos + 4 > |input| then IoError
    else
      var len := FromBigEndian(input[pos..pos + 4]);
      if len < 4 then Crashed
      else if pos + len > |input| then IoError
      else Got((input[pos + 4..pos + len], pos + len))
  }

  function MessageAt(input: seq<u8>, pos: nat): (r: Read<(Frame, nat)>)
    ensures r.Got? ==> pos + 5 <= r.value.1 <= |input|
  {
    if pos >= |input| then IoError
    else
      match BodyAt(input, pos + 1)
      case IoError => IoError
      case Crashed => Crashed
      case Got((body, next)) => Got((Frame(Signed(1, input[pos]), body), next))
  }

  /** How a client encodes a body and a frame (section 52.7). */
  function EncodeBody(body: seq<u8>): seq<u8> {
    BigEndian(4, 4 + |body|) + body
  }

  predicate FrameFits(f: Frame) {
    -0x80 <= f.kind < 0x80 && 4 + |f.body| < 0x1_0000_0000
  }

  function KindByte(kind: int): u8 {
    if kind < 0 then (kind + 256) % 256 else kind % 256
  }

  function EncodeFrame(f: Frame): seq<u8> {
    [KindByte(f.kind)] + EncodeBody(f.body)
  }

  lemma BodyAtExact(input: seq<u8>, pos: nat, body: seq<u8>, next: nat)
    ensures BodyAt(input, pos) == Got((body, next)) <==>
              4 + |body| < 0x1_0000_0000 && At(input, pos, EncodeBody(body)) && next == pos + 4 + |body|
  {
    hide BigEndian, At;
    Widths();
    AtSplit(input, pos, BigEndian(4, 4 + |body|), body);
    if BodyAt(input, pos) == Got((body, next)) {
      WriteBack(input[pos..pos + 4]);
      AtSlice(input, pos, pos + 4);
      AtSlice(input, pos + 4, next);
    }
    if 4 + |body| < 0x1_0000_0000 && At(input, pos, EncodeBody(body)) {
      AtIsSlice(input, pos, BigEndian(4, 4 + |body|));
      AtIsSlice(input, pos + 4, body);
      ReadBack(4, 4 + |body|);
    }
  }

  lemma KindByteIsPattern(kind: int, x: u8)
    requires -0x80 <= kind < 0x80
    ensures KindByte(kind) == x <==> Signed(1, x) == kind
  {
    assert Range(1) == 256;
  }

  lemma MessageAtExact(input: seq<u8>, pos: nat, f: Frame, next: nat)
    ensures MessageAt(input, pos) == Got((f, next)) <==>
              FrameFits(f) && At(input, pos, EncodeFrame(f)) && next == pos + |EncodeFrame(f)|
  {
    hide BodyAt, At, Signed, KindByte, EncodeBody;
    assert |EncodeBody(f.body)| == 4 + |f.body| by { BodyLength(f.body); }
    AtSplit(input, pos, [KindByte(f.kind)], EncodeBody(f.body));
    AtByte(input, pos, KindByte(f.kind));
    BodyAtExact(input, pos + 1, f.body, next);
    if pos < |input| {
      assert Range(1) == 256;
      var k := Signed(1, input[pos]);
      if -0x80 <= f.kind < 0x80 {
        KindByteIsPattern(f.kind, input[pos]);
      }
    }
  }

  lemma BodyLength(body: seq<u8>)
    ensures |EncodeBody(body)| == 4 + |body|
  {
  }

  /** Every frame `read_message` would deliver, one after the other. */
  function ReadFrames(input: seq<u8>, pos: nat): seq<Frame>
    decreases |input| - pos
  {
    match MessageAt(input, pos)
    case Got((f, next)) => [f] + ReadFrames(input, next)
    case _ => []
  }

  /** Whatever frames the client sends back to back are the frames the server reads. */
  lemma {:induction false} FramesRecoveredFrom(input: seq<u8>, pos: nat, fs: seq<Frame>)
    requires forall f :: f in fs ==> FrameFits(f)
    requires At(input, pos, Flat(EncodeFrame, fs)) && pos + |Flat(EncodeFrame, fs)| == |input|
    ensures ReadFrames(input, pos) == fs
    decreases |fs|
  {
    hide At, MessageAt, EncodeFrame, FrameFits;
    if fs == [] {
      AtEnd(input, pos);
    } else {
      assert fs == [fs[0]] + fs[1..];
      AtSplit(input, pos, EncodeFrame(fs[0]), Flat(EncodeFrame, fs[1..]));
      var next := pos + |EncodeFrame(fs[0])|;
      MessageAtExact(input, pos, fs[0], next);
      assert |EncodeFrame(fs[0])| > 0 by { FrameNotEmpty(fs[0]); }
      FramesRecoveredFrom(input, next, fs[1..]);
    }
  }

  lemma AtEnd(input: seq<u8>, pos: nat)
    requires pos >= |input|
    ensures MessageAt(input, pos) == IoError
  {
  }

  lemma FrameNotEmpty(f: Frame)
    ensures |EncodeFrame(f)| > 0
  {
  }

  lemma FramesRecovered(fs: seq<Frame>)
    requires forall f :: f in fs ==> FrameFits(f)
    ensures ReadFrames(Flat(EncodeFrame, fs), 0) == fs
  {
    hide EncodeFrame, ReadFrames;
    var input := Flat(EncodeFrame, fs);
    assert input[0..|input|] == input;
    FramesRecoveredFrom(input, 0, fs);
  }

  // ---------- Query ----------

  /** `Query::deserialize`: the last byte is dropped unseen. */
  function DeserializeQuery(d: seq<u8>): Result<string, ProtoError> {
    if d == [] then Err(EmptyQuery)
    else
      match Utf8.Decode(d[..|d| - 1])
      case None => Err(NotUtf8)
      case Some(q) => Ok(q)
  }

  /** A query body is accepted exactly when it is some text followed by one byte of any value. */
  lemma DeserializeQueryExact(d: seq<u8>, q: string)
    ensures DeserializeQuery(d) == Ok(q) <==> d != [] && d == Utf8.Encode(q) + [d[|d| - 1]]
  {
    Utf8.DecodeInverts(q);
    if d != [] {
      assert d == d[..|d| - 1] + [d[|d| - 1]];
    }
  }

  /** In bytes: well-formed UTF-8 sequences that spell the query, and one byte of any value. */
  lemma QueryBytesExact(d: seq<u8>, q: string)
    ensures DeserializeQuery(d) == Ok(q) <==> d != [] && Utf8.WellFormed(d[..|d| - 1], q)
  {
    hide Utf8.WellFormed, Utf8.Decode;
    if d != [] {
      Utf8.DecodeExact(d[..|d| - 1], q);
    }
  }

  const QUERY := 'Q' as int
  const TERMINATE := 'X' as int
  const EOF := -1

  function QueryFrame(q: string): Frame {
    Frame(QUERY, Cstr(q))
  }

  function QueryFrames(qs: seq<string>): (fs: seq<Frame>)
    ensures |fs| == |qs| && forall k :: 0 <= k < |qs| ==> fs[k] == QueryFrame(qs[k])
  {
    seq(|qs|, k requires 0 <= k < |qs| => QueryFrame(qs[k]))
  }

  /** The queries a client sends are the queries the server sees. */
  lemma QueriesRecovered(qs: seq<string>)
    requires forall k :: 0 <= k < |qs| ==> |Cstr(qs[k])| + 4 < 0x1_0000_0000
    ensures var got := ReadFrames(Flat(EncodeFrame, QueryFrames(qs)), 0);
            |got| == |qs| && forall k :: 0 <= k < |qs| ==> got[k].kind == QUERY && DeserializeQuery(got[k].body) == Ok(qs[k])
  {
    hide ReadFrames, EncodeFrame, Utf8.Encode, DeserializeQuery;
    var fs := QueryFrames(qs);
    FramesRecovered(fs);
    forall k | 0 <= k < |qs| ensures DeserializeQuery(fs[k].body) == Ok(qs[k]) {
      DeserializeQueryExact(Cstr(qs[k]), qs[k]);
    }
  }

  // ---------- the socket ----------

  /** A connected client: what it sends, how far it has been read, what has been written to it. */
  class Sock {
    const input: seq<u8>
    const serbuf: ByteBuf
    var pos: nat
    var out: seq<u8>

    constructor (input: seq<u8>, serbuf: ByteBuf)
      ensures this.input == input && this.serbuf == serbuf && pos == 0 && out == []
    {
      this.input := input;
      this.serbuf := serbuf;
      pos, out := 0, [];
    }

    /** `write_message`. */
    method WriteMessage(m: Message)
      modifies this`out, serbuf
      ensures out == old(out) + Encode(m)
    {
      Serialize(m, serbuf);
      out := out + serbuf.data;
    }

    method ReadExact(content: ByteBuf) returns (ok: bool)
      requires content != serbuf
      modifies this`pos, content
      ensures ok == (old(pos) + |old(content.data)| <= |input|)
      ensures ok ==> pos == old(pos) + |old(content.data)| && content.data == input[old(pos)..pos]
    {
      var n := |content.data|;
      if pos + n > |input| {
        return false;
      }
      content.Clear();
      content.Extend(input[pos..pos + n]);
      pos := pos + n;
      return true;
    }

    /** `read_body`: reads the length, gives the buffer that many bytes (stale or
        uninitialised ones) and fills all of them. */
    method ReadBody(content: ByteBuf) returns (r: Read<()>)
      requires content != serbuf
      modifies this`pos, content
      ensures match BodyAt(input, old(pos))
              case Got((body, next)) => r == Got(()) && content.data == body && pos == next
              case IoError => r == IoError
              case Crashed => r == Crashed
    {
      if pos + 4 > |input| {
        return IoError;
      }
      var len := FromBigEndian(input[pos..pos + 4]);
      pos := pos + 4;
      if len < 4 {
        return Crashed;
      }
      content.Resize(len - 4, 0);
      var ok := ReadExact(content);
      return if ok then Got(()) else IoError;
    }

    /** `read_message`. */
    method ReadMessage(content: ByteBuf) returns (r: Read<int>)
      requires content != serbuf
      modifies this`pos, content
      ensures match MessageAt(input, old(pos))
              case Got((f, next)) => r == Got(f.kind) && content.data == f.body && pos == next
              case IoError => r == IoError
              case Crashed => r == Crashed
    {
      if pos >= |input| {
        return IoError;
      }
      var kind := Signed(1, input[pos]);
      pos := pos + 1;
      var body := ReadBody(content);
      match body {
        case Got(_) => return Got(kind);
        case IoError => return IoError;
        case Crashed => return Crashed;
      }
    }
  }
}
