/** The X protocol wire client: framing of outgoing messages, two-phase
    reading of a reply, dispatch on the reply's id, one request/reply
    exchange and the classification of an unwanted reply.

    The socket is two octet streams: `input` holds what the server has sent
    and the client has not read yet, `output` everything the client wrote.
    Reads and writes transfer the whole requested amount or fail. */
module XConnector {
  import opened Bytes
  import opened Results
  import opened Decimal
  import opened XFraming
  import opened XRegistry

  /** A decoded server message: its kind and its (opaque) payload octets. */
  datatype Message = Message(kind: Kind, body: seq<byte>)

  /** A reply together with the id it arrived with (the `mid` out-parameter). */
  datatype Reply = Reply(mid: int, msg: Message)

  /** What the client raises: `std::runtime_error` and `std::logic_error`
      with their text, and the refusal of a length field below five. */
  datatype Failure =
    | RuntimeError(text: string)
    | LogicError(text: string)
    | FrameUnderflow(declared: int)

  /** The connector's socket. `releases` counts how often an open socket was
      actually shut; `fault` is the text the transport reports when a
      transfer cannot be completed. */
  datatype Connector = Connector(input: seq<byte>, output: seq<byte>, open: bool, releases: nat, fault: string)

  /** The value or failure of a call together with the socket after it. */
  datatype Outcome<+T> = Outcome(result: Result<T, Failure>, conn: Connector)

  /** Writes one frame. Both `send_message` overloads produce the same
      octets for the same serialized payload. */
  function SendMessage(c: Connector, mid: int, payload: seq<byte>): (o: Outcome<()>)
    ensures o.result.Returned? <==> c.open
    ensures o.conn.input == c.input && o.conn.open == c.open && o.conn.releases == c.releases
    ensures c.open ==> o.conn.output == c.output + EncodeFrame(mid, payload)
    ensures !c.open ==> o.conn.output == c.output && o.result == Raised(RuntimeError(c.fault))
  {
    if c.open then Outcome(Returned(()), c.(output := c.output + EncodeFrame(mid, payload)))
    else Outcome(Raised(RuntimeError(c.fault)), c)
  }

  /** Reads exactly `n` octets, or fails with the transport's text. */
  function ReadExact(c: Connector, n: nat): (o: Outcome<seq<byte>>)
    ensures o.result.Returned? <==> c.open && n <= |c.input|
    ensures o.result.Returned? ==> |o.result.value| == n && c.input == o.result.value + o.conn.input
    ensures o.result.Raised? ==> o.result.error == RuntimeError(c.fault)
    ensures o.conn.output == c.output && o.conn.open == c.open && o.conn.releases == c.releases
  {
    if c.open && n <= |c.input| then
      assert c.input == c.input[..n] + c.input[n..];
      Outcome(Returned(c.input[..n]), c.(input := c.input[n..]))
    else
      Outcome(Raised(RuntimeError(c.fault)), c.(input := []))
  }

  const UNKNOWN_PREFIX: string := "Unknown message received from server: "

  /** The text of the logic error raised for an id outside the closed set:
      the fixed prefix, then the id in decimal, which reads back as the id. */
  function UnknownMessageText(mid: int): (t: string)
    ensures |t| > |UNKNOWN_PREFIX| && t[..|UNKNOWN_PREFIX|] == UNKNOWN_PREFIX
    ensures ParseInt(t[|UNKNOWN_PREFIX|..]) == Some(mid)
  {
    IntToStringRoundTrip(mid);
    var t := UNKNOWN_PREFIX + IntToString(mid);
    assert t[|UNKNOWN_PREFIX|..] == IntToString(mid);
    t
  }

  /** `read_response`: the five header octets, then exactly the announced
      payload, then dispatch on the id. A failed transfer raises the
      transport's text; an unknown id raises a logic error naming it. */
  function ReadResponse(reg: Registry, c: Connector): (o: Outcome<Reply>)
    requires Valid(reg)
    ensures o.conn.output == c.output && o.conn.open == c.open && o.conn.releases == c.releases
    ensures !c.open || |c.input| < HEADER_SIZE ==> o.result == Raised(RuntimeError(c.fault))
    ensures o.result.Returned? ==>
      var rep := o.result.value;
      var n := HEADER_SIZE + |rep.msg.body|;
      && c.open && n <= |c.input|
      && c.input[..n] == EncodeFrame(rep.mid, rep.msg.body)
      && o.conn.input == c.input[n..]
      && reg.code(rep.msg.kind) == rep.mid
    ensures o.result.Raised? && o.result.error.LogicError? ==>
      exists mid :: (forall k: Kind :: reg.code(k) != mid) && o.result.error.text == UnknownMessageText(mid)
    ensures o.result.Raised? && o.result.error.FrameUnderflow? ==>
      && c.open && |c.input| >= HEADER_SIZE
      && o.result.error.declared == DeclaredLength(c.input[..HEADER_SIZE]) < HEADER_SIZE
  {
    var h := ReadExact(c, HEADER_SIZE);
    if h.result.Raised? then Outcome(Raised(h.result.error), h.conn)
    else
      match DecodeHeader(h.result.value)
      case Raised(LengthUnderflow(declared)) => Outcome(Raised(FrameUnderflow(declared)), h.conn)
      case Returned(hd) =>
        var p := ReadExact(h.conn, hd.payloadLength);
        if p.result.Raised? then Outcome(Raised(p.result.error), p.conn)
        else
          match DecodeTag(reg, hd.mid)
          case None => Outcome(Raised(LogicError(UnknownMessageText(hd.mid))), p.conn)
          case Some(k) =>
            var body := p.result.value;
            var n := HEADER_SIZE + |body|;
            assert c.input == h.result.value + body + p.conn.input;
            assert c.input[..n] == h.result.value + body;
            assert c.input[n..] == p.conn.input;
            FrameHeaderReencode(h.result.value, body);
            assert EncodeFrame(hd.mid, body) == EncodeFrame(hd.mid, body)[..HEADER_SIZE] + body;
            Outcome(Returned(Reply(hd.mid, Message(k, body))), p.conn)
  }

  const UNEXPECTED_PREFIX: string := "Unexpected response ["

  /** The text of the logic error raised for a recognised but unwanted id:
      the id in decimal between brackets, then the caller's context. */
  function UnexpectedText(mid: int, info: string): (t: string)
    ensures |t| == |UNEXPECTED_PREFIX| + |IntToString(mid)| + 3 + |info|
    ensures t[..|UNEXPECTED_PREFIX|] == UNEXPECTED_PREFIX
    ensures ParseInt(t[|UNEXPECTED_PREFIX|..|t| - |info| - 3]) == Some(mid)
    ensures t[|t| - |info| - 3..] == "], " + info
  {
    IntToStringRoundTrip(mid);
    ThreeParts(UNEXPECTED_PREFIX, IntToString(mid), "], " + info);
    UNEXPECTED_PREFIX + IntToString(mid) + ("], " + info)
  }

  /** The three pieces of a concatenation are its slices at their lengths. */
  lemma ThreeParts(a: string, b: string, c: string)
    ensures var t := a + b + c;
      && t[..|a|] == a && t[|a|..|a| + |b|] == b && t[|a| + |b|..] == c
  {
  }

  /** `handle_wrong_response`: an unwanted ERROR becomes a runtime error with
      the server's text; any other unwanted id a logic error naming the id
      and the caller's context. */
  function WrongResponse(reg: Registry, rep: Reply, info: string): (f: Failure)
    ensures f.RuntimeError? <==> rep.mid == reg.code(Error)
    ensures f.RuntimeError? ==> f.text == reg.errorText(rep.msg.body)
    ensures !f.RuntimeError? ==> f == LogicError(UnexpectedText(rep.mid, info))
  {
    if rep.mid == reg.code(Error) then RuntimeError(reg.errorText(rep.msg.body))
    else LogicError(UnexpectedText(rep.mid, info))
  }

  /** The id and the context can both be read back from an unexpected-response
      text, so the message identifies them. */
  lemma {:induction false} UnexpectedTextIdentifies(mid1: int, info1: string, mid2: int, info2: string)
    requires UnexpectedText(mid1, info1) == UnexpectedText(mid2, info2)
    ensures mid1 == mid2 && info1 == info2
  {
    var d1, d2 := IntToString(mid1), IntToString(mid2);
    var s1, s2 := "], " + info1, "], " + info2;
    ThreeParts(UNEXPECTED_PREFIX, d1, s1);
    ThreeParts(UNEXPECTED_PREFIX, d2, s2);
    IntToStringNoBracket(mid1);
    IntToStringNoBracket(mid2);
    SplitAtFirst(d1, s1, d2, s2, ']');
    IntToStringInjective(mid1, mid2);
    assert info1 == s1[3..] == s2[3..] == info2;
  }

  /** Two concatenations whose heads avoid `c` and whose tails start with it
      are equal only piece by piece. */
  lemma SplitAtFirst(a1: string, y1: string, a2: string, y2: string, c: char)
    requires a1 + y1 == a2 + y2
    requires forall i :: 0 <= i < |a1| ==> a1[i] != c
    requires forall i :: 0 <= i < |a2| ==> a2[i] != c
    requires |y1| > 0 && y1[0] == c && |y2| > 0 && y2[0] == c
    ensures a1 == a2 && y1 == y2
  {
    IndexOfAfter(a1, c, y1);
    IndexOfAfter(a2, c, y2);
    assert a1 == (a1 + y1)[..|a1|];
    assert a2 == (a2 + y2)[..|a2|];
  }

  /** Position of the first `c` in `s`, or `|s|` when there is none. */
  function IndexOf(s: string, c: char): (i: nat)
    ensures i <= |s|
  {
    if |s| == 0 || s[0] == c then 0 else 1 + IndexOf(s[1..], c)
  }

  lemma {:induction false} IndexOfAfter(a: string, c: char, y: string)
    requires forall i :: 0 <= i < |a| ==> a[i] != c
    requires |y| > 0 && y[0] == c
    ensures IndexOf(a + y, c) == |a|
    decreases |a|
  {
    if |a| > 0 {
      assert (a + y)[1..] == a[1..] + y;
      IndexOfAfter(a[1..], c, y);
    }
  }

  lemma IntToStringNoBracket(n: int)
    ensures forall i :: 0 <= i < |IntToString(n)| ==> IntToString(n)[i] != ']'
  {
    var s := IntToString(n);
    if n < 0 {
      assert s == "-" + NatToString(-n);
      assert forall i :: 1 <= i < |s| ==> s[i] == NatToString(-n)[i - 1];
    }
  }

  /** `send_receive_message` with a set of wanted ids: one frame out, one
      reply in; the reply is returned exactly when its id is wanted. */
  function SendReceive(reg: Registry, c: Connector, mid: int, payload: seq<byte>,
                       responses: set<int>, info: string): (o: Outcome<Reply>)
    requires Valid(reg)
    ensures o.result.Returned? ==> o.result.value.mid in responses
    ensures c.open ==> o.conn.output == c.output + EncodeFrame(mid, payload)
    ensures !c.open ==> o == Outcome(Raised(RuntimeError(c.fault)), c)
    ensures o.conn.open == c.open && o.conn.releases == c.releases
  {
    var s := SendMessage(c, mid, payload);
    if s.result.Raised? then Outcome(Raised(s.result.error), s.conn)
    else
      var r := ReadResponse(reg, s.conn);
      if r.result.Raised? || r.result.value.mid in responses then r
      else Outcome(Raised(WrongResponse(reg, r.result.value, info)), r.conn)
  }

  /** `send_receive_message` with a single wanted id. */
  function SendReceiveOne(reg: Registry, c: Connector, mid: int, payload: seq<byte>,
                          responseId: int, info: string): (o: Outcome<Reply>)
    requires Valid(reg)
    ensures o.result.Returned? ==> o.result.value.mid == responseId
    ensures c.open ==> o.conn.output == c.output + EncodeFrame(mid, payload)
  {
    var s := SendMessage(c, mid, payload);
    if s.result.Raised? then Outcome(Raised(s.result.error), s.conn)
    else
      var r := ReadResponse(reg, s.conn);
      if r.result.Raised? || r.result.value.mid == responseId then r
      else Outcome(Raised(WrongResponse(reg, r.result.value, info)), r.conn)
  }

  /** A reply read that fails (a closed or drained socket, a cut-short
      payload, a length field below five, an unknown id) reaches the caller
      of the exchange unchanged, socket included. */
  lemma ExchangePassesReadFailure(reg: Registry, c: Connector, mid: int, payload: seq<byte>,
                                  responses: set<int>, info: string)
    requires Valid(reg) && c.open
    ensures var r := ReadResponse(reg, SendMessage(c, mid, payload).conn);
      r.result.Raised? ==> SendReceive(reg, c, mid, payload, responses, info) == r
  {
  }

  /** The same for the single-id form, through the set form. */
  lemma {:induction false} ExchangeOnePassesReadFailure(reg: Registry, c: Connector, mid: int, payload: seq<byte>,
                                                       responseId: int, info: string)
    requires Valid(reg) && c.open
    ensures var r := ReadResponse(reg, SendMessage(c, mid, payload).conn);
      r.result.Raised? ==> SendReceiveOne(reg, c, mid, payload, responseId, info) == r
  {
    SendReceiveOneIsSingleton(reg, c, mid, payload, responseId, info);
    ExchangePassesReadFailure(reg, c, mid, payload, {responseId}, info);
  }

  /** The single-id form is the set form with a one-element set. */
  lemma SendReceiveOneIsSingleton(reg: Registry, c: Connector, mid: int, payload: seq<byte>,
                                  responseId: int, info: string)
    requires Valid(reg)
    ensures SendReceiveOne(reg, c, mid, payload, responseId, info)
         == SendReceive(reg, c, mid, payload, {responseId}, info)
  {
  }

  /** Shuts the socket; on an already closed socket it does nothing. */
  function Close(c: Connector): (r: Connector)
    ensures !r.open
    ensures r.input == c.input && r.output == c.output && r.fault == c.fault
    ensures r.releases == if c.open then c.releases + 1 else c.releases
  {
    if c.open then c.(open := false, releases := c.releases + 1) else c
  }

  /** The destructor closes the socket: it ends up shut, an open one is
      released once more, and the streams and fault text are untouched. */
  function Destroy(c: Connector): (r: Connector)
    ensures !r.open
    ensures r.input == c.input && r.output == c.output && r.fault == c.fault
    ensures r.releases == c.releases + (if c.open then 1 else 0)
  {
    Close(c)
  }

  /** Destroying a connector that was already closed releases nothing more. */
  lemma DestroyAfterClose(c: Connector)
    ensures Destroy(Close(c)) == Close(c)
  {
  }

  /** `close()` called `n` times in a row. */
  function CloseTimes(c: Connector, n: nat): Connector {
    if n == 0 then c else Close(CloseTimes(c, n - 1))
  }

  /** However often `close()` runs (explicitly and from the destructor),
      an open socket is shut exactly once and nothing else changes. */
  lemma {:induction false} CloseReleasesOnce(c: Connector, n: nat)
    requires n >= 1
    ensures CloseTimes(c, n) == Close(c)
  {
    if n > 1 {
      CloseReleasesOnce(c, n - 1);
    }
  }

  /** After `close()` nothing more is written and every exchange fails
      with the transport's text. */
  lemma ClosedConnectorRefuses(reg: Registry, c: Connector, mid: int, payload: seq<byte>,
                               responses: set<int>, info: string)
    requires Valid(reg)
    ensures SendReceive(reg, Close(c), mid, payload, responses, info).result == Raised(RuntimeError(c.fault))
    ensures SendReceive(reg, Close(c), mid, payload, responses, info).conn.output == c.output
    ensures ReadResponse(reg, Close(c)).result == Raised(RuntimeError(c.fault))
  {
  }

  /** A frame carrying a recognised id is read back as that kind with the
      whole payload, and exactly its octets are consumed. */
  lemma ReadResponseOfFrame(reg: Registry, c: Connector, k: Kind, body: seq<byte>, rest: seq<byte>)
    requires Valid(reg)
    requires -0x80 <= reg.code(k) < 0x80
    requires |body| + HEADER_SIZE < TWO_32
    requires c.open && c.input == EncodeFrame(reg.code(k), body) + rest
    ensures ReadResponse(reg, c) == Outcome(Returned(Reply(reg.code(k), Message(k, body))), c.(input := rest))
  {
    var f := EncodeFrame(reg.code(k), body);
    FrameHeaderRoundTrip(reg.code(k), body);
    assert c.input[..HEADER_SIZE] == f[..HEADER_SIZE];
    assert c.input[HEADER_SIZE..] == body + rest;
    DecodeTagOfCode(reg, k);
  }

  /** A frame whose id is no kind's id never yields a message: once its
      payload has arrived, the client raises the unknown-message error. */
  lemma ReadResponseUnknownId(reg: Registry, c: Connector, mid: int, body: seq<byte>, rest: seq<byte>)
    requires Valid(reg)
    requires -0x80 <= mid < 0x80
    requires forall k: Kind :: reg.code(k) != mid
    requires |body| + HEADER_SIZE < TWO_32
    requires c.open && c.input == EncodeFrame(mid, body) + rest
    ensures ReadResponse(reg, c) == Outcome(Raised(LogicError(UnknownMessageText(mid))), c.(input := rest))
  {
    var f := EncodeFrame(mid, body);
    FrameHeaderRoundTrip(mid, body);
    assert c.input[..HEADER_SIZE] == f[..HEADER_SIZE];
    assert c.input[HEADER_SIZE..] == body + rest;
    DecodeTagUnknown(reg, mid);
  }

  /** A payload cut short by the end of the stream is a transport failure,
      whatever the id; no message is returned. */
  lemma ReadResponseTruncatedPayload(reg: Registry, c: Connector, mid: int, body: seq<byte>, got: nat)
    requires Valid(reg)
    requires |body| + HEADER_SIZE < TWO_32
    requires got < |body|
    requires c.open && c.input == EncodeFrame(mid, body)[..HEADER_SIZE + got]
    ensures ReadResponse(reg, c).result == Raised(RuntimeError(c.fault))
  {
    var f := EncodeFrame(mid, body);
    assert c.input[..HEADER_SIZE] == f[..HEADER_SIZE];
    assert f[..HEADER_SIZE][..4] == f[..4];
  }

  /** A header whose declared length does not cover the header itself is
      refused before any payload is read. */
  lemma ReadResponseUnderflow(reg: Registry, c: Connector, h: seq<byte>, rest: seq<byte>)
    requires Valid(reg)
    requires |h| == HEADER_SIZE && DeclaredLength(h) < HEADER_SIZE
    requires c.open && c.input == h + rest
    ensures ReadResponse(reg, c) == Outcome(Raised(FrameUnderflow(DeclaredLength(h))), c.(input := rest))
  {
    assert c.input[..HEADER_SIZE] == h && c.input[HEADER_SIZE..] == rest;
  }

  /** The header `00 00 00 03` announces three octets and is refused. */
  lemma ReadResponseUnderflowExample(reg: Registry, c: Connector, id: byte, rest: seq<byte>)
    requires Valid(reg)
    requires c.open && c.input == [0, 0, 0, 3, id] + rest
    ensures ReadResponse(reg, c).result == Raised(FrameUnderflow(3))
  {
    var h: seq<byte> := [0, 0, 0, 3, id];
    assert DeclaredLength(h) == 3;
    ReadResponseUnderflow(reg, c, h, rest);
  }

  /** What a server that answers with a frame of kind `k` makes of an
      exchange: the reply when wanted, the server's text for an unwanted
      ERROR, the unexpected-response logic error otherwise; the request is
      written exactly once in every case. */
  lemma ExchangeClassification(reg: Registry, c: Connector, mid: int, payload: seq<byte>,
                               responses: set<int>, info: string,
                               k: Kind, body: seq<byte>, rest: seq<byte>)
    requires Valid(reg)
    requires -0x80 <= reg.code(k) < 0x80
    requires |body| + HEADER_SIZE < TWO_32
    requires c.open && c.input == EncodeFrame(reg.code(k), body) + rest
    ensures var o := SendReceive(reg, c, mid, payload, responses, info);
      && o.conn.output == c.output + EncodeFrame(mid, payload)
      && o.conn.input == rest
      && (reg.code(k) in responses ==> o.result == Returned(Reply(reg.code(k), Message(k, body))))
      && (reg.code(k) !in responses && k == Error ==> o.result == Raised(RuntimeError(reg.errorText(body))))
      && (reg.code(k) !in responses && k != Error ==>
            o.result == Raised(LogicError(UnexpectedText(reg.code(k), info))))
  {
    var s := SendMessage(c, mid, payload);
    ReadResponseOfFrame(reg, s.conn, k, body, rest);
  }

  /** The frame `send_message` writes is read back by `read_response` as
      the message it was written from. */
  lemma SendThenReadRoundTrip(reg: Registry, c: Connector, k: Kind, body: seq<byte>)
    requires Valid(reg)
    requires -0x80 <= reg.code(k) < 0x80
    requires |body| + HEADER_SIZE < TWO_32
    requires c.open && c.output == []
    ensures var sent := SendMessage(c, reg.code(k), body).conn.output;
      ReadResponse(reg, c.(input := sent)).result == Returned(Reply(reg.code(k), Message(k, body)))
  {
    var sent := SendMessage(c, reg.code(k), body).conn.output;
    assert sent == EncodeFrame(reg.code(k), body) + [];
    ReadResponseOfFrame(reg, c.(input := sent), k, body, []);
  }

  /** The payload handed to the message parser as the client does it:
      `ParseFromString(mbuf)` turns the `char*` buffer into a string by
      scanning for a NUL, so only the octets before the first NUL are
      parsed, and a payload without NUL is read past its end. */
  function ParsedPayloadAsWritten(payload: seq<byte>): (r: Option<seq<byte>>)
    ensures r.Some? ==> |r.value| < |payload|
    ensures r.None? <==> 0 !in payload
  {
    CString(payload)
  }

  /** A two-octet payload with a zero second octet (field 1 set to 0 in the
      protocol's encoding) reaches the parser as one octet. */
  lemma ParsedPayloadAsWrittenTruncates()
    ensures ParsedPayloadAsWritten([0x08, 0x00]) == Some([0x08])
  {
    var p: seq<byte> := [0x08, 0x00];
    var q: seq<byte> := [0x00];
    assert p[1..] == q;
    assert CString(q) == Some([]);
    assert CString(p) == Some([p[0]] + []);
    var e: seq<byte> := [0x08];
    assert [p[0]] + [] == e;
    assert ParsedPayloadAsWritten(p) == Some(e);
  }
}
