/** Reading messages from a stream of frames: `ReadMessage` joins fragments, answers pings and stops at
    a close frame (sections 5.4 and 5.5 of RFC 6455). */
module WsMessages {
  import opened Bytes
  import opened Wrappers
  import opened WsCodec

  const OP_CONTINUATION: byte := 0
  const OP_TEXT: byte := 1
  const OP_BINARY: byte := 2
  const OP_CLOSE: byte := 8
  const OP_PING: byte := 9
  const OP_PONG: byte := 10

  datatype Outcome = Message(kind: byte, data: bytes) | Broken(error: Error)

  /** What one call returns, what it leaves to read, and what it wrote meanwhile. */
  datatype Read = Read(outcome: Outcome, rest: bytes, written: bytes)

  /** The fragments after the first one. */
  function Reassemble(kind: byte, msg: bytes, s: bytes): Read
    decreases |s|
  {
    match Parse(s)
    case Failed(e, rest) => Read(Broken(e), rest, [])
    case Got(f, rest) =>
      if f.opcode != OP_CONTINUATION then Read(Broken(ExpectedContinuation), rest, [])
      else if f.fin then Read(Message(kind, msg + f.payload), rest, [])
      else Reassemble(kind, msg + f.payload, rest)
  }

  /** `ReadMessage` on a connection whose writes succeed. */
  function ReadMessage(s: bytes): Read
    decreases |s|
  {
    match Parse(s)
    case Failed(e, rest) => Read(Broken(e), rest, [])
    case Got(f, rest) =>
      if f.opcode == OP_TEXT || f.opcode == OP_BINARY then
        if f.fin then Read(Message(f.opcode, f.payload), rest, []) else Reassemble(f.opcode, f.payload, rest)
      else if f.opcode == OP_PING then
        var r := ReadMessage(rest);
        r.(written := ServerFrame(OP_PONG, f.payload) + r.written)
      else if f.opcode == OP_PONG then ReadMessage(rest)
      else if f.opcode == OP_CLOSE then Read(Broken(ClosedByPeer), rest, ServerFrame(OP_CLOSE, f.payload))
      else Read(Broken(UnknownOpcode(f.opcode)), rest, [])
  }

  /** `ReadMessage` frame by frame. */
  lemma ReadMessageStep(s: bytes)
    ensures match Parse(s)
      case Failed(e, rest) => ReadMessage(s) == Read(Broken(e), rest, [])
      case Got(f, rest) =>
        && ((f.opcode == OP_TEXT || f.opcode == OP_BINARY) ==>
             ReadMessage(s) == if f.fin then Read(Message(f.opcode, f.payload), rest, []) else Reassemble(f.opcode, f.payload, rest))
        && (f.opcode == OP_PING ==>
             ReadMessage(s) == ReadMessage(rest).(written := ServerFrame(OP_PONG, f.payload) + ReadMessage(rest).written))
        && (f.opcode == OP_PONG ==> ReadMessage(s) == ReadMessage(rest))
        && (f.opcode == OP_CLOSE ==> ReadMessage(s) == Read(Broken(ClosedByPeer), rest, ServerFrame(OP_CLOSE, f.payload)))
        && (f.opcode !in {OP_TEXT, OP_BINARY, OP_PING, OP_PONG, OP_CLOSE} ==>
             ReadMessage(s) == Read(Broken(UnknownOpcode(f.opcode)), rest, []))
  {
  }

  // ---- what a peer sends ----

  /** A piece of a message and the key it is masked with. */
  datatype Fragment = Fragment(payload: bytes, key: Option<bytes>)

  /** A data message in one or more fragments, or a control frame between messages. */
  datatype Item =
    | Data(kind: byte, fragments: seq<Fragment>)
    | Ping(control: Fragment)
    | Pong(control: Fragment)

  predicate SendableFragment(f: Fragment) {
    |f.payload| <= MAX_PAYLOAD && (f.key.Some? ==> |f.key.value| == 4)
  }

  predicate Sendable(item: Item) {
    match item
    case Data(kind, fragments) =>
      (kind == OP_TEXT || kind == OP_BINARY) && fragments != [] &&
      forall i :: 0 <= i < |fragments| ==> SendableFragment(fragments[i])
    case _ => SendableFragment(item.control)
  }

  function Send(fin: bool, opcode: byte, f: Fragment): bytes
    requires opcode < 16 && SendableFragment(f)
  {
    PeerFrame(Frame(fin, opcode, f.payload), f.key)
  }

  /** The frames of a message: the first one carries the kind, the last one FIN. */
  function SendFragments(opcode: byte, fragments: seq<Fragment>): bytes
    requires opcode < 16 && forall i :: 0 <= i < |fragments| ==> SendableFragment(fragments[i])
    decreases |fragments|
  {
    if fragments == [] then []
    else Send(|fragments| == 1, opcode, fragments[0]) + SendFragments(OP_CONTINUATION, fragments[1..])
  }

  function SendItem(item: Item): bytes
    requires Sendable(item)
  {
    match item
    case Data(kind, fragments) => SendFragments(kind, fragments)
    case Ping(f) => Send(true, OP_PING, f)
    case Pong(f) => Send(true, OP_PONG, f)
  }

  function SendAll(items: seq<Item>): bytes
    requires forall i :: 0 <= i < |items| ==> Sendable(items[i])
  {
    if items == [] then [] else SendItem(items[0]) + SendAll(items[1..])
  }

  // ---- what the application should see ----

  function Joined(fragments: seq<Fragment>): bytes {
    if fragments == [] then [] else fragments[0].payload + Joined(fragments[1..])
  }

  /** The messages of a stream, in order. */
  function Messages(items: seq<Item>): seq<Outcome> {
    if items == [] then []
    else match items[0]
      case Data(kind, fragments) => [Message(kind, Joined(fragments))] + Messages(items[1..])
      case _ => Messages(items[1..])
  }

  /** The answers to the pings of a stream, in order. */
  function Pongs(items: seq<Item>): bytes {
    if items == [] then []
    else match items[0]
      case Ping(f) => ServerFrame(OP_PONG, f.payload) + Pongs(items[1..])
      case _ => Pongs(items[1..])
  }

  /** `n` calls of `ReadMessage`, one after the other. */
  function ReadMany(s: bytes, n: nat): (seq<Outcome>, bytes, bytes)
    decreases n
  {
    if n == 0 then ([], s, [])
    else
      var r := ReadMessage(s);
      var (more, rest, written) := ReadMany(r.rest, n - 1);
      ([r.outcome] + more, rest, r.written + written)
  }

  // ---- reassembly ----

  lemma ParseSent(fin: bool, opcode: byte, f: Fragment, tail: bytes)
    requires opcode < 16 && SendableFragment(f)
    ensures Parse(Send(fin, opcode, f) + tail) == Got(Frame(fin, opcode, f.payload), tail)
  {
    PeerFrameRoundTrip(Frame(fin, opcode, f.payload), f.key, tail);
  }

  lemma {:induction false} ReassembleSent(kind: byte, msg: bytes, fragments: seq<Fragment>, tail: bytes)
    requires fragments != [] && forall i :: 0 <= i < |fragments| ==> SendableFragment(fragments[i])
    ensures Reassemble(kind, msg, SendFragments(OP_CONTINUATION, fragments) + tail) ==
      Read(Message(kind, msg + Joined(fragments)), tail, [])
    decreases |fragments|
  {
    hide Parse, Send;
    var first, more := fragments[0], SendFragments(OP_CONTINUATION, fragments[1..]);
    assert SendFragments(OP_CONTINUATION, fragments) + tail == Send(|fragments| == 1, OP_CONTINUATION, first) + (more + tail);
    ParseSent(|fragments| == 1, OP_CONTINUATION, first, more + tail);
    if |fragments| == 1 {
      assert fragments[1..] == [];
      assert more + tail == tail && Joined(fragments) == first.payload;
    } else {
      ReassembleSent(kind, msg + first.payload, fragments[1..], tail);
      assert msg + first.payload + Joined(fragments[1..]) == msg + Joined(fragments);
    }
  }

  /** A message sent in any number of fragments is read back whole. */
  lemma ReadData(kind: byte, fragments: seq<Fragment>, tail: bytes)
    requires Sendable(Data(kind, fragments))
    ensures ReadMessage(SendItem(Data(kind, fragments)) + tail) == Read(Message(kind, Joined(fragments)), tail, [])
  {
    hide Parse, Send;
    var first, more := fragments[0], SendFragments(OP_CONTINUATION, fragments[1..]);
    assert SendFragments(kind, fragments) + tail == Send(|fragments| == 1, kind, first) + (more + tail);
    ParseSent(|fragments| == 1, kind, first, more + tail);
    if |fragments| == 1 {
      assert fragments[1..] == [];
      assert more + tail == tail && Joined(fragments) == first.payload;
    } else {
      ReassembleSent(kind, first.payload, fragments[1..], tail);
    }
  }

  /** A control frame between messages is answered or dropped. */
  lemma ReadControl(item: Item, tail: bytes)
    requires Sendable(item) && !item.Data?
    ensures var r := ReadMessage(tail);
      ReadMessage(SendItem(item) + tail) ==
        if item.Ping? then r.(written := ServerFrame(OP_PONG, item.control.payload) + r.written) else r
  {
    hide Parse, Send;
    ParseSent(true, if item.Ping? then OP_PING else OP_PONG, item.control, tail);
  }

  /** Whole streams: with control frames only between messages, successive reads return exactly the
      messages sent, in order, and the pongs written are exactly the answers to the pings. */
  lemma {:induction false} StreamRoundTrip(items: seq<Item>, tail: bytes)
    requires forall i :: 0 <= i < |items| ==> Sendable(items[i])
    requires items != [] ==> items[|items| - 1].Data?
    ensures ReadMany(SendAll(items) + tail, |Messages(items)|) == (Messages(items), tail, Pongs(items))
    decreases |items|
  {
    hide ReadMessage, SendItem;
    if items == [] {
      assert SendAll(items) + tail == tail;
    } else {
      var after := SendAll(items[1..]) + tail;
      assert SendAll(items) + tail == SendItem(items[0]) + after;
      StreamRoundTrip(items[1..], tail);
      match items[0]
      case Data(kind, fragments) =>
        ReadData(kind, fragments, after);
        assert [] + Pongs(items[1..]) == Pongs(items);
      case Ping(f) =>
        ReadControl(items[0], after);
        SomeData(items[1..]);
        var pong, r := ServerFrame(OP_PONG, f.payload), ReadMessage(after);
        var written := ReadMany(r.rest, |Messages(items)| - 1).2;
        assert pong + r.written + written == pong + (r.written + written);
      case Pong(f) =>
        ReadControl(items[0], after);
        SomeData(items[1..]);
    }
  }

  lemma {:induction false} SomeData(items: seq<Item>)
    requires items != [] && items[|items| - 1].Data?
    ensures Messages(items) != []
  {
    if |items| > 1 { SomeData(items[1..]); }
  }

  // ---- streams that break off ----

  lemma ParseTruncated(fin: bool, opcode: byte, f: Fragment, k: nat)
    requires opcode < 16 && SendableFragment(f) && k < |Send(fin, opcode, f)|
    ensures Parse(Send(fin, opcode, f)[..k]) == Failed(EndOfStream, [])
  {
    TruncatedFails(Frame(fin, opcode, f.payload), f.key, k);
  }

  lemma {:induction false} TruncatedFragments(kind: byte, msg: bytes, fragments: seq<Fragment>, k: nat)
    requires forall i :: 0 <= i < |fragments| ==> SendableFragment(fragments[i])
    requires k < |SendFragments(OP_CONTINUATION, fragments)|
    ensures Reassemble(kind, msg, SendFragments(OP_CONTINUATION, fragments)[..k]) == Read(Broken(EndOfStream), [], [])
    decreases |fragments|
  {
    hide Parse, Send;
    var first, more := fragments[0], SendFragments(OP_CONTINUATION, fragments[1..]);
    var head := Send(|fragments| == 1, OP_CONTINUATION, first);
    if k < |head| {
      assert (head + more)[..k] == head[..k];
      ParseTruncated(|fragments| == 1, OP_CONTINUATION, first, k);
    } else {
      assert (head + more)[..k] == head + more[..k - |head|];
      ParseSent(|fragments| == 1, OP_CONTINUATION, first, more[..k - |head|]);
      TruncatedFragments(kind, msg + first.payload, fragments[1..], k - |head|);
    }
  }

  /** A message or a control frame that breaks off anywhere, between fragments too, is not returned. */
  lemma TruncatedItem(item: Item, k: nat)
    requires Sendable(item) && k < |SendItem(item)|
    ensures ReadMessage(SendItem(item)[..k]) == Read(Broken(EndOfStream), [], [])
  {
    hide Parse, Send;
    match item
    case Data(kind, fragments) =>
      var first, more := fragments[0], SendFragments(OP_CONTINUATION, fragments[1..]);
      var head := Send(|fragments| == 1, kind, first);
      if k < |head| {
        assert (head + more)[..k] == head[..k];
        ParseTruncated(|fragments| == 1, kind, first, k);
      } else {
        assert (head + more)[..k] == head + more[..k - |head|];
        ParseSent(|fragments| == 1, kind, first, more[..k - |head|]);
        TruncatedFragments(kind, first.payload, fragments[1..], k - |head|);
      }
    case Ping(f) => ParseTruncated(true, OP_PING, f, k);
    case Pong(f) => ParseTruncated(true, OP_PONG, f, k);
  }

  /** From a stream that breaks off anywhere, successive reads return the first messages of the stream, whole and in
      order, and then the end of the stream. */
  lemma {:induction false} TruncatedStream(items: seq<Item>, k: nat) returns (n: nat)
    requires (forall i :: 0 <= i < |items| ==> Sendable(items[i])) && k < |SendAll(items)|
    ensures n <= |Messages(items)| && ReadMany(SendAll(items)[..k], n + 1).0 == Messages(items)[..n] + [Broken(EndOfStream)]
    decreases |items|
  {
    hide ReadMessage, SendItem;
    var first, more := SendItem(items[0]), SendAll(items[1..]);
    if k < |first| {
      assert (first + more)[..k] == first[..k];
      TruncatedItem(items[0], k);
      n := 0;
    } else {
      var after := more[..k - |first|];
      assert (first + more)[..k] == first + after;
      n := TruncatedStream(items[1..], k - |first|);
      match items[0]
      case Data(kind, fragments) =>
        ReadData(kind, fragments, after);
        n := n + 1;
      case _ =>
        ReadControl(items[0], after);
    }
  }

  // ---- other frames ----

  /** The first fragments of a message, none of them the last. */
  function SendOpen(opcode: byte, fragments: seq<Fragment>): bytes
    requires opcode < 16 && forall i :: 0 <= i < |fragments| ==> SendableFragment(fragments[i])
    decreases |fragments|
  {
    if fragments == [] then []
    else Send(false, opcode, fragments[0]) + SendOpen(OP_CONTINUATION, fragments[1..])
  }

  lemma {:induction false} OpenThenOther(kind: byte, msg: bytes, fragments: seq<Fragment>, fin: bool, opcode: byte, f: Fragment, tail: bytes)
    requires forall i :: 0 <= i < |fragments| ==> SendableFragment(fragments[i])
    requires opcode < 16 && opcode != OP_CONTINUATION && SendableFragment(f)
    ensures Reassemble(kind, msg, SendOpen(OP_CONTINUATION, fragments) + Send(fin, opcode, f) + tail) ==
      Read(Broken(ExpectedContinuation), tail, [])
    decreases |fragments|
  {
    hide Parse, Send;
    if fragments == [] {
      assert [] + Send(fin, opcode, f) + tail == Send(fin, opcode, f) + tail;
      ParseSent(fin, opcode, f, tail);
    } else {
      var first, more := fragments[0], SendOpen(OP_CONTINUATION, fragments[1..]) + Send(fin, opcode, f) + tail;
      assert SendOpen(OP_CONTINUATION, fragments) + Send(fin, opcode, f) + tail == Send(false, OP_CONTINUATION, first) + more;
      ParseSent(false, OP_CONTINUATION, first, more);
      OpenThenOther(kind, msg + first.payload, fragments[1..], fin, opcode, f, tail);
    }
  }

  /** After any fragment but the last, every frame but a continuation breaks the message: pings, pongs and
      close frames too, although section 5.4 of RFC 6455 allows control frames there. Nothing is written. */
  lemma OtherFrameBreaks(kind: byte, fragments: seq<Fragment>, fin: bool, opcode: byte, f: Fragment, tail: bytes)
    requires fragments != [] && Sendable(Data(kind, fragments))
    requires opcode < 16 && opcode != OP_CONTINUATION && SendableFragment(f)
    ensures ReadMessage(SendOpen(kind, fragments) + Send(fin, opcode, f) + tail) ==
      Read(Broken(ExpectedContinuation), tail, [])
  {
    hide Parse, Send;
    var first, more := fragments[0], SendOpen(OP_CONTINUATION, fragments[1..]) + Send(fin, opcode, f) + tail;
    assert SendOpen(kind, fragments) + Send(fin, opcode, f) + tail == Send(false, kind, first) + more;
    ParseSent(false, kind, first, more);
    OpenThenOther(kind, first.payload, fragments[1..], fin, opcode, f, tail);
  }

  /** A close frame ends the stream and is echoed once. */
  lemma CloseEnds(f: Fragment, tail: bytes)
    requires SendableFragment(f)
    ensures ReadMessage(Send(true, OP_CLOSE, f) + tail) == Read(Broken(ClosedByPeer), tail, ServerFrame(OP_CLOSE, f.payload))
  {
    hide Parse, Send;
    ParseSent(true, OP_CLOSE, f, tail);
  }

  /** Between messages every other opcode, a continuation included, ends the stream. */
  lemma StrayFrameBreaks(fin: bool, opcode: byte, f: Fragment, tail: bytes)
    requires opcode < 16 && opcode !in {1, 2, 8, 9, 10} && SendableFragment(f)
    ensures ReadMessage(Send(fin, opcode, f) + tail) == Read(Broken(UnknownOpcode(opcode)), tail, [])
  {
    hide Parse, Send;
    ParseSent(fin, opcode, f, tail);
  }

  // ---- examples of section 5.7 of RFC 6455 ----

  /** "Hello". */
  const HELLO: bytes := [0x48, 0x65, 0x6c, 0x6c, 0x6f]
  const MASK_KEY: bytes := [0x37, 0xfa, 0x21, 0x3d]
  const MASKED_HELLO: bytes := [0x7f, 0x9f, 0x4d, 0x51, 0x58]

  lemma HelloMasked()
    ensures Masked(HELLO, MASK_KEY) == MASKED_HELLO
  {
    hide Xor;
    HelloXored();
  }

  lemma HelloXored()
    ensures Xor(0x48, 0x37) == 0x7f && Xor(0x65, 0xfa) == 0x9f && Xor(0x6c, 0x21) == 0x4d
    ensures Xor(0x6c, 0x3d) == 0x51 && Xor(0x6f, 0x37) == 0x58
  {
    hide Xor;
    XorWrittenOut(0x48, 0x37);
    XorWrittenOut(0x65, 0xfa);
    XorWrittenOut(0x6c, 0x21);
    XorWrittenOut(0x6c, 0x3d);
    XorWrittenOut(0x6f, 0x37);
  }

  /** The text "Hello" in one frame, masked or not, and in two fragments. */
  lemma HelloIsRead()
    ensures ReadMessage([0x81, 0x05] + HELLO) == Read(Message(1, HELLO), [], [])
    ensures ReadMessage([0x81, 0x85] + MASK_KEY + MASKED_HELLO) == Read(Message(1, HELLO), [], [])
    ensures ReadMessage([0x01, 0x03, 0x48, 0x65, 0x6c] + [0x80, 0x02, 0x6c, 0x6f]) == Read(Message(1, HELLO), [], [])
  {
    hide ReadMessage, Parse, Masked;
    var plain, masked := [Fragment(HELLO, None)], [Fragment(HELLO, Some(MASK_KEY))];
    var parts := [Fragment([0x48, 0x65, 0x6c], None), Fragment([0x6c, 0x6f], None)];
    HelloMasked();
    OneFragment(1, plain[0]);
    OneFragment(1, masked[0]);
    ReadData(1, plain, []);
    ReadData(1, masked, []);
    ReadData(1, parts, []);
    assert Send(true, 1, plain[0]) + [] == [0x81, 0x05] + HELLO;
    assert Send(true, 1, masked[0]) + [] == [0x81, 0x85] + MASK_KEY + MASKED_HELLO;
    assert parts[1..] == [parts[1]] && parts[1..][1..] == [];
    assert Send(false, 1, parts[0]) == [0x01, 0x03, 0x48, 0x65, 0x6c] && Send(true, 0, parts[1]) == [0x80, 0x02, 0x6c, 0x6f];
    assert SendItem(Data(1, parts)) + [] == [0x01, 0x03, 0x48, 0x65, 0x6c] + [0x80, 0x02, 0x6c, 0x6f];
    assert Joined(parts) == HELLO && HELLO + [] == HELLO;
  }

  lemma OneFragment(kind: byte, f: Fragment)
    requires kind < 16 && SendableFragment(f)
    ensures SendFragments(kind, [f]) == Send(true, kind, f) && Joined([f]) == f.payload
  {
    assert [f][1..] == [];
    assert SendFragments(OP_CONTINUATION, []) == [] && Joined([]) == [];
  }

  /** A ping with "Hello" before a message is answered by a pong with "Hello"; an empty close frame is echoed. */
  lemma ControlFramesAreAnswered()
    ensures ReadMessage([0x89, 0x05] + HELLO + [0x81, 0x05] + HELLO) == Read(Message(1, HELLO), [], [0x8a, 0x05] + HELLO)
    ensures ReadMessage([0x88, 0x00]) == Read(Broken(ClosedByPeer), [], [0x88, 0x00])
  {
    hide ReadMessage, Parse;
    var f, after := Fragment(HELLO, None), [0x81, 0x05] + HELLO;
    HelloIsRead();
    ReadControl(Ping(f), after);
    assert SendItem(Ping(f)) + after == [0x89, 0x05] + HELLO + [0x81, 0x05] + HELLO;
    HeaderBytes(OP_PONG, 5);
    assert ServerFrame(OP_PONG, HELLO) + [] == [0x8a, 0x05] + HELLO;
    CloseEnds(Fragment([], None), []);
    HeaderBytes(OP_CLOSE, 0);
    assert Send(true, OP_CLOSE, Fragment([], None)) + [] == [0x88, 0x00] == ServerFrame(OP_CLOSE, []);
  }
}
