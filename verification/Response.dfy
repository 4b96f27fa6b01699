/** The response writer (response.go): one header before any body, the size of the body, and a mode that
    swallows the body, with which GET handlers answer HEAD (section 9.3.2 of RFC 9110). */
module Response {
  import opened Bytes
  import opened Wrappers

  const NO_STATUS := 0
  const STATUS_OK := 200

  /** What the connection below receives. */
  datatype Event = Header(code: int) | Body(data: bytes)

  datatype Call = WriteHeader(code: int) | Write(data: bytes) | WriteString(data: bytes)

  /** The fields of the writer, and what it passed on. */
  datatype Writer = Writer(status: int, size: int, suppressBody: bool, sent: seq<Event>)

  /** What a handler can see after a call: the returned count, the status and the size. */
  datatype Seen = Seen(count: nat, status: int, size: int)

  function Fresh(suppressBody: bool): Writer { Writer(NO_STATUS, 0, suppressBody, []) }

  function DoHeader(w: Writer, code: int): Writer {
    if w.status != NO_STATUS then w else w.(status := code, sent := w.sent + [Header(code)])
  }

  /** A body write of which the connection takes the first `taken` bytes; suppressed, it is only counted. */
  function DoTaken(w: Writer, data: bytes, taken: nat): Writer
    requires taken <= |data|
  {
    var started := if w.status == NO_STATUS then DoHeader(w, STATUS_OK) else w;
    if w.suppressBody then started.(size := started.size + |data|)
    else started.(size := started.size + taken, sent := started.sent + [Body(data[..taken])])
  }

  /** A body write to a connection that takes every byte. */
  function DoBody(w: Writer, data: bytes): Writer { DoTaken(w, data, |data|) }

  function Do(w: Writer, call: Call): Writer {
    match call
    case WriteHeader(code) => DoHeader(w, code)
    case Write(data) => DoBody(w, data)
    case WriteString(data) => DoBody(w, data)
  }

  function Observe(w: Writer, call: Call): Seen {
    var w' := Do(w, call);
    Seen(if call.WriteHeader? then 0 else |call.data|, w'.status, w'.size)
  }

  /** A handler chooses each call from what it has seen so far, or stops. */
  type Handler = seq<Seen> -> Option<Call>

  /** The first `n` calls of a handler. */
  function Serve(h: Handler, w: Writer, seen: seq<Seen>, n: nat): (Writer, seq<Seen>)
    decreases n
  {
    if n == 0 then (w, seen)
    else match h(seen)
      case None => (w, seen)
      case Some(call) => Serve(h, Do(w, call), seen + [Observe(w, call)], n - 1)
  }

  function BodyOf(sent: seq<Event>): bytes {
    if sent == [] then []
    else BodyOf(sent[..|sent| - 1]) + (if sent[|sent| - 1].Body? then sent[|sent| - 1].data else [])
  }

  function HeadersOf(sent: seq<Event>): seq<Event> {
    if sent == [] then []
    else HeadersOf(sent[..|sent| - 1]) + (if sent[|sent| - 1].Header? then [sent[|sent| - 1]] else [])
  }

  lemma OneMore(sent: seq<Event>, e: Event)
    ensures BodyOf(sent + [e]) == BodyOf(sent) + (if e.Body? then e.data else [])
    ensures HeadersOf(sent + [e]) == HeadersOf(sent) + (if e.Header? then [e] else [])
  {
    assert (sent + [e])[..|sent|] == sent;
  }

  // ---- HEAD beside GET ----

  /** The writer of a HEAD request beside that of the same GET request. */
  predicate Mirrors(head: Writer, get: Writer) {
    && head.status == get.status && head.size == get.size && head.suppressBody && !get.suppressBody
    && get.size == |BodyOf(get.sent)| && head.sent == HeadersOf(get.sent)
  }

  /** One call on both writers. */
  lemma CallMirrors(head: Writer, get: Writer, call: Call)
    requires Mirrors(head, get)
    ensures Mirrors(Do(head, call), Do(get, call)) && Observe(head, call) == Observe(get, call)
  {
    hide BodyOf, HeadersOf;
    var code := if call.WriteHeader? then call.code else STATUS_OK;
    var started := if get.status == NO_STATUS then DoHeader(get, code) else get;
    OneMore(get.sent, Header(code));
    if !call.WriteHeader? {
      assert call.data[..|call.data|] == call.data;
      OneMore(started.sent, Body(call.data));
    }
  }

  lemma {:induction false} ServeMirrors(h: Handler, head: Writer, get: Writer, seen: seq<Seen>, n: nat)
    requires Mirrors(head, get)
    ensures Mirrors(Serve(h, head, seen, n).0, Serve(h, get, seen, n).0)
    ensures Serve(h, head, seen, n).1 == Serve(h, get, seen, n).1
    decreases n
  {
    hide Mirrors, Do, Observe;
    if n > 0 && h(seen).Some? {
      var call := h(seen).value;
      CallMirrors(head, get, call);
      ServeMirrors(h, Do(head, call), Do(get, call), seen + [Observe(get, call)], n - 1);
    }
  }

  /** Automatic HEAD simulates GET: whatever a handler does, and however it reacts to what it sees, it
      sees the same results, status and size on a HEAD as on a GET request; the size is that of the GET
      body; and the HEAD response is the header of the GET response and nothing else. */
  lemma HeadSimulatesGet(h: Handler, n: nat)
    ensures var (head, seenByHead), (get, seenByGet) := Serve(h, Fresh(true), [], n), Serve(h, Fresh(false), [], n);
      && seenByHead == seenByGet && head.status == get.status && head.size == get.size == |BodyOf(get.sent)|
      && head.sent == HeadersOf(get.sent)
  {
    ServeMirrors(h, Fresh(true), Fresh(false), [], n);
  }

  // ---- one header, and first ----

  /** Nothing, or one header with the recorded status and then only body. */
  predicate HeaderFirst(w: Writer) {
    if w.status == NO_STATUS then w.sent == []
    else
      && w.sent != [] && w.sent[0] == Header(w.status)
      && forall k :: 1 <= k < |w.sent| ==> w.sent[k].Body?
  }

  /** Once there is a status, no call changes the header. */
  lemma {:induction false} ServeHeaderFirst(h: Handler, w: Writer, seen: seq<Seen>, n: nat)
    requires HeaderFirst(w) && w.status != NO_STATUS
    ensures HeaderFirst(Serve(h, w, seen, n).0)
    decreases n
  {
    if n > 0 && h(seen).Some? {
      ServeHeaderFirst(h, Do(w, h(seen).value), seen + [Observe(w, h(seen).value)], n - 1);
    }
  }

  predicate StartsWithZero(w: Writer) { w.sent != [] && w.sent[0] == Header(NO_STATUS) }

  lemma {:induction false} ZeroStays(h: Handler, w: Writer, seen: seq<Seen>, n: nat)
    requires StartsWithZero(w)
    ensures StartsWithZero(Serve(h, w, seen, n).0)
    decreases n
  {
    if n > 0 && h(seen).Some? {
      ZeroStays(h, Do(w, h(seen).value), seen + [Observe(w, h(seen).value)], n - 1);
    }
  }

  /** The connection gets one header, with the recorded status and before any body, exactly when the
      handler does not begin by writing the header with code zero. */
  lemma OneHeaderExactlyWithoutZero(h: Handler, suppressBody: bool, n: nat)
    ensures HeaderFirst(Serve(h, Fresh(suppressBody), [], n).0) <==> n == 0 || h([]) != Some(WriteHeader(NO_STATUS))
  {
    if n > 0 && h([]).Some? {
      var w, call := Fresh(suppressBody), h([]).value;
      if call == WriteHeader(NO_STATUS) {
        ZeroStays(h, Do(w, call), [Observe(w, call)], n - 1);
      } else {
        ServeHeaderFirst(h, Do(w, call), [Observe(w, call)], n - 1);
      }
      assert [] + [Observe(w, call)] == [Observe(w, call)];
    }
  }

  /** Later calls keep the recorded status and the headers that were sent. */
  lemma {:induction false} StatusStays(h: Handler, w: Writer, seen: seq<Seen>, n: nat)
    requires w.status != NO_STATUS
    ensures var w' := Serve(h, w, seen, n).0; w'.status == w.status && HeadersOf(w'.sent) == HeadersOf(w.sent)
    decreases n
  {
    hide HeadersOf, BodyOf;
    if n > 0 && h(seen).Some? {
      var call := h(seen).value;
      if !call.WriteHeader? {
        OneMore(w.sent, Body(call.data[..|call.data|]));
        assert HeadersOf(w.sent) + [] == HeadersOf(w.sent);
      }
      StatusStays(h, Do(w, call), seen + [Observe(w, call)], n - 1);
    }
  }

  /** What a handler asks for is what is sent, on GET and on HEAD: when it begins with a status, that is the
      status recorded and the only header sent; when it begins with body, 200 is; and when it does nothing,
      nothing is sent. */
  lemma FirstCallDecides(h: Handler, suppressBody: bool, n: nat)
    requires n > 0
    ensures var w := Serve(h, Fresh(suppressBody), [], n).0;
      match h([])
      case None => w.sent == [] && w.status == 0
      case Some(WriteHeader(code)) => code != 0 ==> w.status == code && HeadersOf(w.sent) == [Header(code)]
      case Some(Write(data)) => w.status == 200 && HeadersOf(w.sent) == [Header(200)]
      case Some(WriteString(data)) => w.status == 200 && HeadersOf(w.sent) == [Header(200)]
  {
    if h([]).Some? {
      var w, call := Fresh(suppressBody), h([]).value;
      var code := if call.WriteHeader? then call.code else 200;
      FirstHeader(w, call);
      assert [] + [Observe(w, call)] == [Observe(w, call)];
      if code != 0 { StatusStays(h, Do(w, call), [Observe(w, call)], n - 1); }
    }
  }

  lemma FirstHeader(w: Writer, call: Call)
    requires w.status == 0 && w.sent == []
    ensures var w', code := Do(w, call), if call.WriteHeader? then call.code else 200;
      w'.status == code && HeadersOf(w'.sent) == [Header(code)]
  {
    hide HeadersOf, BodyOf;
    var code := if call.WriteHeader? then call.code else 200;
    OneMore([], Header(code));
    NoHeaders();
    assert [] + [Header(code)] == [Header(code)] && [Header(code)] + [] == [Header(code)];
    if !call.WriteHeader? { OneMore([Header(code)], Body(call.data[..|call.data|])); }
  }

  lemma NoHeaders()
    ensures HeadersOf([]) == []
  {}

  /** Short writes keep the size that of the body that went out, and the header first. */
  lemma ShortWritesCount(w: Writer, data: bytes, taken: nat)
    requires HeaderFirst(w) && !w.suppressBody && w.size == |BodyOf(w.sent)| && taken <= |data|
    ensures var w' := DoTaken(w, data, taken);
      HeaderFirst(w') && w'.size == |BodyOf(w'.sent)| && BodyOf(w'.sent) == BodyOf(w.sent) + data[..taken]
  {
    hide BodyOf;
    var started, part := if w.status == NO_STATUS then DoHeader(w, STATUS_OK) else w, data[..taken];
    if w.status == NO_STATUS {
      OneMore(w.sent, Header(STATUS_OK));
      assert BodyOf(w.sent) + [] == BodyOf(w.sent);
    }
    assert HeaderFirst(started) && BodyOf(started.sent) == BodyOf(w.sent);
    OneMore(started.sent, Body(part));
    MoreBody(started, part);
  }

  lemma MoreBody(w: Writer, part: bytes)
    requires HeaderFirst(w) && w.status != NO_STATUS
    ensures HeaderFirst(w.(size := w.size + |part|, sent := w.sent + [Body(part)]))
  {
    var all := w.sent + [Body(part)];
    assert forall k :: 0 <= k < |all| ==> all[k] == if k < |w.sent| then w.sent[k] else Body(part);
  }

  // ---- the writer object ----

  /** The connection below. It may take only a part of a body, and then it says so. */
  class Connection {
    var sent: seq<Event>

    constructor ()
      ensures sent == []
    {
      sent := [];
    }

    method WriteHeader(code: int)
      modifies this
      ensures sent == old(sent) + [Header(code)]
    {
      sent := sent + [Header(code)];
    }

    method Write(data: bytes) returns (n: nat, failed: bool)
      modifies this
      ensures n <= |data| && sent == old(sent) + [Body(data[..n])] && (n < |data| ==> failed)
    {
      n :| 0 <= n <= |data|;
      sent := sent + [Body(data[..n])];
      failed := *;
      if n < |data| {
        failed := true;
      }
    }
  }

  class ResponseWriter {
    var below: Connection
    var status: int
    var size: int
    var suppressBody: bool

    function State(): Writer
      reads this, below
    {
      Writer(status, size, suppressBody, below.sent)
    }

    constructor (below: Connection)
      ensures this.below == below && State() == Fresh(false).(sent := below.sent)
    {
      this.below, status, size, suppressBody := below, NO_STATUS, 0, false;
    }

    /** Binds the writer to the connection of another request. */
    method Reset(below: Connection)
      modifies this
      ensures this.below == below && State() == Fresh(false).(sent := below.sent)
    {
      this.below, status, size, suppressBody := below, NO_STATUS, 0, false;
    }

    method WriteHeader(code: int)
      modifies this`status, below
      ensures below == old(below) && State() == DoHeader(old(State()), code)
      ensures old(status) == 0 ==> status == code && below.sent == old(below.sent) + [Header(code)]
      ensures old(status) != 0 ==> status == old(status) && below.sent == old(below.sent)
    {
      if status != NO_STATUS {
        return;
      }
      status := code;
      below.WriteHeader(code);
    }

    method Write(data: bytes) returns (n: nat, failed: bool)
      modifies this`status, this`size, below
      ensures below == old(below) && n <= |data| && State() == DoTaken(old(State()), data, n)
      ensures n < |data| ==> failed
      ensures suppressBody ==> n == |data| && !failed
      ensures old(status) == 0 ==> status == 200 && old(below.sent) + [Header(200)] <= below.sent
    {
      if status == NO_STATUS {
        WriteHeader(STATUS_OK);
      }
      if suppressBody {
        size := size + |data|;
        return |data|, false;
      }
      n, failed := below.Write(data);
      size := size + n;
    }

    method WriteString(data: bytes) returns (n: nat, failed: bool)
      modifies this`status, this`size, below
      ensures below == old(below) && n <= |data| && State() == DoTaken(old(State()), data, n)
      ensures n < |data| ==> failed
      ensures suppressBody ==> n == |data| && !failed
      ensures old(status) == 0 ==> status == 200 && old(below.sent) + [Header(200)] <= below.sent
    {
      if status == NO_STATUS {
        WriteHeader(STATUS_OK);
      }
      if suppressBody {
        size := size + |data|;
        return |data|, false;
      }
      n, failed := below.Write(data);
      size := size + n;
    }
  }
}
