/** Server-sent events: what `SSEvent` prints (context.go), and what a client reads by section 9.2.6 of
    the WHATWG HTML standard. */
module EventStream {
  import opened Wrappers
  import opened Text

  datatype Event = Event(name: string, data: string)

  const CR := '\r'
  const LF := '\n'

  predicate IsLine(s: string) { CR !in s && LF !in s }

  // ---- the printer ----

  function DataLines(lines: seq<string>): string {
    if lines == [] then "" else DataLines(lines[..|lines| - 1]) + "data: " + lines[|lines| - 1] + "\n"
  }

  function PrintEvent(e: Event): string {
    (if e.name == "" then "" else "event: " + e.name + "\n") + DataLines(Split(e.data, LF)) + "\n"
  }

  function PrintAll(events: seq<Event>): string {
    if events == [] then "" else PrintEvent(events[0]) + PrintAll(events[1..])
  }

  /** The text of one event, built line by line. */
  method SSEvent(name: string, data: string) returns (b: string)
    ensures b == PrintEvent(Event(name, data))
  {
    hide Split, Join, DataLines;
    b := "";
    if name != "" {
      b := b + "event: " + name + "\n";
    }
    ghost var head := b;
    var lines := Split(data, '\n');
    assert lines[..0] == [] && head + DataLines([]) == head by { NoLines(); }
    var k := 0;
    while k < |lines|
      invariant k <= |lines| && b == head + DataLines(lines[..k])
    {
      OneMoreLine(lines, k);
      assert b + "data: " + lines[k] + "\n" == head + (DataLines(lines[..k]) + "data: " + lines[k] + "\n");
      b := b + "data: " + lines[k] + "\n";
      k := k + 1;
    }
    assert lines[..k] == lines;
    b := b + "\n";
  }

  lemma NoLines()
    ensures DataLines([]) == ""
  {}

  lemma OneMoreLine(lines: seq<string>, k: nat)
    requires k < |lines|
    ensures DataLines(lines[..k + 1]) == DataLines(lines[..k]) + "data: " + lines[k] + "\n"
  {
    assert lines[..k + 1][..k] == lines[..k];
  }

  // ---- the client's reader ----

  /** The place of the first CR or LF. */
  function LineEnd(s: string): (n: nat)
    ensures n <= |s| && IsLine(s[..n]) && (n < |s| ==> s[n] == CR || s[n] == LF)
  {
    if s == "" || s[0] == CR || s[0] == LF then 0
    else
      var n := 1 + LineEnd(s[1..]);
      assert s[..n] == [s[0]] + s[1..][..n - 1];
      n
  }

  /** The first line and what follows it; a line ends with CR LF, LF or CR. */
  function NextLine(s: string): (r: Option<(string, string)>)
    ensures r.Some? ==> |r.value.1| < |s| && IsLine(r.value.0)
  {
    var n := LineEnd(s);
    if n == |s| then None
    else if s[n] == CR && n + 1 < |s| && s[n + 1] == LF then Some((s[..n], s[n + 2..]))
    else Some((s[..n], s[n + 1..]))
  }

  function Colon(line: string): (n: nat)
    ensures n <= |line|
  {
    if line == "" || line[0] == ':' then 0 else 1 + Colon(line[1..])
  }

  /** The field name of a line and its value, without one leading space. */
  function FieldOf(line: string): (string, string) {
    var n := Colon(line);
    if n == |line| then (line, "")
    else
      var value := line[n + 1..];
      (line[..n], if value != "" && value[0] == ' ' then value[1..] else value)
  }

  /** What a client keeps while it reads: the event name and the data collected so far, the last event id, the
      reconnection time it was told, and the lines that mean nothing to it. */
  datatype Client = Client(name: string, data: string, lastId: string, retry: Option<string>, ignored: seq<string>)

  const NEW_CLIENT := Client("", "", "", None, [])

  /** An event as the client delivers it. */
  datatype Delivery = Delivery(event: Event, lastId: string)

  /** The events delivered, and the client at the end of the stream. */
  datatype Reading = Reading(events: seq<Delivery>, client: Client)

  predicate Digits(s: string) { s != "" && forall k :: 0 <= k < |s| ==> '0' <= s[k] <= '9' }

  /** One line that is not empty. */
  function Process(line: string, c: Client): Client
    requires line != ""
  {
    var (field, value) := FieldOf(line);
    if line[0] == ':' then c.(ignored := c.ignored + [line])
    else if field == "event" then c.(name := value)
    else if field == "data" then c.(data := c.data + value + "\n")
    else if field == "id" && '\0' !in value then c.(lastId := value)
    else if field == "retry" && Digits(value) then c.(retry := Some(value))
    else c.(ignored := c.ignored + [line])
  }

  function Interpret(s: string, c: Client): Reading
    decreases |s|
  {
    match NextLine(s)
    case None => Reading([], c)
    case Some((line, rest)) =>
      if line == "" then
        var more := Interpret(rest, c.(name := "", data := ""));
        more.(events := Dispatch(c) + more.events)
      else Interpret(rest, Process(line, c))
  }

  /** An empty line: nothing without data; otherwise an event, without the last LF of the data. */
  function Dispatch(c: Client): seq<Delivery> {
    if c.data == "" then []
    else
      var data := if c.data[|c.data| - 1] == LF then c.data[..|c.data| - 1] else c.data;
      [Delivery(Event(if c.name == "" then "message" else c.name, data), c.lastId)]
  }

  /** A byte order mark at the start of the stream is dropped. */
  function Read(stream: string): Reading {
    var s := if stream != "" && stream[0] == '\U{FEFF}' then stream[1..] else stream;
    Interpret(s, NEW_CLIENT)
  }

  // ---- round trip ----

  /** What the client is to see: an event without a name is called "message". */
  function Received(e: Event): Event { Event(if e.name == "" then "message" else e.name, e.data) }

  function AllReceived(events: seq<Event>): seq<Delivery> {
    seq(|events|, k requires 0 <= k < |events| => Delivery(Received(events[k]), ""))
  }

  /** No line breaks in the name, and only LF in the data. */
  predicate Clean(e: Event) { IsLine(e.name) && CR !in e.data }

  lemma {:induction false} LineEndAt(s: string, n: nat)
    requires n < |s| && IsLine(s[..n]) && (s[n] == CR || s[n] == LF)
    ensures LineEnd(s) == n
  {
    if n > 0 {
      assert s[0] == s[..n][0];
      assert s[1..][..n - 1] == s[..n][1..];
      LineEndAt(s[1..], n - 1);
    }
  }

  /** Reading a printed line. */
  lemma ReadsLine(line: string, rest: string)
    requires IsLine(line)
    ensures NextLine(line + "\n" + rest) == Some((line, rest))
  {
    var s := line + "\n" + rest;
    assert s[..|line|] == line && s[|line| + 1..] == rest;
    LineEndAt(s, |line|);
  }

  lemma {:induction false} ColonAt(s: string, n: nat)
    requires n < |s| && s[n] == ':' && forall k :: 0 <= k < n ==> s[k] != ':'
    ensures Colon(s) == n
  {
    if n > 0 { ColonAt(s[1..], n - 1); }
  }

  lemma EventField(name: string)
    ensures FieldOf("event: " + name) == ("event", name)
  {
    var s := "event: " + name;
    ColonAt(s, 5);
    assert s[..5] == "event" && s[6..] == " " + name;
  }

  lemma DataField(line: string)
    ensures FieldOf("data: " + line) == ("data", line)
  {
    var s := "data: " + line;
    ColonAt(s, 4);
    assert s[..4] == "data" && s[5..] == " " + line;
  }

  /** One printed line that is not empty. */
  lemma InterpretsLine(line: string, rest: string, c: Client)
    requires IsLine(line) && line != ""
    ensures Interpret(line + "\n" + rest, c) == Interpret(rest, Process(line, c))
  {
    hide NextLine, Process;
    ReadsLine(line, rest);
  }

  lemma ProcessesData(line: string, c: Client)
    ensures Process("data: " + line, c) == c.(data := c.data + line + "\n")
  {
    hide FieldOf, Digits;
    DataField(line);
  }

  /** Data lines are collected, each with an LF. */
  lemma {:induction false} ReadsData(lines: seq<string>, rest: string, c: Client)
    requires forall k :: 0 <= k < |lines| ==> IsLine(lines[k])
    ensures Interpret(DataLines(lines) + rest, c) == Interpret(rest, c.(data := c.data + Collected(lines)))
    decreases |lines|
  {
    hide Interpret, Process, DataLines, Collected;
    LastDataLine(lines);
    if lines == [] {
      assert "" + rest == rest && c.data + "" == c.data;
    } else {
      var init, last := lines[..|lines| - 1], lines[|lines| - 1];
      var line := "data: " + last;
      assert DataLines(init) + "data: " + last + "\n" + rest == DataLines(init) + (line + "\n" + rest);
      ReadsData(init, line + "\n" + rest, c);
      var c' := c.(data := c.data + Collected(init));
      InterpretsLine(line, rest, c');
      ProcessesData(last, c');
      assert c.data + Collected(init) + last + "\n" == c.data + (Collected(init) + last + "\n");
    }
  }

  lemma LastDataLine(lines: seq<string>)
    ensures lines == [] ==> DataLines(lines) == "" && Collected(lines) == ""
    ensures lines != [] ==>
      var init, last := lines[..|lines| - 1], lines[|lines| - 1];
      DataLines(lines) == DataLines(init) + "data: " + last + "\n" && Collected(lines) == Collected(init) + last + "\n"
  {}

  function Collected(lines: seq<string>): string {
    if lines == [] then "" else Collected(lines[..|lines| - 1]) + lines[|lines| - 1] + "\n"
  }

  lemma {:induction false} CollectedIsJoined(lines: seq<string>)
    requires lines != []
    ensures Collected(lines) == Join(lines, LF) + "\n"
  {
    if |lines| > 1 {
      var init, last := lines[..|lines| - 1], lines[|lines| - 1];
      CollectedIsJoined(init);
      JoinLast(lines);
    }
  }

  lemma {:induction false} JoinLast(lines: seq<string>)
    requires |lines| > 1
    ensures Join(lines, LF) == Join(lines[..|lines| - 1], LF) + "\n" + lines[|lines| - 1]
  {
    if |lines| > 2 {
      JoinLast(lines[1..]);
      assert lines[1..][..|lines| - 2] == lines[..|lines| - 1][1..];
    }
  }

  lemma SplitLinesAreLines(data: string)
    requires CR !in data
    ensures forall k :: 0 <= k < |Split(data, LF)| ==> IsLine(Split(data, LF)[k])
  {
    PartsAreWithin(data, CR);
  }

  lemma {:induction false} PartsAreWithin(s: string, c: char)
    requires c !in s
    ensures forall k :: 0 <= k < |Split(s, LF)| ==> c !in Split(s, LF)[k]
  {
    if s != "" {
      PartsAreWithin(s[1..], c);
      var rest := Split(s[1..], LF);
      assert forall k :: 0 <= k < |rest| ==> c !in rest[k];
      assert c !in [s[0]] + rest[0];
    }
  }

  /** One printed event is read back, and the client is as it was. */
  lemma ReadsEvent(e: Event, rest: string, c: Client)
    requires Clean(e) && c.name == "" && c.data == ""
    ensures var more := Interpret(rest, c);
      Interpret(PrintEvent(e) + rest, c) == more.(events := [Delivery(Received(e), c.lastId)] + more.events)
  {
    hide NextLine, FieldOf, DataLines, Split, Join, Collected, Digits;
    var lines := Split(e.data, LF);
    SplitLinesAreLines(e.data);
    CollectedIsJoined(lines);
    var body := DataLines(lines) + ("\n" + rest);
    if e.name != "" {
      var line := "event: " + e.name;
      assert PrintEvent(e) + rest == line + "\n" + body;
      ReadsLine(line, body);
      EventField(e.name);
    } else {
      assert PrintEvent(e) + rest == body;
    }
    ReadsData(lines, "\n" + rest, c.(name := e.name));
    assert "" + "\n" + rest == "\n" + rest;
    ReadsLine("", rest);
    assert "" + Collected(lines) == e.data + "\n";
  }

  lemma {:induction false} ReadsAll(events: seq<Event>)
    requires forall k :: 0 <= k < |events| ==> Clean(events[k])
    ensures Interpret(PrintAll(events), NEW_CLIENT) == Reading(AllReceived(events), NEW_CLIENT)
    decreases |events|
  {
    hide NextLine, PrintEvent;
    if events == [] {
      NothingToRead();
    } else {
      ReadsAll(events[1..]);
      ReadsEvent(events[0], PrintAll(events[1..]), NEW_CLIENT);
      assert AllReceived(events) == [Delivery(Received(events[0]), "")] + AllReceived(events[1..]);
    }
  }

  lemma NothingToRead()
    ensures Interpret("", NEW_CLIENT) == Reading([], NEW_CLIENT)
  {}

  ghost predicate AllClean(ds: seq<Delivery>) { forall k :: 0 <= k < |ds| ==> Clean(ds[k].event) }

  /** What a client reads never holds a CR, and no LF in a name. */
  lemma {:induction false} ReadIsClean(s: string, c: Client)
    requires IsLine(c.name) && CR !in c.data
    ensures AllClean(Interpret(s, c).events)
    decreases |s|
  {
    hide LineEnd, Colon;
    match NextLine(s)
    case None =>
    case Some((line, rest)) =>
      if line == "" {
        ReadIsClean(rest, c.(name := "", data := ""));
      } else {
        ProcessIsClean(line, c);
        ReadIsClean(rest, Process(line, c));
      }
  }

  lemma ProcessIsClean(line: string, c: Client)
    requires line != "" && IsLine(line) && IsLine(c.name) && CR !in c.data
    ensures IsLine(Process(line, c).name) && CR !in Process(line, c).data
  {
    hide Colon, Digits;
    assert IsLine(FieldOf(line).1);
  }

  /** The client reads back exactly the events that were sent, empty data, leading spaces and trailing
      newlines included, if and only if no name holds a line break and no data holds a CR. Then it has also seen
      nothing else: no event id, no reconnection time, no comment and no unknown field. */
  lemma EventsRoundTrip(events: seq<Event>)
    ensures Read(PrintAll(events)).events == AllReceived(events) <==> forall k :: 0 <= k < |events| ==> Clean(events[k])
    ensures (forall k :: 0 <= k < |events| ==> Clean(events[k])) ==> Read(PrintAll(events)).client == Client("", "", "", None, [])
  {
    var stream := PrintAll(events);
    NoMark(events);
    if forall k :: 0 <= k < |events| ==> Clean(events[k]) {
      ReadsAll(events);
    }
    if Read(stream).events == AllReceived(events) {
      ReadIsClean(stream, NEW_CLIENT);
      forall k | 0 <= k < |events|
        ensures Clean(events[k])
      {
        assert Clean(AllReceived(events)[k].event);
      }
    }
  }

  lemma NoMark(events: seq<Event>)
    ensures PrintAll(events) != "" ==> PrintAll(events)[0] != '\U{FEFF}'
  {
    if events != [] {
      var e := events[0];
      StartsWithData(Split(e.data, LF));
      assert PrintEvent(e)[0] == if e.name == "" then 'd' else 'e';
    }
  }

  lemma {:induction false} StartsWithData(lines: seq<string>)
    requires lines != []
    ensures DataLines(lines) != "" && DataLines(lines)[0] == 'd'
  {
    if |lines| > 1 { StartsWithData(lines[..|lines| - 1]); }
  }
}
