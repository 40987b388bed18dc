/** The text of the event stream (tradegraph/apps/api/routers/jobs.py:333-346) and what a client reads back from it by
    the parsing rules for event streams (HTML Living Standard, sections 9.2.5 and 9.2.6). */
module StreamText {
  import opened Helpers
  import opened JobProtocol
  import opened Stream

  predicate LineBreak(c: char) { c == '\n' || c == '\r' }

  predicate OneLine(s: string) { forall i :: 0 <= i < |s| ==> !LineBreak(s[i]) }

  function StatusText(s: Status): (r: string)
    ensures OneLine(r)
  {
    match s case Pending => "pending" case Running => "running" case Succeeded => "succeeded" case Failed => "failed"
  }

  /** What a client receives: the event's type and its data. */
  datatype Frame = Frame(name: string, data: string)

  function FrameOf(e: Event): Frame {
    match e
    case ProgressEvent(text) => Frame("progress", text)
    case StatusEvent(s) => Frame("status", StatusText(s))
    case ErrorEvent => Frame("error", "job not found")
  }

  function FramesOf(events: seq<Event>): seq<Frame> {
    if events == [] then [] else [FrameOf(events[0])] + FramesOf(events[1..])
  }

  /** `event: name`, `data: data`, and a blank line. */
  function Sent(f: Frame): string { "event: " + f.name + "\n" + "data: " + f.data + "\n\n" }

  function SentAll(events: seq<Event>): string {
    if events == [] then "" else Sent(FrameOf(events[0])) + SentAll(events[1..])
  }

  /** The text sent for each event. */
  lemma SentMeaning(e: Event) returns (head: string, data: string)
    ensures Sent(FrameOf(e)) == head + data + "\n\n"
    ensures e.ProgressEvent? ==> head == "event: progress\ndata: " && data == e.text
    ensures e.StatusEvent? ==> head == "event: status\ndata: "
    ensures e == StatusEvent(Pending) ==> data == "pending"
    ensures e == StatusEvent(Running) ==> data == "running"
    ensures e == StatusEvent(Succeeded) ==> data == "succeeded"
    ensures e == StatusEvent(Failed) ==> data == "failed"
    ensures e.ErrorEvent? ==> head == "event: error\ndata: " && data == "job not found"
  {
    var f := FrameOf(e);
    head, data := "event: " + f.name + "\n" + "data: ", f.data;
    SentHead(f);
    match e
    case ProgressEvent(_) => ProgressHead();
    case StatusEvent(_) => StatusHead();
    case ErrorEvent => ErrorHead();
  }

  lemma SentHead(f: Frame)
    ensures Sent(f) == "event: " + f.name + "\n" + "data: " + f.data + "\n\n"
  {
  }

  lemma ProgressHead()
    ensures "event: " + "progress" + "\n" + "data: " == "event: progress\ndata: "
  {
  }

  lemma StatusHead()
    ensures "event: " + "status" + "\n" + "data: " == "event: status\ndata: "
  {
  }

  lemma ErrorHead()
    ensures "event: " + "error" + "\n" + "data: " == "event: error\ndata: "
  {
  }

  lemma {:induction false} SentInOrder(a: seq<Event>, b: seq<Event>)
    ensures SentAll(a + b) == SentAll(a) + SentAll(b)
    ensures |a| == 1 ==> SentAll(a) == Sent(FrameOf(a[0]))
  {
    hide Sent, FrameOf;
    if a == [] {
      assert a + b == b;
    } else {
      SentInOrder(a[1..], b);
      assert (a + b)[1..] == a[1..] + b;
    }
  }

  // ---- Reading ----------------------------------------------------------------------------------

  function Unspaced(s: string): string { if s != "" && s[0] == ' ' then s[1..] else s }

  /** What one line does to the event being read: a data line adds its value and a line feed, an event line sets
      the type, anything else is ignored. */
  function Field(line: string, name: string, data: string): (string, string) {
    if "data:" <= line then (name, data + Unspaced(line[5..]) + "\n")
    else if line == "data" then (name, data + "\n")
    else if "event:" <= line then (Unspaced(line[6..]), data)
    else if line == "event" then ("", data)
    else (name, data)
  }

  /** Read the rest of a stream, with the current line so far and the event read so far. A blank line ends the
      event, which counts only if it has data; an event without its blank line is dropped. */
  function Read(text: string, line: string, name: string, data: string): seq<Frame>
    decreases |text|
  {
    if text == "" then []
    else if LineBreak(text[0]) then
      var rest := if text[0] == '\r' && |text| > 1 && text[1] == '\n' then text[2..] else text[1..];
      if line != "" then
        var (n, d) := Field(line, name, data);
        Read(rest, "", n, d)
      else if data == "" then Read(rest, "", "", "")
      else [Frame(name, data[..|data| - 1])] + Read(rest, "", "", "")
    else Read(text[1..], line + [text[0]], name, data)
  }

  function Received(text: string): seq<Frame> { Read(text, "", "", "") }

  lemma {:induction false} ReadLine(part: string, rest: string, line: string, name: string, data: string)
    requires OneLine(part)
    ensures Read(part + rest, line, name, data) == Read(rest, line + part, name, data)
    decreases |part|
  {
    if part == "" {
      assert part + rest == rest && line + part == line;
    } else {
      assert (part + rest)[1..] == part[1..] + rest && (part + rest)[0] == part[0];
      ReadLine(part[1..], rest, line + [part[0]], name, data);
      assert line + [part[0]] + part[1..] == line + part;
    }
  }

  lemma ReadBreak(rest: string, line: string, name: string, data: string)
    ensures line != "" ==> Read("\n" + rest, line, name, data) == Read(rest, "", Field(line, name, data).0, Field(line, name, data).1)
    ensures line == "" && data != "" ==> Read("\n" + rest, line, name, data) == [Frame(name, data[..|data| - 1])] + Read(rest, "", "", "")
  {
    assert ("\n" + rest)[1..] == rest;
  }

  lemma DataLine(value: string, name: string, data: string)
    ensures Field("data: " + value, name, data) == (name, data + value + "\n")
  {
    var line := "data: " + value;
    assert line[..5] == "data:" && line[5..] == " " + value;
    assert (" " + value)[1..] == value;
  }

  lemma EventLine(value: string, name: string, data: string)
    ensures Field("event: " + value, name, data) == (value, data)
  {
    var line := "event: " + value;
    assert line[0] == 'e' && line[..6] == "event:" && line[6..] == " " + value;
    assert (" " + value)[1..] == value;
  }

  /** The beginning of an event, up to the data read so far. */
  lemma ReadHead(name: string, value: string, rest: string)
    requires OneLine(name) && OneLine(value)
    ensures Read("event: " + name + "\n" + "data: " + value + rest, "", "", "") == Read(rest, "data: " + value, name, "")
  {
    hide Read, Field;
    var head, tail := "event: " + name, "data: " + value;
    ReadLine(head, "\n" + (tail + rest), "", "", "");
    ReadBreak(tail + rest, head, "", "");
    EventLine(name, "", "");
    ReadLine(tail, rest, "", name, "");
    assert "event: " + name + "\n" + "data: " + value + rest == head + ("\n" + (tail + rest));
    assert "" + head == head && "" + tail == tail;
  }

  /** An event whose data is one line is read back as it was sent. */
  lemma ReadSent(f: Frame, rest: string)
    requires OneLine(f.name) && OneLine(f.data)
    ensures Read(Sent(f) + rest, "", "", "") == [f] + Read(rest, "", "", "")
  {
    hide Read, Field;
    assert Sent(f) + rest == "event: " + f.name + "\n" + "data: " + f.data + ("\n" + ("\n" + rest));
    ReadHead(f.name, f.data, "\n" + ("\n" + rest));
    ReadBreak("\n" + rest, "data: " + f.data, f.name, "");
    DataLine(f.data, f.name, "");
    ReadBreak(rest, "", f.name, "" + f.data + "\n");
    assert ("" + f.data + "\n")[..|f.data|] == f.data;
  }

  // ---- A line break in the data -----------------------------------------------------------------

  lemma FieldGrows(line: string, name: string, data: string)
    requires line != ""
    ensures |data| <= |Field(line, name, data).1| <= |data| + |line|
    ensures data != "" ==> Field(line, name, data).1 != ""
  {
  }

  /** Once there is data, the event ends within what was sent for it, and its data cannot be longer than that. */
  lemma {:induction false} EndsWithin(x: string, rest: string, line: string, name: string, data: string)
    requires data != ""
    ensures var frames := Read(x + "\n\n" + rest, line, name, data);
            frames != [] && |frames[0].data| + 1 <= |data| + |line| + |x|
    decreases |x|
  {
    hide Field;
    var text := x + "\n\n" + rest;
    if x == "" {
      EndsAtOnce(rest, line, name, data);
      assert text == "\n" + ("\n" + rest);
    } else if !LineBreak(x[0]) {
      EndsWithin(x[1..], rest, line + [x[0]], name, data);
      assert text[1..] == x[1..] + "\n\n" + rest;
    } else if line != "" {
      var (n, d) := Field(line, name, data);
      FieldGrows(line, name, data);
      if x[0] == '\r' && |x| == 1 {
        assert text[1] == '\n' && text[2..] == "\n" + rest;
        ReadBreak(rest, "", n, d);
      } else if x[0] == '\r' && x[1] == '\n' {
        assert text[2..] == x[2..] + "\n\n" + rest;
        EndsWithin(x[2..], rest, "", n, d);
      } else {
        assert text[1..] == x[1..] + "\n\n" + rest && (|x| > 1 ==> text[1] == x[1]);
        EndsWithin(x[1..], rest, "", n, d);
      }
    }
  }

  lemma EndsAtOnce(rest: string, line: string, name: string, data: string)
    requires data != ""
    ensures var frames := Read("\n" + ("\n" + rest), line, name, data);
            frames != [] && |frames[0].data| + 1 <= |data| + |line|
  {
    hide Field;
    ReadBreak("\n" + rest, line, name, data);
    if line != "" {
      FieldGrows(line, name, data);
      ReadBreak(rest, "", Field(line, name, data).0, Field(line, name, data).1);
    }
  }

  /** The first line of a text that has several, the break behind it, and the rest. */
  lemma {:induction false} FirstBreak(s: string) returns (u: string, c: char, v: string)
    requires !OneLine(s)
    ensures s == u + [c] + v && OneLine(u) && LineBreak(c)
  {
    if LineBreak(s[0]) {
      u, c, v := "", s[0], s[1..];
    } else {
      assert !OneLine(s[1..]) by {
        var i :| 0 <= i < |s| && LineBreak(s[i]);
        assert s[1..][i - 1] == s[i];
      }
      u, c, v := FirstBreak(s[1..]);
      u := [s[0]] + u;
    }
  }

  /** An event whose data has a line break is read back with less data than was sent. */
  lemma ReadBroken(f: Frame, rest: string)
    requires OneLine(f.name) && !OneLine(f.data)
    ensures var frames := Read(Sent(f) + rest, "", "", ""); frames != [] && |frames[0].data| < |f.data|
  {
    hide Read, Field;
    var u, c, v := FirstBreak(f.data);
    var tail := [c] + v + "\n\n" + rest;
    assert Sent(f) + rest == "event: " + f.name + "\n" + "data: " + u + tail;
    ReadHead(f.name, u, tail);
    AfterBreak(u, c, v, rest, f.name);
  }

  lemma AfterBreak(u: string, c: char, v: string, rest: string, name: string)
    requires LineBreak(c)
    ensures var frames := Read([c] + v + "\n\n" + rest, "data: " + u, name, "");
            frames != [] && |frames[0].data| <= |u| + |v|
  {
    hide Field;
    var text, data := [c] + v + "\n\n" + rest, "" + u + "\n";
    DataLine(u, name, "");
    if c == '\r' && v == "" {
      assert text[1] == '\n' && text[2..] == "\n" + rest;
      ReadBreak(rest, "", name, data);
    } else if c == '\r' && v[0] == '\n' {
      assert text[1] == '\n' && text[2..] == v[1..] + "\n\n" + rest;
      EndsWithin(v[1..], rest, "", name, data);
    } else {
      assert text[1..] == v + "\n\n" + rest && (v != "" ==> text[1] == v[0]);
      EndsWithin(v, rest, "", name, data);
    }
  }

  predicate Readable(e: Event) { e.ProgressEvent? ==> OneLine(e.text) }

  lemma FramesAreOneLine(e: Event)
    ensures OneLine(FrameOf(e).name) && (OneLine(FrameOf(e).data) <==> Readable(e))
  {
  }

  /** Exactly when a client reads back the events that were sent: when no progress text has a line break. */
  lemma {:induction false} ReadBackExactly(events: seq<Event>)
    ensures Received(SentAll(events)) == FramesOf(events) <==> forall i :: 0 <= i < |events| ==> Readable(events[i])
  {
    hide Read, Sent, FrameOf, Readable;
    if events == [] {
      NothingSent();
    } else {
      var f, rest := FrameOf(events[0]), SentAll(events[1..]);
      FramesAreOneLine(events[0]);
      ReadBackExactly(events[1..]);
      if Readable(events[0]) {
        ReadSent(f, rest);
        assert ([f] + Read(rest, "", "", ""))[1..] == Read(rest, "", "", "");
        assert ([f] + FramesOf(events[1..]))[1..] == FramesOf(events[1..]);
        assert forall i :: 0 < i < |events| ==> events[i] == events[1..][i - 1];
      } else {
        ReadBroken(f, rest);
      }
    }
  }

  lemma NothingSent()
    ensures Received(SentAll([])) == FramesOf([])
  {
  }

  /** A progress text of two lines is not read back as it was sent. */
  lemma BrokenProgress()
    ensures Received(SentAll([ProgressEvent("Researching: a\nb")])) != FramesOf([ProgressEvent("Researching: a\nb")])
  {
    hide Read, Received, SentAll, FramesOf;
    var e := ProgressEvent("Researching: a\nb");
    assert LineBreak(e.text[14]);
    assert !Readable([e][0]);
    ReadBackExactly([e]);
  }
}
