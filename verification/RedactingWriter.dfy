/**
 The redacting log writer. It buffers across writes and emits whole lines; its output
 depends on the bytes written, never on how they were split into writes.
 */
module RedactingWriter {
  import opened Text
  import opened Wrappers

  const MAX_BUFFER := 65536
  const MARKER := "[REDACTED: oversized record truncated]\n"

  type Redact = string -> string

  // --- Specification -------------------------------------------------------------------------

  /** One record: redacted when it fits with its terminator, else the marker. */
  function RenderLine(redact: Redact, line: string): string {
    if |line| <= MAX_BUFFER then redact(line) else redact(MARKER)
  }

  /** What an unterminated tail has already put out. */
  function RenderTail(redact: Redact, tail: string): string {
    if |tail| >= MAX_BUFFER then redact(MARKER) else ""
  }

  /** The output owed for a whole stream: a map over its lines, then the tail. */
  function Render(redact: Redact, s: string): string
    decreases |s|
  {
    var lf := IndexOf(s, '\n');
    if lf.None? then RenderTail(redact, s)
    else RenderLine(redact, s[..lf.value + 1]) + Render(redact, s[lf.value + 1..])
  }

  predicate AtBoundary(s: string) {
    s == "" || s[|s| - 1] == '\n'
  }

  /** Rendering splits at any line boundary. */
  lemma {:induction false} RenderCut(redact: Redact, a: string, b: string)
    requires AtBoundary(a)
    ensures Render(redact, a + b) == Render(redact, a) + Render(redact, b)
    decreases |a|
  {
    hide IndexOf, RenderLine, RenderTail;
    if a == "" {
      assert a + b == b;
      RenderEmpty(redact);
    } else {
      assert a[|a| - 1] in a;
      var k := IndexOf(a, '\n').value;
      assert (a + b)[..k] == a[..k];
      IndexUnique(a + b, '\n', k);
      var first, rest := a[..k + 1], a[k + 1..];
      assert (a + b)[..k + 1] == first && (a + b)[k + 1..] == rest + b;
      RenderCut(redact, rest, b);
      assert Render(redact, a + b) == RenderLine(redact, first) + Render(redact, rest + b);
      assert Render(redact, a) == RenderLine(redact, first) + Render(redact, rest);
    }
  }

  lemma RenderEmpty(redact: Redact)
    ensures Render(redact, "") == ""
  {
  }

  lemma RenderOneLine(redact: Redact, body: string)
    requires '\n' !in body
    ensures Render(redact, body + "\n") == RenderLine(redact, body + "\n")
  {
    var line := body + "\n";
    assert line[..|body|] == body;
    IndexUnique(line, '\n', |body|);
    assert line[..|body| + 1] == line && line[|body| + 1..] == "";
    assert Render(redact, "") == "";
  }

  lemma RenderNoNewline(redact: Redact, tail: string)
    requires '\n' !in tail
    ensures Render(redact, tail) == RenderTail(redact, tail)
  {
  }

  /** A line that fits with its terminator is put out redacted; a longer one as the marker alone. */
  lemma RecordIsPutOut(redact: Redact, body: string)
    requires '\n' !in body
    ensures Render(redact, body + "\n") ==
            if |body| < 64 * 1024 then redact(body + "\n") else redact(MARKER)
  {
    hide Render;
    RenderOneLine(redact, body);
  }

  /** An unterminated tail has put out nothing, or the marker once it fills the buffer. */
  lemma TailIsPutOut(redact: Redact, tail: string)
    requires '\n' !in tail
    ensures Render(redact, tail) ==
            if |tail| < 64 * 1024 then "" else redact(MARKER)
  {
    hide Render;
    RenderNoNewline(redact, tail);
  }

  lemma Reassociate(a: string, b: string, c: string, d: string)
    ensures a + b + (c + d) == a + (b + c) + "" + d
    ensures a + b + c == a + (b + c)
  {
  }

  /** The unterminated end of a stream. */
  function TailOf(s: string): string {
    if s == "" || s[|s| - 1] == '\n' then "" else TailOf(s[..|s| - 1]) + [s[|s| - 1]]
  }

  lemma {:induction false} TailIsUnique(lines: string, tail: string)
    requires AtBoundary(lines) && '\n' !in tail
    ensures TailOf(lines + tail) == tail
    decreases |tail|
  {
    if tail == "" {
      assert lines + tail == lines;
    } else {
      var n := |tail| - 1;
      TailIsUnique(lines, tail[..n]);
      assert (lines + tail)[..|lines + tail| - 1] == lines + tail[..n];
      assert tail[n] in tail && (lines + tail)[|lines + tail| - 1] == tail[n];
    }
  }

  // --- The writer -------------------------------------------------------------------------------

  class Writer {
    const redact: Redact
    var sink: string
    var buf: string
    var discarding: bool
    /** What has been written since the last flush: complete lines, and the unterminated tail. */
    ghost var lines: string
    ghost var tail: string
    /** The sink at the last flush. */
    ghost var base: string

    ghost predicate Valid()
      reads this
    {
      && AtBoundary(lines) && '\n' !in tail
      && sink == base + Render(redact, lines) + RenderTail(redact, tail)
      && buf == (if |tail| < MAX_BUFFER then tail else "")
      && discarding == (|tail| >= MAX_BUFFER)
    }

    constructor (r: Redact)
      ensures Valid() && lines == "" && tail == "" && base == "" && sink == "" && redact == r
    {
      redact, sink, buf, discarding, lines, tail, base := r, "", "", false, "", "", "";
      new;
      RenderNoNewline(r, "");
    }

    /** The output is the rendering of the stream, however it was chunked. */
    lemma SinkIsRendering()
      requires Valid()
      ensures sink == base + Render(redact, lines + tail) && tail == TailOf(lines + tail)
    {
      hide Render, RenderTail, TailOf;
      TailIsUnique(lines, tail);
      RenderCut(redact, lines, tail);
      RenderNoNewline(redact, tail);
      Reassociate(base, Render(redact, lines), RenderTail(redact, tail), "");
    }

    method EmitOversizedMarker()
      modifies this`sink
      ensures sink == old(sink) + redact(MARKER)
    {
      sink := sink + redact(MARKER);
    }

    /** Forwards the buffered record; every record in the buffer is whole unless forced. */
    method Emit(force: bool)
      requires force || (buf != "" && buf[|buf| - 1] == '\n')
      modifies this`sink, this`buf
      ensures buf == ""
      ensures sink == old(sink) + if old(buf) == "" then "" else redact(old(buf))
    {
      if buf == "" {
        return;
      }
      sink := sink + redact(buf);
      buf := "";
    }

    /** Ghost bookkeeping: the pending tail and `chunk` complete one more line. */
    lemma LineCompletes(chunk: string, body: string)
      requires Valid() && chunk == body + "\n" && '\n' !in body
      ensures AtBoundary(lines + (tail + chunk))
      ensures Render(redact, lines + (tail + chunk)) == Render(redact, lines) + RenderLine(redact, tail + chunk)
    {
      RenderCut(redact, lines, tail + chunk);
      assert tail + chunk == (tail + body) + "\n";
      RenderOneLine(redact, tail + body);
    }

    /** A piece without a terminator only lengthens the tail. */
    method WriteTail(piece: string)
      requires Valid() && '\n' !in piece
      modifies this
      ensures Valid() && base == old(base) && lines == old(lines) && tail == old(tail) + piece
    {
      hide Render;
      if !discarding {
        if |piece| >= MAX_BUFFER - |buf| {
          buf, discarding := "", true;
          EmitOversizedMarker();
        } else {
          buf := buf + piece;
        }
      }
      tail := tail + piece;
    }

    /** A piece that ends the line completes one record. */
    method WriteLine(chunk: string, ghost body: string)
      requires Valid() && chunk == body + "\n" && '\n' !in body
      modifies this
      ensures Valid() && base == old(base) && lines == old(lines) + (old(tail) + chunk) && tail == ""
    {
      hide Render;
      LineCompletes(chunk, body);
      ghost var whole := lines + (tail + chunk);
      if discarding {
        discarding := false;
      } else if |buf| + |chunk| > MAX_BUFFER {
        buf := "";
        EmitOversizedMarker();
      } else {
        buf := buf + chunk;
        Emit(false);
      }
      lines, tail := whole, "";
    }

    method Write(p: string)
      requires Valid()
      modifies this
      ensures Valid() && base == old(base)
      ensures lines + tail == old(lines + tail) + p
    {
      hide Valid, IndexOf, Render;
      var rest := p;
      while rest != ""
        invariant Valid() && base == old(base)
        invariant lines + tail + rest == old(lines + tail) + p
        decreases |rest|
      {
        var lf := IndexOf(rest, '\n');
        if lf.None? {
          Reassociate(lines, tail, rest, "");
          WriteTail(rest);
          return;
        }
        var chunk := rest[..lf.value + 1];
        ghost var body := rest[..lf.value];
        assert chunk == body + "\n";
        assert rest == chunk + rest[lf.value + 1..];
        Reassociate(lines, tail, chunk, rest[lf.value + 1..]);
        WriteLine(chunk, body);
        rest := rest[lf.value + 1..];
      }
    }

    method Flush()
      requires Valid()
      modifies this
      ensures Valid() && lines == "" && tail == "" && base == sink
      ensures var t := old(tail);
              sink == old(sink) + if t == "" || |t| >= MAX_BUFFER then "" else redact(t)
    {
      discarding := false;
      Emit(true);
      lines, tail, base := "", "", sink;
      RenderNoNewline(redact, "");
    }
  }

  predicate IsRecord(line: string) {
    line != "" && line[|line| - 1] == '\n' && '\n' !in line[..|line| - 1]
  }

  function RenderEach(redact: Redact, records: seq<string>): string {
    if records == [] then "" else RenderEach(redact, records[..|records| - 1]) + RenderLine(redact, records[|records| - 1])
  }

  /** The rendering of a list of records and a tail is the per-record map plus the tail's marker. */
  lemma {:induction false} RenderIsLineMap(redact: Redact, records: seq<string>, tail: string)
    requires (forall i :: 0 <= i < |records| ==> IsRecord(records[i])) && '\n' !in tail
    ensures AtBoundary(Joined(records))
    ensures Render(redact, Joined(records) + tail) == RenderEach(redact, records) + RenderTail(redact, tail)
  {
    hide Render, RenderLine, RenderTail;
    RenderNoNewline(redact, tail);
    if records == [] {
      assert Joined(records) + tail == tail;
      assert "" + RenderTail(redact, tail) == RenderTail(redact, tail);
    } else {
      var n := |records| - 1;
      var rest, last := records[..n], records[n];
      RenderIsLineMap(redact, rest, "");
      RenderNoNewline(redact, "");
      assert Joined(rest) + "" == Joined(rest);
      EmptyTail(redact);
      RenderCut(redact, Joined(records), tail);
      RenderCut(redact, Joined(rest), last);
      assert last == last[..|last| - 1] + "\n";
      RenderOneLine(redact, last[..|last| - 1]);
    }
  }

  lemma EmptyTail(redact: Redact)
    ensures RenderTail(redact, "") == ""
  {
  }

  /** Chunk independence: any split of the input gives the rendering of the whole input. */
  method WriteChunks(redact: Redact, chunks: seq<string>, flush: bool) returns (output: string)
    ensures var s := Joined(chunks);
      output == Render(redact, s) + if flush && 0 < |TailOf(s)| < MAX_BUFFER then redact(TailOf(s)) else ""
  {
    hide Render, TailOf, Writer.Valid;
    var w := new Writer(redact);
    for i := 0 to |chunks|
      invariant w.Valid() && w.redact == redact && w.base == "" && fresh(w)
      invariant w.lines + w.tail == Joined(chunks[..i])
    {
      assert chunks[..i + 1][..i] == chunks[..i];
      w.Write(chunks[i]);
    }
    assert chunks[..|chunks|] == chunks;
    w.SinkIsRendering();
    if flush {
      w.Flush();
    }
    output := w.sink;
  }
}
