/** The incremental splitter of a streamed response: lines ending in a newline, a carried-over incomplete
    line, and the payloads of `data: ` lines and of lines that start with a brace. */
module SseStream {
  import opened Wrappers
  import opened Bytes
  import opened Sequences

  /** "data: ", "[DONE]", "{" and the end of the response headers. */
  const DATA: Text := [100, 97, 116, 97, 58, 32]
  const FINISHED: Text := [91, 68, 79, 78, 69, 93]
  const BRACE: Byte := 123
  const HEADER_END: Text := [CR, LF, CR, LF]

  function WithoutReturn(line: Text): Text {
    if line != [] && line[|line| - 1] == CR then line[..|line| - 1] else line
  }

  /** What a complete line delivers. */
  function Payload(line: Text): Option<Text> {
    var l := WithoutReturn(line);
    if DATA <= l then if l[|DATA|..] == FINISHED then None else Some(l[|DATA|..])
    else if l != [] && l[0] == BRACE then Some(l)
    else None
  }

  function Payloads(lines: seq<Text>): seq<Text> {
    Flat(lines, Delivered)
  }

  function Delivered(line: Text): seq<Text> {
    match Payload(line)
    case None => []
    case Some(p) => [p]
  }

  // ---- what a line delivers, by its text

  /** A line as a server writes it; every line is of one of these kinds. */
  datatype Sent = Data(data: Text) | Finish | Bare(rest: Text) | Other(text: Text) {
    function Text(): Text {
      match this
      case Data(data) => Ascii("data: ") + data
      case Finish => Ascii("data: [DONE]")
      case Bare(rest) => Ascii("{") + rest
      case Other(text) => text
    }

    /** A line without newline, and without a return at its end unless its ending begins with one. */
    predicate Valid(ending: Text) {
      && LF !in Text()
      && (ending == Ascii("\n") ==> Text() == [] || Text()[|Text()| - 1] != CR)
      && (Data? ==> data != Ascii("[DONE]"))
      && (Other? ==> !(Ascii("data: ") <= text) && !(Ascii("{") <= text))
    }

    /** What reaches the callback. */
    function Delivery(): seq<Text> {
      match this
      case Data(data) => [data]
      case Bare(_) => [Text()]
      case Finish => []
      case Other(_) => []
    }
  }

  predicate IsEnding(ending: Text) {
    ending == Ascii("\n") || ending == Ascii("\r\n")
  }

  /** The bytes before the newline of a line with its ending. */
  function BeforeNewline(line: Sent, ending: Text): Text {
    if ending == Ascii("\n") then line.Text() else line.Text() + [CR]
  }

  lemma Constants()
    ensures DATA == Ascii("data: ") && FINISHED == Ascii("[DONE]") && HEADER_END == Ascii("\r\n\r\n")
    ensures [BRACE] == Ascii("{") && [LF] == Ascii("\n") && [CR, LF] == Ascii("\r\n")
    ensures DATA + FINISHED == Ascii("data: [DONE]")
  {
  }

  lemma StrippedReturn(line: Sent, ending: Text)
    requires IsEnding(ending) && line.Valid(ending)
    ensures WithoutReturn(BeforeNewline(line, ending)) == line.Text()
  {
    Constants();
    var t := line.Text();
    assert (t + [CR])[..|t|] == t;
  }

  /** Each kind of line, ended either way, delivers exactly what it should. */
  lemma LineDelivers(line: Sent, ending: Text)
    requires IsEnding(ending) && line.Valid(ending)
    ensures Payloads([BeforeNewline(line, ending)]) == line.Delivery()
  {
    hide WithoutReturn, BeforeNewline;
    Constants();
    StrippedReturn(line, ending);
    var raw, t := BeforeNewline(line, ending), line.Text();
    FlatCons(raw, [], Delivered);
    assert [raw] + [] == [raw];
    match line
    case Data(data) => assert t[|DATA|..] == data;
    case Finish => assert t[|DATA|..] == FINISHED;
    case Bare(rest) => assert t[0] == BRACE && !(DATA <= t);
    case Other(text) => assert text != [] ==> [text[0]] <= text;
  }

  function KindOf(text: Text): Sent {
    if DATA <= text then if text[|DATA|..] == FINISHED then Finish else Data(text[|DATA|..])
    else if text != [] && text[0] == BRACE then Bare(text[1..])
    else Other(text)
  }

  lemma KindKeepsText(text: Text)
    ensures KindOf(text).Text() == text
    ensures KindOf(text).Data? ==> KindOf(text).data != Ascii("[DONE]")
    ensures KindOf(text).Other? ==> KindOf(text).text == text && !(Ascii("data: ") <= text) && !(Ascii("{") <= text)
  {
    Constants();
    if DATA <= text {
      assert text == DATA + text[|DATA|..];
    } else if text != [] {
      assert text == [text[0]] + text[1..];
    }
  }

  /** Every line is of one of the kinds. */
  lemma EveryLineIsSent(raw: Text)
    requires LF !in raw
    ensures exists line: Sent, ending :: IsEnding(ending) && line.Valid(ending) && BeforeNewline(line, ending) == raw
  {
    hide KindOf, Sent.Text;
    Constants();
    var returned := raw != [] && raw[|raw| - 1] == CR;
    var text := if returned then raw[..|raw| - 1] else raw;
    var ending := if returned then [CR, LF] else [LF];
    KindKeepsText(text);
    assert returned ==> raw == text + [CR];
    assert IsEnding(ending) && KindOf(text).Valid(ending) && BeforeNewline(KindOf(text), ending) == raw;
  }

  // ---- splitting at newlines

  /** The complete lines from a position on, and the unfinished line after them. */
  function LinesFrom(s: Text, start: nat): seq<Text>
    requires start <= |s|
    decreases |s| - start
  {
    var e := IndexOf(s, LF, start);
    if e == |s| then [] else [s[start..e]] + LinesFrom(s, e + 1)
  }

  function RestFrom(s: Text, start: nat): Text
    requires start <= |s|
    decreases |s| - start
  {
    var e := IndexOf(s, LF, start);
    if e == |s| then s[start..] else RestFrom(s, e + 1)
  }

  function Lines(s: Text): seq<Text> {
    LinesFrom(s, 0)
  }

  function Rest(s: Text): Text {
    RestFrom(s, 0)
  }

  lemma {:induction false} IndexShift(x: Text, y: Text, k: nat)
    requires k <= |y|
    ensures IndexOf(x + y, LF, |x| + k) == |x| + IndexOf(y, LF, k)
    decreases |y| - k
  {
    if k == |y| || y[k] == LF {
    } else {
      assert (x + y)[|x| + k] == y[k];
      IndexShift(x, y, k + 1);
    }
  }

  lemma SplitStep(s: Text, start: nat)
    requires start <= |s|
    ensures var e := IndexOf(s, LF, start);
            if e == |s| then LinesFrom(s, start) == [] && RestFrom(s, start) == s[start..]
            else LinesFrom(s, start) == [s[start..e]] + LinesFrom(s, e + 1) && RestFrom(s, start) == RestFrom(s, e + 1)
  {
  }

  /** Splitting from a position depends only on what follows it. */
  lemma {:induction false} SplitShift(x: Text, y: Text, k: nat)
    requires k <= |y|
    ensures LinesFrom(x + y, |x| + k) == LinesFrom(y, k)
    ensures RestFrom(x + y, |x| + k) == RestFrom(y, k)
    decreases |y| - k
  {
    hide IndexOf, LinesFrom, RestFrom;
    var e := IndexOf(y, LF, k);
    IndexShift(x, y, k);
    SplitStep(y, k);
    SplitStep(x + y, |x| + k);
    if e < |y| {
      SplitShift(x, y, e + 1);
      assert (x + y)[|x| + k..|x| + e] == y[k..e];
    } else {
      assert (x + y)[|x| + k..] == y[k..];
    }
  }

  function Unlines(lines: seq<Text>): Text {
    if lines == [] then [] else lines[0] + [LF] + Unlines(lines[1..])
  }

  predicate LineFree(lines: seq<Text>) {
    forall i | 0 <= i < |lines| :: LF !in lines[i]
  }

  lemma UnlinesCons(l: Text, lines: seq<Text>)
    ensures Unlines([l] + lines) == l + [LF] + Unlines(lines)
  {
    assert ([l] + lines)[1..] == lines;
  }

  lemma {:induction false} SplitFromJoins(s: Text, start: nat)
    requires start <= |s|
    ensures Unlines(LinesFrom(s, start)) + RestFrom(s, start) == s[start..]
    decreases |s| - start
  {
    hide IndexOf, LinesFrom, RestFrom, Unlines;
    var e := IndexOf(s, LF, start);
    SplitStep(s, start);
    if e < |s| {
      var l, ls, r := s[start..e], LinesFrom(s, e + 1), RestFrom(s, e + 1);
      SplitFromJoins(s, e + 1);
      UnlinesCons(l, ls);
      Regroup(l + [LF], Unlines(ls), r);
      CutAt(s, start, e);
    } else {
      NoLines(s[start..]);
    }
  }

  lemma NoLines(rest: Text)
    ensures Unlines([]) + rest == rest
  {
  }

  /** One unfolding of the splitting functions. */
  lemma {:induction false} SplitFromLineFree(s: Text, start: nat)
    requires start <= |s|
    ensures LF !in RestFrom(s, start) && LineFree(LinesFrom(s, start))
    decreases |s| - start
  {
    var e := IndexOf(s, LF, start);
    if e == |s| {
    } else {
      SplitFromLineFree(s, e + 1);
      assert LF !in s[start..e];
    }
  }

  lemma SplitFirst(l: Text, tail: Text)
    requires LF !in l
    ensures Lines(l + [LF] + tail) == [l] + Lines(tail) && Rest(l + [LF] + tail) == Rest(tail)
  {
    var x := l + [LF];
    var s := x + tail;
    assert s[|l|] == LF && forall j | 0 <= j < |l| :: s[j] == l[j];
    assert IndexOf(s, LF, 0) == |l|;
    assert s[0..|l|] == l;
    SplitShift(x, tail, 0);
  }

  /** Splitting is the one way to write a text as newline-ended lines followed by an unfinished one. */
  lemma {:induction false} SplitIsUnique(s: Text, lines: seq<Text>, rest: Text)
    ensures lines == Lines(s) && rest == Rest(s) <==> LF !in rest && LineFree(lines) && Unlines(lines) + rest == s
    decreases |lines|
  {
    SplitFromJoins(s, 0);
    SplitFromLineFree(s, 0);
    assert s[0..] == s;
    if LF !in rest && LineFree(lines) && Unlines(lines) + rest == s {
      JoinThenSplit(lines, rest);
    }
  }

  lemma {:induction false} JoinThenSplit(lines: seq<Text>, rest: Text)
    requires LF !in rest && LineFree(lines)
    ensures Lines(Unlines(lines) + rest) == lines && Rest(Unlines(lines) + rest) == rest
    decreases |lines|
  {
    if lines == [] {
      assert Unlines(lines) + rest == rest;
      assert rest[0..] == rest;
    } else {
      var l, tail := lines[0], Unlines(lines[1..]) + rest;
      JoinThenSplit(lines[1..], rest);
      assert Unlines(lines) + rest == l + [LF] + tail;
      SplitFirst(l, tail);
    }
  }

  /** Splitting a text in two steps: the unfinished line of the first part is completed by the second. */
  lemma {:induction false} SplitAppend(a: Text, start: nat, b: Text)
    requires start <= |a|
    ensures LinesFrom(a + b, start) == LinesFrom(a, start) + Lines(RestFrom(a, start) + b)
    ensures RestFrom(a + b, start) == Rest(RestFrom(a, start) + b)
    decreases |a| - start
  {
    hide IndexOf, LinesFrom, RestFrom;
    var e := IndexOf(a, LF, start);
    SplitStep(a, start);
    if e < |a| {
      var l, ls, r := a[start..e], LinesFrom(a, e + 1), RestFrom(a, e + 1);
      SplitAppend(a, e + 1, b);
      IndexAppend(a, b, start);
      SplitStep(a + b, start);
      SliceAppend(a, b, start, e);
      Regroup([l], ls, Lines(r + b));
    } else {
      var tail := a[start..] + b;
      Regroup(a[..start], a[start..], b);
      SplitShift(a[..start], tail, 0);
      assert a == a[..start] + a[start..];
      assert [] + Lines(tail) == Lines(tail);
    }
  }

  lemma SliceAppend(a: Text, b: Text, i: nat, j: nat)
    requires i <= j <= |a|
    ensures (a + b)[i..j] == a[i..j]
  {
  }

  lemma {:induction false} IndexAppend(a: Text, b: Text, start: nat)
    requires start <= |a| && IndexOf(a, LF, start) < |a|
    ensures IndexOf(a + b, LF, start) == IndexOf(a, LF, start)
    decreases |a| - start
  {
    if a[start] == LF {
    } else {
      IndexAppend(a, b, start + 1);
    }
  }

  // ---- whole streams of lines

  datatype Ended = Ended(line: Sent, ending: Text) {
    predicate Valid() {
      IsEnding(ending) && line.Valid(ending)
    }
  }

  function Rendered(ls: seq<Ended>): Text {
    if ls == [] then [] else Rendered(ls[..|ls| - 1]) + (ls[|ls| - 1].line.Text() + ls[|ls| - 1].ending)
  }

  function Deliveries(ls: seq<Ended>): seq<Text> {
    if ls == [] then [] else Deliveries(ls[..|ls| - 1]) + ls[|ls| - 1].line.Delivery()
  }

  /** Where all lines so far are complete, one more line appends exactly its delivery. */
  lemma OneMoreLine(fed: Text, line: Sent, ending: Text)
    requires Rest(fed) == [] && IsEnding(ending) && line.Valid(ending)
    ensures Payloads(Lines(fed + (line.Text() + ending))) == Payloads(Lines(fed)) + line.Delivery()
    ensures Rest(fed + (line.Text() + ending)) == []
  {
    hide LinesFrom, RestFrom, Delivered;
    Constants();
    var raw := BeforeNewline(line, ending);
    assert line.Text() + ending == raw + [LF] + [];
    assert LF !in raw;
    SplitAppend(fed, 0, line.Text() + ending);
    assert [] + (line.Text() + ending) == line.Text() + ending;
    SplitFirst(raw, []);
    EmptySplit();
    assert [raw] + [] == [raw];
    FlatAppend(Lines(fed), [raw], Delivered);
    LineDelivers(line, ending);
  }

  lemma EmptySplit()
    ensures Lines([]) == [] && Rest([]) == []
  {
  }

  /** A stream of lines delivers exactly what its lines deliver, in order, and leaves nothing over. */
  lemma {:induction false} StreamOfLines(ls: seq<Ended>)
    requires forall i | 0 <= i < |ls| :: ls[i].Valid()
    ensures Payloads(Lines(Rendered(ls))) == Deliveries(ls) && Rest(Rendered(ls)) == []
  {
    hide LinesFrom, RestFrom, Delivered, Sent.Valid, Sent.Text, Sent.Delivery;
    if ls == [] {
      EmptySplit();
    } else {
      StreamOfLines(ls[..|ls| - 1]);
      OneMoreLine(Rendered(ls[..|ls| - 1]), ls[|ls| - 1].line, ls[|ls| - 1].ending);
    }
  }

  // ---- the reader

  class StreamReader {
    var carryOver: Text
    var emitted: seq<Text>
    /** All body bytes fed so far. */
    ghost var fed: Text

    /** However the bytes fed so far were cut, the reader has emitted the payloads of all complete lines
        and carries exactly the unfinished one. */
    ghost predicate Valid()
      reads this
    {
      emitted == Payloads(Lines(fed)) && carryOver == Rest(fed)
    }

    constructor ()
      ensures Valid() && fed == [] && emitted == [] && carryOver == []
    {
      carryOver, emitted, fed := [], [], [];
    }

    method ProcessSseBuffer(chunk: Text)
      requires Valid()
      modifies this
      ensures Valid() && fed == old(fed) + chunk
    {
      fed := fed + chunk;
      SplitAppend(old(fed), 0, chunk);
      FlatAppend(Lines(old(fed)), Lines(old(carryOver) + chunk), Delivered);
      if chunk == [] && carryOver == [] {
        assert old(carryOver) + chunk == [];
        return;
      }
      var view := chunk;
      var usingCarryOver := false;
      if carryOver != [] {
        carryOver := carryOver + chunk;
        view := carryOver;
        usingCarryOver := true;
      }
      assert view == old(carryOver) + chunk;
      ScanLines(view, usingCarryOver);
    }

    /** The line loop over the bytes at hand, which are the carry-over itself or, when nothing was
        carried over, the new chunk. */
    method ScanLines(view: Text, usingCarryOver: bool)
      requires carryOver == if usingCarryOver then view else []
      modifies this`carryOver, this`emitted
      ensures emitted == old(emitted) + Payloads(Lines(view)) && carryOver == Rest(view)
    {
      hide LinesFrom, RestFrom;
      var start := 0;
      ghost var done: seq<Text> := [];
      while start < |view|
        invariant Scanned(view, start, done)
        invariant emitted == old(emitted) + Payloads(done)
        invariant carryOver == if usingCarryOver then view else []
      {
        var end := IndexOf(view, LF, start);
        if end == |view| {
          LastLine(view, start, done);
          if usingCarryOver {
            if start > 0 {
              carryOver := carryOver[start..];
            }
          } else {
            carryOver := view[start..];
          }
          return;
        }
        Regroup(old(emitted), Payloads(done), Payloads([view[start..end]]));
        NextLine(view, start, done);
        Emit(view[start..end]);
        done := done + [view[start..end]];
        start := end + 1;
      }
      LastLine(view, start, done);
      if usingCarryOver {
        carryOver := [];
      }
    }

    /** The lines before position `start` are `done`; the rest is still to be split. */
    ghost static predicate Scanned(view: Text, start: nat, done: seq<Text>) {
      && start <= |view|
      && done + LinesFrom(view, start) == Lines(view)
      && RestFrom(view, start) == Rest(view)
    }

    static lemma NextLine(view: Text, start: nat, done: seq<Text>)
      requires Scanned(view, start, done) && IndexOf(view, LF, start) < |view|
      ensures var end := IndexOf(view, LF, start);
              && Scanned(view, end + 1, done + [view[start..end]])
              && Payloads(done + [view[start..end]]) == Payloads(done) + Payloads([view[start..end]])
    {
      var end := IndexOf(view, LF, start);
      var line, later := view[start..end], LinesFrom(view, end + 1);
      assert done + ([line] + later) == (done + [line]) + later;
      FlatAppend(done, [line], Delivered);
    }

    static lemma LastLine(view: Text, start: nat, done: seq<Text>)
      requires Scanned(view, start, done) && IndexOf(view, LF, start) == |view|
      ensures done == Lines(view) && Rest(view) == view[start..]
    {
      assert done + [] == done;
    }

    method Emit(rawLine: Text)
      modifies this`emitted
      ensures emitted == old(emitted) + Payloads([rawLine])
    {
      FlatCons(rawLine, [], Delivered);
      assert [rawLine] + [] == [rawLine];
      assert Payloads([rawLine]) == Delivered(rawLine);
      var line := rawLine;
      if line != [] && line[|line| - 1] == CR {
        line := line[..|line| - 1];
      }
      if DATA <= line {
        var data := line[|DATA|..];
        if data != FINISHED {
          emitted := emitted + [data];
        }
      } else if line != [] && line[0] == BRACE {
        emitted := emitted + [line];
      }
    }

    /** A response body delivered in chunks, however they are cut. */
    method ReadChunks(chunks: seq<Text>)
      requires Valid()
      modifies this
      ensures Valid() && fed == old(fed) + Joined(chunks)
    {
      for i := 0 to |chunks|
        invariant Valid() && fed == old(fed) + Joined(chunks[..i])
      {
        ProcessSseBuffer(chunks[i]);
        assert chunks[..i + 1][..i] == chunks[..i];
      }
      assert chunks[..|chunks|] == chunks;
    }

    /** The receive loop over a raw socket: everything up to the first blank line is the header. */
    method ReceiveAll(received: seq<Text>) returns (raw: Text)
      requires Valid() && fed == []
      modifies this
      ensures Valid() && raw == Joined(received) && fed == Body(Joined(received))
    {
      raw := [];
      var headersParsed := false;
      for i := 0 to |received|
        invariant Valid() && raw == Joined(received[..i]) && fed == Body(raw)
        invariant headersParsed == Find(raw, HEADER_END, 0).Some?
      {
        assert received[..i + 1][..i] == received[..i];
        BodyGrows(raw, received[i]);
        raw := raw + received[i];
        if !headersParsed {
          var headerEnd := Find(raw, HEADER_END, 0);
          if headerEnd.Some? {
            headersParsed := true;
            ProcessSseBuffer(raw[headerEnd.value + |HEADER_END|..]);
          }
        } else {
          ProcessSseBuffer(received[i]);
        }
      }
      assert received[..|received|] == received;
    }
  }

  function Joined(chunks: seq<Text>): Text {
    if chunks == [] then [] else Joined(chunks[..|chunks| - 1]) + chunks[|chunks| - 1]
  }

  /** What follows the first header terminator; nothing before it has arrived. */
  function Body(stream: Text): Text {
    match Find(stream, HEADER_END, 0)
    case None => []
    case Some(i) => stream[i + |HEADER_END|..]
  }

  /** The body is what stands behind the first blank line; without one there is none. */
  lemma BodyBehindHeader(header: Text, body: Text, stream: Text)
    ensures Find(header + (Ascii("\r\n\r\n") + body), Ascii("\r\n\r\n"), 0) == Some(|header|) ==>
              Body(header + (Ascii("\r\n\r\n") + body)) == body
    ensures Find(stream, Ascii("\r\n\r\n"), 0) == None ==> Body(stream) == []
  {
    hide Find;
    Constants();
    assert (header + (HEADER_END + body))[|header| + |HEADER_END|..] == body;
  }

  lemma BodyGrows(raw: Text, chunk: Text)
    ensures Find(raw, HEADER_END, 0).Some? ==>
              Find(raw + chunk, HEADER_END, 0).Some? && Body(raw + chunk) == Body(raw) + chunk
  {
    hide Find;
    FindGrows(raw, chunk, HEADER_END);
  }
}
