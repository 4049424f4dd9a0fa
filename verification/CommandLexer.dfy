/** The command line lexer: quoting, escaping and splitting at white space. A line is read as a sequence of
    elements followed by whatever its end leaves open. */
module CommandLexer {
  import opened Sequences

  predicate IsSpace(c: char) {
    c == ' ' || '\t' <= c <= '\r'
  }

  predicate IsPlain(c: char) {
    c != '\\' && c != '\'' && c != '"' && !IsSpace(c)
  }

  /** A character between double quotes, where a backslash may stand before any character. */
  datatype Inner = Inner(escaped: bool, c: char) {
    predicate Valid() {
      escaped || (c != '\\' && c != '"')
    }

    function Text(): string {
      if escaped then ['\\', c] else [c]
    }
  }

  function InnerText(inner: seq<Inner>): string {
    if inner == [] then "" else InnerText(inner[..|inner| - 1]) + inner[|inner| - 1].Text()
  }

  function InnerValue(inner: seq<Inner>): string {
    if inner == [] then "" else InnerValue(inner[..|inner| - 1]) + [inner[|inner| - 1].c]
  }

  predicate InnerValid(inner: seq<Inner>) {
    forall i | 0 <= i < |inner| :: inner[i].Valid()
  }

  datatype Element = Space(c: char) | Plain(c: char) | Escaped(c: char) | Single(body: string) | Double(inner: seq<Inner>) {
    predicate Valid() {
      match this
      case Space(c) => IsSpace(c)
      case Plain(c) => IsPlain(c)
      case Escaped(_) => true
      case Single(body) => '\'' !in body
      case Double(inner) => InnerValid(inner)
    }

    function Text(): string {
      match this
      case Space(c) => [c]
      case Plain(c) => [c]
      case Escaped(c) => ['\\', c]
      case Single(body) => "'" + body + "'"
      case Double(inner) => "\"" + InnerText(inner) + "\""
    }

    /** What the element adds to the current word. */
    function Value(): string {
      match this
      case Space(_) => ""
      case Plain(c) => [c]
      case Escaped(c) => [c]
      case Single(body) => body
      case Double(inner) => InnerValue(inner)
    }
  }

  /** What is still open where the line ends. */
  datatype Tail = Closed | Dangling | OpenSingle(body: string) | OpenDouble(inner: seq<Inner>, escaped: bool) {
    predicate Valid() {
      match this
      case OpenSingle(body) => '\'' !in body
      case OpenDouble(inner, _) => InnerValid(inner)
      case _ => true
    }

    function Text(): string {
      match this
      case Closed => ""
      case Dangling => "\\"
      case OpenSingle(body) => "'" + body
      case OpenDouble(inner, escaped) => "\"" + InnerText(inner) + if escaped then "\\" else ""
    }

    function Value(): string {
      match this
      case OpenSingle(body) => body
      case OpenDouble(inner, _) => InnerValue(inner)
      case _ => ""
    }
  }

  datatype Reading = Reading(elements: seq<Element>, tail: Tail) {
    predicate Valid() {
      tail.Valid() && forall i | 0 <= i < |elements| :: elements[i].Valid()
    }

    function Text(): string {
      TextOf(elements) + tail.Text()
    }

    /** One more character of the line. */
    function Next(c: char): Reading {
      match tail
      case Closed =>
        if c == '\\' then Reading(elements, Dangling)
        else if c == '\'' then Reading(elements, OpenSingle(""))
        else if c == '"' then Reading(elements, OpenDouble([], false))
        else Reading(elements + [if IsSpace(c) then Space(c) else Plain(c)], Closed)
      case Dangling => Reading(elements + [Escaped(c)], Closed)
      case OpenSingle(body) =>
        if c == '\'' then Reading(elements + [Single(body)], Closed) else Reading(elements, OpenSingle(body + [c]))
      case OpenDouble(inner, escaped) =>
        if escaped then Reading(elements, OpenDouble(inner + [Inner(true, c)], false))
        else if c == '"' then Reading(elements + [Double(inner)], Closed)
        else if c == '\\' then Reading(elements, OpenDouble(inner, true))
        else Reading(elements, OpenDouble(inner + [Inner(false, c)], false))
    }

    /** Words are the runs of elements between white space whose values together are not empty. */
    function Words(): seq<string> {
      Flush(Done(elements), Current(elements) + tail.Value())
    }
  }

  function TextOf(elements: seq<Element>): string {
    if elements == [] then "" else TextOf(elements[..|elements| - 1]) + elements[|elements| - 1].Text()
  }

  function Flush(done: seq<string>, word: string): seq<string> {
    if word == "" then done else done + [word]
  }

  /** The word that the last elements build. */
  function Current(elements: seq<Element>): string {
    if elements == [] then ""
    else
      var last := elements[|elements| - 1];
      if last.Space? then "" else Current(elements[..|elements| - 1]) + last.Value()
  }

  /** The words that white space has completed. */
  function Done(elements: seq<Element>): seq<string> {
    if elements == [] then []
    else
      var most := elements[..|elements| - 1];
      if elements[|elements| - 1].Space? then Flush(Done(most), Current(most)) else Done(most)
  }

  /** The reading of a line. */
  function Read(line: string): Reading {
    if line == "" then Reading([], Closed) else Read(line[..|line| - 1]).Next(line[|line| - 1])
  }

  lemma TextPush(elements: seq<Element>, e: Element)
    ensures TextOf(elements + [e]) == TextOf(elements) + e.Text()
  {
    assert (elements + [e])[..|elements|] == elements;
  }

  lemma InnerPush(inner: seq<Inner>, x: Inner)
    ensures InnerText(inner + [x]) == InnerText(inner) + x.Text()
    ensures InnerValue(inner + [x]) == InnerValue(inner) + [x.c]
  {
    assert (inner + [x])[..|inner|] == inner;
  }

  lemma NextText(r: Reading, c: char)
    requires r.Valid()
    ensures r.Next(c).Valid() && r.Next(c).Text() == r.Text() + [c]
  {
    hide TextOf, InnerText, InnerValue;
    var text, next := TextOf(r.elements), r.Next(c);
    if |next.elements| > |r.elements| {
      TextPush(r.elements, next.elements[|r.elements|]);
    }
    match r.tail
    case Closed =>
      assert r.Text() == text;
      NextOpening();
    case Dangling =>
      Regroup(text, "\\", [c]);
      assert "\\" + [c] == ['\\', c];
    case OpenSingle(body) =>
      Regroup(text, "'" + body, [c]);
      Regroup("'", body, [c]);
    case OpenDouble(inner, escaped) =>
      InnerPush(inner, Inner(escaped, c));
      Regroup(text, r.tail.Text(), [c]);
      NextInner(inner, escaped, c);
  }

  lemma NextOpening()
    ensures OpenSingle("").Text() == "'" && OpenDouble([], false).Text() == "\""
  {
  }

  lemma NextInner(inner: seq<Inner>, escaped: bool, c: char)
    ensures OpenDouble(inner, escaped).Text() + [c] ==
            if escaped then OpenDouble(inner + [Inner(true, c)], false).Text()
            else if c == '"' then Double(inner).Text()
            else if c == '\\' then OpenDouble(inner, true).Text()
            else OpenDouble(inner + [Inner(false, c)], false).Text()
  {
    hide InnerText;
    var text := InnerText(inner);
    InnerPush(inner, Inner(escaped, c));
    if escaped {
      Regroup("\"" + text, "\\", [c]);
      Regroup("\"", text, ['\\', c]);
      assert "\\" + [c] == ['\\', c];
    } else {
      assert "\"" + text + "" == "\"" + text;
      Regroup("\"", text, [c]);
    }
  }

  lemma NothingReads()
    ensures Reading([], Closed).Valid() && Reading([], Closed).Text() == ""
  {
  }

  /** Every line has a reading that renders as the line. */
  lemma {:induction false} EveryLineReads(line: string)
    ensures Read(line).Valid() && Read(line).Text() == line
  {
    hide Reading.Next, Reading.Valid, Reading.Text;
    if line == "" {
      NothingReads();
    } else {
      EveryLineReads(line[..|line| - 1]);
      NextText(Read(line[..|line| - 1]), line[|line| - 1]);
      assert line[..|line| - 1] + [line[|line| - 1]] == line;
    }
  }

  lemma ReadNext(line: string, c: char)
    ensures Read(line + [c]) == Read(line).Next(c)
  {
    assert (line + [c])[..|line|] == line;
  }

  lemma {:induction false} ReadSingle(line: string, body: string)
    requires Read(line).tail == Closed && '\'' !in body
    ensures Read(line + ("'" + body)) == Reading(Read(line).elements, OpenSingle(body))
  {
    hide Read;
    if body == "" {
      assert "'" + body == ['\''];
      ReadNext(line, '\'');
    } else {
      var most, c := body[..|body| - 1], body[|body| - 1];
      ReadSingle(line, most);
      ReadNext(line + ("'" + most), c);
      assert body == most + [c];
      assert (line + ("'" + most)) + [c] == line + ("'" + body);
    }
  }

  lemma {:induction false} ReadDouble(line: string, inner: seq<Inner>)
    requires Read(line).tail == Closed && InnerValid(inner)
    ensures Read(line + ("\"" + InnerText(inner))) == Reading(Read(line).elements, OpenDouble(inner, false))
  {
    hide Read;
    if inner == [] {
      assert "\"" + InnerText(inner) == ['"'];
      ReadNext(line, '"');
    } else {
      var most, x := inner[..|inner| - 1], inner[|inner| - 1];
      ReadDouble(line, most);
      assert inner == most + [x];
      ReadInner(line + ("\"" + InnerText(most)), x);
      assert (line + ("\"" + InnerText(most))) + x.Text() == line + ("\"" + InnerText(inner));
    }
  }

  lemma ReadInner(line: string, x: Inner)
    requires Read(line).tail.OpenDouble? && !Read(line).tail.escaped && x.Valid()
    ensures Read(line + x.Text()) == Reading(Read(line).elements, OpenDouble(Read(line).tail.inner + [x], false))
  {
    hide Read;
    if x.escaped {
      ReadNext(line, '\\');
      ReadNext(line + ['\\'], x.c);
      assert (line + ['\\']) + [x.c] == line + x.Text();
    } else {
      ReadNext(line, x.c);
    }
  }

  lemma ReadElement(line: string, e: Element)
    requires Read(line).tail == Closed && e.Valid()
    ensures Read(line + e.Text()) == Reading(Read(line).elements + [e], Closed)
  {
    hide Read, InnerText, InnerValue, InnerValid;
    match e
    case Space(c) => ReadNext(line, c);
    case Plain(c) => ReadNext(line, c);
    case Escaped(c) =>
      ReadNext(line, '\\');
      ReadNext(line + ['\\'], c);
      assert (line + ['\\']) + [c] == line + e.Text();
    case Single(body) =>
      ReadSingle(line, body);
      ReadNext(line + ("'" + body), '\'');
      assert (line + ("'" + body)) + ['\''] == line + e.Text();
    case Double(inner) =>
      ReadDouble(line, inner);
      ReadNext(line + ("\"" + InnerText(inner)), '"');
      assert (line + ("\"" + InnerText(inner))) + ['"'] == line + e.Text();
  }

  lemma {:induction false} ReadElements(elements: seq<Element>)
    requires forall i | 0 <= i < |elements| :: elements[i].Valid()
    ensures Read(TextOf(elements)) == Reading(elements, Closed)
  {
    hide Element.Valid, Element.Text;
    if elements == [] {
    } else {
      var most, last := elements[..|elements| - 1], elements[|elements| - 1];
      ReadElements(most);
      ReadElement(TextOf(most), last);
      assert elements == most + [last];
    }
  }

  /** A line has only one reading: reading a rendered one gives it back. */
  lemma ReadingIsUnique(r: Reading)
    requires r.Valid()
    ensures Read(r.Text()) == r
  {
    hide Read, TextOf, InnerText, InnerValue, InnerValid;
    var line := TextOf(r.elements);
    ReadElements(r.elements);
    match r.tail
    case Closed => assert r.Text() == line;
    case Dangling => ReadNext(line, '\\');
    case OpenSingle(body) => ReadSingle(line, body);
    case OpenDouble(inner, escaped) =>
      ReadDouble(line, inner);
      if escaped {
        ReadNext(line + ("\"" + InnerText(inner)), '\\');
        assert (line + ("\"" + InnerText(inner))) + ['\\'] == r.Text();
      } else {
        assert line + ("\"" + InnerText(inner)) == r.Text();
      }
  }

  // ---- the automaton

  /** How the automaton's variables reflect what has been read. */
  ghost predicate Tracks(r: Reading, tokens: seq<string>, current: string, single: bool, double: bool, escaped: bool) {
    && tokens == Done(r.elements) && current == Current(r.elements) + r.tail.Value()
    && single == r.tail.OpenSingle? && double == r.tail.OpenDouble?
    && escaped == (r.tail.Dangling? || (r.tail.OpenDouble? && r.tail.escaped))
  }

  lemma Collected(elements: seq<Element>, e: Element)
    ensures Done(elements + [e]) == if e.Space? then Flush(Done(elements), Current(elements)) else Done(elements)
    ensures Current(elements + [e]) == if e.Space? then "" else Current(elements) + e.Value()
  {
    assert (elements + [e])[..|elements|] == elements;
  }

  lemma TracksNext(r: Reading, c: char, tokens: seq<string>, current: string, single: bool, double: bool, escaped: bool)
    requires Tracks(r, tokens, current, single, double, escaped)
    ensures escaped ==> Tracks(r.Next(c), tokens, current + [c], single, double, false)
    ensures !escaped && c == '\\' && !single ==> Tracks(r.Next(c), tokens, current, single, double, true)
    ensures !escaped && c == '\'' && !double ==> Tracks(r.Next(c), tokens, current, !single, double, false)
    ensures !escaped && c == '"' && !single ==> Tracks(r.Next(c), tokens, current, single, !double, false)
    ensures !escaped && IsSpace(c) && !single && !double ==> Tracks(r.Next(c), Flush(tokens, current), "", single, double, false)
    ensures !escaped && (IsPlain(c) || (single && c != '\'') || (double && c != '"' && c != '\\')) ==>
              Tracks(r.Next(c), tokens, current + [c], single, double, false)
  {
    hide Done, Current, InnerValue;
    var next := r.Next(c);
    NoInner();
    assert Current(r.elements) + "" == Current(r.elements);
    if |next.elements| > |r.elements| {
      Collected(r.elements, next.elements[|r.elements|]);
    }
    if r.tail.OpenDouble? {
      InnerPush(r.tail.inner, Inner(escaped, c));
    }
  }

  lemma NoInner()
    ensures InnerValue([]) == ""
  {
  }

  method Tokenize(line: string) returns (tokens: seq<string>)
    ensures tokens == Read(line).Words()
  {
    hide Tracks, Reading.Next, Read;
    tokens := [];
    var current, inSingle, inDouble, escaped := "", false, false, false;
    TracksNothing();
    for i := 0 to |line|
      invariant Tracks(Read(line[..i]), tokens, current, inSingle, inDouble, escaped)
    {
      var c := line[i];
      ReadNext(line[..i], c);
      assert line[..i + 1] == line[..i] + [c];
      TracksNext(Read(line[..i]), c, tokens, current, inSingle, inDouble, escaped);
      if escaped {
        current := current + [c];
        escaped := false;
      } else if c == '\\' && !inSingle {
        escaped := true;
      } else if c == '\'' && !inDouble {
        inSingle := !inSingle;
      } else if c == '"' && !inSingle {
        inDouble := !inDouble;
      } else if IsSpace(c) && !inSingle && !inDouble {
        if current != "" {
          tokens := tokens + [current];
          current := "";
        }
      } else {
        current := current + [c];
      }
    }
    assert line[..|line|] == line;
    TracksEnd(Read(line), tokens, current, inSingle, inDouble, escaped);
    if current != "" {
      tokens := tokens + [current];
    }
  }

  lemma TracksNothing()
    ensures Tracks(Read(""), [], "", false, false, false)
  {
  }

  lemma TracksEnd(r: Reading, tokens: seq<string>, current: string, single: bool, double: bool, escaped: bool)
    requires Tracks(r, tokens, current, single, double, escaped)
    ensures Flush(tokens, current) == r.Words()
  {
  }

  // ---- words that come back

  /** A word's elements hold no white space; a word like "" may be empty. */
  predicate IsWord(word: seq<Element>) {
    forall i | 0 <= i < |word| :: word[i].Valid() && !word[i].Space?
  }

  function Line(words: seq<seq<Element>>): seq<Element> {
    if words == [] then [] else Line(words[..|words| - 1]) + words[|words| - 1] + [Space(' ')]
  }

  /** The values of the words that are not empty. */
  function Values(words: seq<seq<Element>>): seq<string> {
    if words == [] then [] else Flush(Values(words[..|words| - 1]), Current(words[|words| - 1]))
  }

  /** Elements without white space extend the current word. */
  lemma {:induction false} CollectWord(elements: seq<Element>, word: seq<Element>)
    requires forall i | 0 <= i < |word| :: !word[i].Space?
    ensures Done(elements + word) == Done(elements) && Current(elements + word) == Current(elements) + Current(word)
  {
    hide Element.Value;
    if word == [] {
      assert elements + word == elements;
    } else {
      var most, last := word[..|word| - 1], word[|word| - 1];
      CollectWord(elements, most);
      assert (elements + most) + [last] == elements + word;
      Collected(elements + most, last);
      Regroup(Current(elements), Current(most), last.Value());
    }
  }

  /** However its words are quoted and escaped, a line of words yields their values; an empty word, even a
      quoted one, is dropped. */
  lemma {:induction false} WordsComeBack(words: seq<seq<Element>>)
    requires forall i | 0 <= i < |words| :: IsWord(words[i])
    ensures Done(Line(words)) == Values(words) && Current(Line(words)) == ""
    ensures forall i | 0 <= i < |Line(words)| :: Line(words)[i].Valid()
  {
    hide IsWord, Done, Current;
    if words == [] {
      NoWords();
    } else {
      var most, word := words[..|words| - 1], words[|words| - 1];
      WordsComeBack(most);
      WordIsWord(word);
      CollectWord(Line(most), word);
      Collected(Line(most) + word, Space(' '));
      assert "" + Current(word) == Current(word);
    }
  }

  lemma WordIsWord(word: seq<Element>)
    requires IsWord(word)
    ensures forall i | 0 <= i < |word| :: word[i].Valid() && !word[i].Space?
  {
  }

  lemma NoWords()
    ensures Done([]) == [] && Current([]) == ""
  {
  }

  /** Every character behind a backslash. */
  function Escape(token: string): seq<Element> {
    if token == "" then [] else Escape(token[..|token| - 1]) + [Escaped(token[|token| - 1])]
  }

  lemma {:induction false} EscapeIsWord(token: string)
    ensures Current(Escape(token)) == token
    ensures forall i | 0 <= i < |Escape(token)| :: Escape(token)[i].Escaped?
  {
    hide Done, Current;
    if token == "" {
      NoWords();
    } else {
      var most, c := token[..|token| - 1], token[|token| - 1];
      EscapeIsWord(most);
      Collected(Escape(most), Escaped(c));
      assert token == most + [c];
    }
  }

  function EscapeAll(tokens: seq<string>): seq<seq<Element>> {
    if tokens == [] then [] else EscapeAll(tokens[..|tokens| - 1]) + [Escape(tokens[|tokens| - 1])]
  }

  lemma EscapedIsWord(token: string)
    ensures IsWord(Escape(token))
  {
    EscapeIsWord(token);
  }

  lemma ValuesPush(words: seq<seq<Element>>, word: seq<Element>)
    ensures Values([]) == []
    ensures Current(word) != "" ==> Values(words + [word]) == Values(words) + [Current(word)]
  {
    assert (words + [word])[..|words|] == words;
  }

  lemma {:induction false} EscapeAllWords(tokens: seq<string>)
    requires forall i | 0 <= i < |tokens| :: tokens[i] != ""
    ensures Values(EscapeAll(tokens)) == tokens
    ensures forall i | 0 <= i < |EscapeAll(tokens)| :: IsWord(EscapeAll(tokens)[i])
  {
    hide Current, Escape, IsWord, Values, Flush;
    if tokens == [] {
      ValuesPush([], []);
    } else {
      var most, last := tokens[..|tokens| - 1], tokens[|tokens| - 1];
      EscapeAllWords(most);
      EscapeIsWord(last);
      EscapedIsWord(last);
      ValuesPush(EscapeAll(most), Escape(last));
    }
  }

  /** The escaped tokens, each followed by a space. */
  function EscapedLine(tokens: seq<string>): string {
    TextOf(Line(EscapeAll(tokens)))
  }

  /** Any list of nonempty tokens can be written as a line that yields exactly this list. */
  lemma EscapedLineYields(tokens: seq<string>)
    requires forall i | 0 <= i < |tokens| :: tokens[i] != ""
    ensures Read(EscapedLine(tokens)).Words() == tokens
  {
    hide Read, Done, Current, Line, TextOf, IsWord, Element.Valid;
    var words := EscapeAll(tokens);
    EscapeAllWords(tokens);
    WordsComeBack(words);
    ReadElements(Line(words));
    assert "" + "" == "";
  }

  lemma {:induction false} DoneNotEmpty(elements: seq<Element>)
    ensures forall i | 0 <= i < |Done(elements)| :: Done(elements)[i] != ""
  {
    if elements == [] {
    } else {
      DoneNotEmpty(elements[..|elements| - 1]);
    }
  }

  /** A list of tokens can be written as a line if and only if none of them is empty: no quoting makes an empty
      argument. */
  lemma WritableWhenNotEmpty(tokens: seq<string>)
    ensures (exists line :: Read(line).Words() == tokens) <==> forall i | 0 <= i < |tokens| :: tokens[i] != ""
  {
    hide Read, Done, Current, EscapeAll, Line, TextOf;
    if forall i | 0 <= i < |tokens| :: tokens[i] != "" {
      EscapedLineYields(tokens);
    }
    if line :| Read(line).Words() == tokens {
      DoneNotEmpty(Read(line).elements);
    }
  }

  // ---- quoting, in characters

  lemma SpacesAre(c: char)
    ensures IsSpace(c) <==> c in {' ', '\t', '\n', '\U{000B}', '\U{000C}', '\r'}
  {
  }

  /** Reading goes on behind a closed part as it would at the start of a line. */
  lemma {:induction false} ReadBehind(a: string, b: string)
    requires Read(a).tail == Closed
    ensures Read(a + b) == Reading(Read(a).elements + Read(b).elements, Read(b).tail)
  {
    hide Read;
    if b == "" {
      assert a + b == a;
      ReadNothing();
    } else {
      var most, c := b[..|b| - 1], b[|b| - 1];
      ReadBehind(a, most);
      ReadNext(a + most, c);
      ReadNext(most, c);
      assert (a + most) + [c] == a + b && most + [c] == b;
    }
  }

  lemma ReadNothing()
    ensures Read("") == Reading([], Closed)
  {
  }

  lemma {:induction false} CollectBehind(a: seq<Element>, c: char, b: seq<Element>)
    ensures Done(a + [Space(c)] + b) == Flush(Done(a), Current(a)) + Done(b)
    ensures Current(a + [Space(c)] + b) == Current(b)
  {
    hide Done, Current, Element.Value;
    if b == [] {
      assert a + [Space(c)] + b == a + [Space(c)];
      Collected(a, Space(c));
      NoWords();
    } else {
      var most, last := b[..|b| - 1], b[|b| - 1];
      CollectBehind(a, c, most);
      Collected(a + [Space(c)] + most, last);
      Collected(most, last);
      assert (a + [Space(c)] + most) + [last] == a + [Space(c)] + b && most + [last] == b;
      assert Done(b) == if last.Space? then Flush(Done(most), Current(most)) else Done(most);
      Regroup(Flush(Done(a), Current(a)), Done(most), [Current(most)]);
    }
  }

  /** White space outside of quotes and not behind a backslash separates: the words before it are followed by
      those after it. */
  lemma SpaceSeparates(a: string, c: char, b: string)
    requires Read(a).tail == Closed && IsSpace(c)
    ensures Read(a + [c] + b).Words() == Read(a).Words() + Read(b).Words()
  {
    hide Read, Done, Current;
    ReadNext(a, c);
    ReadBehind(a + [c], b);
    CollectBehind(Read(a).elements, c, Read(b).elements);
    assert Current(Read(a).elements) + "" == Current(Read(a).elements);
    var behind := Current(Read(b).elements) + Read(b).tail.Value();
    Regroup(Read(a).Words(), Done(Read(b).elements), [behind]);
  }

  function One(word: string): seq<string> {
    if word == "" then [] else [word]
  }

  /** Behind a part that is closed, a further element extends the last word. */
  lemma ElementExtends(line: string, e: Element)
    requires Read(line).tail == Closed && e.Valid() && !e.Space?
    ensures var r := Read(line + e.Text());
            && r.tail == Closed && Done(r.elements) == Done(Read(line).elements)
            && Current(r.elements) == Current(Read(line).elements) + e.Value()
  {
    hide Read, Done, Current, Element.Text, Element.Valid, Element.Value;
    ReadElement(line, e);
    Collected(Read(line).elements, e);
  }

  /** A part of a line extends its last word by some characters, and ends outside of quotes. */
  ghost predicate Extends(line: string, part: string, value: string) {
    && Read(line + part).tail == Closed
    && Done(Read(line + part).elements) == Done(Read(line).elements)
    && Current(Read(line + part).elements) == Current(Read(line).elements) + value
  }

  /** What each way of writing means: single quotes keep everything, double quotes all but the backslash, which
      like a backslash outside of quotes gives the character behind it. */
  lemma QuotesMean(line: string, text: string, c: char)
    requires Read(line).tail == Closed
    ensures Extends(line, ['\\', c], [c])
    ensures '\'' !in text ==> Extends(line, "'" + text + "'", text)
    ensures '"' !in text && '\\' !in text ==> Extends(line, "\"" + text + "\"", text)
    ensures Extends(line, "\"" + ['\\', c] + "\"", [c])
    ensures c !in "\\'\"" && !IsSpace(c) ==> Extends(line, [c], [c])
  {
    hide Read, Extends, InnerText, InnerValue, InnerValid;
    ElementMeans(line, Escaped(c), ['\\', c], [c]);
    if '\'' !in text {
      ElementMeans(line, Single(text), "'" + text + "'", text);
    }
    if '"' !in text && '\\' !in text {
      UnescapedMeans(line, text);
    }
    InnerEscaped(line, c);
    if IsPlain(c) {
      ElementMeans(line, Plain(c), [c], [c]);
    }
  }

  lemma ElementMeans(line: string, e: Element, part: string, value: string)
    requires Read(line).tail == Closed && e.Valid() && !e.Space? && e.Text() == part && e.Value() == value
    ensures Extends(line, part, value)
  {
    hide Read, Done, Current, Element.Text, Element.Valid, Element.Value;
    ElementExtends(line, e);
  }

  lemma UnescapedMeans(line: string, text: string)
    requires Read(line).tail == Closed && '"' !in text && '\\' !in text
    ensures Extends(line, "\"" + text + "\"", text)
  {
    hide Read, Extends, InnerText, InnerValue;
    InnerOf(text);
    ElementMeans(line, Double(seq(|text|, i requires 0 <= i < |text| => Inner(false, text[i]))), "\"" + text + "\"", text);
  }

  lemma InnerEscaped(line: string, c: char)
    requires Read(line).tail == Closed
    ensures Extends(line, "\"" + ['\\', c] + "\"", [c])
  {
    hide Read, Extends, InnerText, InnerValue;
    InnerPush([], Inner(true, c));
    NoInner();
    NoInnerText();
    assert [] + [Inner(true, c)] == [Inner(true, c)];
    assert InnerText([Inner(true, c)]) == ['\\', c];
    ElementMeans(line, Double([Inner(true, c)]), "\"" + ['\\', c] + "\"", [c]);
  }

  lemma NoInnerText()
    ensures InnerText([]) == ""
  {
  }

  lemma {:induction false} InnerOf(text: string)
    ensures var inner := seq(|text|, i requires 0 <= i < |text| => Inner(false, text[i]));
            InnerText(inner) == text && InnerValue(inner) == text
  {
    if text == "" {
    } else {
      var most := text[..|text| - 1];
      InnerOf(most);
      var inner := seq(|text|, i requires 0 <= i < |text| => Inner(false, text[i]));
      assert inner[..|inner| - 1] == seq(|most|, i requires 0 <= i < |most| => Inner(false, most[i]));
      assert most + [text[|text| - 1]] == text;
    }
  }

  /** The last word of a line ends with the line; a quote may be left open, and a last backslash is dropped. */
  lemma LineEnds(line: string, text: string)
    requires Read(line).tail == Closed
    ensures Read(line).Words() == Done(Read(line).elements) + One(Current(Read(line).elements))
    ensures Read("") == Reading([], Closed) && Done([]) == [] && Current([]) == ""
    ensures Read(line + "\\").Words() == Read(line).Words()
    ensures '\'' !in text ==> Read(line + ("'" + text)).Words() == Read(line + ("'" + text + "'")).Words()
    ensures '"' !in text && '\\' !in text ==>
              Read(line + ("\"" + text)).Words() == Read(line + ("\"" + text + "\"")).Words()
  {
    hide Read, Done, Current, InnerText, InnerValue;
    ReadNothing();
    NoWords();
    var r := Read(line);
    assert Current(r.elements) + "" == Current(r.elements);
    ReadNext(line, '\\');
    QuotesMean(line, text, ' ');
    if '\'' !in text {
      ReadSingle(line, text);
      Unended(line, "'" + text, "'", text);
    }
    if '"' !in text && '\\' !in text {
      InnerOf(text);
      ReadDouble(line, seq(|text|, i requires 0 <= i < |text| => Inner(false, text[i])));
      Unended(line, "\"" + text, "\"", text);
    }
  }

  lemma Unended(line: string, part: string, end: string, value: string)
    requires Extends(line, part + end, value)
    requires Read(line + part).elements == Read(line).elements && Read(line + part).tail.Value() == value
    ensures Read(line + part).Words() == Read(line + (part + end)).Words()
  {
    hide Read, Done, Current, Tail.Value;
    var word := Current(Read(line).elements) + value;
    assert Closed.Value() == "" by {
      ClosedHolds();
    }
    assert word + "" == word;
  }

  lemma ClosedHolds()
    ensures Closed.Value() == ""
  {
  }
}
