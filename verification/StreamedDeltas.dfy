/** From received bytes to delivered tokens: the receive loop, the line splitter and the delta scanner put
    together, as a streaming chat call uses them. */
module StreamedDeltas {
  import opened Wrappers
  import opened Sequences
  import opened Bytes
  import opened SseStream
  import opened JsonDelta

  /** What the stream callback does with one payload; `parsed` is what the JSON library would find in a
      payload that the scanner gives up on. */
  function TokenOf(payload: Text, parsed: Text -> Option<Text>): seq<Text> {
    match Extract(CONTENT_KEY, payload)
    case Some(token) => [token]
    case None => match parsed(payload) { case Some(token) => [token] case None => [] }
  }

  function Tokens(payloads: seq<Text>, parsed: Text -> Option<Text>): seq<Text> {
    Flat(payloads, (p: Text) => TokenOf(p, parsed))
  }

  method ChatStream(received: seq<Text>, parsed: Text -> Option<Text>) returns (tokens: seq<Text>)
    ensures tokens == Tokens(Payloads(Lines(Body(Joined(received)))), parsed)
  {
    var reader := new StreamReader();
    var raw := reader.ReceiveAll(received);
    var payloads := reader.emitted;
    tokens := [];
    for i := 0 to |payloads|
      invariant tokens == Tokens(payloads[..i], parsed)
    {
      TokensNext(payloads, i, parsed);
      var found, token := ExtractDeltaContent(payloads[i]);
      if found {
        tokens := tokens + [token];
      } else {
        match parsed(payloads[i])
        case Some(t) => tokens := tokens + [t];
        case None =>
      }
    }
    assert payloads[..|payloads|] == payloads;
  }

  lemma TokensNext(payloads: seq<Text>, i: nat, parsed: Text -> Option<Text>)
    requires i < |payloads|
    ensures Tokens(payloads[..i + 1], parsed) == Tokens(payloads[..i], parsed) + TokenOf(payloads[i], parsed)
  {
    var f := (p: Text) => TokenOf(p, parsed);
    FlatAppend(payloads[..i], [payloads[i]], f);
    FlatOne(payloads[i], f);
    assert payloads[..i + 1] == payloads[..i] + [payloads[i]];
  }

  lemma FlatOne<T, U>(x: T, f: T -> seq<U>)
    ensures Flat([x], f) == f(x)
  {
    FlatCons(x, [], f);
    assert [x] + [] == [x];
  }

  // ---- a server that streams escaped strings

  /** One event: a JSON text whose first content key holds an escaped string, written bare on its line or, as a
      server-sent event, behind `data: ` and before an empty line. */
  datatype Event = Event(bare: bool, pre: Text, space1: Text, space2: Text, ps: seq<Piece>, post: Text) {
    function Json(): Text {
      Chunk(pre, CONTENT_KEY, space1, space2, ps, post)
    }

    /** The text stands on one line, and the content key occurs first where it is meant to. */
    predicate Valid() {
      && AllValid(ps) && AllSpace(space1, 0, |space1|) && AllSpace(space2, 0, |space2|)
      && Find(Json(), CONTENT_KEY, 0) == Some(|pre|)
      && LF !in Json() && Json()[|Json()| - 1] != CR
      && (bare ==> Json()[0] == BRACE)
    }
  }

  function Wire(es: seq<Event>): Text {
    if es == [] then []
    else if es[0].bare then es[0].Json() + [LF] + Wire(es[1..])
    else (DATA + es[0].Json()) + [LF] + ([] + [LF] + Wire(es[1..]))
  }

  function Outputs(es: seq<Event>): seq<Text> {
    if es == [] then [] else [Output(es[0].ps)] + Outputs(es[1..])
  }

  predicate AllEvents(es: seq<Event>) {
    forall i | 0 <= i < |es| :: es[i].Valid()
  }

  lemma JsonIsLong(e: Event)
    ensures |e.Json()| > |FINISHED|
  {
    hide Written;
  }

  lemma DataPayload(json: Text)
    requires |json| > |FINISHED| && json[|json| - 1] != CR
    ensures Payload(DATA + json) == Some(json)
  {
    var line := DATA + json;
    assert line[|line| - 1] == json[|json| - 1];
    assert DATA <= line && line[|DATA|..] == json;
  }

  lemma EventPayload(e: Event)
    requires e.Valid()
    ensures Payloads([DATA + e.Json()]) == [e.Json()] && Payloads([[]]) == []
  {
    hide Find, AllValid, AllSpace, Event.Json, Payload;
    JsonIsLong(e);
    DataPayload(e.Json());
    FlatOne(DATA + e.Json(), Delivered);
    EmptyLine();
  }

  lemma EmptyLine()
    ensures Payloads([[]]) == []
  {
    FlatOne([], Delivered);
  }

  lemma BarePayload(e: Event)
    requires e.Valid() && e.bare
    ensures Payloads([e.Json()]) == [e.Json()]
  {
    hide Find, AllValid, AllSpace, Event.Json;
    JsonIsLong(e);
    assert !(DATA <= e.Json());
    FlatOne(e.Json(), Delivered);
  }

  /** The lines of the first event, and those of the others. */
  lemma WirePayloads(es: seq<Event>)
    requires AllEvents(es) && es != []
    ensures Payloads(Lines(Wire(es))) == [es[0].Json()] + Payloads(Lines(Wire(es[1..])))
    ensures Rest(Wire(es)) == Rest(Wire(es[1..]))
  {
    hide LinesFrom, RestFrom, Delivered, Event.Json;
    var e, more := es[0], Wire(es[1..]);
    if e.bare {
      SplitFirst(e.Json(), more);
      FlatAppend([e.Json()], Lines(more), Delivered);
      BarePayload(e);
    } else {
      var line := DATA + e.Json();
      SplitFirst(line, [] + [LF] + more);
      SplitFirst([], more);
      Regroup([line], [[]], Lines(more));
      FlatAppend([line], [[]] + Lines(more), Delivered);
      FlatAppend([[]], Lines(more), Delivered);
      EventPayload(e);
      assert [] + Payloads(Lines(more)) == Payloads(Lines(more));
    }
  }

  lemma {:induction false} WireTokens(es: seq<Event>, parsed: Text -> Option<Text>)
    requires AllEvents(es)
    ensures Tokens(Payloads(Lines(Wire(es))), parsed) == Outputs(es)
    ensures Rest(Wire(es)) == []
  {
    hide LinesFrom, RestFrom, Delivered, TokenOf;
    if es == [] {
      EmptySplit();
    } else {
      WireTokens(es[1..], parsed);
      WirePayloads(es);
      EventTokens(es[0], Payloads(Lines(Wire(es[1..]))), parsed);
    }
  }

  /** One token for each event, and each is the string that the server escaped. */
  predicate Delivers(tokens: seq<Text>, es: seq<Event>)
    requires AllEvents(es)
  {
    |tokens| == |es| && forall i | 0 <= i < |es| :: Denoted(es[i].ps) == Some(tokens[i])
  }

  predicate WithoutSurrogates(es: seq<Event>)
    requires AllEvents(es)
  {
    forall i | 0 <= i < |es| :: NoSurrogates(es[i].ps)
  }

  lemma {:induction false} OutputsAt(es: seq<Event>)
    ensures |Outputs(es)| == |es| && forall i | 0 <= i < |es| :: Outputs(es)[i] == Output(es[i].ps)
  {
    if es == [] {
    } else {
      OutputsAt(es[1..]);
    }
  }

  lemma OutputsDeliver(es: seq<Event>)
    requires AllEvents(es)
    ensures Delivers(Outputs(es), es) <==> WithoutSurrogates(es)
  {
    hide Outputs, Output, Denoted, NoSurrogates;
    OutputsAt(es);
    forall i | 0 <= i < |es|
      ensures Denoted(es[i].ps) == Some(Output(es[i].ps)) <==> NoSurrogates(es[i].ps)
    {
      UnescapeWritten(es[i].ps);
      UnescapeInverts(es[i].ps);
    }
  }

  /** The events come out as the strings that were escaped if and only if no surrogate was written as an
      escape in any of them. */
  lemma WireDelivers(es: seq<Event>, parsed: Text -> Option<Text>)
    requires AllEvents(es)
    ensures Delivers(Tokens(Payloads(Lines(Wire(es))), parsed), es) <==> WithoutSurrogates(es)
    ensures Rest(Wire(es)) == []
  {
    hide Delivers, WithoutSurrogates, Tokens, Payloads, Lines, Wire;
    WireTokens(es, parsed);
    OutputsDeliver(es);
  }

  lemma EventTokens(e: Event, later: seq<Text>, parsed: Text -> Option<Text>)
    requires e.Valid()
    ensures Tokens([e.Json()] + later, parsed) == [Output(e.ps)] + Tokens(later, parsed)
  {
    hide Find, AllValid, AllSpace, NoSurrogates, Denoted;
    FlatCons(e.Json(), later, (p: Text) => TokenOf(p, parsed));
    DeltaRoundTrip(e.pre, CONTENT_KEY, e.space1, e.space2, e.ps, e.post);
  }

  /** A payload without such a string yields what the JSON library finds in it, if anything. */
  lemma FallbackToken(payload: Text, parsed: Text -> Option<Text>)
    requires Extract(CONTENT_KEY, payload) == None
    ensures parsed(payload).Some? ==> Tokens([payload], parsed) == [parsed(payload).value]
    ensures parsed(payload).None? ==> Tokens([payload], parsed) == []
  {
    hide Extract;
    FlatOne(payload, (p: Text) => TokenOf(p, parsed));
  }

  /** However the network cuts the response, the tokens delivered are exactly the strings the server
      escaped, in order, if and only if no surrogate was written as an escape. */
  lemma StreamDelivers(header: Text, es: seq<Event>, received: seq<Text>, parsed: Text -> Option<Text>)
    requires AllEvents(es)
    requires Joined(received) == header + (HEADER_END + Wire(es))
    requires Find(Joined(received), HEADER_END, 0) == Some(|header|)
    ensures Delivers(Tokens(Payloads(Lines(Body(Joined(received)))), parsed), es) <==> WithoutSurrogates(es)
  {
    hide Delivers, WithoutSurrogates, Tokens, Payloads, Lines, Wire;
    assert Body(Joined(received)) == Wire(es);
    WireDelivers(es, parsed);
  }
}
