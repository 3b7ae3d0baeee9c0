/** Framing of the event stream as text: what `sse` writes (packages/remote-daemon/src/index.ts) and what the
    `buffer.split`/`pop` loop of `streamEvents` makes of it (packages/remote-client/src/index.ts). The format is
    that of section 9.2 of the WHATWG HTML Standard. */
module SseFraming {
  import opened Prelude

  const MARKER := "event: reset-required"

  datatype Message = EventMessage(id: string, json: string) | ResetMessage(json: string) | Heartbeat

  predicate NewlineFree(s: string) {
    forall i | 0 <= i < |s| :: s[i] != '\n'
  }

  /** A sequence number in decimal, and JSON text, which never holds a raw newline. */
  predicate WellFormed(m: Message) {
    match m
    case EventMessage(id, json) => (forall i | 0 <= i < |id| :: '0' <= id[i] <= '9') && NewlineFree(json)
    case ResetMessage(json) => NewlineFree(json)
    case Heartbeat => true
  }

  /** What is written for a message, without the blank line that ends it. */
  function Body(m: Message): string {
    match m
    case EventMessage(id, json) => "id: " + id + "\n" + "data: " + json
    case ResetMessage(json) => MARKER + "\n" + "data: " + json
    case Heartbeat => ": heartbeat"
  }

  function Bodies(messages: seq<Message>): (bodies: seq<string>)
    ensures |bodies| == |messages|
  {
    if messages == [] then [] else [Body(messages[0])] + Bodies(messages[1..])
  }

  function Encode(messages: seq<Message>): string {
    if messages == [] then "" else Body(messages[0]) + "\n\n" + Encode(messages[1..])
  }

  /** The messages as they stand on the wire. */
  lemma WireFormat(id: string, json: string)
    ensures Encode([EventMessage(id, json)]) == "id: " + id + "\ndata: " + json + "\n\n"
    ensures Encode([ResetMessage(json)]) == "event: reset-required\ndata: " + json + "\n\n"
    ensures Encode([Heartbeat]) == ": heartbeat\n\n"
  {
    OneOnTheWire(EventMessage(id, json), [EventMessage(id, json)]);
    OneOnTheWire(ResetMessage(json), [ResetMessage(json)]);
    OneOnTheWire(Heartbeat, [Heartbeat]);
  }

  lemma {:induction false} OneOnTheWire(m: Message, messages: seq<Message>)
    requires messages == [m]
    ensures Encode(messages) == Body(m) + "\n\n"
  {
    assert messages[1..] == [];
    assert Encode(messages) == Body(m) + "\n\n" + "";
  }

  // ----- The reader -----

  /** `text.split('\n\n')`. */
  function Split(text: string): (parts: seq<string>)
    ensures |parts| > 0
  {
    if |text| < 2 then [text]
    else if text[0] == '\n' && text[1] == '\n' then [""] + Split(text[2..])
    else
      var rest := Split(text[1..]);
      [[text[0]] + rest[0]] + rest[1..]
  }

  /** `frame.split('\n')`. */
  function Lines(frame: string): (lines: seq<string>)
    ensures |lines| > 0
  {
    if frame == "" then [""]
    else
      var rest := Lines(frame[1..]);
      if frame[0] == '\n' then [""] + rest else [[frame[0]] + rest[0]] + rest[1..]
  }

  function FindData(lines: seq<string>): Option<string> {
    if lines == [] then None
    else if "data: " <= lines[0] then Some(lines[0][6..])
    else FindData(lines[1..])
  }

  predicate Occurs(s: string, part: string, at: nat) {
    at + |part| <= |s| && s[at..at + |part|] == part
  }

  predicate Contains(s: string, part: string) {
    exists at | 0 <= at <= |s| :: Occurs(s, part, at)
  }

  datatype Received = Skipped | GotReset(data: string) | GotEvent(data: string)

  function Classify(frame: string): Received {
    match FindData(Lines(frame))
    case None => Skipped
    case Some(data) => if Contains(frame, MARKER) then GotReset(data) else GotEvent(data)
  }

  /** `parts` with `more` in the place of the last one. */
  function InPlaceOfLast(parts: seq<string>, more: seq<string>): seq<string>
    requires |parts| > 0
  {
    parts[..|parts| - 1] + more
  }

  lemma PlaceAfterFirst(first: string, rest: seq<string>, more: seq<string>)
    requires |rest| > 0
    ensures InPlaceOfLast([first] + rest, more) == [first] + InPlaceOfLast(rest, more)
    ensures ([first] + rest)[|rest|] == rest[|rest| - 1]
  {
    assert ([first] + rest)[..|rest|] == [first] + rest[..|rest| - 1];
  }

  lemma {:induction false} SplitAtBreak(text: string, tail: string, parts: seq<string>)
    requires |text| >= 2 && text[0] == '\n' && text[1] == '\n' && tail == text[2..] && parts == Split(tail)
    ensures Split(text) == [""] + parts
  {
  }

  lemma {:induction false} SplitAtChar(text: string, tail: string, first: string, rest: seq<string>)
    requires |text| >= 2 && !(text[0] == '\n' && text[1] == '\n') && tail == text[1..] && [first] + rest == Split(tail)
    ensures Split(text) == [[text[0]] + first] + rest
  {
    assert Split(tail)[0] == first && Split(tail)[1..] == rest;
  }

  /** Reading on from the last, unfinished part is reading the whole text. */
  lemma {:induction false} SplitAppend(a: string, b: string, parts: seq<string>)
    requires parts == Split(a)
    ensures Split(a + b) == InPlaceOfLast(parts, Split(parts[|parts| - 1] + b))
  {
    if |a| < 2 {
      assert parts == [a] && parts[..0] == [];
    } else if a[0] == '\n' && a[1] == '\n' {
      var rest := Split(a[2..]);
      SplitAppend(a[2..], b, rest);
      AppendAfterBreak(a, b, rest, Split(rest[|rest| - 1] + b));
    } else {
      var rest := Split(a[1..]);
      SplitAppend(a[1..], b, rest);
      AppendAfterChar(a, b, parts, rest, Split(rest[|rest| - 1] + b));
    }
  }

  lemma {:induction false} AppendAfterBreak(a: string, b: string, rest: seq<string>, more: seq<string>)
    requires |a| >= 2 && a[0] == '\n' && a[1] == '\n' && rest == Split(a[2..])
    requires Split(a[2..] + b) == InPlaceOfLast(rest, more)
    ensures Split(a) == [""] + rest && Split(a + b) == InPlaceOfLast([""] + rest, more)
    ensures ([""] + rest)[|rest|] == rest[|rest| - 1]
  {
    var text := a + b;
    assert text[2..] == a[2..] + b;
    SplitAtBreak(a, a[2..], rest);
    SplitAtBreak(text, text[2..], InPlaceOfLast(rest, more));
    PlaceAfterFirst("", rest, more);
  }

  lemma {:induction false} AppendAfterChar(a: string, b: string, parts: seq<string>, rest: seq<string>,
                                           more: seq<string>)
    requires |a| >= 2 && !(a[0] == '\n' && a[1] == '\n') && parts == Split(a) && rest == Split(a[1..])
    requires more == Split(rest[|rest| - 1] + b) && Split(a[1..] + b) == InPlaceOfLast(rest, more)
    ensures Split(a + b) == InPlaceOfLast(parts, Split(parts[|parts| - 1] + b))
  {
    if |rest| == 1 {
      SplitWhole(a);
      assert parts == [a] && parts[..0] == [];
    } else {
      var text, others := a + b, rest[1..];
      assert text[1..] == a[1..] + b;
      assert rest == [rest[0]] + others;
      SplitAtChar(a, a[1..], rest[0], others);
      PlaceAfterFirst(rest[0], others, more);
      SplitAtChar(text, text[1..], rest[0], InPlaceOfLast(others, more));
      PlaceAfterFirst([a[0]] + rest[0], others, more);
    }
  }

  /** A text with no blank line is its own single part. */
  lemma {:induction false} SplitWhole(a: string)
    ensures |Split(a)| == 1 ==> Split(a)[0] == a
  {
    if |a| >= 2 && !(a[0] == '\n' && a[1] == '\n') {
      SplitWhole(a[1..]);
      assert a == [a[0]] + a[1..];
    }
  }

  /** One chunk: the parts of the buffer that are complete become frames, the last one is the buffer. */
  lemma {:induction false} ReadOn(before: string, chunk: string, frames: seq<string>, buffer: string,
                                  parts: seq<string>)
    requires frames + [buffer] == Split(before) && parts == Split(buffer + chunk)
    ensures frames + parts[..|parts| - 1] + [parts[|parts| - 1]] == Split(before + chunk)
  {
    var all := frames + [buffer];
    SplitAppend(before, chunk, all);
    LastInPlace(frames, buffer, all, parts);
  }

  lemma FirstOfBoth(frames: seq<string>, rest: seq<string>, bodies: seq<string>, last: string)
    requires frames + rest == bodies + [last] && |rest| > 0
    ensures |frames| <= |bodies| && frames == bodies[..|frames|]
  {
    assert (frames + rest)[..|frames|] == frames;
    assert (bodies + [last])[..|frames|] == bodies[..|frames|];
  }

  lemma LastInPlace(frames: seq<string>, buffer: string, all: seq<string>, parts: seq<string>)
    requires all == frames + [buffer] && |parts| > 0
    ensures all[|all| - 1] == buffer && InPlaceOfLast(all, parts) == frames + parts
    ensures InPlaceOfLast(all, parts) == frames + parts[..|parts| - 1] + [parts[|parts| - 1]]
  {
    assert all[..|frames|] == frames;
    assert parts == parts[..|parts| - 1] + [parts[|parts| - 1]];
  }

  /** The reading loop, over the decoded chunks of the response. However the stream is cut into chunks, it ends
      up with the parts of the whole text, the last one still in the buffer. */
  method ReadFrames(chunks: seq<string>) returns (frames: seq<string>, buffer: string)
    ensures frames + [buffer] == Split(Flatten(chunks))
  {
    frames, buffer := [], "";
    ghost var before := "";
    for i := 0 to |chunks|
      invariant before == Flatten(chunks[..i]) && frames + [buffer] == Split(before)
    {
      FlattenAppend(chunks[..i], chunks[i]);
      assert chunks[..i + 1] == chunks[..i] + [chunks[i]];
      var parts := Split(buffer + chunks[i]);
      ReadOn(before, chunks[i], frames, buffer, parts);
      frames, buffer := frames + parts[..|parts| - 1], parts[|parts| - 1];
      before := before + chunks[i];
    }
    assert chunks[..|chunks|] == chunks;
  }

  // ----- The round trip -----

  /** No blank line inside, and none formed by what follows. */
  predicate Clean(s: string) {
    s != "" ==> (s[0] == '\n' ==> |s| > 1 && s[1] != '\n') && Clean(s[1..])
  }

  lemma {:induction false} CleanAfter(a: string, b: string)
    requires NewlineFree(a) && Clean(b)
    ensures Clean(a + b)
  {
    if a == "" {
      assert a + b == b;
    } else {
      CleanAfter(a[1..], b);
      assert (a + b)[1..] == a[1..] + b;
    }
  }

  lemma BodyIsClean(m: Message)
    requires WellFormed(m)
    ensures Clean(Body(m))
  {
    match m {
      case EventMessage(id, json) =>
        CleanTwoLines("id: " + id, json);
      case ResetMessage(json) =>
        CleanTwoLines(MARKER, json);
      case Heartbeat =>
        CleanAfter(Body(m), "");
        assert Body(m) + "" == Body(m);
    }
  }

  lemma {:induction false} CleanTwoLines(first: string, json: string)
    requires NewlineFree(first) && NewlineFree(json)
    ensures Clean(first + "\n" + "data: " + json)
  {
    var second := "data: " + json;
    assert second + "" == second;
    CleanAfter(second, "");
    assert ("\n" + second)[1..] == second && second[0] == 'd';
    CleanAfter(first, "\n" + second);
    assert first + ("\n" + second) == first + "\n" + "data: " + json;
  }

  lemma {:induction false} SplitFirst(body: string, rest: string)
    requires Clean(body)
    ensures Split(body + "\n\n" + rest) == [body] + Split(rest)
  {
    var text := body + "\n\n" + rest;
    if body == "" {
      assert text[2..] == rest;
    } else {
      SplitFirst(body[1..], rest);
      assert text[1..] == body[1..] + "\n\n" + rest;
      assert body == [body[0]] + body[1..];
    }
  }

  lemma {:induction false} SplitEncoding(messages: seq<Message>)
    requires forall i | 0 <= i < |messages| :: WellFormed(messages[i])
    ensures Split(Encode(messages)) == Bodies(messages) + [""]
  {
    if messages != [] {
      BodyIsClean(messages[0]);
      SplitFirst(Body(messages[0]), Encode(messages[1..]));
      SplitEncoding(messages[1..]);
    }
  }

  /** Every way of cutting the stream into chunks yields exactly the messages written, in order, and leaves
      nothing in the buffer. */
  lemma {:induction false} ChunksYieldMessages(messages: seq<Message>, chunks: seq<string>, frames: seq<string>,
                                               buffer: string)
    requires forall i | 0 <= i < |messages| :: WellFormed(messages[i])
    requires Flatten(chunks) == Encode(messages)
    requires frames + [buffer] == Split(Flatten(chunks))
    ensures frames == Bodies(messages) && buffer == ""
  {
    SplitEncoding(messages);
    assert (frames + [buffer])[..|frames|] == frames;
    assert (Bodies(messages) + [""])[..|messages|] == Bodies(messages);
  }

  /** A connection that breaks anywhere has yielded the first so many messages, none of them cut short. */
  lemma {:induction false} BrokenStreamYieldsPrefix(messages: seq<Message>, received: string, lost: string,
                                                    frames: seq<string>, buffer: string)
    requires forall i | 0 <= i < |messages| :: WellFormed(messages[i])
    requires received + lost == Encode(messages)
    requires frames + [buffer] == Split(received)
    ensures |frames| <= |messages| && frames == Bodies(messages)[..|frames|]
  {
    SplitEncoding(messages);
    var all, rest := frames + [buffer], Split(buffer + lost);
    SplitAppend(received, lost, all);
    LastInPlace(frames, buffer, all, rest);
    FirstOfBoth(frames, rest, Bodies(messages), "");
  }

  lemma {:induction false} LinesOf(first: string, rest: string)
    requires NewlineFree(first)
    ensures Lines(first + "\n" + rest) == [first] + Lines(rest)
    ensures Lines(first) == [first]
  {
    if first == "" {
      assert (first + "\n" + rest)[1..] == rest;
    } else {
      LinesOf(first[1..], rest);
      assert (first + "\n" + rest)[1..] == first[1..] + "\n" + rest;
      assert first == [first[0]] + first[1..];
    }
  }

  lemma {:induction false} TwoLines(first: string, json: string)
    requires NewlineFree(first) && NewlineFree(json)
    requires first != "" && first[0] != 'd'
    ensures FindData(Lines(first + "\n" + "data: " + json)) == Some(json)
  {
    var second := "data: " + json;
    assert first + "\n" + second == first + "\n" + "data: " + json;
    LinesOf(first, second);
    LinesOf(second, "");
    assert !("data: " <= first) by {
      assert "data: "[0] == 'd';
    }
    assert second[..6] == "data: " && second[6..] == json;
  }

  /** The marker can be found in a frame only where its first letter is. */
  lemma MarkerInTail(head: string, tail: string)
    requires forall i | 0 <= i < |head| :: head[i] != 'e'
    ensures Contains(head + tail, MARKER) <==> Contains(tail, MARKER)
  {
    var s := head + tail;
    if Contains(s, MARKER) {
      var at :| 0 <= at <= |s| && Occurs(s, MARKER, at);
      assert s[at] == s[at..at + |MARKER|][0] == MARKER[0] == 'e';
      assert s[at..at + |MARKER|] == tail[at - |head|..at - |head| + |MARKER|];
      assert Occurs(tail, MARKER, at - |head|);
    }
    if Contains(tail, MARKER) {
      var at :| 0 <= at <= |tail| && Occurs(tail, MARKER, at);
      assert s[|head| + at..|head| + at + |MARKER|] == tail[at..at + |MARKER|];
      assert Occurs(s, MARKER, |head| + at);
    }
  }

  /** A message is read as what it was written as, with one exception: an event whose JSON holds the text
      `event: reset-required` is taken for a reset. */
  lemma ClassifyBody(m: Message)
    requires WellFormed(m)
    ensures Classify(Body(m)) ==
            match m
            case EventMessage(id, json) => if Contains(json, MARKER) then GotReset(json) else GotEvent(json)
            case ResetMessage(json) => GotReset(json)
            case Heartbeat => Skipped
  {
    match m {
      case EventMessage(id, json) =>
        TwoLines("id: " + id, json);
        var head := "id: " + id + "\n" + "data: ";
        assert head + json == Body(m);
        MarkerInTail(head, json);
      case ResetMessage(json) =>
        TwoLines(MARKER, json);
        assert Body(m)[0..0 + |MARKER|] == MARKER;
        assert Occurs(Body(m), MARKER, 0);
      case Heartbeat =>
        var line := ": heartbeat";
        LinesOf(line, "");
        assert !("data: " <= line) by {
          assert "data: "[0] == 'd' && line[0] == ':';
        }
        var lines: seq<string> := [line];
        assert lines[1..] == [];
        assert FindData(lines) == FindData(lines[1..]) == None;
    }
  }
}
