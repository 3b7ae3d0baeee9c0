/** The event stream as bytes: the client's `TextDecoder` in streaming mode in front of its frame loop
    (packages/remote-client/src/index.ts). Chunks may cut the bytes anywhere, inside a character too. */
module SseBytes {
  import opened Prelude
  import opened ChunkSizeLine
  import opened SseFraming

  /** What can be decoded of some bytes, and the bytes that are left for later. */
  datatype Decoded = Decoded(text: string, pending: seq<Byte>)

  lemma CodePointIsScalar(bytes: seq<Byte>)
    requires Utf8Length(bytes) > 0
    ensures CodePoint(bytes) < 0xD800 || 0xE000 <= CodePoint(bytes) < 0x11_0000
  {
  }

  function CharOf(bytes: seq<Byte>): char
    requires Utf8Length(bytes) > 0
  {
    CodePointIsScalar(bytes);
    CodePoint(bytes) as char
  }

  /** `decoder.decode(bytes, { stream: true })` on well-formed text that may end inside a character. */
  function Decode(bytes: seq<Byte>): Decoded {
    var n := Utf8Length(bytes);
    if n == 0 then Decoded("", bytes)
    else
      var rest := Decode(bytes[n..]);
      Decoded([CharOf(bytes)] + rest.text, rest.pending)
  }

  lemma LongerHasSameFirst(a: seq<Byte>, b: seq<Byte>)
    requires Utf8Length(a) > 0
    ensures Utf8Length(a + b) == Utf8Length(a) && CodePoint(a + b) == CodePoint(a)
  {
    var all := a + b;
    assert forall i | 0 <= i < |a| :: all[i] == a[i];
  }

  lemma {:induction false} DecodeFirst(bytes: seq<Byte>, tail: seq<Byte>, rest: Decoded)
    requires Utf8Length(bytes) > 0 && tail == bytes[Utf8Length(bytes)..] && rest == Decode(tail)
    ensures Decode(bytes) == Decoded([CharOf(bytes)] + rest.text, rest.pending)
  {
  }

  /** Going on with what was left decodes the whole. */
  lemma {:induction false} DecodeAppend(a: seq<Byte>, b: seq<Byte>)
    ensures var first := Decode(a);
            var rest := Decode(first.pending + b);
            Decode(a + b) == Decoded(first.text + rest.text, rest.pending)
    decreases |a|
  {
    var n, all := Utf8Length(a), a + b;
    if n == 0 {
      assert "" + Decode(all).text == Decode(all).text;
    } else {
      var tail := a[n..];
      LongerHasSameFirst(a, b);
      DecodeAppend(tail, b);
      assert all[n..] == tail + b;
      DecodeFirst(a, tail, Decode(tail));
      DecodeFirst(all, tail + b, Decode(tail + b));
      Regroup([CharOf(a)], Decode(tail).text, Decode(Decode(tail).pending + b).text);
    }
  }

  // ----- Writing -----

  /** The UTF-8 form of a character, section 3 of RFC 3629. */
  function CharBytes(c: char): seq<Byte> {
    var n := c as nat;
    if n < 0x80 then [n]
    else if n < 0x800 then [0xC0 + n / 0x40, 0x80 + n % 0x40]
    else if n < 0x1_0000 then [0xE0 + n / 0x1000, 0x80 + n / 0x40 % 0x40, 0x80 + n % 0x40]
    else [0xF0 + n / 0x4_0000, 0x80 + n / 0x1000 % 0x40, 0x80 + n / 0x40 % 0x40, 0x80 + n % 0x40]
  }

  function Utf8(text: string): seq<Byte> {
    if text == "" then [] else CharBytes(text[0]) + Utf8(text[1..])
  }

  lemma CharIsRead(c: char)
    ensures Utf8Length(CharBytes(c)) == |CharBytes(c)| && CharOf(CharBytes(c)) == c
  {
    var n := c as nat;
    var q := n / 0x40;
    assert n == 0x40 * q + n % 0x40;
    assert q == 0x40 * (q / 0x40) + q % 0x40;
    assert n / 0x1000 == q / 0x40;
    if n >= 0x1_0000 {
      var t := n / 0x1000;
      assert n / 0x4_0000 == t / 0x40;
      assert t == 0x40 * (t / 0x40) + t % 0x40;
    }
  }

  /** Every text has a UTF-8 form, and is read back from it. */
  lemma {:induction false} Utf8IsRead(text: string)
    ensures Decode(Utf8(text)) == Decoded(text, [])
  {
    if text == "" {
      assert Utf8(text) == [];
    } else {
      var first, rest := CharBytes(text[0]), Utf8(text[1..]);
      var all := first + rest;
      CharIsRead(text[0]);
      LongerHasSameFirst(first, rest);
      assert all[|first|..] == rest;
      Utf8IsRead(text[1..]);
      DecodeFirst(all, rest, Decode(rest));
      assert text == [text[0]] + text[1..];
    }
  }

  /** The loop over the chunks of the response body. */
  method ReadBytes(chunks: seq<seq<Byte>>) returns (frames: seq<string>, buffer: string)
    ensures frames + [buffer] == Split(Decode(Flatten(chunks)).text)
  {
    frames, buffer := [], "";
    var pending: seq<Byte> := [];
    ghost var before: seq<Byte> := [];
    for i := 0 to |chunks|
      invariant before == Flatten(chunks[..i]) && pending == Decode(before).pending
      invariant frames + [buffer] == Split(Decode(before).text)
    {
      FlattenAppend(chunks[..i], chunks[i]);
      assert chunks[..i + 1] == chunks[..i] + [chunks[i]];
      DecodeAppend(before, chunks[i]);
      var decoded := Decode(pending + chunks[i]);
      var parts := Split(buffer + decoded.text);
      ReadOn(Decode(before).text, decoded.text, frames, buffer, parts);
      frames, buffer := frames + parts[..|parts| - 1], parts[|parts| - 1];
      pending, before := decoded.pending, before + chunks[i];
    }
    assert chunks[..|chunks|] == chunks;
  }

  /** However the bytes of the stream are cut, exactly the messages written come out, in order, with nothing left
      over. */
  lemma {:induction false} BytesYieldMessages(messages: seq<Message>, chunks: seq<seq<Byte>>, frames: seq<string>,
                                              buffer: string)
    requires forall i | 0 <= i < |messages| :: WellFormed(messages[i])
    requires Flatten(chunks) == Utf8(Encode(messages))
    requires frames + [buffer] == Split(Decode(Flatten(chunks)).text)
    ensures frames == Bodies(messages) && buffer == ""
  {
    var text := Encode(messages);
    Utf8IsRead(text);
    assert Flatten([text]) == text + Flatten([]) == text;
    ChunksYieldMessages(messages, [text], frames, buffer);
  }

  /** A connection that breaks after any byte has yielded the first so many messages, none of them cut short. */
  lemma {:induction false} BrokenBytesYieldPrefix(messages: seq<Message>, received: seq<Byte>, lost: seq<Byte>,
                                                  frames: seq<string>, buffer: string)
    requires forall i | 0 <= i < |messages| :: WellFormed(messages[i])
    requires received + lost == Utf8(Encode(messages))
    requires frames + [buffer] == Split(Decode(received).text)
    ensures |frames| <= |messages| && frames == Bodies(messages)[..|frames|]
  {
    DecodeAppend(received, lost);
    Utf8IsRead(Encode(messages));
    var got := Decode(received);
    BrokenStreamYieldsPrefix(messages, got.text, Decode(got.pending + lost).text, frames, buffer);
  }
}
