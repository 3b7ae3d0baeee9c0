/** Decoding of HTTP bodies with chunked transfer coding, section 7.1 of RFC 9112 (`decode_http_body`,
    apps/desktop/src-tauri/src/lib.rs). */
module ChunkedBody {
  import opened Prelude
  import opened ChunkSizeLine

  /** A slice is never longer than `isize::MAX`. */
  const MAX_SLICE: nat := 0x8000_0000_0000_0000

  // ----- Decoding -----

  function SkipBreaks(s: seq<Byte>): (r: seq<Byte>)
    ensures |r| <= |s|
  {
    if s != [] && Break(s[0]) then SkipBreaks(s[1..]) else s
  }

  /** The position of the first line break, or the length when there is none. */
  function FindBreak(s: seq<Byte>): (n: nat)
    ensures n <= |s|
    ensures forall i | 0 <= i < n :: !Break(s[i])
    ensures n < |s| ==> Break(s[n])
  {
    if s == [] || Break(s[0]) then 0 else 1 + FindBreak(s[1..])
  }

  function SkipOne(s: seq<Byte>, b: Byte): (r: seq<Byte>)
    ensures |r| <= |s|
  {
    if s != [] && s[0] == b then s[1..] else s
  }

  /** Adding a huge size to the position overflows: the decoder panics. */
  datatype Decoded = Bytes(bytes: seq<Byte>) | Panic

  function Prepend(front: seq<Byte>, rest: Decoded): Decoded {
    match rest
    case Bytes(b) => Bytes(front + b)
    case Panic => Panic
  }

  /** One iteration of the loop: it stops, panics, or appends some data and goes on with the rest. */
  datatype Next = Stop | Overflow | More(data: seq<Byte>, rest: seq<Byte>)

  /** What follows a chunk-size line that announces `size`, in a body of length `total`. */
  function AfterLine(size: nat, data: seq<Byte>, total: nat): (next: Next)
    ensures next.More? ==> |next.rest| < |data|
  {
    if size == 0 then Stop
    else if total - |data| + size >= USIZE then Overflow
    else if size > |data| then Stop
    else More(data[..size], SkipOne(SkipOne(data[size..], CR), LF))
  }

  datatype SizeLineFound = NoLine | Line(line: seq<Byte>, data: seq<Byte>)

  /** Finds the chunk-size line and what follows it. */
  function NextLine(rest: seq<Byte>): (found: SizeLineFound)
    ensures found.Line? ==> |found.data| < |rest|
  {
    var line := SkipBreaks(rest);
    var end := FindBreak(line);
    if end == |line| then NoLine else Line(line[..end], SkipOne(line[end + 1..], LF))
  }

  /** Reads a chunk-size line. */
  type LineReader = seq<Byte> -> nat

  function NextChunk(read: LineReader, rest: seq<Byte>, total: nat): (next: Next)
    ensures next.More? ==> |next.rest| < |rest|
  {
    match NextLine(rest)
    case NoLine => Stop
    case Line(line, data) => AfterLine(read(line), data, total)
  }

  /** Decodes what is left of a body of length `total`. */
  function Decode(read: LineReader, rest: seq<Byte>, total: nat): Decoded
    decreases |rest|
  {
    match NextChunk(read, rest, total)
    case Stop => Bytes([])
    case Overflow => Panic
    case More(data, after) => Prepend(data, Decode(read, after, total))
  }

  /** The decoder's loop, over arbitrary bytes. The cursor grows in every iteration. */
  method DecodeHttpBody(chunked: bool, body: seq<Byte>) returns (decoded: Decoded)
    ensures !chunked ==> decoded == Bytes(body)
    ensures chunked ==> decoded == Decode(LineSize, body, |body|)
  {
    if !chunked {
      return Bytes(body);
    }
    var bytes, cursor := [], 0;
    assert body[0..] == body;
    while cursor < |body|
      invariant 0 <= cursor <= |body|
      invariant Prepend(bytes, Decode(LineSize, body[cursor..], |body|)) == Decode(LineSize, body, |body|)
      decreases |body| - cursor
    {
      var next, after := ReadChunk(LineSize, body, cursor);
      match next {
        case Stop => break;
        case Overflow => return Panic;
        case More(data, rest) =>
          PrependTwice(bytes, data, Decode(LineSize, rest, |body|));
          bytes, cursor := bytes + data, after;
      }
    }
    decoded := Bytes(bytes);
  }

  /** The body of the loop. */
  method ReadChunk(read: LineReader, body: seq<Byte>, from: nat) returns (next: Next, cursor: nat)
    requires from < |body|
    ensures next == NextChunk(read, body[from..], |body|)
    ensures next.More? ==> from < cursor <= |body| && next.rest == body[cursor..]
  {
    var found;
    found, cursor := ReadLine(body, from);
    match found {
      case NoLine => next := Stop;
      case Line(line, data) => next, cursor := TakeData(body, cursor, read(line));
    }
  }

  method ReadLine(body: seq<Byte>, from: nat) returns (found: SizeLineFound, cursor: nat)
    requires from < |body|
    ensures found == NextLine(body[from..])
    ensures found.Line? ==> from < cursor <= |body| && found.data == body[cursor..]
  {
    var start := SkipBreaksAt(body, from);
    var lineEnd := FindBreakAt(body, start);
    cursor := lineEnd;
    if lineEnd == |body| {
      found := NoLine;
    } else {
      cursor := SkipOneAt(body, lineEnd + 1, LF);
      found := Line(body[start..lineEnd], body[cursor..]);
    }
    LineAt(body, body[from..], body[start..], start, lineEnd);
  }

  lemma {:induction false} LineAt(body: seq<Byte>, rest: seq<Byte>, line: seq<Byte>, start: nat, lineEnd: nat)
    requires start <= lineEnd <= |body| && line == body[start..] && line == SkipBreaks(rest)
    requires lineEnd - start == FindBreak(line)
    ensures NextLine(rest)
         == if lineEnd == |body| then NoLine else Line(body[start..lineEnd], SkipOne(body[lineEnd + 1..], LF))
  {
    var end := lineEnd - start;
    assert end < |line| ==> line[..end] == body[start..lineEnd] && line[end + 1..] == body[lineEnd + 1..];
  }

  method TakeData(body: seq<Byte>, from: nat, size: nat) returns (next: Next, cursor: nat)
    requires from <= |body|
    ensures next == AfterLine(size, body[from..], |body|)
    ensures next.More? ==> from < cursor <= |body| && next.rest == body[cursor..]
  {
    cursor := from;
    if size == 0 {
      return Stop, cursor;
    }
    if cursor + size >= USIZE {
      return Overflow, cursor;
    }
    if cursor + size > |body| {
      return Stop, cursor;
    }
    var data := body[cursor..cursor + size];
    assert data == body[from..][..size] && body[from + size..] == body[from..][size..];
    cursor := SkipOneAt(body, cursor + size, CR);
    cursor := SkipOneAt(body, cursor, LF);
    next := More(data, body[cursor..]);
  }

  method SkipOneAt(body: seq<Byte>, from: nat, b: Byte) returns (cursor: nat)
    requires from <= |body|
    ensures from <= cursor <= |body| && body[cursor..] == SkipOne(body[from..], b)
  {
    cursor := if from < |body| && body[from] == b then from + 1 else from;
    assert from < |body| ==> body[from..][1..] == body[from + 1..];
  }

  lemma PrependTwice(a: seq<Byte>, b: seq<Byte>, rest: Decoded)
    ensures Prepend(a + b, rest) == Prepend(a, Prepend(b, rest))
  {
    if rest.Bytes? {
      assert a + b + rest.bytes == a + (b + rest.bytes);
    }
  }

  method SkipBreaksAt(body: seq<Byte>, from: nat) returns (cursor: nat)
    requires from <= |body|
    ensures from <= cursor <= |body| && body[cursor..] == SkipBreaks(body[from..])
  {
    cursor := from;
    while cursor < |body| && Break(body[cursor])
      invariant from <= cursor <= |body| && SkipBreaks(body[cursor..]) == SkipBreaks(body[from..])
    {
      assert body[cursor..][1..] == body[cursor + 1..];
      cursor := cursor + 1;
    }
  }

  method FindBreakAt(body: seq<Byte>, from: nat) returns (end: nat)
    requires from <= |body|
    ensures from <= end <= |body| && end - from == FindBreak(body[from..])
  {
    end := from;
    while end < |body| && !Break(body[end])
      invariant from <= end <= |body| && end - from + FindBreak(body[end..]) == FindBreak(body[from..])
    {
      assert body[end..][1..] == body[end + 1..];
      end := end + 1;
    }
  }

  // ----- Encoding -----

  /** A chunk: its size in hexadecimal, an extension that is empty or starts with `;`, and its data. */
  datatype Chunk = Chunk(size: seq<Byte>, extension: seq<Byte>, data: seq<Byte>)

  predicate ValidChunk(c: Chunk) {
    && 0 < |c.data| < MAX_SLICE
    && c.size != [] && HexDigits(c.size) && HexValue(c.size) == |c.data|
    && ValidExtension(c.extension)
  }

  function EncodeChunk(c: Chunk): seq<Byte> {
    c.size + c.extension + [CR, LF] + c.data + [CR, LF]
  }

  /** The chunks, a last chunk of size zero, and whatever trailer follows it. */
  function Encode(chunks: seq<Chunk>, trailer: seq<Byte>): seq<Byte> {
    if chunks == [] then ['0' as int, CR, LF] + trailer else EncodeChunk(chunks[0]) + Encode(chunks[1..], trailer)
  }

  function Payload(chunks: seq<Chunk>): seq<Byte> {
    if chunks == [] then [] else chunks[0].data + Payload(chunks[1..])
  }

  function EncodedLength(chunks: seq<Chunk>): nat {
    if chunks == [] then 0 else |EncodeChunk(chunks[0])| + EncodedLength(chunks[1..])
  }

  /** Of these chunks exactly the first `k` have all their data within the first `cut` bytes. */
  ghost predicate Arrived(chunks: seq<Chunk>, cut: nat, k: nat) {
    && k <= |chunks|
    && (k > 0 ==> EncodedLength(chunks[..k]) - 2 <= cut)
    && (k < |chunks| ==> cut < EncodedLength(chunks[..k + 1]) - 2)
  }

  // ----- Decoding an encoding -----

  ghost predicate SizeLine(read: LineReader, line: seq<Byte>, size: nat) {
    line != [] && (forall i | 0 <= i < |line| :: !Break(line[i])) && read(line) == size
  }

  ghost predicate Announced(read: LineReader, c: Chunk) {
    0 < |c.data| < MAX_SLICE && SizeLine(read, c.size + c.extension, |c.data|)
  }

  lemma {:induction false} FindBreakAfter(line: seq<Byte>, rest: seq<Byte>, all: seq<Byte>)
    requires forall i | 0 <= i < |line| :: !Break(line[i])
    requires (rest != [] ==> Break(rest[0])) && all == line + rest
    ensures FindBreak(all) == |line|
  {
    if line != [] {
      FindBreakAfter(line[1..], rest, all[1..]);
    } else {
      assert all == rest;
    }
  }

  /** What the decoder does with a complete chunk-size line. */
  lemma NextAfterLine(read: LineReader, line: seq<Byte>, size: nat, tail: seq<Byte>, s: seq<Byte>, next: Next,
                      total: nat)
    requires SizeLine(read, line, size) && s == line + tail && tail != [] && tail[0] == CR
    requires next == AfterLine(size, SkipOne(tail[1..], LF), total)
    ensures NextChunk(read, s, total) == next
  {
    assert s[0] == line[0];
    assert SkipBreaks(s) == s;
    FindBreakAfter(line, tail, s);
    assert s[..|line|] == line && s[|line| + 1..] == tail[1..];
  }

  /** A text with no line break in it holds no chunk. */
  lemma {:induction false} DecodeWithoutLine(read: LineReader, s: seq<Byte>, total: nat)
    requires forall i | 0 <= i < |s| :: !Break(s[i])
    ensures Decode(read, s, total) == Bytes([])
  {
    FindBreakAfter(s, [], s);
  }

  /** The data of a chunk with everything up to the next size line is taken off. */
  lemma DataAfterLine(data: seq<Byte>, rest: seq<Byte>, tail: seq<Byte>, total: nat)
    requires 0 < |data| && |data| + |rest| + 2 <= total < MAX_SLICE
    requires tail == [CR, LF] + data + [CR, LF] + rest
    ensures AfterLine(|data|, SkipOne(tail[1..], LF), total) == More(data, rest)
  {
    var all := tail[1..][1..];
    var after := all[|data|..];
    assert all[..|data|] == data && after == [CR, LF] + rest;
    assert after[1..][1..] == rest;
  }

  lemma {:induction false} DecodeMore(read: LineReader, s: seq<Byte>, data: seq<Byte>, rest: seq<Byte>, total: nat)
    requires NextChunk(read, s, total) == More(data, rest)
    ensures Decode(read, s, total) == Prepend(data, Decode(read, rest, total))
  {
  }

  lemma {:induction false} DecodeStop(read: LineReader, s: seq<Byte>, total: nat)
    requires NextChunk(read, s, total) == Stop
    ensures Decode(read, s, total) == Bytes([])
  {
  }

  lemma {:induction false} DecodeChunk(read: LineReader, c: Chunk, rest: seq<Byte>, s: seq<Byte>, total: nat)
    requires Announced(read, c) && s == EncodeChunk(c) + rest && |s| <= total < MAX_SLICE
    ensures Decode(read, s, total) == Prepend(c.data, Decode(read, rest, total))
  {
    var line := c.size + c.extension;
    NextOfChunk(read, line, c.data, rest, s, total);
    DecodeMore(read, s, c.data, rest, total);
  }

  lemma NextOfChunk(read: LineReader, line: seq<Byte>, data: seq<Byte>, rest: seq<Byte>, s: seq<Byte>, total: nat)
    requires SizeLine(read, line, |data|) && data != [] && s == line + [CR, LF] + data + [CR, LF] + rest
    requires |s| <= total < MAX_SLICE
    ensures NextChunk(read, s, total) == More(data, rest)
  {
    var tail := [CR, LF] + data + [CR, LF] + rest;
    assert s == line + tail;
    DataAfterLine(data, rest, tail, total);
    NextAfterLine(read, line, |data|, tail, s, More(data, rest), total);
  }

  lemma {:induction false} DecodeLastChunk(read: LineReader, tail: seq<Byte>, s: seq<Byte>, total: nat)
    requires SizeLine(read, ['0' as int], 0) && tail != [] && tail[0] == CR && s == ['0' as int] + tail
    ensures Decode(read, s, total) == Bytes([])
  {
    NextAfterLine(read, ['0' as int], 0, tail, s, Stop, total);
    DecodeStop(read, s, total);
  }

  lemma {:induction false} DecodeEncodedBy(read: LineReader, chunks: seq<Chunk>, trailer: seq<Byte>, total: nat)
    requires forall i | 0 <= i < |chunks| :: Announced(read, chunks[i])
    requires SizeLine(read, ['0' as int], 0) && |Encode(chunks, trailer)| <= total < MAX_SLICE
    ensures Decode(read, Encode(chunks, trailer), total) == Bytes(Payload(chunks))
  {
    var s := Encode(chunks, trailer);
    if chunks == [] {
      DecodeLastChunk(read, [CR, LF] + trailer, s, total);
    } else {
      DecodeChunk(read, chunks[0], Encode(chunks[1..], trailer), s, total);
      DecodeEncodedBy(read, chunks[1..], trailer, total);
    }
  }

  // ----- Decoding a body that ends early -----

  /** A chunk cut short inside its line or its data yields nothing, one cut in its last line break is complete. */
  lemma {:induction false} DecodeCutChunk(read: LineReader, c: Chunk, cut: nat, s: seq<Byte>, total: nat)
    requires Announced(read, c) && cut < |EncodeChunk(c)| && cut <= total < MAX_SLICE && s == EncodeChunk(c)[..cut]
    ensures Decode(read, s, total) == Bytes(if cut < |EncodeChunk(c)| - 2 then [] else c.data)
  {
    var line := c.size + c.extension;
    var tail := [CR, LF] + c.data + [CR, LF];
    assert EncodeChunk(c) == line + tail;
    if cut <= |line| {
      assert s == line[..cut];
      DecodeWithoutLine(read, s, total);
    } else {
      var cutTail := tail[..cut - |line|];
      assert s == line + cutTail;
      DecodeCutTail(read, line, c.data, cutTail, s, total);
    }
  }

  lemma {:induction false} DecodeCutTail(read: LineReader, line: seq<Byte>, data: seq<Byte>, tail: seq<Byte>,
                                         s: seq<Byte>, total: nat)
    requires SizeLine(read, line, |data|) && s == line + tail && |s| <= total < MAX_SLICE
    requires 0 < |data| < MAX_SLICE && 0 < |tail| < |data| + 4 && tail == ([CR, LF] + data + [CR, LF])[..|tail|]
    ensures Decode(read, s, total) == Bytes(if |tail| < |data| + 2 then [] else data)
  {
    var next := if |tail| < |data| + 2 then Stop else More(data, []);
    CutTail(data, tail, total);
    NextAfterLine(read, line, |data|, tail, s, next, total);
    DecodeLast(read, s, data, next, total);
  }

  lemma {:induction false} DecodeLast(read: LineReader, s: seq<Byte>, data: seq<Byte>, next: Next, total: nat)
    requires NextChunk(read, s, total) == next && (next == Stop || next == More(data, []))
    ensures Decode(read, s, total) == Bytes(if next == Stop then [] else data)
  {
    if next == Stop {
      DecodeStop(read, s, total);
    } else {
      DecodeMore(read, s, data, [], total);
      DecodeWithoutLine(read, [], total);
      assert data + [] == data;
    }
  }

  lemma CutTail(data: seq<Byte>, tail: seq<Byte>, total: nat)
    requires 0 < |data| < MAX_SLICE && 0 < |tail| < |data| + 4 && |tail| <= total < MAX_SLICE
    requires tail == ([CR, LF] + data + [CR, LF])[..|tail|]
    ensures AfterLine(|data|, SkipOne(tail[1..], LF), total) == if |tail| < |data| + 2 then Stop else More(data, [])
  {
    var whole := [CR, LF] + data + [CR, LF];
    if |tail| > 1 {
      var got := whole[2..|tail|];
      assert SkipOne(tail[1..], LF) == got;
      if |got| >= |data| {
        assert got[..|data|] == data;
        assert got[|data|..] == if |got| == |data| then [] else [CR];
      }
    }
  }

  lemma {:induction false} DecodeCutLast(read: LineReader, trailer: seq<Byte>, cut: nat, s: seq<Byte>, total: nat)
    requires SizeLine(read, ['0' as int], 0) && cut <= 3 + |trailer| && s == (['0' as int, CR, LF] + trailer)[..cut]
    ensures Decode(read, s, total) == Bytes([])
  {
    if cut >= 2 {
      DecodeLastChunk(read, s[1..], s, total);
    } else {
      DecodeWithoutLine(read, s, total);
    }
  }

  lemma {:induction false} DecodePrefixBy(read: LineReader, chunks: seq<Chunk>, trailer: seq<Byte>, s: seq<Byte>,
                                          total: nat)
    returns (k: nat)
    requires forall i | 0 <= i < |chunks| :: Announced(read, chunks[i])
    requires SizeLine(read, ['0' as int], 0) && |s| <= |Encode(chunks, trailer)| && |s| <= total < MAX_SLICE
    requires s == Encode(chunks, trailer)[..|s|]
    ensures Arrived(chunks, |s|, k) && Decode(read, s, total) == Bytes(Payload(chunks[..k]))
    decreases |chunks|
  {
    if chunks == [] {
      k := 0;
      DecodeCutLast(read, trailer, |s|, s, total);
    } else if |s| < |EncodeChunk(chunks[0])| {
      k := DecodePrefixOfFirst(read, chunks, s, total);
    } else {
      var t := s[|EncodeChunk(chunks[0])|..];
      RestOfPrefix(EncodeChunk(chunks[0]), Encode(chunks[1..], trailer), s, t);
      var rest := DecodePrefixBy(read, chunks[1..], trailer, t, total);
      k := rest + 1;
      DecodeChunk(read, chunks[0], t, s, total);
      PayloadOfMore(chunks, rest);
      ArrivedAfterFirst(chunks, |s|, rest);
    }
  }

  lemma RestOfPrefix(first: seq<Byte>, others: seq<Byte>, s: seq<Byte>, t: seq<Byte>)
    requires |first| <= |s| <= |first| + |others| && s == (first + others)[..|s|] && t == s[|first|..]
    ensures s == first + t && t == others[..|t|]
  {
  }

  lemma PayloadOfMore(chunks: seq<Chunk>, rest: nat)
    requires rest < |chunks|
    ensures Payload(chunks[..rest + 1]) == chunks[0].data + Payload(chunks[1..][..rest])
  {
    assert chunks[..rest + 1][1..] == chunks[1..][..rest];
  }

  lemma DecodePrefixOfFirst(read: LineReader, chunks: seq<Chunk>, s: seq<Byte>, total: nat) returns (k: nat)
    requires chunks != [] && Announced(read, chunks[0]) && |s| <= total < MAX_SLICE
    requires |s| < |EncodeChunk(chunks[0])| && s == EncodeChunk(chunks[0])[..|s|]
    ensures Arrived(chunks, |s|, k) && Decode(read, s, total) == Bytes(Payload(chunks[..k]))
  {
    k := if |s| < |EncodeChunk(chunks[0])| - 2 then 0 else 1;
    DecodeCutChunk(read, chunks[0], |s|, s, total);
    PayloadOfOne(chunks);
    ArrivedOfFirst(chunks, |s|, k);
  }

  lemma ArrivedOfFirst(chunks: seq<Chunk>, cut: nat, k: nat)
    requires chunks != [] && cut < |EncodeChunk(chunks[0])|
    requires k == if cut < |EncodeChunk(chunks[0])| - 2 then 0 else 1
    ensures Arrived(chunks, cut, k)
  {
    assert chunks[..1][1..] == [];
    if |chunks| > 1 {
      assert chunks[..2][1..] == [chunks[1]];
      assert [chunks[1]][1..] == [];
    }
  }

  lemma ArrivedAfterFirst(chunks: seq<Chunk>, cut: nat, rest: nat)
    requires chunks != [] && cut >= |EncodeChunk(chunks[0])|
    requires Arrived(chunks[1..], cut - |EncodeChunk(chunks[0])|, rest)
    ensures Arrived(chunks, cut, rest + 1)
  {
    assert chunks[..rest + 1][1..] == chunks[1..][..rest];
    if rest + 1 < |chunks| {
      assert chunks[..rest + 2][1..] == chunks[1..][..rest + 1];
    }
  }

  lemma PayloadOfOne(chunks: seq<Chunk>)
    requires chunks != []
    ensures Payload(chunks[..0]) == [] && Payload(chunks[..1]) == chunks[0].data
  {
    assert chunks[..1][1..] == [];
  }

  // ----- The decoder itself -----

  /** The decoder understands the size line of every chunk that is well formed, whatever its extension. */
  lemma ValidIsAnnounced(c: Chunk)
    requires ValidChunk(c)
    ensures Announced(LineSize, c)
  {
    LineSizeOf(c.size, c.extension, c.size + c.extension);
  }

  lemma ZeroIsAnnounced()
    ensures SizeLine(LineSize, ['0' as int], 0)
  {
    var size: seq<Byte> := ['0' as int];
    assert size[..0] == [];
    assert HexValue(size) == 0;
    LineSizeAlone(size);
  }

  /** Decoding an encoding gives the concatenation of the chunks, with any extensions and any trailer. */
  lemma {:induction false} DecodeEncoded(chunks: seq<Chunk>, trailer: seq<Byte>, total: nat)
    requires forall i | 0 <= i < |chunks| :: ValidChunk(chunks[i])
    requires |Encode(chunks, trailer)| <= total < MAX_SLICE
    ensures Decode(LineSize, Encode(chunks, trailer), total) == Bytes(Payload(chunks))
  {
    forall i | 0 <= i < |chunks| ensures Announced(LineSize, chunks[i]) {
      ValidIsAnnounced(chunks[i]);
    }
    ZeroIsAnnounced();
    DecodeEncodedBy(LineSize, chunks, trailer, total);
  }

  /** A body that ends early decodes to the concatenation of exactly the chunks whose data arrived. */
  lemma DecodePrefix(chunks: seq<Chunk>, trailer: seq<Byte>, cut: nat, total: nat) returns (k: nat)
    requires forall i | 0 <= i < |chunks| :: ValidChunk(chunks[i])
    requires cut <= |Encode(chunks, trailer)| && cut <= total < MAX_SLICE
    ensures Arrived(chunks, cut, k)
    ensures Decode(LineSize, Encode(chunks, trailer)[..cut], total) == Bytes(Payload(chunks[..k]))
  {
    forall i | 0 <= i < |chunks| ensures Announced(LineSize, chunks[i]) {
      ValidIsAnnounced(chunks[i]);
    }
    ZeroIsAnnounced();
    k := DecodePrefixBy(LineSize, chunks, trailer, Encode(chunks, trailer)[..cut], total);
  }

  // ----- Sizes that leave the machine word -----

  function Frames(chunks: seq<Chunk>): seq<Byte> {
    if chunks == [] then [] else EncodeChunk(chunks[0]) + Frames(chunks[1..])
  }

  lemma {:induction false} LastLine(read: LineReader, line: seq<Byte>, size: nat, rest: seq<Byte>, s: seq<Byte>,
                                    total: nat)
    requires SizeLine(read, line, size) && s == line + [CR, LF] + rest && |s| <= total
    requires size == 0 || size > |rest|
    ensures Decode(read, s, total) == if size > 0 && total - |rest| + size >= USIZE then Panic else Bytes([])
  {
    var tail := [CR, LF] + rest;
    assert s == line + tail;
    assert tail[1..][1..] == rest;
    var next := if size > 0 && total - |rest| + size >= USIZE then Overflow else Stop;
    NextAfterLine(read, line, size, tail, s, next, total);
  }

  lemma {:induction false} LineAfterChunks(read: LineReader, chunks: seq<Chunk>, line: seq<Byte>, size: nat,
                                           rest: seq<Byte>, s: seq<Byte>, total: nat)
    requires forall i | 0 <= i < |chunks| :: Announced(read, chunks[i])
    requires SizeLine(read, line, size) && (size == 0 || size > |rest|)
    requires s == Frames(chunks) + (line + [CR, LF] + rest) && |s| <= total < MAX_SLICE
    ensures Decode(read, s, total)
         == if size > 0 && total - |rest| + size >= USIZE then Panic else Bytes(Payload(chunks))
    decreases |chunks|
  {
    if chunks == [] {
      assert s == line + [CR, LF] + rest;
      LastLine(read, line, size, rest, s, total);
    } else {
      var last := line + [CR, LF] + rest;
      var others := Frames(chunks[1..]) + last;
      Regroup(EncodeChunk(chunks[0]), Frames(chunks[1..]), last);
      DecodeChunk(read, chunks[0], others, s, total);
      LineAfterChunks(read, chunks[1..], line, size, rest, others, total);
    }
  }

  /** After any chunks, a size line that announces more than is left makes the decoder panic exactly when the size fits
      the machine word but position and size together do not; otherwise the chunks are what is decoded. */
  lemma {:induction false} OversizedChunkPanicsExactly(chunks: seq<Chunk>, size: seq<Byte>, extension: seq<Byte>,
                                                       rest: seq<Byte>, body: seq<Byte>)
    requires forall i | 0 <= i < |chunks| :: ValidChunk(chunks[i])
    requires size != [] && HexDigits(size) && HexValue(size) > |rest| && ValidExtension(extension)
    requires body == Frames(chunks) + (size + extension + [CR, LF] + rest) && |body| < MAX_SLICE
    ensures Decode(LineSize, body, |body|)
         == if HexValue(size) < 0x1_0000_0000_0000_0000 <= |body| - |rest| + HexValue(size) then Panic
            else Bytes(Payload(chunks))
  {
    forall i | 0 <= i < |chunks| ensures Announced(LineSize, chunks[i]) {
      ValidIsAnnounced(chunks[i]);
    }
    var line := size + extension;
    LineSizeOf(size, extension, line);
    LineAfterChunks(LineSize, chunks, line, Readable(size), rest, body, |body|);
  }

  /** Every size that overflows at the start of a body can be written, and the decoder panics on it. */
  lemma {:induction false} OversizedChunkPanics(n: nat, rest: seq<Byte>)
    requires n < 0x1_0000_0000_0000_0000 <= n + |Hex(n)| + 2
    ensures var body := Hex(n) + [CR, LF] + rest; Decode(LineSize, body, |body|) == Panic
  {
    HexRoundTrip(n);
    LineSizeAlone(Hex(n));
    var body := Hex(n) + [CR, LF] + rest;
    var tail := [CR, LF] + rest;
    assert body == Hex(n) + tail;
    assert tail[1..][1..] == rest;
    NextAfterLine(LineSize, Hex(n), n, tail, body, Overflow, |body|);
  }
}
