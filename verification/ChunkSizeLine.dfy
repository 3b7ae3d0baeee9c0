/** The chunk-size lines of a body with chunked transfer coding, section 7.1.1 of RFC 9112, as `decode_http_body`
    reads them (apps/desktop/src-tauri/src/lib.rs). */
module ChunkSizeLine {
  import opened Prelude

  const CR: Byte := 13
  const LF: Byte := 10
  const SEMICOLON: Byte := 0x3B

  /** Sizes are `usize`, 64 bits wide. */
  const USIZE: nat := 0x1_0000_0000_0000_0000

  // ----- Reading -----

  predicate Continuation(b: Byte) {
    0x80 <= b < 0xC0
  }

  /** The length of the well-formed UTF-8 sequence that `bytes` begins with, 0 if there is none. */
  function Utf8Length(bytes: seq<Byte>): (n: nat)
    ensures n <= |bytes|
  {
    if |bytes| == 0 then 0
    else
      var b := bytes[0];
      if b < 0x80 then 1
      else if 0xC2 <= b < 0xE0 && |bytes| >= 2 && Continuation(bytes[1]) then 2
      else if 0xE0 <= b < 0xF0 && |bytes| >= 3 && Continuation(bytes[1]) && Continuation(bytes[2])
              && (b == 0xE0 ==> bytes[1] >= 0xA0) && (b == 0xED ==> bytes[1] < 0xA0) then 3
      else if 0xF0 <= b < 0xF5 && |bytes| >= 4 && Continuation(bytes[1])
              && Continuation(bytes[2]) && Continuation(bytes[3])
              && (b == 0xF0 ==> bytes[1] >= 0x90) && (b == 0xF4 ==> bytes[1] < 0x90) then 4
      else 0
  }

  function CodePoint(bytes: seq<Byte>): nat
    requires Utf8Length(bytes) > 0
  {
    match Utf8Length(bytes)
    case 1 => bytes[0]
    case 2 => (bytes[0] as int - 0xC0) * 0x40 + (bytes[1] as int - 0x80)
    case 3 => (bytes[0] as int - 0xE0) * 0x1000 + (bytes[1] as int - 0x80) * 0x40 + (bytes[2] as int - 0x80)
    case _ =>
      (bytes[0] as int - 0xF0) * 0x4_0000 + (bytes[1] as int - 0x80) * 0x1000
      + (bytes[2] as int - 0x80) * 0x40 + (bytes[3] as int - 0x80)
  }

  /** `str::from_utf8`, as code points. */
  function Utf8Decode(bytes: seq<Byte>): Option<seq<nat>> {
    if bytes == [] then Some([])
    else
      var n := Utf8Length(bytes);
      if n == 0 then None
      else
        match Utf8Decode(bytes[n..])
        case None => None
        case Some(rest) => Some([CodePoint(bytes)] + rest)
  }

  predicate Whitespace(c: nat) {
    || 9 <= c <= 13 || c == 0x20 || c == 0x85 || c == 0xA0 || c == 0x1680
    || 0x2000 <= c <= 0x200A || c == 0x2028 || c == 0x2029 || c == 0x202F || c == 0x205F || c == 0x3000
  }

  function TrimStart(s: seq<nat>): seq<nat> {
    if s != [] && Whitespace(s[0]) then TrimStart(s[1..]) else s
  }

  function TrimEnd(s: seq<nat>): seq<nat> {
    if s != [] && Whitespace(s[|s| - 1]) then TrimEnd(s[..|s| - 1]) else s
  }

  function BeforeSemicolon(s: seq<nat>): seq<nat> {
    if s == [] || s[0] == SEMICOLON then [] else [s[0]] + BeforeSemicolon(s[1..])
  }

  predicate HexDigit(c: nat) {
    '0' as nat <= c <= '9' as nat || 'a' as nat <= c <= 'f' as nat || 'A' as nat <= c <= 'F' as nat
  }

  function DigitValue(c: nat): nat
    requires HexDigit(c)
  {
    if c <= '9' as nat then c - '0' as nat else if c >= 'a' as nat then c - 'a' as nat + 10 else c - 'A' as nat + 10
  }

  /** Large and small letters have the same value. */
  lemma DigitsExactly(i: nat, c: nat)
    requires i < 16
    ensures HexDigit(c) && DigitValue(c) == i
       <==> c == "0123456789abcdef"[i] as nat || c == "0123456789ABCDEF"[i] as nat
  {
    assert "0123456789abcdef"[i] as nat == if i < 10 then '0' as nat + i else 'a' as nat + i - 10;
    assert "0123456789ABCDEF"[i] as nat == if i < 10 then '0' as nat + i else 'A' as nat + i - 10;
  }

  predicate HexDigits(s: seq<nat>) {
    forall i | 0 <= i < |s| :: HexDigit(s[i])
  }

  function HexValue(s: seq<nat>): nat
    requires HexDigits(s)
  {
    if s == [] then 0 else 16 * HexValue(s[..|s| - 1]) + DigitValue(s[|s| - 1])
  }

  /** `usize::from_str_radix(s, 16)`: a plus sign is allowed, an empty or too large number is not. */
  function ParseHex(s: seq<nat>): Option<nat> {
    var digits := if |s| > 1 && s[0] == '+' as nat then s[1..] else s;
    if digits != [] && HexDigits(digits) && HexValue(digits) < USIZE then Some(HexValue(digits)) else None
  }

  function SizeOfTrimmed(text: seq<nat>): nat {
    if text == [] then 0
    else
      match ParseHex(BeforeSemicolon(text))
      case None => 0
      case Some(size) => size
  }

  /** The size a chunk-size line announces; 0 where the decoder stops. */
  function LineSize(line: seq<Byte>): nat {
    match Utf8Decode(line)
    case None => 0
    case Some(text) => SizeOfTrimmed(TrimEnd(TrimStart(text)))
  }

  predicate Break(b: Byte) {
    b == CR || b == LF
  }

  // ----- Writing -----

  predicate ValidExtension(e: seq<Byte>) {
    && (e != [] ==> e[0] == SEMICOLON)
    && (forall i | 0 <= i < |e| :: !Break(e[i]))
    && Utf8Decode(e).Some?
  }

  function HexChar(d: nat): Byte
    requires d < 16
  {
    if d < 10 then '0' as int + d else 'a' as int + d - 10
  }

  function Hex(n: nat): seq<Byte> {
    if n < 16 then [HexChar(n)] else Hex(n / 16) + [HexChar(n % 16)]
  }

  /** Every size can be written. */
  lemma {:induction false} HexRoundTrip(n: nat)
    ensures Hex(n) != [] && HexDigits(Hex(n)) && HexValue(Hex(n)) == n
  {
    if n >= 16 {
      HexRoundTrip(n / 16);
      assert Hex(n)[..|Hex(n)| - 1] == Hex(n / 16);
    } else {
      assert Hex(n)[..0] == [];
    }
  }

  // ----- Reading what is written -----

  lemma {:induction false} Utf8DecodeStep(s: seq<Byte>, rest: seq<Byte>)
    requires s != [] && s[0] < 0x80 && rest == s[1..] && Utf8Decode(rest).Some?
    ensures Utf8Decode(s) == Some([s[0]] + Utf8Decode(rest).value)
  {
  }

  lemma {:induction false} DecodeAscii(a: seq<Byte>, b: seq<Byte>, all: seq<Byte>)
    requires (forall i | 0 <= i < |a| :: a[i] < 0x80) && Utf8Decode(b).Some? && all == a + b
    ensures Utf8Decode(all) == Some(a + Utf8Decode(b).value)
    decreases |a|
  {
    var text := Utf8Decode(b).value;
    if a == [] {
      assert all == b && a + text == text;
    } else {
      DecodeAscii(a[1..], b, all[1..]);
      Utf8DecodeStep(all, all[1..]);
      assert a + text == [a[0]] + (a[1..] + text);
    }
  }

  lemma {:induction false} TrimEndKeeps(a: seq<nat>, b: seq<nat>)
    requires a != [] && !Whitespace(a[|a| - 1])
    ensures TrimEnd(a + b) == a + TrimEnd(b)
    decreases |b|
  {
    if b == [] {
      assert a + b == a;
    } else if Whitespace(b[|b| - 1]) {
      assert (a + b)[..|a + b| - 1] == a + b[..|b| - 1];
      TrimEndKeeps(a, b[..|b| - 1]);
    }
  }

  lemma {:induction false} CutAtSemicolon(a: seq<nat>, b: seq<nat>)
    requires forall i | 0 <= i < |a| :: a[i] != SEMICOLON
    requires b != [] ==> b[0] == SEMICOLON
    ensures BeforeSemicolon(a + b) == a
  {
    if a != [] {
      CutAtSemicolon(a[1..], b);
      assert (a + b)[1..] == a[1..] + b;
      assert a == [a[0]] + a[1..];
    } else {
      assert a + b == b;
    }
  }

  lemma {:induction false} TrimStartKeeps(s: seq<nat>)
    requires s != [] && !Whitespace(s[0])
    ensures TrimStart(s) == s
  {
  }

  /** Trimming stops at a digit in front and at the semicolon behind. */
  lemma {:induction false} TrimEndOfLine(front: seq<nat>, extension: seq<nat>, text: seq<nat>)
    requires text == front + extension && extension != [] && extension[0] == SEMICOLON
    ensures TrimEnd(text) == front + ([SEMICOLON] + TrimEnd(extension[1..]))
  {
    var kept, cut := front + [SEMICOLON], extension[1..];
    TrimEndKeeps(kept, cut);
    assert text == kept + cut;
    assert kept + TrimEnd(cut) == front + ([SEMICOLON] + TrimEnd(cut));
  }

  lemma {:induction false} TrimmedLine(front: seq<nat>, extension: seq<nat>, text: seq<nat>)
    requires text == front + extension && front != [] && !Whitespace(front[0])
    requires extension != [] && extension[0] == SEMICOLON
    ensures TrimEnd(TrimStart(text)) == front + ([SEMICOLON] + TrimEnd(extension[1..]))
  {
    TrimEndOfLine(front, extension, text);
    TrimStartKeeps(text);
  }

  /** The number that digits are read as; one that does not fit the machine word is unreadable. */
  function Readable(digits: seq<nat>): nat
    requires HexDigits(digits)
  {
    if HexValue(digits) < USIZE then HexValue(digits) else 0
  }

  /** The number is read up to the semicolon, and is unreadable when anything but digits stands there. */
  lemma SizeBeforeSemicolon(front: seq<nat>, tail: seq<nat>)
    requires front != [] && HexDigit(front[0]) && forall i | 0 <= i < |front| :: front[i] != SEMICOLON
    requires tail != [] ==> tail[0] == SEMICOLON
    ensures SizeOfTrimmed(front + tail) == if HexDigits(front) then Readable(front) else 0
  {
    CutAtSemicolon(front, tail);
  }

  lemma {:induction false} SizeOfText(size: seq<nat>, blanks: seq<nat>, extension: seq<nat>, text: seq<nat>)
    requires size != [] && HexDigits(size)
    requires forall i | 0 <= i < |blanks| :: blanks[i] == 0x20 || blanks[i] == 9
    requires extension != [] && extension[0] == SEMICOLON && text == size + blanks + extension
    ensures SizeOfTrimmed(TrimEnd(TrimStart(text))) == if blanks == [] then Readable(size) else 0
  {
    var front := size + blanks;
    TrimmedLine(front, extension, text);
    assert blanks != [] ==> !HexDigit(front[|size|]);
    assert blanks == [] ==> front == size;
    SizeBeforeSemicolon(front, [SEMICOLON] + TrimEnd(extension[1..]));
  }

  /** Blanks between the size and the extension make the number unreadable: the decoder stops there. */
  lemma LineSizeExactly(size: seq<Byte>, blanks: seq<Byte>, extension: seq<Byte>, line: seq<Byte>)
    requires size != [] && HexDigits(size)
    requires forall i | 0 <= i < |blanks| :: blanks[i] == 0x20 || blanks[i] == 9
    requires ValidExtension(extension) && extension != [] && line == size + blanks + extension
    ensures LineSize(line) == if blanks == [] then Readable(size) else 0
  {
    DecodeAscii(size + blanks, extension, line);
    FirstOfText(extension);
    SizeOfText(size, blanks, Utf8Decode(extension).value, Utf8Decode(line).value);
  }

  lemma {:induction false} FirstOfText(s: seq<Byte>)
    requires s != [] && s[0] < 0x80 && Utf8Decode(s).Some?
    ensures Utf8Decode(s).value != [] && Utf8Decode(s).value[0] == s[0]
  {
  }

  lemma {:induction false} SizeAlone(size: seq<nat>)
    requires size != [] && HexDigits(size)
    ensures SizeOfTrimmed(TrimEnd(TrimStart(size))) == Readable(size)
  {
    assert TrimStart(size) == size && TrimEnd(size) == size;
    assert size + [] == size;
    SizeBeforeSemicolon(size, []);
  }

  lemma LineSizeAlone(size: seq<Byte>)
    requires size != [] && HexDigits(size)
    ensures LineSize(size) == Readable(size)
  {
    assert size == size + [];
    DecodeAscii(size, [], size);
    SizeAlone(size);
  }

  /** A plus sign before the size changes nothing. */
  lemma PlusIsSkipped(size: seq<Byte>)
    requires size != [] && HexDigits(size)
    ensures LineSize(['+' as int] + size) == Readable(size)
  {
    var line := ['+' as int] + size;
    assert line == line + [] && line[1..] == size;
    assert HexDigit(line[1]) && line[|line| - 1] == size[|size| - 1];
    DecodeAscii(line, [], line);
    TrimStartKeeps(line);
    assert TrimEnd(line) == line;
    CutAtSemicolon(line, []);
    assert ParseHex(line) == ParseHex(size);
    SizeAlone(size);
  }

  /** A size with its extension, if any, is read as that size. */
  lemma LineSizeOf(size: seq<Byte>, extension: seq<Byte>, line: seq<Byte>)
    requires size != [] && HexDigits(size) && ValidExtension(extension)
    requires line == size + extension
    ensures LineSize(line) == Readable(size)
  {
    if extension == [] {
      assert line == size;
      LineSizeAlone(size);
    } else {
      assert line == size + [] + extension;
      LineSizeExactly(size, [], extension, line);
    }
  }
}
