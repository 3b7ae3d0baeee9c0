/** A reader of JSON texts, written down from sections 2 to 7 of RFC 8259, and what it says of the texts that
    `JSON.stringify` and `serde_json` print. */
module JsonReader {
  import opened Prelude
  import opened JsonText

  /** `Any` reads every JSON text. `Compact` refuses whitespace, and every spelling of a character other than itself if
      it needs no escape, its short form if it has one, and four lower-case hexadecimal digits otherwise. */
  datatype Mode = Any | Compact

  // ----- Whitespace, section 2 -----

  predicate IsSpace(c: char) {
    c in " \t\n\r"
  }

  function Skip(mode: Mode, s: string): (rest: string)
    ensures |rest| <= |s|
  {
    if mode.Any? && s != "" && IsSpace(s[0]) then Skip(mode, s[1..]) else s
  }

  // ----- Strings, section 7 -----

  /** What stands for a character after a backslash. */
  function Short(c: char): Option<char> {
    match c
    case '\"' => Some('\"')
    case '\\' => Some('\\')
    case '/' => Some('/')
    case 'b' => Some(8 as char)
    case 'f' => Some(12 as char)
    case 'n' => Some('\n')
    case 'r' => Some('\r')
    case 't' => Some('\t')
    case _ => None
  }

  function HexDigit(mode: Mode, c: char): (d: Option<nat>)
    ensures d.Some? ==> d.value < 16
  {
    if '0' <= c <= '9' then Some(c as nat - '0' as nat)
    else if 'a' <= c <= 'f' then Some(c as nat - 'a' as nat + 10)
    else if mode.Any? && 'A' <= c <= 'F' then Some(c as nat - 'A' as nat + 10)
    else None
  }

  /** The number written by four hexadecimal digits from `i` on. */
  function FourDigits(mode: Mode, s: string, i: nat): (n: Option<nat>)
    ensures n.Some? ==> n.value < 0x1_0000 && i + 4 <= |s|
  {
    if i + 4 > |s| then None
    else
      match (HexDigit(mode, s[i]), HexDigit(mode, s[i + 1]), HexDigit(mode, s[i + 2]), HexDigit(mode, s[i + 3]))
      case (Some(a), Some(b), Some(c), Some(d)) => Some(((a * 16 + b) * 16 + c) * 16 + d)
      case _ => None
  }

  /** A character that the compact form writes with digits. */
  predicate NeedsDigits(n: nat) {
    n < 32 && n !in {8, 9, 10, 12, 13}
  }

  function ReadDigits(mode: Mode, s: string): (r: Option<(char, string)>)
    ensures r.Some? ==> |r.value.1| < |s|
  {
    match FourDigits(mode, s, 2)
    case None => None
    case Some(n) =>
      if mode.Compact? then
        if NeedsDigits(n) then Some((n as char, s[6..])) else None
      else if n < 0xD800 || n >= 0xE000 then Some((n as char, s[6..]))
      else
        match FourDigits(mode, s, 8)
        case None => None
        case Some(m) =>
          // A character beyond the first plane, as a pair of surrogates.
          if n < 0xDC00 <= m < 0xE000 && s[6] == '\\' && s[7] == 'u'
          then Some(((0x1_0000 + (n - 0xD800) * 0x400 + (m - 0xDC00)) as char, s[12..])) else None
  }

  /** One character of a string. */
  function ReadChar(mode: Mode, s: string): (r: Option<(char, string)>)
    requires s != ""
    ensures r.Some? ==> |r.value.1| < |s|
  {
    if s[0] != '\\' then
      if s[0] >= ' ' && s[0] != '\"' then Some((s[0], s[1..])) else None
    else if |s| < 2 then None
    else if s[1] == 'u' then ReadDigits(mode, s)
    else
      match Short(s[1])
      case None => None
      case Some(c) => if mode.Compact? && c == '/' then None else Some((c, s[2..]))
  }

  /** The characters of a string up to its closing quote. */
  function ReadChars(mode: Mode, s: string): (r: Option<(string, string)>)
    ensures r.Some? ==> |r.value.1| < |s|
    decreases |s|
  {
    if s == "" then None
    else if s[0] == '\"' then Some(("", s[1..]))
    else
      match ReadChar(mode, s)
      case None => None
      case Some((c, rest)) =>
        match ReadChars(mode, rest)
        case None => None
        case Some((text, after)) => Some(([c] + text, after))
  }

  // ----- Values, sections 3 to 6 -----

  function TokenLength(s: string): (n: nat)
    ensures n <= |s|
    ensures forall i | 0 <= i < n :: TokenChar(s[i])
    ensures n < |s| ==> !TokenChar(s[n])
  {
    if s == "" || !TokenChar(s[0]) then 0 else 1 + TokenLength(s[1..])
  }

  function ReadWord(word: string, v: Json, s: string): (r: Option<(Json, string)>)
    ensures r.Some? ==> |s| - |word| == |r.value.1|
  {
    if |word| <= |s| && s[..|word|] == word then Some((v, s[|word|..])) else None
  }

  function ReadNumber(s: string): (r: Option<(Json, string)>)
    ensures r.Some? ==> |r.value.1| < |s|
  {
    var n := TokenLength(s);
    if Token(s[..n]) then Some((Number(s[..n]), s[n..])) else None
  }

  function ReadValue(mode: Mode, s: string): (r: Option<(Json, string)>)
    ensures r.Some? ==> |r.value.1| < |s|
    decreases |s|, 1
  {
    var t := Skip(mode, s);
    if t == "" then None
    else
      match t[0]
      case 'n' => ReadWord("null", Null, t)
      case 't' => ReadWord("true", Bool(true), t)
      case 'f' => ReadWord("false", Bool(false), t)
      case '"' =>
        (match ReadChars(mode, t[1..])
         case None => None
         case Some((text, rest)) => Some((String(text), rest)))
      case '[' => ReadArray(mode, t[1..])
      case '{' => ReadObject(mode, t[1..])
      case _ => ReadNumber(t)
  }

  /** What follows the opening bracket. */
  function ReadArray(mode: Mode, s: string): (r: Option<(Json, string)>)
    ensures r.Some? ==> |r.value.1| < |s|
    decreases |s|, 3
  {
    var t := Skip(mode, s);
    if t != "" && t[0] == ']' then Some((Array([]), t[1..]))
    else
      match ReadItems(mode, s)
      case None => None
      case Some((items, rest)) => Some((Array(items), rest))
  }

  /** What follows the opening brace. */
  function ReadObject(mode: Mode, s: string): (r: Option<(Json, string)>)
    ensures r.Some? ==> |r.value.1| < |s|
    decreases |s|, 3
  {
    var t := Skip(mode, s);
    if t != "" && t[0] == '}' then Some((Object([]), t[1..]))
    else
      match ReadFields(mode, s)
      case None => None
      case Some((entries, rest)) => Some((Object(entries), rest))
  }

  /** One item or more, up to the closing bracket. */
  function ReadItems(mode: Mode, s: string): (r: Option<(seq<Json>, string)>)
    ensures r.Some? ==> |r.value.1| < |s|
    decreases |s|, 2
  {
    match ReadValue(mode, s)
    case None => None
    case Some((v, rest)) =>
      var t := Skip(mode, rest);
      if t == "" then None
      else if t[0] == ']' then Some(([v], t[1..]))
      else if t[0] != ',' then None
      else
        match ReadItems(mode, t[1..])
        case None => None
        case Some((items, after)) => Some(([v] + items, after))
  }

  function ReadField(mode: Mode, s: string): (r: Option<(Entry, string)>)
    ensures r.Some? ==> |r.value.1| < |s|
    decreases |s|, 1
  {
    var t := Skip(mode, s);
    if t == "" || t[0] != '\"' then None
    else
      match ReadChars(mode, t[1..])
      case None => None
      case Some((key, rest)) =>
        var u := Skip(mode, rest);
        if u == "" || u[0] != ':' then None
        else
          match ReadValue(mode, u[1..])
          case None => None
          case Some((v, after)) => Some((Entry(key, v), after))
  }

  /** One field or more, up to the closing brace. */
  function ReadFields(mode: Mode, s: string): (r: Option<(seq<Entry>, string)>)
    ensures r.Some? ==> |r.value.1| < |s|
    decreases |s|, 2
  {
    match ReadField(mode, s)
    case None => None
    case Some((e, rest)) =>
      var t := Skip(mode, rest);
      if t == "" then None
      else if t[0] == '}' then Some(([e], t[1..]))
      else if t[0] != ',' then None
      else
        match ReadFields(mode, t[1..])
        case None => None
        case Some((entries, after)) => Some(([e] + entries, after))
  }

  // ----- Every print is read back, in both modes -----

  /** No number token goes on into `rest`. */
  predicate Ends(rest: string) {
    rest != "" ==> !TokenChar(rest[0])
  }

  lemma EscapeIsRead(mode: Mode, c: char, rest: string, s: string)
    requires s == Escape(c) + rest
    ensures s != "" && s[0] != '"' && ReadChar(mode, s) == Some((c, rest))
  {
    var e := Escape(c);
    assert |s| == |e| + |rest| && forall i | 0 <= i < |e| :: s[i] == e[i];
    assert rest == s[|e|..];
  }

  lemma {:induction false} QuotedIsRead(mode: Mode, x: string, rest: string, s: string)
    requires s == Quoted(x) + rest
    ensures ReadChars(mode, s) == Some((x, rest))
  {
    if x == "" {
      assert s[0] == '"' && s[1..] == rest;
    } else {
      var tail := Quoted(x[1..]) + rest;
      assert s == Escape(x[0]) + tail;
      EscapeIsRead(mode, x[0], tail, s);
      QuotedIsRead(mode, x[1..], rest, tail);
      assert x == [x[0]] + x[1..];
    }
  }

  lemma {:induction false} TokenIsRead(x: string, rest: string, s: string)
    requires Token(x) && Ends(rest) && s == x + rest
    ensures TokenLength(s) == |x| && s[..|x|] == x && s[|x|..] == rest
  {
    var n := TokenLength(s);
    assert forall i | 0 <= i < |x| :: s[i] == x[i];
    assert |x| < |s| ==> s[|x|] == rest[0];
  }

  /** What the first character of a print can be. */
  lemma {:induction false} PrintBegins(v: Json, rest: string, s: string)
    requires WellFormed(v) && s == Print(v) + rest
    ensures s != "" && !IsSpace(s[0]) && s[0] !in ",:]}"
    ensures s[0] == match v
                    case Null => 'n'
                    case Bool(b) => if b then 't' else 'f'
                    case String(_) => '"'
                    case Array(_) => '['
                    case Object(_) => '{'
                    case Number(token) => token[0]
  {
    var p := Print(v);
    assert p != "" && s[0] == p[0];
  }

  /** The first character decides how a value is read. */
  lemma {:induction false} FirstDecides(mode: Mode, s: string)
    requires s != "" && !IsSpace(s[0])
    ensures Skip(mode, s) == s
    ensures s[0] == '[' ==> ReadValue(mode, s) == ReadArray(mode, s[1..])
    ensures s[0] == '{' ==> ReadValue(mode, s) == ReadObject(mode, s[1..])
    ensures s[0] == 'n' ==> ReadValue(mode, s) == ReadWord("null", Null, s)
    ensures s[0] == 't' ==> ReadValue(mode, s) == ReadWord("true", Bool(true), s)
    ensures s[0] == 'f' ==> ReadValue(mode, s) == ReadWord("false", Bool(false), s)
    ensures TokenChar(s[0]) ==> ReadValue(mode, s) == ReadNumber(s)
  {
  }

  lemma {:induction false} TextIsRead(mode: Mode, text: string, rest: string, s: string)
    requires s == Quote(text) + rest
    ensures ReadValue(mode, s) == Some((String(text), rest))
  {
    assert s[0] == '\"' && s[1..] == Quoted(text) + rest;
    QuotedIsRead(mode, text, rest, s[1..]);
    assert Skip(mode, s) == s;
  }

  lemma {:induction false} NumberIsRead(token: string, rest: string, s: string)
    requires Token(token) && Ends(rest) && s == token + rest
    ensures s != "" && TokenChar(s[0]) && ReadNumber(s) == Some((Number(token), rest))
  {
    TokenIsRead(token, rest, s);
    assert TokenChar(token[0]) && s[0] == token[0];
  }

  /** Every print is read back as its value, whatever follows it that does not go on a number. */
  lemma {:induction false} PrintIsRead(mode: Mode, v: Json, rest: string, s: string)
    requires WellFormed(v) && Ends(rest) && s == Print(v) + rest
    ensures ReadValue(mode, s) == Some((v, rest))
    decreases v, 2
  {
    PrintBegins(v, rest, s);
    FirstDecides(mode, s);
    match v
    case Null => WordIsRead("null", v, rest, s);
    case Bool(b) => WordIsRead(if b then "true" else "false", v, rest, s);
    case Number(token) => NumberIsRead(token, rest, s);
    case String(text) => TextIsRead(mode, text, rest, s);
    case Array(items) => ArrayIsRead(mode, items, rest, s);
    case Object(entries) => ObjectIsRead(mode, entries, rest, s);
  }

  lemma {:induction false} ArrayIsRead(mode: Mode, items: seq<Json>, rest: string, s: string)
    requires WellFormed(Array(items)) && s == Print(Array(items)) + rest
    ensures s != "" && ReadArray(mode, s[1..]) == Some((Array(items), rest))
    decreases items, 1
  {
    if items == [] {
      assert s[1..] == "]" + rest && s[1..][1..] == rest;
    } else {
      var tail := Parts('[', Print(items[0]), PrintItems(items[1..]), rest, s);
      ItemsAreRead(mode, items, rest, PrintItems(items[1..]) + rest, tail);
      PrintBegins(items[0], PrintItems(items[1..]) + rest, tail);
    }
  }

  lemma {:induction false} ObjectIsRead(mode: Mode, entries: seq<Entry>, rest: string, s: string)
    requires (forall i | 0 <= i < |entries| :: WellFormed(entries[i].value)) && s == Print(Object(entries)) + rest
    ensures s != "" && ReadObject(mode, s[1..]) == Some((Object(entries), rest))
    decreases entries, 1
  {
    if entries == [] {
      assert s[1..] == "}" + rest && s[1..][1..] == rest;
    } else {
      var tail := Parts('{', PrintField(entries[0]), PrintFields(entries[1..]), rest, s);
      FieldsAreRead(mode, entries, rest, PrintFields(entries[1..]) + rest, tail);
      FieldBegins(entries[0], PrintFields(entries[1..]) + rest, tail);
    }
  }

  lemma {:induction false} FieldBegins(e: Entry, rest: string, s: string)
    requires s == PrintField(e) + rest
    ensures s != "" && s[0] == '\"'
    ensures s[1..] == Quoted(e.key) + (":" + (Print(e.value) + rest))
  {
    FieldTail(Quoted(e.key), Print(e.value), rest, s);
  }

  lemma FieldTail(key: string, value: string, rest: string, s: string)
    requires s == "\"" + key + ":" + value + rest
    ensures s != "" && s[0] == '\"' && s[1..] == key + (":" + (value + rest))
  {
  }

  lemma WordIsRead(word: string, v: Json, rest: string, s: string)
    requires s == word + rest
    ensures ReadWord(word, v, s) == Some((v, rest))
  {
    assert s[..|word|] == word && s[|word|..] == rest;
  }

  lemma Parts(first: char, middle: string, last: string, rest: string, s: string) returns (tail: string)
    requires s == [first] + middle + last + rest
    ensures s != "" && s[0] == first && tail == s[1..] == middle + (last + rest)
  {
    tail := s[1..];
  }

  /** What follows an item: the end of the array, or the next item. */
  lemma {:induction false} ItemsTail(v: seq<Json>, rest: string, after: string) returns (later: string)
    requires v != [] && after == PrintItems(v[1..]) + rest
    ensures after != "" && after[0] == (if |v| == 1 then ']' else ',')
    ensures if |v| == 1 then after[1..] == rest
            else later == PrintItems(v[1..][1..]) + rest && after[1..] == Print(v[1]) + later
  {
    later := "";
    if |v| > 1 {
      later := PrintItems(v[1..][1..]) + rest;
      var tail := Parts(',', Print(v[1]), PrintItems(v[1..][1..]), rest, after);
    }
  }

  lemma {:induction false} ItemsAreRead(mode: Mode, v: seq<Json>, rest: string, after: string, s: string)
    requires (forall i | 0 <= i < |v| :: WellFormed(v[i])) && v != []
    requires s == Print(v[0]) + after && after == PrintItems(v[1..]) + rest
    ensures ReadItems(mode, s) == Some((v, rest))
    decreases v, 0
  {
    var later := ItemsTail(v, rest, after);
    PrintIsRead(mode, v[0], after, s);
    if |v| == 1 {
      LastItem(mode, v, after, s);
    } else {
      ItemsAreRead(mode, v[1..], rest, later, after[1..]);
      MoreItems(mode, v, rest, after, s);
    }
  }

  lemma {:induction false} LastItem(mode: Mode, v: seq<Json>, after: string, s: string)
    requires |v| == 1 && ReadValue(mode, s) == Some((v[0], after)) && after != "" && after[0] == ']'
    ensures ReadItems(mode, s) == Some((v, after[1..]))
  {
    assert Skip(mode, after) == after && v == [v[0]];
  }

  lemma {:induction false} MoreItems(mode: Mode, v: seq<Json>, rest: string, after: string, s: string)
    requires |v| > 1 && ReadValue(mode, s) == Some((v[0], after)) && after != "" && after[0] == ','
    requires ReadItems(mode, after[1..]) == Some((v[1..], rest))
    ensures ReadItems(mode, s) == Some((v, rest))
  {
    assert Skip(mode, after) == after && v == [v[0]] + v[1..];
  }

  lemma {:induction false} FieldIsRead(mode: Mode, e: Entry, rest: string, s: string)
    requires WellFormed(e.value) && Ends(rest) && s == PrintField(e) + rest
    ensures ReadField(mode, s) == Some((e, rest))
    decreases e, 3
  {
    var value := Print(e.value) + rest;
    FieldBegins(e, rest, s);
    KeyIsRead(mode, e.key, value, s);
    PrintIsRead(mode, e.value, rest, value);
  }

  lemma {:induction false} KeyIsRead(mode: Mode, key: string, value: string, s: string)
    requires s != "" && s[0] == '"' && s[1..] == Quoted(key) + (":" + value)
    ensures Skip(mode, s) == s && ReadChars(mode, s[1..]) == Some((key, ":" + value))
    ensures Skip(mode, ":" + value) == ":" + value && (":" + value)[1..] == value
  {
    QuotedIsRead(mode, key, ":" + value, s[1..]);
  }

  lemma {:induction false} FieldsTail(v: seq<Entry>, rest: string, after: string) returns (later: string)
    requires v != [] && after == PrintFields(v[1..]) + rest
    ensures after != "" && after[0] == (if |v| == 1 then '}' else ',')
    ensures if |v| == 1 then after[1..] == rest
            else later == PrintFields(v[1..][1..]) + rest && after[1..] == PrintField(v[1]) + later
  {
    later := "";
    if |v| > 1 {
      later := PrintFields(v[1..][1..]) + rest;
      var tail := Parts(',', PrintField(v[1]), PrintFields(v[1..][1..]), rest, after);
    }
  }

  lemma {:induction false} FieldsAreRead(mode: Mode, v: seq<Entry>, rest: string, after: string, s: string)
    requires (forall i | 0 <= i < |v| :: WellFormed(v[i].value)) && v != []
    requires s == PrintField(v[0]) + after && after == PrintFields(v[1..]) + rest
    ensures ReadFields(mode, s) == Some((v, rest))
    decreases v, 0
  {
    var later := FieldsTail(v, rest, after);
    FieldIsRead(mode, v[0], after, s);
    if |v| == 1 {
      LastField(mode, v, after, s);
    } else {
      FieldsAreRead(mode, v[1..], rest, later, after[1..]);
      MoreFields(mode, v, rest, after, s);
    }
  }

  lemma {:induction false} LastField(mode: Mode, v: seq<Entry>, after: string, s: string)
    requires |v| == 1 && ReadField(mode, s) == Some((v[0], after)) && after != "" && after[0] == '}'
    ensures ReadFields(mode, s) == Some((v, after[1..]))
  {
    assert Skip(mode, after) == after && v == [v[0]];
  }

  lemma {:induction false} MoreFields(mode: Mode, v: seq<Entry>, rest: string, after: string, s: string)
    requires |v| > 1 && ReadField(mode, s) == Some((v[0], after)) && after != "" && after[0] == ','
    requires ReadFields(mode, after[1..]) == Some((v[1..], rest))
    ensures ReadFields(mode, s) == Some((v, rest))
  {
    assert Skip(mode, after) == after && v == [v[0]] + v[1..];
  }

  // ----- Every compact text is the print of what is read -----

  lemma DigitsAreEscape(s: string)
    requires ReadDigits(Compact, s).Some? && |s| >= 2 && s[0] == '\\' && s[1] == 'u'
    ensures var r := ReadDigits(Compact, s).value; s == Escape(r.0) + r.1
  {
    var r := ReadDigits(Compact, s).value;
    var n := r.0 as nat;
    assert HexDigit(Compact, s[2]) == HexDigit(Compact, s[3]) == Some(0);
    assert s[2] == '0' && s[3] == '0';
    assert HexDigit(Compact, s[4]) == Some(n / 16) && HexDigit(Compact, s[5]) == Some(n % 16);
    assert s[4] == HexLetter(n / 16) && s[5] == HexLetter(n % 16);
    assert s == s[..6] + s[6..] && s[..6] == [s[0], s[1], s[2], s[3], s[4], s[5]];
    assert s[..6] == Escape(r.0);
  }

  lemma CharIsEscape(s: string)
    requires s != "" && s[0] != '\"' && ReadChar(Compact, s).Some?
    ensures var r := ReadChar(Compact, s).value; s == Escape(r.0) + r.1
  {
    var r := ReadChar(Compact, s).value;
    if s[0] != '\\' {
      assert s == [s[0]] + s[1..];
    } else if s[1] == 'u' {
      DigitsAreEscape(s);
    } else {
      assert s == s[..2] + s[2..] && s[..2] == [s[0], s[1]];
      assert s[..2] == Escape(r.0);
    }
  }

  lemma {:induction false} CharsAreQuoted(s: string)
    requires ReadChars(Compact, s).Some?
    ensures var r := ReadChars(Compact, s).value; s == Quoted(r.0) + r.1
    decreases |s|
  {
    if s[0] == '\"' {
      assert s == "\"" + s[1..];
    } else {
      var first := ReadChar(Compact, s).value;
      CharIsEscape(s);
      CharsAreQuoted(first.1);
      var more := ReadChars(Compact, first.1).value;
      QuotedGrows(first.0, more.0, more.1, first.1, s);
    }
  }

  lemma {:induction false} QuotedGrows(c: char, text: string, rest: string, middle: string, s: string)
    requires s == Escape(c) + middle && middle == Quoted(text) + rest
    ensures s == Quoted([c] + text) + rest
  {
    assert ([c] + text)[1..] == text;
  }

  lemma Glue(first: char, a: string, b: string, middle: string, s: string)
    requires s != "" && s[0] == first && s[1..] == middle && middle == a + b
    ensures s == [first] + a + b
  {
  }

  /** In the compact mode a value is read only from its own print. */
  lemma {:induction false} CompactIsPrint(s: string)
    requires ReadValue(Compact, s).Some?
    ensures var r := ReadValue(Compact, s).value; s == Print(r.0) + r.1
    decreases |s|, 1
  {
    var r := ReadValue(Compact, s).value;
    match s[0]
    case '\"' =>
      CharsAreQuoted(s[1..]);
      Glue('\"', Quoted(r.0.text), r.1, s[1..], s);
    case '[' => ArrayIsPrint(s[1..], s);
    case '{' => ObjectIsPrint(s[1..], s);
    case 'n' => WordIsPrint("null", Null, s);
    case 't' => WordIsPrint("true", Bool(true), s);
    case 'f' => WordIsPrint("false", Bool(false), s);
    case _ => NumberIsPrint(s);
  }

  lemma WordIsPrint(word: string, v: Json, s: string)
    requires ReadWord(word, v, s).Some?
    ensures s == word + ReadWord(word, v, s).value.1
  {
  }

  lemma NumberIsPrint(s: string)
    requires ReadNumber(s).Some?
    ensures var r := ReadNumber(s).value; s == Print(r.0) + r.1
  {
  }

  lemma {:induction false} ArrayIsPrint(tail: string, s: string)
    requires s != "" && s[0] == '[' && tail == s[1..] && ReadArray(Compact, tail).Some?
    ensures var r := ReadArray(Compact, tail).value; s == Print(r.0) + r.1
    decreases |tail|, 3
  {
    var r := ReadArray(Compact, tail).value;
    if tail != "" && tail[0] == ']' {
      assert s == "[]" + tail[1..];
    } else {
      var items := ReadItems(Compact, tail).value.0;
      ItemsArePrinted(tail);
      Glue('[', Print(items[0]), PrintItems(items[1..]) + r.1, tail, s);
      Regroup("[" + Print(items[0]), PrintItems(items[1..]), r.1);
    }
  }

  lemma {:induction false} ObjectIsPrint(tail: string, s: string)
    requires s != "" && s[0] == '{' && tail == s[1..] && ReadObject(Compact, tail).Some?
    ensures var r := ReadObject(Compact, tail).value; s == Print(r.0) + r.1
    decreases |tail|, 3
  {
    var r := ReadObject(Compact, tail).value;
    if tail != "" && tail[0] == '}' {
      assert s == "{}" + tail[1..];
    } else {
      var entries := ReadFields(Compact, tail).value.0;
      FieldsArePrinted(tail);
      Glue('{', PrintField(entries[0]), PrintFields(entries[1..]) + r.1, tail, s);
      Regroup("{" + PrintField(entries[0]), PrintFields(entries[1..]), r.1);
    }
  }

  lemma {:induction false} ItemsArePrinted(s: string)
    requires ReadItems(Compact, s).Some?
    ensures var r := ReadItems(Compact, s).value;
            r.0 != [] && s == Print(r.0[0]) + (PrintItems(r.0[1..]) + r.1)
    decreases |s|, 2
  {
    var (v, rest) := ReadValue(Compact, s).value;
    CompactIsPrint(s);
    var r := ReadItems(Compact, s).value;
    assert r.0[0] == v;
    if rest[0] == ']' {
      assert r.0[1..] == [] && rest == "]" + r.1;
    } else {
      var items := ReadItems(Compact, rest[1..]).value.0;
      ItemsArePrinted(rest[1..]);
      assert r.0[1..] == items;
      Glue(',', Print(items[0]), PrintItems(items[1..]) + r.1, rest[1..], rest);
      Regroup("," + Print(items[0]), PrintItems(items[1..]), r.1);
    }
  }

  lemma {:induction false} FieldIsPrint(s: string)
    requires ReadField(Compact, s).Some?
    ensures var r := ReadField(Compact, s).value; s == PrintField(r.0) + r.1
    decreases |s|, 1
  {
    var (key, rest) := ReadChars(Compact, s[1..]).value;
    CharsAreQuoted(s[1..]);
    var (v, after) := ReadValue(Compact, rest[1..]).value;
    CompactIsPrint(rest[1..]);
    FieldGrows(key, v, after, rest[1..], rest, s);
  }

  lemma {:induction false} FieldGrows(key: string, v: Json, after: string, value: string, rest: string, s: string)
    requires s != "" && s[0] == '\"' && s[1..] == Quoted(key) + rest
    requires rest != "" && rest[0] == ':' && rest[1..] == value && value == Print(v) + after
    ensures s == PrintField(Entry(key, v)) + after
  {
    FieldText(Quoted(key), Print(v), after, rest, s);
  }

  lemma FieldText(key: string, value: string, after: string, rest: string, s: string)
    requires s != "" && s[0] == '\"' && s[1..] == key + rest
    requires rest != "" && rest[0] == ':' && rest[1..] == value + after
    ensures s == "\"" + key + ":" + value + after
  {
    assert rest == ":" + (value + after);
    assert s == "\"" + (key + rest);
  }

  lemma {:induction false} FieldsArePrinted(s: string)
    requires ReadFields(Compact, s).Some?
    ensures var r := ReadFields(Compact, s).value;
            r.0 != [] && s == PrintField(r.0[0]) + (PrintFields(r.0[1..]) + r.1)
    decreases |s|, 2
  {
    var (e, rest) := ReadField(Compact, s).value;
    FieldIsPrint(s);
    var r := ReadFields(Compact, s).value;
    assert r.0[0] == e;
    if rest[0] == '}' {
      assert r.0[1..] == [] && rest == "}" + r.1;
    } else {
      var entries := ReadFields(Compact, rest[1..]).value.0;
      FieldsArePrinted(rest[1..]);
      assert r.0[1..] == entries;
      Glue(',', PrintField(entries[0]), PrintFields(entries[1..]) + r.1, rest[1..], rest);
      Regroup("," + PrintField(entries[0]), PrintFields(entries[1..]), r.1);
    }
  }

  // ----- What a print is -----

  /** The print of a value is the one compact text that is read as the value. */
  lemma {:induction false} PrintIsTheCompactText(v: Json, s: string)
    requires WellFormed(v)
    ensures s == Print(v) <==> ReadValue(Compact, s) == Some((v, ""))
  {
    assert Print(v) + "" == Print(v);
    PrintIsRead(Compact, v, "", Print(v));
    if ReadValue(Compact, s) == Some((v, "")) {
      CompactIsPrint(s);
    }
  }

  /** A value is determined by a text that begins with it. */
  lemma {:induction false} PrintIsUnique(v: Json, w: Json, rv: string, rw: string, s: string)
    requires WellFormed(v) && WellFormed(w) && Ends(rv) && Ends(rw)
    requires s == Print(v) + rv && s == Print(w) + rw
    ensures v == w && rv == rw
  {
    PrintIsRead(Any, v, rv, s);
    PrintIsRead(Any, w, rw, s);
  }

  /** Different values have different texts. */
  lemma {:induction false} PrintIsInjective(v: Json, w: Json)
    requires WellFormed(v) && WellFormed(w)
    ensures Print(v) == Print(w) <==> v == w
  {
    PrintIsTheCompactText(v, Print(v));
    PrintIsTheCompactText(w, Print(v));
  }

  // ----- The text of a string, character by character -----

  predicate Plain(text: string) {
    forall i | 0 <= i < |text| :: text[i] >= ' ' && text[i] !in "\"\\"
  }

  /** A string without quotes, backslashes and control characters is printed as itself between quotes. */
  lemma {:induction false} PlainTextIsPrintedAsItself(text: string)
    requires Plain(text)
    ensures Print(String(text)) == "\"" + text + "\""
  {
    if text != "" {
      PlainTextIsPrintedAsItself(text[1..]);
      assert Print(String(text[1..])) == "\"" + (text[1..] + "\"");
      Stretch(text, text[1..] + "\"", Print(String(text[1..])));
    }
  }

  lemma Stretch(text: string, end: string, tail: string)
    requires Plain(text) && text != "" && tail == Print(String(text[1..])) == "\"" + end && end == text[1..] + "\""
    ensures Print(String(text)) == "\"" + text + "\""
  {
    assert Quoted(text[1..]) == tail[1..] == end;
    assert text == [text[0]] + text[1..];
  }

  lemma {:induction false} QuotedConcat(a: string, b: string, both: string)
    requires both == a + b
    ensures |Quoted(a)| >= 1 && Quoted(both) == Quoted(a)[..|Quoted(a)| - 1] + Quoted(b)
  {
    if a == "" {
      assert both == b;
    } else {
      assert both[0] == a[0] && both[1..] == a[1..] + b;
      QuotedConcat(a[1..], b, both[1..]);
      BeforeEnd(Escape(a[0]), Quoted(a[1..]), Quoted(b), Quoted(a), Quoted(both[1..]), Quoted(both));
    }
  }

  lemma BeforeEnd(first: string, tail: string, end: string, all: string, inner: string, joined: string)
    requires tail != "" && all == first + tail && inner == tail[..|tail| - 1] + end && joined == first + inner
    ensures all != "" && joined == all[..|all| - 1] + end
  {
    assert all[..|all| - 1] == first + tail[..|tail| - 1];
  }

  /** Strings are printed character by character. */
  lemma StringsAreConcatenated(a: string, b: string)
    ensures var p, q := Print(String(a)), Print(String(b));
            && |p| >= 2 && |q| >= 2
            && Print(String(a + b)) == p[..|p| - 1] + q[1..]
  {
    QuotedConcat(a, b, a + b);
    QuotedConcat(b, "", b + "");
    BeforeEnd("\"", Quoted(a), Quoted(b), Quote(a), Quoted(a + b), Quote(a + b));
    assert Quote(b)[1..] == Quoted(b);
  }

  lemma OneCharacter(c: char, text: string)
    requires text == [c]
    ensures Print(String(text)) == "\"" + (Escape(c) + "\"")
  {
    assert text[0] == c && text[1..] == "";
    assert Quoted(text[1..]) == "\"";
  }

  /** The seven characters that have a short form. */
  lemma ShortForms()
    ensures Print(String("\"")) == "\"\\\"\"" && Print(String("\\")) == "\"\\\\\""
    ensures Print(String("\n")) == "\"\\n\"" && Print(String("\r")) == "\"\\r\"" && Print(String("\t")) == "\"\\t\""
    ensures Print(String([8 as char])) == "\"\\b\"" && Print(String([12 as char])) == "\"\\f\""
  {
    OneCharacter('\"', "\"");
    OneCharacter('\\', "\\");
    OneCharacter('\n', "\n");
    OneCharacter('\r', "\r");
    OneCharacter('\t', "\t");
    OneCharacter(8 as char, [8 as char]);
    OneCharacter(12 as char, [12 as char]);
  }

  /** Every other control character is printed as four lower-case hexadecimal digits of its number. */
  lemma OtherControls(i: nat, j: nat)
    requires i < 2 && j < 16 && 16 * i + j !in {8, 9, 10, 12, 13}
    ensures Print(String([(16 * i + j) as char])) == "\"\\u00" + ["0123456789abcdef"[i], "0123456789abcdef"[j]] + "\""
  {
    var c := (16 * i + j) as char;
    OneCharacter(c, [c]);
    assert c as int / 16 == i && c as int % 16 == j;
    assert HexLetter(i) == "0123456789abcdef"[i] && HexLetter(j) == "0123456789abcdef"[j];
    assert Escape(c) == "\\u00" + [HexLetter(i), HexLetter(j)];
  }
}
