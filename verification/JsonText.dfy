/** JSON values and the compact text that `JSON.stringify` and `serde_json` print for them, sections 4 to 7 of
    RFC 8259. */
module JsonText {
  import opened Prelude

  /** A number is known by the token printed for it. */
  datatype Json =
    | Null
    | Bool(b: bool)
    | Number(token: string)
    | String(text: string)
    | Array(items: seq<Json>)
    | Object(entries: seq<Entry>)

  datatype Entry = Entry(key: string, value: Json)

  function Find(entries: seq<Entry>, key: string): (found: Option<Json>)
    ensures found.Some? ==> exists i | 0 <= i < |entries| :: entries[i].key == key && entries[i].value == found.value
  {
    if entries == [] then None
    else if entries[0].key == key then Some(entries[0].value)
    else
      assert forall i | 0 <= i < |entries[1..]| :: entries[1..][i] == entries[i + 1];
      Find(entries[1..], key)
  }

  predicate Distinct(entries: seq<Entry>) {
    entries != [] ==> Find(entries[1..], entries[0].key) == None && Distinct(entries[1..])
  }

  predicate TokenChar(c: char) {
    '0' <= c <= '9' || c == '+' || c == '-' || c == '.' || c == 'e' || c == 'E'
  }

  /** From `i` on a run of digits, to before the index returned. */
  function DigitsEnd(t: string, i: nat): (end: nat)
    requires i <= |t|
    ensures i <= end <= |t|
    decreases |t| - i
  {
    if i < |t| && '0' <= t[i] <= '9' then DigitsEnd(t, i + 1) else i
  }

  /** Section 6 of RFC 8259: a minus sign, an integer without leading zeros, a fraction and an exponent, all but the
      integer optional. */
  predicate Token(t: string) {
    var whole := if t != "" && t[0] == '-' then 1 else 0;
    var wholeEnd := DigitsEnd(t, whole);
    var frac := if wholeEnd < |t| && t[wholeEnd] == '.' then wholeEnd + 1 else wholeEnd;
    var fracEnd := if frac > wholeEnd then DigitsEnd(t, frac) else wholeEnd;
    var exp := if fracEnd < |t| && t[fracEnd] in "eE" then fracEnd + 1 else fracEnd;
    var power := if fracEnd < exp < |t| && t[exp] in "+-" then exp + 1 else exp;
    && (wholeEnd == whole + 1 || (wholeEnd > whole && t[whole] != '0'))
    && (frac > wholeEnd ==> fracEnd > frac)
    && (if exp > fracEnd then DigitsEnd(t, power) > power && DigitsEnd(t, power) == |t| else fracEnd == |t|)
    && forall i | 0 <= i < |t| :: TokenChar(t[i])
  }

  /** What both JSON libraries hold: numbers with a token, objects with distinct keys. */
  predicate WellFormed(v: Json) {
    match v
    case Number(token) => Token(token)
    case Array(items) => forall i | 0 <= i < |items| :: WellFormed(items[i])
    case Object(entries) => Distinct(entries) && forall i | 0 <= i < |entries| :: WellFormed(entries[i].value)
    case _ => true
  }

  // ----- Printing -----

  function HexLetter(d: nat): char
    requires d < 16
  {
    if d < 10 then '0' + d as char else 'a' + (d - 10) as char
  }

  function Escape(c: char): string {
    if c == '\"' then "\\\""
    else if c == '\\' then "\\\\"
    else if c == 8 as char then "\\b"
    else if c == 12 as char then "\\f"
    else if c == '\n' then "\\n"
    else if c == '\r' then "\\r"
    else if c == '\t' then "\\t"
    else if c < ' ' then "\\u00" + [HexLetter(c as int / 16), HexLetter(c as int % 16)]
    else [c]
  }

  /** The characters of a string literal and its closing quote. */
  function Quoted(s: string): string {
    if s == "" then "\"" else Escape(s[0]) + Quoted(s[1..])
  }

  function Quote(s: string): string {
    "\"" + Quoted(s)
  }

  function Print(v: Json): string
    decreases v
  {
    match v
    case Null => "null"
    case Bool(b) => if b then "true" else "false"
    case Number(token) => token
    case String(text) => Quote(text)
    case Array(items) => if items == [] then "[]" else "[" + Print(items[0]) + PrintItems(items[1..])
    case Object(entries) => if entries == [] then "{}" else "{" + PrintField(entries[0]) + PrintFields(entries[1..])
  }

  /** The items after the first, and the closing bracket. */
  function PrintItems(items: seq<Json>): string
    decreases items
  {
    if items == [] then "]" else "," + Print(items[0]) + PrintItems(items[1..])
  }

  function PrintField(e: Entry): string
    decreases e
  {
    Quote(e.key) + ":" + Print(e.value)
  }

  function PrintFields(entries: seq<Entry>): string
    decreases entries
  {
    if entries == [] then "}" else "," + PrintField(entries[0]) + PrintFields(entries[1..])
  }

  /** Texts from `index` on, with commas between them, and a closing bracket. */
  function Joined(texts: seq<string>, index: nat, close: string): string
    requires index <= |texts|
    decreases |texts| - index
  {
    if index == |texts| then close
    else (if index > 0 then "," else "") + texts[index] + Joined(texts, index + 1, close)
  }

  function ItemTexts(items: seq<Json>): (texts: seq<string>)
    ensures |texts| == |items| && forall i | 0 <= i < |items| :: texts[i] == Print(items[i])
  {
    if items == [] then [] else [Print(items[0])] + ItemTexts(items[1..])
  }

  function FieldTexts(entries: seq<Entry>): (texts: seq<string>)
    ensures |texts| == |entries| && forall i | 0 <= i < |entries| :: texts[i] == PrintField(entries[i])
  {
    if entries == [] then [] else [PrintField(entries[0])] + FieldTexts(entries[1..])
  }

  lemma {:induction false} ItemsAreJoined(items: seq<Json>, index: nat)
    requires 0 < index <= |items|
    ensures PrintItems(items[index..]) == Joined(ItemTexts(items), index, "]")
    decreases |items| - index
  {
    if index < |items| {
      ItemsAreJoined(items, index + 1);
      assert items[index..][1..] == items[index + 1..];
    }
  }

  lemma {:induction false} ArrayIsJoined(items: seq<Json>)
    ensures Print(Array(items)) == "[" + Joined(ItemTexts(items), 0, "]")
  {
    if items != [] {
      ItemsAreJoined(items, 1);
      EmptySeparator("[", Print(items[0]), PrintItems(items[1..]));
    }
  }

  lemma {:induction false} FieldsAreJoined(entries: seq<Entry>, index: nat)
    requires 0 < index <= |entries|
    ensures PrintFields(entries[index..]) == Joined(FieldTexts(entries), index, "}")
    decreases |entries| - index
  {
    if index < |entries| {
      FieldsAreJoined(entries, index + 1);
      assert entries[index..][1..] == entries[index + 1..];
    }
  }

  lemma {:induction false} ObjectIsJoined(entries: seq<Entry>)
    ensures Print(Object(entries)) == "{" + Joined(FieldTexts(entries), 0, "}")
  {
    if entries != [] {
      FieldsAreJoined(entries, 1);
      EmptySeparator("{", PrintField(entries[0]), PrintFields(entries[1..]));
    }
  }

  lemma EmptySeparator(a: string, b: string, c: string)
    ensures a + b + c == a + ("" + b + c)
  {
  }

  lemma TextLess(texts: seq<string>, index: nat, close: string, before: string)
    requires index < |texts|
    ensures before + Joined(texts, index, close)
         == (if index > 0 then before + "," else before) + texts[index] + Joined(texts, index + 1, close)
  {
    var rest := Joined(texts, index + 1, close);
    if index > 0 {
      Uncut(',', before, texts[index], rest);
    } else {
      EmptySeparator(before, texts[index], rest);
    }
  }

  lemma Uncut(separator: char, a: string, b: string, c: string)
    ensures a + ([separator] + b + c) == a + [separator] + b + c
    ensures [separator] + (a + (b + c)) == [separator] + a + b + c
  {
  }
}
