/** The text of a runtime manifest that is signed and verified: `canonicalValue` (packages/desktop-host/src/index.ts),
    its copy `canonicalize` in the runtime bundler (scripts/runtime/index.ts), and `canonical_runtime_json`
    (apps/desktop/src-tauri/src/lib.rs). */
module CanonicalJson {
  import opened Prelude
  import opened JsonText
  import opened JsonReader
  import opened KeyOrder

  const SIGNATURE := "manifestSignature"

  /** The TypeScript form sorts with the `localeCompare` of the machine it runs on; the Rust form by bytes. */
  datatype Form = TypeScript(locale: Order) | Rust

  function Arrange(form: Form, entries: seq<Entry>): seq<Entry> {
    match form
    case Rust => Sort(ByteBefore, entries)
    case TypeScript(locale) => Sort(IndexBefore, Sort(locale, entries))
  }

  function Canonical(form: Form, v: Json): Json
    decreases v
  {
    match v
    case Array(items) => Array(CanonicalItems(form, items))
    case Object(entries) => Object(Arrange(form, CanonicalEntries(form, entries)))
    case _ => v
  }

  function CanonicalItems(form: Form, items: seq<Json>): (r: seq<Json>)
    ensures |r| == |items| && forall i | 0 <= i < |items| :: r[i] == Canonical(form, items[i])
    decreases items
  {
    if items == [] then [] else [Canonical(form, items[0])] + CanonicalItems(form, items[1..])
  }

  /** The entries without the signature, with canonical values. */
  function CanonicalEntries(form: Form, entries: seq<Entry>): seq<Entry>
    decreases entries
  {
    if entries == [] then []
    else if entries[0].key == SIGNATURE then CanonicalEntries(form, entries[1..])
    else [Entry(entries[0].key, Canonical(form, entries[0].value))] + CanonicalEntries(form, entries[1..])
  }

  /** What is signed. */
  function Payload(form: Form, v: Json): string {
    Print(Canonical(form, v))
  }

  // ----- The Rust form -----

  function Kept(entries: seq<Entry>): (r: seq<Entry>)
    ensures forall e | e in r :: e in entries && e.key != SIGNATURE
  {
    if entries == [] then []
    else if entries[0].key == SIGNATURE then Kept(entries[1..])
    else [entries[0]] + Kept(entries[1..])
  }

  lemma {:induction false} KeptIsEnough(form: Form, entries: seq<Entry>)
    ensures CanonicalEntries(form, Kept(entries)) == CanonicalEntries(form, entries)
  {
    if entries != [] {
      KeptIsEnough(form, entries[1..]);
      if entries[0].key != SIGNATURE {
        assert ([entries[0]] + Kept(entries[1..]))[1..] == Kept(entries[1..]);
      }
    }
  }

  ghost predicate Unsigned(entries: seq<Entry>) {
    forall e | e in entries :: e.key != SIGNATURE
  }

  lemma {:induction false} CanonicalInsert(form: Form, before: Order, e: Entry, s: seq<Entry>)
    requires Unsigned(s) && e.key != SIGNATURE
    ensures CanonicalEntries(form, Insert(before, e, s))
         == Insert(before, Entry(e.key, Canonical(form, e.value)), CanonicalEntries(form, s))
  {
    if s != [] {
      assert s[0] in s;
    }
    if s != [] && before(s[0].key, e.key) {
      var rest := Insert(before, e, s[1..]);
      CanonicalInsert(form, before, e, s[1..]);
      assert ([s[0]] + rest)[1..] == rest;
    } else {
      assert ([e] + s)[1..] == s;
    }
  }

  /** Sorting looks at keys only. */
  lemma {:induction false} CanonicalSort(form: Form, before: Order, s: seq<Entry>)
    requires Unsigned(s)
    ensures CanonicalEntries(form, Sort(before, s)) == Sort(before, CanonicalEntries(form, s))
  {
    if s != [] {
      assert s[0] in s;
      CanonicalSort(form, before, s[1..]);
      CanonicalInsert(form, before, s[0], Sort(before, s[1..]));
    }
  }

  lemma {:induction false} CanonicalAt(form: Form, s: seq<Entry>)
    requires Unsigned(s)
    ensures |CanonicalEntries(form, s)| == |s|
    ensures forall i | 0 <= i < |s| :: CanonicalEntries(form, s)[i] == Entry(s[i].key, Canonical(form, s[i].value))
  {
    if s != [] {
      assert s[0] in s;
      CanonicalAt(form, s[1..]);
    }
  }

  method CanonicalRuntimeJson(value: Json, output: string) returns (result: string)
    ensures result == output + Payload(Rust, value)
    decreases value
  {
    match value {
      case Array(values) =>
        result := PrintArray(values, output);
      case Object(values) =>
        result := PrintObject(values, output);
      case _ =>
        result := output + Print(value);
    }
  }

  method PrintArray(values: seq<Json>, output: string) returns (result: string)
    ensures result == output + Payload(Rust, Array(values))
    decreases values
  {
    ghost var items := CanonicalItems(Rust, values);
    ghost var texts := ItemTexts(items);
    result := output + "[";
    ghost var whole := result + Joined(texts, 0, "]");
    for index := 0 to |values|
      invariant result + Joined(texts, index, "]") == whole
    {
      TextLess(texts, index, "]", result);
      if index > 0 {
        result := result + ",";
      }
      result := CanonicalRuntimeJson(values[index], result);
    }
    result := result + "]";
    ArrayIsJoined(items);
    assert output + "[" + Joined(texts, 0, "]") == output + ("[" + Joined(texts, 0, "]"));
  }

  method PrintObject(values: seq<Entry>, output: string) returns (result: string)
    ensures result == output + Payload(Rust, Object(values))
    decreases values, 1
  {
    var kept := Kept(values);
    var entries := Sort(ByteBefore, kept);
    result := PrintEntries(entries, values, output);
    KeptIsEnough(Rust, values);
    CanonicalSort(Rust, ByteBefore, kept);
  }

  method PrintEntries(entries: seq<Entry>, ghost values: seq<Entry>, output: string) returns (result: string)
    requires Unsigned(entries) && forall e | e in entries :: e in values
    ensures result == output + Print(Object(CanonicalEntries(Rust, entries)))
    decreases values, 0
  {
    ghost var fields := CanonicalEntries(Rust, entries);
    CanonicalAt(Rust, entries);
    ghost var texts := FieldTexts(fields);
    result := output + "{";
    ghost var whole := result + Joined(texts, 0, "}");
    for index := 0 to |entries|
      invariant result + Joined(texts, index, "}") == whole
    {
      TextLess(texts, index, "}", result);
      if index > 0 {
        result := result + ",";
      }
      assert entries[index] in values;
      result := PrintEntry(entries[index], result);
    }
    result := result + "}";
    ObjectIsJoined(fields);
    assert output + "{" + Joined(texts, 0, "}") == output + ("{" + Joined(texts, 0, "}"));
  }

  method PrintEntry(entry: Entry, output: string) returns (result: string)
    ensures result == output + PrintField(Entry(entry.key, Canonical(Rust, entry.value)))
    decreases entry
  {
    result := output + Quote(entry.key) + ":";
    result := CanonicalRuntimeJson(entry.value, result);
  }

  // ----- What the payload tells apart -----

  /** Two values mean the same manifest: they differ in the order of keys and in signatures only. */
  ghost predicate Equivalent(v: Json, w: Json)
    decreases v
  {
    match v
    case Array(items) =>
      && w.Array? && |w.items| == |items|
      && forall i | 0 <= i < |items| :: Equivalent(items[i], w.items[i])
    case Object(entries) =>
      && w.Object?
      && forall k | k != SIGNATURE ::
           var x := Find(entries, k);
           var y := Find(w.entries, k);
           x.Some? == y.Some? && (x.Some? && y.Some? ==> Equivalent(x.value, y.value))
    case _ => v == w
  }

  /** How a form orders two keys. */
  predicate Before(form: Form, a: string, b: string) {
    match form
    case Rust => ByteBefore(a, b)
    case TypeScript(locale) => IndexBefore(a, b) || (!IndexBefore(b, a) && locale(a, b))
  }

  /** Keys that the order leaves tied stay as they stand. */
  predicate Ahead(form: Form, entries: seq<Entry>, a: string, b: string) {
    Before(form, a, b) || (!Before(form, b, a) && Precedes(entries, a, b))
  }

  ghost predicate Comparing(form: Form) {
    form.TypeScript? ==> Weak(form.locale)
  }

  lemma {:induction false} ArrangeKeeps(form: Form, s: seq<Entry>, k: string)
    requires Distinct(s)
    ensures Find(Arrange(form, s), k) == Find(s, k) && Distinct(Arrange(form, s))
  {
    match form
    case Rust => SortKeeps(ByteBefore, s, k);
    case TypeScript(locale) =>
      SortKeeps(locale, s, k);
      SortKeeps(IndexBefore, Sort(locale, s), k);
  }

  lemma {:induction false} ArrangePlaces(form: Form, s: seq<Entry>, a: string, b: string)
    requires Distinct(s) && Comparing(form)
    ensures Precedes(Arrange(form, s), a, b) <==> a != b && Has(s, a) && Has(s, b) && Ahead(form, s, a, b)
  {
    WeakOrders();
    match form
    case Rust => SortPlaces(ByteBefore, s, a, b);
    case TypeScript(locale) =>
      SortKeeps(locale, s, a);
      SortKeeps(locale, s, b);
      SortPlaces(locale, s, a, b);
      SortPlaces(IndexBefore, Sort(locale, s), a, b);
  }

  function CanonicalOption(form: Form, v: Option<Json>): Option<Json> {
    match v
    case None => None
    case Some(x) => Some(Canonical(form, x))
  }

  lemma {:induction false} FindCanonical(form: Form, s: seq<Entry>, k: string)
    ensures Find(CanonicalEntries(form, s), k) == if k == SIGNATURE then None else CanonicalOption(form, Find(s, k))
  {
    if s != [] {
      FindCanonical(form, s[1..], k);
      var rest := CanonicalEntries(form, s[1..]);
      if s[0].key != SIGNATURE {
        assert ([Entry(s[0].key, Canonical(form, s[0].value))] + rest)[1..] == rest;
      }
    }
  }

  lemma {:induction false} CanonicalPlaces(form: Form, s: seq<Entry>, a: string, b: string)
    requires Distinct(s)
    ensures Distinct(CanonicalEntries(form, s))
    ensures Precedes(CanonicalEntries(form, s), a, b) <==> a != SIGNATURE && b != SIGNATURE && Precedes(s, a, b)
  {
    if s != [] {
      CanonicalPlaces(form, s[1..], a, b);
      FindCanonical(form, s[1..], b);
      FindCanonical(form, s[1..], s[0].key);
      var rest := CanonicalEntries(form, s[1..]);
      if s[0].key != SIGNATURE {
        assert ([Entry(s[0].key, Canonical(form, s[0].value))] + rest)[1..] == rest;
      }
    }
  }

  /** What the canonical form of an object holds, and in which order. */
  lemma {:induction false} ObjectPlaces(form: Form, s: seq<Entry>, a: string, b: string)
    requires Distinct(s) && Comparing(form)
    ensures var r := Arrange(form, CanonicalEntries(form, s));
            && Distinct(r)
            && Find(r, a) == (if a == SIGNATURE then None else CanonicalOption(form, Find(s, a)))
            && (Precedes(r, a, b)
                <==> a != b && a != SIGNATURE && b != SIGNATURE && Has(s, a) && Has(s, b) && Ahead(form, s, a, b))
  {
    var c := CanonicalEntries(form, s);
    CanonicalPlaces(form, s, a, b);
    FindCanonical(form, s, a);
    FindCanonical(form, s, b);
    ArrangeKeeps(form, c, a);
    ArrangePlaces(form, c, a, b);
  }

  lemma {:induction false} CanonicalIsWellFormed(form: Form, v: Json)
    requires WellFormed(v)
    ensures WellFormed(Canonical(form, v))
    decreases v
  {
    match v
    case Array(items) =>
      forall i | 0 <= i < |items| ensures WellFormed(Canonical(form, items[i])) {
        CanonicalIsWellFormed(form, items[i]);
      }
    case Object(entries) =>
      CanonicalValuesAreWellFormed(form, entries);
      var c := CanonicalEntries(form, entries);
      CanonicalPlaces(form, entries, "", "");
      ArrangeKeeps(form, c, "");
      var r := Arrange(form, c);
      assert forall i | 0 <= i < |r| :: r[i] in c;
    case _ =>
  }

  lemma {:induction false} CanonicalValuesAreWellFormed(form: Form, s: seq<Entry>)
    requires forall i | 0 <= i < |s| :: WellFormed(s[i].value)
    ensures forall e | e in CanonicalEntries(form, s) :: WellFormed(e.value)
    decreases s
  {
    if s != [] {
      CanonicalIsWellFormed(form, s[0].value);
      CanonicalValuesAreWellFormed(form, s[1..]);
    }
  }

  /** What is signed is the one compact text that is read as the canonical form, with nothing after it. */
  lemma {:induction false} PayloadIsTheCompactText(form: Form, v: Json, s: string)
    requires WellFormed(v)
    ensures s == Payload(form, v) <==> ReadValue(Compact, s) == Some((Canonical(form, v), ""))
  {
    CanonicalIsWellFormed(form, v);
    PrintIsTheCompactText(Canonical(form, v), s);
  }

  /** Values with the same payload are equivalent, in every form. */
  lemma {:induction false} PayloadTellsApart(form: Form, v: Json, w: Json)
    requires WellFormed(v) && WellFormed(w) && Comparing(form) && Payload(form, v) == Payload(form, w)
    ensures Equivalent(v, w)
  {
    CanonicalIsWellFormed(form, v);
    CanonicalIsWellFormed(form, w);
    PrintIsInjective(Canonical(form, v), Canonical(form, w));
    CanonicalTellsApart(form, v, w);
  }

  lemma {:induction false} CanonicalTellsApart(form: Form, v: Json, w: Json)
    requires WellFormed(v) && WellFormed(w) && Comparing(form) && Canonical(form, v) == Canonical(form, w)
    ensures Equivalent(v, w)
    decreases v
  {
    match v
    case Array(items) =>
      forall i | 0 <= i < |items| ensures Equivalent(items[i], w.items[i]) {
        CanonicalTellsApart(form, items[i], w.items[i]);
      }
    case Object(entries) =>
      forall k | k != SIGNATURE
        ensures var x := Find(entries, k);
                var y := Find(w.entries, k);
                x.Some? == y.Some? && (x.Some? && y.Some? ==> Equivalent(x.value, y.value))
      {
        ObjectPlaces(form, entries, k, k);
        ObjectPlaces(form, w.entries, k, k);
        if Has(entries, k) {
          CanonicalTellsApart(form, Find(entries, k).value, Find(w.entries, k).value);
        }
      }
    case _ =>
  }

  // ----- Where the order of keys is lost -----

  /** The form puts any two keys that share an object in an order of its own. */
  ghost predicate Decided(form: Form, v: Json)
    decreases v
  {
    match v
    case Array(items) => forall i | 0 <= i < |items| :: Decided(form, items[i])
    case Object(entries) =>
      && (forall a, b | a != b && a != SIGNATURE && b != SIGNATURE && Has(entries, a) && Has(entries, b) ::
            Before(form, a, b) || Before(form, b, a))
      && (forall k | k != SIGNATURE :: var x := Find(entries, k); x.Some? ==> Decided(form, x.value))
    case _ => true
  }

  lemma {:induction false} RustDecides(v: Json)
    ensures Decided(Rust, v)
    decreases v
  {
    match v
    case Array(items) =>
      forall i | 0 <= i < |items| ensures Decided(Rust, items[i]) {
        RustDecides(items[i]);
      }
    case Object(entries) =>
      forall a, b | a != b ensures Before(Rust, a, b) || Before(Rust, b, a) {
        ByteOrder(a, b, "");
      }
      forall k | k != SIGNATURE ensures var x := Find(entries, k); x.Some? ==> Decided(Rust, x.value) {
        if Has(entries, k) {
          RustDecides(Find(entries, k).value);
        }
      }
    case _ =>
  }

  lemma {:induction false} CanonicalOfEquivalent(form: Form, v: Json, w: Json)
    requires WellFormed(v) && WellFormed(w) && Comparing(form) && Decided(form, v) && Equivalent(v, w)
    ensures Canonical(form, v) == Canonical(form, w)
    decreases v
  {
    match v
    case Array(items) =>
      forall i | 0 <= i < |items| ensures Canonical(form, items[i]) == Canonical(form, w.items[i]) {
        CanonicalOfEquivalent(form, items[i], w.items[i]);
      }
    case Object(entries) =>
      forall k | k != SIGNATURE
        ensures CanonicalOption(form, Find(entries, k)) == CanonicalOption(form, Find(w.entries, k))
      {
        if Has(entries, k) {
          CanonicalOfEquivalent(form, Find(entries, k).value, Find(w.entries, k).value);
        }
      }
      SameObject(form, entries, w.entries);
    case _ =>
  }

  lemma {:induction false} SameObject(form: Form, s: seq<Entry>, t: seq<Entry>)
    requires Distinct(s) && Distinct(t) && Comparing(form)
    requires forall k | k != SIGNATURE :: CanonicalOption(form, Find(s, k)) == CanonicalOption(form, Find(t, k))
    requires forall a, b | a != b && a != SIGNATURE && b != SIGNATURE && Has(s, a) && Has(s, b) ::
               Before(form, a, b) || Before(form, b, a)
    ensures Arrange(form, CanonicalEntries(form, s)) == Arrange(form, CanonicalEntries(form, t))
  {
    var x, y := Arrange(form, CanonicalEntries(form, s)), Arrange(form, CanonicalEntries(form, t));
    ObjectPlaces(form, s, "", "");
    ObjectPlaces(form, t, "", "");
    forall k ensures Find(x, k) == Find(y, k) {
      ObjectPlaces(form, s, k, k);
      ObjectPlaces(form, t, k, k);
    }
    forall a, b ensures Precedes(x, a, b) == Precedes(y, a, b) {
      ObjectPlaces(form, s, a, b);
      ObjectPlaces(form, t, a, b);
      BeforeIsStrict(form, a, b);
      if a != SIGNATURE && b != SIGNATURE {
        assert CanonicalOption(form, Find(s, a)) == CanonicalOption(form, Find(t, a));
        assert CanonicalOption(form, Find(s, b)) == CanonicalOption(form, Find(t, b));
      }
    }
    SameList(x, y);
  }

  lemma BeforeIsStrict(form: Form, a: string, b: string)
    requires Comparing(form)
    ensures Before(form, a, b) ==> !Before(form, b, a)
  {
    WeakOrders();
  }

  // ----- Undecided keys -----

  /** The same value with the entries of every object in reverse. */
  function Mirror(v: Json): Json
    decreases v
  {
    match v
    case Array(items) => Array(MirrorItems(items))
    case Object(entries) => Object(MirrorEntries(entries))
    case _ => v
  }

  function MirrorItems(items: seq<Json>): (r: seq<Json>)
    ensures |r| == |items| && forall i | 0 <= i < |items| :: r[i] == Mirror(items[i])
    decreases items
  {
    if items == [] then [] else [Mirror(items[0])] + MirrorItems(items[1..])
  }

  function MirrorEntries(s: seq<Entry>): seq<Entry>
    decreases s
  {
    if s == [] then [] else MirrorEntries(s[1..]) + [Entry(s[0].key, Mirror(s[0].value))]
  }

  lemma {:induction false} AppendOne(s: seq<Entry>, e: Entry, k: string, a: string, b: string)
    requires Distinct(s) && !Has(s, e.key)
    ensures Find(s + [e], k) == if k == e.key then Some(e.value) else Find(s, k)
    ensures Distinct(s + [e])
    ensures Precedes(s + [e], a, b) <==> Precedes(s, a, b) || (b == e.key && Has(s, a))
  {
    if s != [] {
      var all := s + [e];
      assert all[0] == s[0] && all[1..] == s[1..] + [e];
      AppendOne(s[1..], e, k, a, b);
      AppendOne(s[1..], e, s[0].key, a, b);
      AppendOne(s[1..], e, b, a, b);
    } else {
      assert s + [e] == [e];
    }
  }

  function MirrorOption(v: Option<Json>): Option<Json> {
    match v
    case None => None
    case Some(x) => Some(Mirror(x))
  }

  lemma {:induction false} MirrorPlaces(s: seq<Entry>, k: string, a: string, b: string)
    requires Distinct(s)
    ensures Find(MirrorEntries(s), k) == MirrorOption(Find(s, k))
    ensures Distinct(MirrorEntries(s))
    ensures Precedes(MirrorEntries(s), a, b) <==> Precedes(s, b, a)
  {
    if s != [] {
      var rest, e := MirrorEntries(s[1..]), Entry(s[0].key, Mirror(s[0].value));
      MirrorPlaces(s[1..], k, a, b);
      MirrorPlaces(s[1..], s[0].key, a, b);
      MirrorPlaces(s[1..], a, a, b);
      AppendOne(rest, e, k, a, b);
    }
  }

  lemma {:induction false} MirrorValues(s: seq<Entry>, e: Entry) returns (i: nat)
    requires e in MirrorEntries(s)
    ensures i < |s| && e.value == Mirror(s[i].value)
  {
    if e == Entry(s[0].key, Mirror(s[0].value)) {
      i := 0;
    } else {
      var j := MirrorValues(s[1..], e);
      i := j + 1;
    }
  }

  lemma {:induction false} MirrorIsWellFormed(v: Json)
    requires WellFormed(v)
    ensures WellFormed(Mirror(v))
    decreases v
  {
    match v
    case Array(items) =>
      forall i | 0 <= i < |items| ensures WellFormed(Mirror(items[i])) {
        MirrorIsWellFormed(items[i]);
      }
    case Object(entries) =>
      MirrorPlaces(entries, "", "", "");
      var m := MirrorEntries(entries);
      forall j | 0 <= j < |m| ensures WellFormed(m[j].value) {
        var i := MirrorValues(entries, m[j]);
        MirrorIsWellFormed(entries[i].value);
      }
    case _ =>
  }

  lemma {:induction false} MirrorIsEquivalent(v: Json)
    requires WellFormed(v)
    ensures Equivalent(v, Mirror(v))
    decreases v
  {
    match v
    case Array(items) =>
      forall i | 0 <= i < |items| ensures Equivalent(items[i], Mirror(items[i])) {
        MirrorIsEquivalent(items[i]);
      }
    case Object(entries) =>
      forall k | k != SIGNATURE
        ensures var x := Find(entries, k);
                var y := Find(MirrorEntries(entries), k);
                x.Some? == y.Some? && (x.Some? && y.Some? ==> Equivalent(x.value, y.value))
      {
        MirrorPlaces(entries, k, k, k);
        if Has(entries, k) {
          MirrorIsEquivalent(Find(entries, k).value);
        }
      }
    case _ =>
  }

  /** Keys that a form leaves tied come out in the order they came in. */
  lemma {:induction false} MirrorShowsTies(form: Form, v: Json)
    requires WellFormed(v) && Comparing(form) && Canonical(form, v) == Canonical(form, Mirror(v))
    ensures Decided(form, v)
    decreases v
  {
    match v
    case Array(items) =>
      forall i | 0 <= i < |items| ensures Decided(form, items[i]) {
        MirrorShowsTies(form, items[i]);
      }
    case Object(entries) =>
      var m := MirrorEntries(entries);
      MirrorPlaces(entries, "", "", "");
      forall a, b | a != b && a != SIGNATURE && b != SIGNATURE && Has(entries, a) && Has(entries, b)
        ensures Before(form, a, b) || Before(form, b, a)
      {
        MirrorPlaces(entries, a, a, b);
        MirrorPlaces(entries, b, a, b);
        ObjectPlaces(form, entries, a, b);
        ObjectPlaces(form, m, a, b);
        PrecedesIsTotalOrder(entries, a, b);
      }
      forall k | k != SIGNATURE ensures var x := Find(entries, k); x.Some? ==> Decided(form, x.value) {
        MirrorPlaces(entries, k, k, k);
        ObjectPlaces(form, entries, k, k);
        ObjectPlaces(form, m, k, k);
        if Has(entries, k) {
          MirrorShowsTies(form, Find(entries, k).value);
        }
      }
    case _ =>
  }

  ghost predicate IgnoresOrder(form: Form, v: Json) {
    forall w | WellFormed(w) && Equivalent(v, w) :: Payload(form, w) == Payload(form, v)
  }

  /** The payload depends on nothing but keys and values exactly where the form orders all keys; Rust always does. */
  lemma {:induction false} OrderIsIgnoredExactly(form: Form, v: Json)
    requires WellFormed(v) && Comparing(form)
    ensures IgnoresOrder(form, v) <==> Decided(form, v)
  {
    if Decided(form, v) {
      forall w | WellFormed(w) && Equivalent(v, w) ensures Payload(form, w) == Payload(form, v) {
        CanonicalOfEquivalent(form, v, w);
      }
    }
    if IgnoresOrder(form, v) {
      var w := Mirror(v);
      MirrorIsWellFormed(v);
      MirrorIsEquivalent(v);
      assert Payload(form, w) == Payload(form, v);
      CanonicalIsWellFormed(form, v);
      CanonicalIsWellFormed(form, w);
      PrintIsInjective(Canonical(form, v), Canonical(form, w));
      MirrorShowsTies(form, v);
    }
  }

  // ----- Agreement of two forms -----

  /** Two forms put any two keys that share an object in the same order. */
  ghost predicate OrdersAgree(f: Form, g: Form, v: Json)
    decreases v
  {
    match v
    case Array(items) => forall i | 0 <= i < |items| :: OrdersAgree(f, g, items[i])
    case Object(entries) =>
      && (forall a, b | a != b && a != SIGNATURE && b != SIGNATURE && Has(entries, a) && Has(entries, b) ::
            Ahead(f, entries, a, b) == Ahead(g, entries, a, b))
      && (forall k | k != SIGNATURE :: var x := Find(entries, k); x.Some? ==> OrdersAgree(f, g, x.value))
    case _ => true
  }

  lemma {:induction false} CanonicalInBothForms(f: Form, g: Form, v: Json)
    requires WellFormed(v) && Comparing(f) && Comparing(g)
    ensures Canonical(f, v) == Canonical(g, v) <==> OrdersAgree(f, g, v)
    decreases v
  {
    match v
    case Array(items) =>
      forall i | 0 <= i < |items|
        ensures Canonical(f, items[i]) == Canonical(g, items[i]) <==> OrdersAgree(f, g, items[i])
      {
        CanonicalInBothForms(f, g, items[i]);
      }
      var x, y := CanonicalItems(f, items), CanonicalItems(g, items);
      if x == y {
        forall i | 0 <= i < |items| ensures OrdersAgree(f, g, items[i]) {
          assert x[i] == y[i];
        }
      }
    case Object(entries) =>
      forall k | Has(entries, k)
        ensures var x := Find(entries, k).value; Canonical(f, x) == Canonical(g, x) <==> OrdersAgree(f, g, x)
      {
        CanonicalInBothForms(f, g, Find(entries, k).value);
      }
      if Canonical(f, v) == Canonical(g, v) {
        SameObjectAgrees(f, g, entries);
      } else if OrdersAgree(f, g, v) {
        AgreeingIsSameObject(f, g, entries);
      }
    case _ =>
  }

  lemma {:induction false} SameObjectAgrees(f: Form, g: Form, s: seq<Entry>)
    requires Distinct(s) && Comparing(f) && Comparing(g)
    requires forall k | Has(s, k) ::
      var x := Find(s, k).value;
      Canonical(f, x) == Canonical(g, x) <==> OrdersAgree(f, g, x)
    requires Arrange(f, CanonicalEntries(f, s)) == Arrange(g, CanonicalEntries(g, s))
    ensures OrdersAgree(f, g, Object(s))
  {
    forall a, b | a != b && a != SIGNATURE && b != SIGNATURE && Has(s, a) && Has(s, b)
      ensures Ahead(f, s, a, b) == Ahead(g, s, a, b)
    {
      ObjectPlaces(f, s, a, b);
      ObjectPlaces(g, s, a, b);
    }
    forall k | k != SIGNATURE ensures var x := Find(s, k); x.Some? ==> OrdersAgree(f, g, x.value) {
      ObjectPlaces(f, s, k, k);
      ObjectPlaces(g, s, k, k);
    }
  }

  lemma {:induction false} AgreeingIsSameObject(f: Form, g: Form, s: seq<Entry>)
    requires Distinct(s) && Comparing(f) && Comparing(g)
    requires forall k | Has(s, k) ::
      var x := Find(s, k).value;
      Canonical(f, x) == Canonical(g, x) <==> OrdersAgree(f, g, x)
    requires OrdersAgree(f, g, Object(s))
    ensures Arrange(f, CanonicalEntries(f, s)) == Arrange(g, CanonicalEntries(g, s))
  {
    var x, y := Arrange(f, CanonicalEntries(f, s)), Arrange(g, CanonicalEntries(g, s));
    ObjectPlaces(f, s, "", "");
    ObjectPlaces(g, s, "", "");
    forall k ensures Find(x, k) == Find(y, k) {
      ObjectPlaces(f, s, k, k);
      ObjectPlaces(g, s, k, k);
    }
    forall a, b ensures Precedes(x, a, b) == Precedes(y, a, b) {
      ObjectPlaces(f, s, a, b);
      ObjectPlaces(g, s, a, b);
    }
    SameList(x, y);
  }

  /** What one form signs, another verifies, exactly where they order the keys present alike. */
  lemma {:induction false} FormsAgreeExactly(f: Form, g: Form, v: Json)
    requires WellFormed(v) && Comparing(f) && Comparing(g)
    ensures Payload(f, v) == Payload(g, v) <==> OrdersAgree(f, g, v)
  {
    CanonicalIsWellFormed(f, v);
    CanonicalIsWellFormed(g, v);
    PrintIsInjective(Canonical(f, v), Canonical(g, v));
    CanonicalInBothForms(f, g, v);
  }

  /** A locale that sorts by bytes is not enough: numbers come first in the TypeScript form, in numerical order. */
  lemma NumericKeysDisagree()
    ensures var v := Object([Entry("10", Null), Entry("9", Null)]);
            WellFormed(v) && Payload(TypeScript(ByteBefore), v) != Payload(Rust, v)
  {
    var s := [Entry("10", Null), Entry("9", Null)];
    var v := Object(s);
    assert s[1..] == [Entry("9", Null)];
    assert Find(s[1..], "10") == None && Distinct(s[1..]);
    WeakOrders();
    assert "10"[..1] == "1" && "1"[..0] == "" && "9"[..0] == "";
    assert Decimal("1") == 1 && Decimal("10") == 10 && Decimal("9") == 9;
    assert Has(s, "10") && Has(s, "9");
    assert IndexBefore("9", "10") && !IndexBefore("10", "9");
    assert ByteBefore("10", "9") && !ByteBefore("9", "10");
    assert !Ahead(TypeScript(ByteBefore), s, "10", "9") && Ahead(Rust, s, "10", "9");
    FormsAgreeExactly(TypeScript(ByteBefore), Rust, v);
  }

  // ----- Signing -----

  /** `manifest.manifestSignature = signature`. */
  function Assign(entries: seq<Entry>, e: Entry): seq<Entry> {
    if entries == [] then [e]
    else if entries[0].key == e.key then [e] + entries[1..]
    else [entries[0]] + Assign(entries[1..], e)
  }

  /** Attaching a signature, or replacing one, leaves what was signed as it was, in every form. */
  lemma {:induction false} SigningKeepsPayload(form: Form, manifest: seq<Entry>, signature: Json)
    ensures Payload(form, Object(Assign(manifest, Entry("manifestSignature", signature))))
         == Payload(form, Object(manifest))
  {
    AssignKeepsCanonical(form, manifest, signature);
  }

  lemma {:induction false} AssignKeepsCanonical(form: Form, s: seq<Entry>, signature: Json)
    ensures CanonicalEntries(form, Assign(s, Entry(SIGNATURE, signature))) == CanonicalEntries(form, s)
  {
    var e := Entry(SIGNATURE, signature);
    if s == [] {
      assert [e][1..] == [];
    } else if s[0].key == SIGNATURE {
      assert ([e] + s[1..])[1..] == s[1..];
    } else {
      AssignKeepsCanonical(form, s[1..], signature);
      assert ([s[0]] + Assign(s[1..], e))[1..] == Assign(s[1..], e);
    }
  }
}
