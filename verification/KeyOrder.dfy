/** Stable sorting of object entries by key, and the two key orders in use: the order of JavaScript's own keys on
    top of a locale, and the byte order of Rust strings. */
module KeyOrder {
  import opened Prelude
  import opened JsonText

  /** Whether one key sorts before another. */
  type Order = (string, string) -> bool

  /** A comparison function may leave keys tied, but ties are transitive. */
  ghost predicate Weak(before: Order) {
    && (forall a, b :: before(a, b) ==> !before(b, a))
    && (forall a, b, c :: before(a, b) ==> before(a, c) || before(c, b))
  }

  predicate Has(s: seq<Entry>, key: string) {
    Find(s, key).Some?
  }

  function Insert(before: Order, e: Entry, s: seq<Entry>): (r: seq<Entry>)
    ensures forall x | x in r :: x == e || x in s
  {
    if s == [] then [e] else if before(s[0].key, e.key) then [s[0]] + Insert(before, e, s[1..]) else [e] + s
  }

  function Sort(before: Order, s: seq<Entry>): (r: seq<Entry>)
    ensures forall x | x in r :: x in s
  {
    if s == [] then [] else Insert(before, s[0], Sort(before, s[1..]))
  }

  /** `a` stands somewhere before `b`. */
  predicate Precedes(s: seq<Entry>, a: string, b: string) {
    s != [] && ((s[0].key == a && Has(s[1..], b)) || Precedes(s[1..], a, b))
  }

  // ----- Order of occurrence -----

  lemma {:induction false} PrecedesIsTotalOrder(s: seq<Entry>, a: string, b: string)
    requires Distinct(s)
    ensures Precedes(s, a, b) ==> Has(s, a) && Has(s, b) && a != b && !Precedes(s, b, a)
    ensures Has(s, a) && Has(s, b) && a != b ==> Precedes(s, a, b) || Precedes(s, b, a)
  {
    if s != [] {
      PrecedesIsTotalOrder(s[1..], a, b);
      PrecedesIsTotalOrder(s[1..], b, a);
    }
  }

  lemma {:induction false} InTail(s: seq<Entry>, a: string, b: string)
    requires s != [] && Distinct(s)
    ensures Find(s[1..], a) == if a == s[0].key then None else Find(s, a)
    ensures Precedes(s[1..], a, b) <==> Precedes(s, a, b) && a != s[0].key
  {
    PrecedesIsTotalOrder(s[1..], a, b);
  }

  /** A list of entries is determined by what it holds and in which order. */
  lemma {:induction false} SameList(s: seq<Entry>, t: seq<Entry>)
    requires Distinct(s) && Distinct(t)
    requires forall k :: Find(s, k) == Find(t, k)
    requires forall a, b :: Precedes(s, a, b) == Precedes(t, a, b)
    ensures s == t
  {
    if s != [] {
      SameHead(s, t);
      forall k ensures Find(s[1..], k) == Find(t[1..], k) {
        InTail(s, k, k);
        InTail(t, k, k);
      }
      forall a, b ensures Precedes(s[1..], a, b) == Precedes(t[1..], a, b) {
        InTail(s, a, b);
        InTail(t, a, b);
      }
      SameList(s[1..], t[1..]);
      assert s == [s[0]] + s[1..] && t == [t[0]] + t[1..];
    } else {
      assert t != [] ==> Find(s, t[0].key) == Find(t, t[0].key);
    }
  }

  lemma {:induction false} SameHead(s: seq<Entry>, t: seq<Entry>)
    requires s != [] && Distinct(s) && Distinct(t)
    requires forall k :: Find(s, k) == Find(t, k)
    requires forall a, b :: Precedes(s, a, b) == Precedes(t, a, b)
    ensures t != [] && s[0] == t[0]
  {
    var k := s[0].key;
    assert Find(s, k) == Find(t, k);
    var h := t[0].key;
    assert Precedes(s, h, k) == Precedes(t, h, k);
    PrecedesIsTotalOrder(s, h, k);
    assert h != k ==> Has(t[1..], k);
  }

  // ----- Sorting -----

  ghost predicate Sorted(before: Order, s: seq<Entry>) {
    s != [] ==> (forall k | Has(s[1..], k) :: !before(k, s[0].key)) && Sorted(before, s[1..])
  }

  lemma {:induction false} InsertKeeps(before: Order, e: Entry, s: seq<Entry>, k: string)
    requires Distinct(s) && !Has(s, e.key)
    ensures Find(Insert(before, e, s), k) == if k == e.key then Some(e.value) else Find(s, k)
    ensures Distinct(Insert(before, e, s))
  {
    if s != [] && before(s[0].key, e.key) {
      var rest := Insert(before, e, s[1..]);
      InsertKeeps(before, e, s[1..], k);
      InsertKeeps(before, e, s[1..], s[0].key);
      assert ([s[0]] + rest)[1..] == rest;
    } else {
      assert ([e] + s)[1..] == s;
    }
  }

  /** Nothing in a sorted list comes before a new entry that goes to its front. */
  lemma {:induction false} NoneBefore(before: Order, key: string, s: seq<Entry>, k: string)
    requires Weak(before) && Sorted(before, s) && s != [] && !before(s[0].key, key)
    requires Has(s, k)
    ensures !before(k, key)
  {
    var first := s[0].key;
    assert k != first ==> Has(s[1..], k);
    assert before(k, key) ==> before(k, first) || before(first, key);
  }

  lemma {:induction false} InsertSorts(before: Order, e: Entry, s: seq<Entry>)
    requires Weak(before) && Sorted(before, s) && Distinct(s) && !Has(s, e.key)
    ensures Sorted(before, Insert(before, e, s))
  {
    if s != [] && before(s[0].key, e.key) {
      var rest := Insert(before, e, s[1..]);
      InsertSorts(before, e, s[1..]);
      assert ([s[0]] + rest)[1..] == rest;
      forall k | Has(rest, k) ensures !before(k, s[0].key) {
        InsertKeeps(before, e, s[1..], k);
      }
    } else {
      assert ([e] + s)[1..] == s;
      forall k | Has(s, k) ensures !before(k, e.key) {
        NoneBefore(before, e.key, s, k);
      }
    }
  }

  lemma {:induction false} InsertPlaces(before: Order, e: Entry, s: seq<Entry>, a: string, b: string)
    requires Weak(before) && Sorted(before, s) && Distinct(s) && !Has(s, e.key)
    ensures Precedes(Insert(before, e, s), a, b)
       <==> || Precedes(s, a, b)
            || (a == e.key && Has(s, b) && !before(b, a))
            || (b == e.key && Has(s, a) && before(a, b))
  {
    if s != [] && before(s[0].key, e.key) {
      var rest := Insert(before, e, s[1..]);
      InsertPlaces(before, e, s[1..], a, b);
      InsertKeeps(before, e, s[1..], b);
      assert ([s[0]] + rest)[1..] == rest;
    } else {
      assert ([e] + s)[1..] == s;
      if s != [] && Has(s, a) {
        NoneBefore(before, e.key, s, a);
      }
      if s != [] && Has(s, b) {
        NoneBefore(before, e.key, s, b);
      }
    }
  }

  lemma {:induction false} SortKeeps(before: Order, s: seq<Entry>, k: string)
    requires Distinct(s)
    ensures Find(Sort(before, s), k) == Find(s, k)
    ensures Distinct(Sort(before, s))
  {
    if s != [] {
      SortKeeps(before, s[1..], k);
      SortKeeps(before, s[1..], s[0].key);
      InsertKeeps(before, s[0], Sort(before, s[1..]), k);
    }
  }

  lemma {:induction false} SortSorts(before: Order, s: seq<Entry>)
    requires Weak(before) && Distinct(s)
    ensures Sorted(before, Sort(before, s))
  {
    if s != [] {
      SortSorts(before, s[1..]);
      SortKeeps(before, s[1..], s[0].key);
      InsertSorts(before, s[0], Sort(before, s[1..]));
    }
  }

  /** Sorting puts keys in order and leaves tied ones as they stood. */
  lemma {:induction false} SortPlaces(before: Order, s: seq<Entry>, a: string, b: string)
    requires Weak(before) && Distinct(s)
    ensures Precedes(Sort(before, s), a, b)
       <==> a != b && Has(s, a) && Has(s, b) && (before(a, b) || (!before(b, a) && Precedes(s, a, b)))
  {
    if s != [] {
      var rest := Sort(before, s[1..]);
      SortPlaces(before, s[1..], a, b);
      SortSorts(before, s[1..]);
      SortKeeps(before, s[1..], s[0].key);
      SortKeeps(before, s[1..], a);
      SortKeeps(before, s[1..], b);
      InsertPlaces(before, s[0], rest, a, b);
      PrecedesIsTotalOrder(s[1..], a, b);
    }
  }

  // ----- Byte order -----

  /** The order of UTF-8 bytes, which is that of code points. */
  predicate ByteBefore(a: string, b: string) {
    b != "" && (a == "" || a[0] < b[0] || (a[0] == b[0] && ByteBefore(a[1..], b[1..])))
  }

  lemma {:induction false} ByteOrder(a: string, b: string, c: string)
    ensures ByteBefore(a, b) ==> !ByteBefore(b, a) && (ByteBefore(a, c) || ByteBefore(c, b))
    ensures ByteBefore(a, b) || ByteBefore(b, a) || a == b
  {
    if a != "" && b != "" {
      if c != "" {
        ByteOrder(a[1..], b[1..], c[1..]);
      } else {
        ByteOrder(a[1..], b[1..], "");
      }
      assert a == [a[0]] + a[1..] && b == [b[0]] + b[1..];
    }
  }

  /** The keys agree before position `i`, and there the first ends or has the smaller character. */
  predicate DecidedAt(a: string, b: string, i: nat) {
    i <= |a| && i < |b| && a[..i] == b[..i] && (i == |a| || a[i] < b[i])
  }

  lemma {:induction false} DecidingPlace(a: string, b: string) returns (i: nat)
    requires ByteBefore(a, b)
    ensures DecidedAt(a, b, i)
  {
    if a == "" || a[0] < b[0] {
      i := 0;
    } else {
      var rest := DecidingPlace(a[1..], b[1..]);
      i := rest + 1;
      assert a[..i] == [a[0]] + a[1..][..rest] && b[..i] == [b[0]] + b[1..][..rest];
    }
  }

  lemma {:induction false} PlaceDecides(a: string, b: string, i: nat)
    requires DecidedAt(a, b, i)
    ensures ByteBefore(a, b)
  {
    if i > 0 {
      assert a[..i][0] == b[..i][0];
      assert a[1..][..i - 1] == a[..i][1..] && b[1..][..i - 1] == b[..i][1..];
      PlaceDecides(a[1..], b[1..], i - 1);
    }
  }

  /** One key comes before another exactly if it is cut off first, or has the smaller character where they first
      differ. */
  lemma {:induction false} ByteOrderExactly(a: string, b: string)
    ensures ByteBefore(a, b) <==> exists i :: DecidedAt(a, b, i)
  {
    if ByteBefore(a, b) {
      var i := DecidingPlace(a, b);
    }
    if i :| DecidedAt(a, b, i) {
      PlaceDecides(a, b, i);
    }
  }

  // ----- Own-key order of JavaScript -----

  predicate Digits(s: string) {
    forall i | 0 <= i < |s| :: '0' <= s[i] <= '9'
  }

  function Decimal(s: string): nat
    requires Digits(s)
  {
    if s == "" then 0 else 10 * Decimal(s[..|s| - 1]) + (s[|s| - 1] as nat - '0' as nat)
  }

  /** An array index: a canonical decimal below 2^32 - 1. */
  predicate IsIndex(key: string) {
    key != "" && Digits(key) && (key[0] == '0' ==> |key| == 1) && Decimal(key) < 0xFFFF_FFFF
  }

  /** Own keys are listed with the array indices first, in ascending order. */
  predicate IndexBefore(a: string, b: string) {
    IsIndex(a) && (IsIndex(b) ==> Decimal(a) < Decimal(b))
  }

  lemma WeakOrders()
    ensures Weak(ByteBefore) && Weak(IndexBefore)
  {
    forall a, b, c ensures ByteBefore(a, b) ==> !ByteBefore(b, a) && (ByteBefore(a, c) || ByteBefore(c, b)) {
      ByteOrder(a, b, c);
    }
    assert forall a, b :: ByteBefore(a, b) ==> !ByteBefore(b, a) by {
      forall a, b ensures ByteBefore(a, b) ==> !ByteBefore(b, a) {
        ByteOrder(a, b, a);
      }
    }
  }

  /** A number in decimal. */
  function Text(n: nat): (s: string)
    ensures s != ""
  {
    (if n < 10 then "" else Text(n / 10)) + [('0' as nat + n % 10) as char]
  }

  lemma {:induction false} TextIsRead(n: nat)
    ensures Digits(Text(n)) && Decimal(Text(n)) == n && (Text(n)[0] == '0' ==> n == 0)
  {
    var s := Text(n);
    if n >= 10 {
      TextIsRead(n / 10);
      assert s[..|s| - 1] == Text(n / 10);
    } else {
      assert s[..0] == "" && Decimal(s[..0]) == 0;
    }
  }

  lemma LastDigit(front: nat, digit: nat)
    requires digit < 10
    ensures (10 * front + digit) / 10 == front && (10 * front + digit) % 10 == digit
  {
  }

  lemma {:induction false} DecimalIsWritten(s: string)
    requires s != "" && Digits(s) && (s[0] == '0' ==> |s| == 1)
    ensures Text(Decimal(s)) == s && (s[0] != '0' ==> Decimal(s) > 0)
  {
    var front, last := s[..|s| - 1], s[|s| - 1];
    var digit := last as nat - '0' as nat;
    assert s == front + [last];
    LastDigit(Decimal(front), digit);
    if front != "" {
      assert front[0] == s[0];
      DecimalIsWritten(front);
      assert Decimal(s) >= 10;
    }
  }

  /** The keys listed first are the numbers below 2^32 - 1 in decimal, in their order. */
  lemma {:induction false} IndicesExactly(key: string, m: nat, n: nat)
    ensures IsIndex(key) <==> exists i | 0 <= i < 4_294_967_295 :: key == Text(i)
    ensures m < 4_294_967_295 && n < 4_294_967_295 ==> (IndexBefore(Text(m), Text(n)) <==> m < n)
    ensures m < 4_294_967_295 && !IsIndex(key) ==> IndexBefore(Text(m), key) && !IndexBefore(key, Text(m))
  {
    if IsIndex(key) {
      DecimalIsWritten(key);
    }
    forall i | 0 <= i < 4_294_967_295 ensures IsIndex(Text(i)) && Decimal(Text(i)) == i {
      TextIsRead(i);
      assert i == 0 ==> Text(i) == "0";
    }
  }
}
