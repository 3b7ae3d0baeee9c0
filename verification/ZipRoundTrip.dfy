/** Archives laid out as in sections 4.3.7, 4.3.12 and 4.3.16 of the PKWARE APPNOTE, and what the reader makes of
    them. */
module ZipRoundTrip {
  import opened Prelude
  import opened ZipArchive

  // ----- Writing -----

  /** Byte `i` of a number, the lowest first. */
  function NumberByte(n: nat, i: nat): Byte {
    if i == 0 then n % 0x100 else NumberByte(n / 0x100, i - 1)
  }

  /** A member with the values of its headers; those the reader does not look at may be anything. */
  datatype Member = Member(
    name: seq<Byte>,
    content: seq<Byte>,
    packed: seq<Byte>,
    compression: nat,
    flags: nat,
    checksum: nat,
    localExtra: seq<Byte>,
    centralExtra: seq<Byte>,
    comment: seq<Byte>,
    filler: nat -> Byte)

  predicate FitsFormat(m: Member) {
    && |m.name| <= MAX16 && |m.localExtra| <= MAX16 && |m.centralExtra| <= MAX16 && |m.comment| <= MAX16
    && m.compression <= MAX16 && m.flags <= MAX16 && m.checksum <= MAX32
    && |m.packed| < MAX32 && |m.content| < MAX32
  }

  function LocalByte(m: Member, i: nat): Byte {
    if i < 4 then NumberByte(LOCAL_SIGNATURE, i)
    else if 26 <= i < 28 then NumberByte(|m.name|, i - 26)
    else if 28 <= i then NumberByte(|m.localExtra|, i - 28)
    else m.filler(i)
  }

  /** The fixed part of a local header. */
  function LocalHeader(m: Member): (h: seq<Byte>)
    ensures |h| == 30
  {
    seq(30, i requires 0 <= i < 30 => LocalByte(m, i))
  }

  function LocalRecord(m: Member): seq<Byte> {
    LocalHeader(m) + m.name + m.localExtra + m.packed
  }

  function CentralByte(m: Member, at: nat, i: nat): Byte {
    if i < 4 then NumberByte(CENTRAL_SIGNATURE, i)
    else if 8 <= i < 10 then NumberByte(m.flags, i - 8)
    else if 10 <= i < 12 then NumberByte(m.compression, i - 10)
    else if 16 <= i < 20 then NumberByte(m.checksum, i - 16)
    else if 20 <= i < 24 then NumberByte(|m.packed|, i - 20)
    else if 24 <= i < 28 then NumberByte(|m.content|, i - 24)
    else if 28 <= i < 30 then NumberByte(|m.name|, i - 28)
    else if 30 <= i < 32 then NumberByte(|m.centralExtra|, i - 30)
    else if 32 <= i < 34 then NumberByte(|m.comment|, i - 32)
    else if 42 <= i then NumberByte(at, i - 42)
    else m.filler(30 + i)
  }

  /** The fixed part of a directory entry for a member whose local header is at `at`. */
  function CentralHeader(m: Member, at: nat): (h: seq<Byte>)
    ensures |h| == 46
  {
    seq(46, i requires 0 <= i < 46 => CentralByte(m, at, i))
  }

  function CentralRecord(m: Member, at: nat): seq<Byte> {
    CentralHeader(m, at) + m.name + m.centralExtra + m.comment
  }

  function EndByte(count: nat, size: nat, offset: nat, comment: seq<Byte>, filler: nat -> Byte, i: nat): Byte {
    if i < 4 then NumberByte(END_SIGNATURE, i)
    else if 10 <= i < 12 then NumberByte(count, i - 10)
    else if 12 <= i < 16 then NumberByte(size, i - 12)
    else if 16 <= i < 20 then NumberByte(offset, i - 16)
    else if 20 <= i then NumberByte(|comment|, i - 20)
    else filler(i)
  }

  function EndHeader(count: nat, size: nat, offset: nat, comment: seq<Byte>, filler: nat -> Byte): (h: seq<Byte>)
    ensures |h| == 22
  {
    seq(22, i requires 0 <= i < 22 => EndByte(count, size, offset, comment, filler, i))
  }

  /** A member and where its local header is. */
  datatype Placed = Placed(member: Member, at: nat)

  function Directory(ps: seq<Placed>): seq<Byte> {
    if ps == [] then [] else CentralRecord(ps[0].member, ps[0].at) + Directory(ps[1..])
  }

  function Place(members: seq<Member>, at: nat): (ps: seq<Placed>)
    ensures |ps| == |members| && forall i | 0 <= i < |ps| :: ps[i].member == members[i]
  {
    if members == [] then [] else [Placed(members[0], at)] + Place(members[1..], at + |LocalRecord(members[0])|)
  }

  function Locals(members: seq<Member>): seq<Byte> {
    if members == [] then [] else LocalRecord(members[0]) + Locals(members[1..])
  }

  /** All local records, the directory, the end record and the comment of the archive. */
  function Archive(members: seq<Member>, comment: seq<Byte>, filler: nat -> Byte): seq<Byte> {
    var locals, directory := Locals(members), Directory(Place(members, 0));
    locals + (directory + (EndHeader(|members|, |directory|, |locals|, comment, filler) + comment))
  }

  /** The records begin with the letters PK and their numbers. */
  lemma RecordsAreSigned(m: Member, at: nat, count: nat, size: nat, offset: nat, comment: seq<Byte>,
                         filler: nat -> Byte)
    ensures LocalRecord(m)[..4] == [0x50, 0x4b, 3, 4]
    ensures CentralRecord(m, at)[..4] == [0x50, 0x4b, 1, 2]
    ensures EndHeader(count, size, offset, comment, filler)[..4] == [0x50, 0x4b, 5, 6]
  {
    SignatureBytes(LOCAL_SIGNATURE, 3, 4);
    SignatureBytes(CENTRAL_SIGNATURE, 1, 2);
    SignatureBytes(END_SIGNATURE, 5, 6);
  }

  lemma {:induction false} SignatureBytes(signature: nat, a: nat, b: nat)
    requires signature == 0x50 + 0x100 * 0x4b + 0x1_0000 * a + 0x100_0000 * b && a < 0x100 && b < 0x100
    ensures NumberByte(signature, 0) == 0x50 && NumberByte(signature, 1) == 0x4b
    ensures NumberByte(signature, 2) == a && NumberByte(signature, 3) == b
  {
    var second := signature / 0x100;
    var third := second / 0x100;
    assert second == 0x4b + 0x100 * (a + 0x100 * b) && third == a + 0x100 * b;
    assert third % 0x100 == a && third / 0x100 == b;
    assert NumberByte(third, 0) == a && NumberByte(third, 1) == NumberByte(b, 0) == b;
    assert NumberByte(second, 1) == a && NumberByte(second, 2) == b;
  }

  // ----- Bytes in place -----

  ghost predicate At(data: seq<Byte>, p: nat, part: seq<Byte>) {
    p + |part| <= |data| && forall i | 0 <= i < |part| :: data[p + i] == part[i]
  }

  lemma AtParts(data: seq<Byte>, p: nat, a: seq<Byte>, b: seq<Byte>, whole: seq<Byte>)
    requires At(data, p, whole) && whole == a + b
    ensures At(data, p, a) && At(data, p + |a|, b)
  {
    forall i | 0 <= i < |a| ensures data[p + i] == a[i] {
      assert whole[i] == a[i];
    }
    forall i | 0 <= i < |b| ensures data[p + |a| + i] == b[i] {
      var k := |a| + i;
      assert data[p + k] == whole[k] == b[i];
    }
  }

  lemma Digit(n: nat)
    ensures n == n % 0x100 + 0x100 * (n / 0x100)
  {
  }

  lemma {:induction false} NumberIsRead(n: nat)
    requires n <= MAX32
    ensures n == NumberByte(n, 0) as int + 0x100 * NumberByte(n, 1) as int
              + 0x1_0000 * (NumberByte(n, 2) as int + 0x100 * NumberByte(n, 3) as int)
    ensures n <= MAX16 ==> n == NumberByte(n, 0) as int + 0x100 * NumberByte(n, 1) as int
  {
    var q1 := n / 0x100;
    var q2 := q1 / 0x100;
    var q3 := q2 / 0x100;
    Digit(n);
    Digit(q1);
    Digit(q2);
    assert NumberByte(n, 1) == NumberByte(q1, 0);
    assert NumberByte(n, 2) == NumberByte(q1, 1) == NumberByte(q2, 0);
    assert NumberByte(n, 3) == NumberByte(q1, 2) == NumberByte(q2, 1) == NumberByte(q3, 0);
    assert q3 < 0x100;
  }

  lemma {:induction false} Read16(data: seq<Byte>, p: nat, n: nat)
    requires p + 2 <= |data| && n <= MAX16 && data[p] == NumberByte(n, 0) && data[p + 1] == NumberByte(n, 1)
    ensures U16(data, p) == n
  {
    NumberIsRead(n);
  }

  lemma {:induction false} Read32(data: seq<Byte>, p: nat, n: nat)
    requires p + 4 <= |data| && n <= MAX32 && data[p] == NumberByte(n, 0) && data[p + 1] == NumberByte(n, 1)
    requires data[p + 2] == NumberByte(n, 2) && data[p + 3] == NumberByte(n, 3)
    ensures U32(data, p) == n
  {
    NumberIsRead(n);
  }

  /** The fields of a local header that is in place. */
  lemma LocalFields(data: seq<Byte>, p: nat, m: Member)
    requires FitsFormat(m) && At(data, p, LocalHeader(m))
    ensures U32(data, p) == LOCAL_SIGNATURE
    ensures U16(data, p + 26) == |m.name| && U16(data, p + 28) == |m.localExtra|
  {
    var h := LocalHeader(m);
    HeaderNumber32(data, p, h, 0, LOCAL_SIGNATURE);
    HeaderNumber16(data, p, h, 26, |m.name|);
    HeaderNumber16(data, p, h, 28, |m.localExtra|);
  }

  lemma {:induction false} HeaderNumber16(data: seq<Byte>, p: nat, h: seq<Byte>, i: nat, n: nat)
    requires At(data, p, h) && i + 2 <= |h| && n <= MAX16
    requires h[i] == NumberByte(n, 0) && h[i + 1] == NumberByte(n, 1)
    ensures U16(data, p + i) == n
  {
    assert data[p + (i + 1)] == h[i + 1];
    Read16(data, p + i, n);
  }

  lemma {:induction false} HeaderNumber32(data: seq<Byte>, p: nat, h: seq<Byte>, i: nat, n: nat)
    requires At(data, p, h) && i + 4 <= |h| && n <= MAX32
    requires h[i] == NumberByte(n, 0) && h[i + 1] == NumberByte(n, 1)
    requires h[i + 2] == NumberByte(n, 2) && h[i + 3] == NumberByte(n, 3)
    ensures U32(data, p + i) == n
  {
    assert data[p + (i + 1)] == h[i + 1] && data[p + (i + 2)] == h[i + 2] && data[p + (i + 3)] == h[i + 3];
    Read32(data, p + i, n);
  }

  /** The fields of a directory entry that is in place. */
  lemma CentralFields(data: seq<Byte>, p: nat, m: Member, at: nat)
    requires FitsFormat(m) && at <= MAX32 && At(data, p, CentralHeader(m, at))
    ensures U32(data, p) == CENTRAL_SIGNATURE
    ensures U16(data, p + 8) == m.flags && U16(data, p + 10) == m.compression && U32(data, p + 16) == m.checksum
    ensures U32(data, p + 20) == |m.packed| && U32(data, p + 24) == |m.content|
    ensures U16(data, p + 28) == |m.name| && U16(data, p + 30) == |m.centralExtra| && U16(data, p + 32) == |m.comment|
    ensures U32(data, p + 42) == at
  {
    var h := CentralHeader(m, at);
    HeaderNumber32(data, p, h, 0, CENTRAL_SIGNATURE);
    HeaderNumber16(data, p, h, 8, m.flags);
    HeaderNumber16(data, p, h, 10, m.compression);
    HeaderNumber32(data, p, h, 16, m.checksum);
    HeaderNumber32(data, p, h, 20, |m.packed|);
    HeaderNumber32(data, p, h, 24, |m.content|);
    HeaderNumber16(data, p, h, 28, |m.name|);
    HeaderNumber16(data, p, h, 30, |m.centralExtra|);
    HeaderNumber16(data, p, h, 32, |m.comment|);
    HeaderNumber32(data, p, h, 42, at);
  }

  lemma EndFields(data: seq<Byte>, p: nat, count: nat, size: nat, offset: nat, comment: seq<Byte>, filler: nat -> Byte)
    requires count <= MAX16 && size <= MAX32 && offset <= MAX32 && |comment| <= MAX16
    requires At(data, p, EndHeader(count, size, offset, comment, filler))
    ensures U32(data, p) == END_SIGNATURE
    ensures U16(data, p + 10) == count && U32(data, p + 12) == size && U32(data, p + 16) == offset
  {
    var h := EndHeader(count, size, offset, comment, filler);
    HeaderNumber32(data, p, h, 0, END_SIGNATURE);
    HeaderNumber16(data, p, h, 10, count);
    HeaderNumber32(data, p, h, 12, size);
    HeaderNumber32(data, p, h, 16, offset);
  }

  // ----- What may be written -----

  function Name(m: Member, lib: Library): string {
    Slashed(lib.decode(m.name))
  }

  /** The entry that a reader finds for a member. */
  function EntryOf(p: Placed, lib: Library): ZipEntry {
    var m := p.member;
    ZipEntry(Name(m, lib), m.compression, m.flags, m.checksum, |m.packed|, |m.content|, p.at)
  }

  ghost predicate ValidMember(m: Member, limits: Limits, lib: Library) {
    && FitsFormat(m)
    && SafeName(Name(m, lib)) && m.flags % 2 == 0 && m.checksum == lib.crc32(m.content)
    && (|m.packed| > 0 ==> |m.content| <= limits.maxCompressionRatio * |m.packed|)
    && match m.compression
       case 0 => m.packed == m.content
       case 8 => lib.inflate(m.packed, |m.content|) == Some(m.content)
       case _ => false
  }

  function ContentSize(ps: seq<Placed>): nat {
    if ps == [] then 0 else |ps[0].member.content| + ContentSize(ps[1..])
  }

  ghost predicate ValidArchive(ps: seq<Placed>, limits: Limits, lib: Library) {
    && |ps| < MAX16 && |ps| <= limits.maxEntries && ContentSize(ps) <= limits.maxExpandedBytes
    && (forall i | 0 <= i < |ps| :: ValidMember(ps[i].member, limits, lib) && ps[i].at <= MAX32)
    && forall i, j | 0 <= i < j < |ps| :: Name(ps[i].member, lib) != Name(ps[j].member, lib)
  }

  /** The records may lie anywhere in the data, with anything between them. */
  ghost predicate LaidOut(data: seq<Byte>, ps: seq<Placed>, directory: nat, end: nat, comment: seq<Byte>,
                          filler: nat -> Byte) {
    && |comment| <= MAX16 && |data| == end + 22 + |comment|
    && directory < MAX32 && |Directory(ps)| < MAX32
    && (forall i | 0 <= i < |ps| :: At(data, ps[i].at, LocalRecord(ps[i].member)))
    && At(data, directory, Directory(ps))
    && At(data, end, EndHeader(|ps|, |Directory(ps)|, directory, comment, filler))
    && NoLaterEnd(data, end)
  }

  /** No later offset, inside the end record or its comment, looks like an end record. */
  ghost predicate NoLaterEnd(data: seq<Byte>, end: int) {
    forall o | end < o <= |data| - 22 :: U32(data, o) != END_SIGNATURE
  }

  // ----- Members -----

  lemma AtSlice(data: seq<Byte>, p: nat, part: seq<Byte>)
    requires At(data, p, part)
    ensures Slice(data, p, p + |part|) == part
  {
  }

  lemma LocalParts(data: seq<Byte>, at: nat, m: Member)
    requires At(data, at, LocalRecord(m))
    ensures At(data, at, LocalHeader(m)) && At(data, at + 30 + |m.name| + |m.localExtra|, m.packed)
  {
    var a := LocalHeader(m) + m.name;
    var b := a + m.localExtra;
    AtParts(data, at, b, m.packed, LocalRecord(m));
    AtParts(data, at, a, m.localExtra, b);
    AtParts(data, at, LocalHeader(m), m.name, a);
  }

  lemma MemberIsRead(data: seq<Byte>, p: Placed, limits: Limits, lib: Library)
    requires ValidMember(p.member, limits, lib) && At(data, p.at, LocalRecord(p.member))
    ensures ZipRead(data, EntryOf(p, lib), lib) == Ok(p.member.content)
  {
    var m := p.member;
    var start := p.at + 30 + |m.name| + |m.localExtra|;
    LocalParts(data, p.at, m);
    LocalFields(data, p.at, m);
    AtSlice(data, start, m.packed);
    PackedIsRead(data, EntryOf(p, lib), start, m.packed, m.content, lib);
  }

  lemma PackedIsRead(data: seq<Byte>, e: ZipEntry, start: nat, packed: seq<Byte>, content: seq<Byte>, lib: Library)
    requires U32(data, e.localOffset) == LOCAL_SIGNATURE
    requires start == e.localOffset + 30 + U16(data, e.localOffset + 26) + U16(data, e.localOffset + 28)
    requires start + |packed| <= |data| && Slice(data, start, start + |packed|) == packed
    requires e.compressedSize == |packed| && e.uncompressedSize == |content| && e.checksum == lib.crc32(content)
    requires if e.compression == 0 then packed == content else lib.inflate(packed, |content|) == Some(content)
    ensures ZipRead(data, e, lib) == Ok(content)
  {
  }

  // ----- Directory entries -----

  lemma CentralParts(data: seq<Byte>, p: nat, m: Member, at: nat)
    requires At(data, p, CentralRecord(m, at))
    ensures At(data, p, CentralHeader(m, at)) && At(data, p + 46, m.name)
  {
    var a := CentralHeader(m, at) + m.name;
    var b := a + m.centralExtra;
    AtParts(data, p, b, m.comment, CentralRecord(m, at));
    AtParts(data, p, a, m.centralExtra, b);
    AtParts(data, p, CentralHeader(m, at), m.name, a);
  }

  lemma EntryIsRead(data: seq<Byte>, p: nat, placed: Placed, total: nat, limits: Limits, lib: Library)
    requires ValidMember(placed.member, limits, lib) && placed.at <= MAX32
    requires At(data, p, CentralRecord(placed.member, placed.at))
    requires total + |placed.member.content| <= limits.maxExpandedBytes
    ensures Reader(data, limits, lib)(p, total) == Ok(EntryOf(placed, lib))
  {
    var m := placed.member;
    CentralParts(data, p, m, placed.at);
    CentralFields(data, p, m, placed.at);
    AtSlice(data, p + 46, m.name);
  }

  lemma NextIsRead(data: seq<Byte>, p: nat, placed: Placed)
    requires FitsFormat(placed.member) && placed.at <= MAX32
    requires At(data, p, CentralRecord(placed.member, placed.at))
    ensures Next(data)(p) == p + |CentralRecord(placed.member, placed.at)|
  {
    CentralParts(data, p, placed.member, placed.at);
    CentralFields(data, p, placed.member, placed.at);
  }

  /** A reader that finds these entries one after the other. */
  ghost predicate Follows(read: EntryReader, next: nat -> nat, p: nat, ps: seq<Placed>, max: nat, lib: Library)
    decreases |ps|
  {
    ps != [] ==>
      && (forall total: nat | total + |ps[0].member.content| <= max :: read(p, total) == Ok(EntryOf(ps[0], lib)))
      && Follows(read, next, next(p), ps[1..], max, lib)
  }

  lemma {:induction false} DirectoryParts(data: seq<Byte>, p: nat, ps: seq<Placed>)
    requires ps != [] && At(data, p, Directory(ps))
    ensures var first := CentralRecord(ps[0].member, ps[0].at);
            At(data, p, first) && At(data, p + |first|, Directory(ps[1..]))
  {
    AtParts(data, p, CentralRecord(ps[0].member, ps[0].at), Directory(ps[1..]), Directory(ps));
  }

  /** Every member is valid and lies where a directory entry can say so. */
  ghost predicate EachValid(ps: seq<Placed>, limits: Limits, lib: Library)
    decreases |ps|
  {
    ps != [] ==> ValidMember(ps[0].member, limits, lib) && ps[0].at <= MAX32 && EachValid(ps[1..], limits, lib)
  }

  lemma {:induction false} ValidIsEachValid(ps: seq<Placed>, limits: Limits, lib: Library)
    requires forall i | 0 <= i < |ps| :: ValidMember(ps[i].member, limits, lib) && ps[i].at <= MAX32
    ensures EachValid(ps, limits, lib)
    decreases |ps|
  {
    if ps != [] {
      ValidIsEachValid(ps[1..], limits, lib);
    }
  }

  lemma {:induction false} ReaderFollows(data: seq<Byte>, p: nat, ps: seq<Placed>, limits: Limits, lib: Library)
    requires EachValid(ps, limits, lib) && At(data, p, Directory(ps))
    ensures Follows(Reader(data, limits, lib), Next(data), p, ps, limits.maxExpandedBytes, lib)
    decreases |ps|
  {
    if ps != [] {
      var n := |CentralRecord(ps[0].member, ps[0].at)|;
      DirectoryParts(data, p, ps);
      FirstFollows(data, p, ps[0], limits, lib);
      ReaderFollows(data, p + n, ps[1..], limits, lib);
    }
  }

  lemma FirstFollows(data: seq<Byte>, p: nat, placed: Placed, limits: Limits, lib: Library)
    requires ValidMember(placed.member, limits, lib) && placed.at <= MAX32
    requires At(data, p, CentralRecord(placed.member, placed.at))
    ensures Next(data)(p) == p + |CentralRecord(placed.member, placed.at)|
    ensures forall total: nat | total + |placed.member.content| <= limits.maxExpandedBytes ::
              Reader(data, limits, lib)(p, total) == Ok(EntryOf(placed, lib))
  {
    NextIsRead(data, p, placed);
    forall total: nat | total + |placed.member.content| <= limits.maxExpandedBytes
      ensures Reader(data, limits, lib)(p, total) == Ok(EntryOf(placed, lib))
    {
      EntryIsRead(data, p, placed, total, limits, lib);
    }
  }

  function Add(entries: map<string, ZipEntry>, ps: seq<Placed>, lib: Library): map<string, ZipEntry>
    decreases |ps|
  {
    if ps == [] then entries
    else Add(entries[Name(ps[0].member, lib) := EntryOf(ps[0], lib)], ps[1..], lib)
  }

  lemma {:induction false} DirectoryIsRead(read: EntryReader, next: nat -> nat, p: nat, ps: seq<Placed>,
                                           entries: map<string, ZipEntry>, total: nat, max: nat, lib: Library)
    requires Follows(read, next, p, ps, max, lib) && total + ContentSize(ps) <= max
    ensures ReadDirectory(read, next, p, |ps|, entries, total) == Ok(Add(entries, ps, lib))
    decreases |ps|
  {
    if ps != [] {
      var e := EntryOf(ps[0], lib);
      assert read(p, total) == Ok(e);
      DirectoryIsRead(read, next, next(p), ps[1..], entries[e.name := e], total + e.uncompressedSize, max, lib);
    }
  }

  lemma {:induction false} AddKeeps(entries: map<string, ZipEntry>, ps: seq<Placed>, lib: Library, name: string)
    requires forall i | 0 <= i < |ps| :: Name(ps[i].member, lib) != name
    ensures name in Add(entries, ps, lib) <==> name in entries
    ensures name in entries ==> Add(entries, ps, lib)[name] == entries[name]
    decreases |ps|
  {
    if ps != [] {
      AddKeeps(entries[Name(ps[0].member, lib) := EntryOf(ps[0], lib)], ps[1..], lib, name);
    }
  }

  lemma {:induction false} AddHolds(entries: map<string, ZipEntry>, ps: seq<Placed>, lib: Library, i: nat)
    requires forall i, j | 0 <= i < j < |ps| :: Name(ps[i].member, lib) != Name(ps[j].member, lib)
    requires i < |ps|
    ensures var name := Name(ps[i].member, lib);
            name in Add(entries, ps, lib) && Add(entries, ps, lib)[name] == EntryOf(ps[i], lib)
    decreases |ps|
  {
    var after := entries[Name(ps[0].member, lib) := EntryOf(ps[0], lib)];
    if i == 0 {
      AddKeeps(after, ps[1..], lib, Name(ps[0].member, lib));
    } else {
      AddHolds(after, ps[1..], lib, i - 1);
    }
  }

  // ----- Round trip -----

  function Members(ps: seq<Placed>): (members: seq<Member>)
    ensures |members| == |ps| && forall i | 0 <= i < |ps| :: members[i] == ps[i].member
  {
    if ps == [] then [] else [ps[0].member] + Members(ps[1..])
  }

  lemma {:induction false} MembersOfPlace(members: seq<Member>, at: nat)
    ensures Members(Place(members, at)) == members
  {
  }

  /** The entries are those of the members and nothing else, and reading one gives the member's content. */
  ghost predicate HoldsExactly(data: seq<Byte>, entries: map<string, ZipEntry>, members: seq<Member>, lib: Library) {
    && (forall i | 0 <= i < |members| ::
          && Name(members[i], lib) in entries
          && ZipRead(data, entries[Name(members[i], lib)], lib) == Ok(members[i].content))
    && forall name | name in entries :: Named(members, name, lib)
  }

  predicate Named(members: seq<Member>, name: string, lib: Library) {
    exists i | 0 <= i < |members| :: Name(members[i], lib) == name
  }

  /** The archive's own end record is the one found exactly when no later offset, inside the record or its comment,
      looks like one. */
  lemma {:induction false} EndIsFoundExactly(data: seq<Byte>, end: nat, comment: seq<Byte>)
    requires |comment| <= MAX16 && |data| == end + 22 + |comment| && U32(data, end) == END_SIGNATURE
    ensures FindEnd(data, |data| - 22, SearchStart(data)) == end <==> NoLaterEnd(data, end)
  {
    var found := FindEnd(data, |data| - 22, SearchStart(data));
    if found == end {
      assert forall o | end < o <= |data| - 22 :: U32(data, o) != END_SIGNATURE;
    }
  }

  /** An archive that is laid out in any order is read back: every member under its name, with its content. */
  lemma LaidOutIsReadBack(data: seq<Byte>, ps: seq<Placed>, directory: nat, end: nat, comment: seq<Byte>,
                          filler: nat -> Byte, limits: Limits, lib: Library) returns (entries: map<string, ZipEntry>)
    requires ValidArchive(ps, limits, lib) && LaidOut(data, ps, directory, end, comment, filler)
    ensures Entries(data, limits, lib) == Ok(entries)
    ensures HoldsExactly(data, entries, Members(ps), lib)
  {
    entries := Add(map[], ps, lib);
    EntriesAreAdded(data, ps, directory, end, comment, filler, limits, lib);
    var members := Members(ps);
    forall i | 0 <= i < |members|
      ensures Name(members[i], lib) in entries
      ensures ZipRead(data, entries[Name(members[i], lib)], lib) == Ok(members[i].content)
    {
      AddHolds(map[], ps, lib, i);
      MemberIsRead(data, ps[i], limits, lib);
    }
    forall name | name in entries ensures Named(members, name, lib) {
      if !Named(members, name, lib) {
        assert forall i | 0 <= i < |ps| :: members[i] == ps[i].member;
        AddKeeps(map[], ps, lib, name);
      }
    }
  }

  lemma {:induction false} EntriesAreAdded(data: seq<Byte>, ps: seq<Placed>, directory: nat, end: nat,
                                           comment: seq<Byte>, filler: nat -> Byte, limits: Limits, lib: Library)
    requires ValidArchive(ps, limits, lib) && LaidOut(data, ps, directory, end, comment, filler)
    ensures Entries(data, limits, lib) == Ok(Add(map[], ps, lib))
  {
    var size := |Directory(ps)|;
    EndFields(data, end, |ps|, size, directory, comment, filler);
    EndIsFoundExactly(data, end, comment);
    ValidIsEachValid(ps, limits, lib);
    ReaderFollows(data, directory, ps, limits, lib);
    DirectoryIsRead(Reader(data, limits, lib), Next(data), directory, ps, map[], 0, limits.maxExpandedBytes, lib);
  }

  lemma {:induction false} LocalsInPlace(data: seq<Byte>, p: nat, members: seq<Member>)
    requires At(data, p, Locals(members))
    ensures forall i | 0 <= i < |members| :: At(data, Place(members, p)[i].at, LocalRecord(members[i]))
    decreases |members|
  {
    if members != [] {
      var first, rest := LocalRecord(members[0]), Locals(members[1..]);
      AtParts(data, p, first, rest, Locals(members));
      LocalsInPlace(data, p + |first|, members[1..]);
    }
  }

  /** Written in the usual order, the members, the directory and the end record are all in place. */
  lemma ArchiveIsLaidOut(data: seq<Byte>, members: seq<Member>, comment: seq<Byte>, filler: nat -> Byte)
    returns (end: nat)
    requires |comment| <= MAX16 && |Locals(members)| < MAX32 && |Directory(Place(members, 0))| < MAX32
    requires data == Archive(members, comment, filler) && NoLaterEnd(data, |data| - 22 - |comment|)
    ensures LaidOut(data, Place(members, 0), |Locals(members)|, end, comment, filler)
  {
    var ps := Place(members, 0);
    var locals, directory := Locals(members), Directory(ps);
    var header := EndHeader(|members|, |directory|, |locals|, comment, filler);
    end := |locals| + |directory|;
    assert At(data, 0, data);
    AtParts(data, 0, locals, directory + (header + comment), data);
    AtParts(data, |locals|, directory, header + comment, directory + (header + comment));
    AtParts(data, end, header, comment, header + comment);
    LocalsInPlace(data, 0, members);
  }

  /** An archive is read back to exactly its members, if nothing after the start of its end record looks like another
      one. */
  lemma ArchiveIsReadBack(data: seq<Byte>, members: seq<Member>, comment: seq<Byte>, filler: nat -> Byte,
                          limits: Limits, lib: Library)
    returns (entries: map<string, ZipEntry>)
    requires data == Archive(members, comment, filler) && ValidArchive(Place(members, 0), limits, lib)
    requires |comment| <= MAX16 && |Locals(members)| < MAX32 && |Directory(Place(members, 0))| < MAX32
    requires NoLaterEnd(data, |data| - 22 - |comment|)
    ensures Entries(data, limits, lib) == Ok(entries)
    ensures HoldsExactly(data, entries, members, lib)
  {
    var ps := Place(members, 0);
    var end := ArchiveIsLaidOut(data, members, comment, filler);
    entries := LaidOutIsReadBack(data, ps, |Locals(members)|, end, comment, filler, limits, lib);
    MembersOfPlace(members, 0);
  }
}
