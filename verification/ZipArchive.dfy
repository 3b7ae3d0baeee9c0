/** Reading of ZIP archives, `zipEntries` and `zipRead` (packages/desktop-host/src/phase2/documents.ts), on arbitrary
    bytes. Numbers are little-endian, as everywhere in the PKWARE APPNOTE. */
module ZipArchive {
  import opened Prelude

  const END_SIGNATURE: nat := 0x06054b50
  const CENTRAL_SIGNATURE: nat := 0x02014b50
  const LOCAL_SIGNATURE: nat := 0x04034b50
  const MAX16: nat := 0xffff
  const MAX32: nat := 0xffff_ffff

  /** Reading outside of an array gives `undefined`, which counts as zero in bit operations. */
  function ByteAt(data: seq<Byte>, i: int): Byte {
    if 0 <= i < |data| then data[i] else 0
  }

  function U16(data: seq<Byte>, i: int): nat {
    ByteAt(data, i) as int + 0x100 * ByteAt(data, i + 1) as int
  }

  function U32(data: seq<Byte>, i: int): nat {
    U16(data, i) + 0x1_0000 * U16(data, i + 2)
  }

  /** `data.slice(from, to)`. */
  function Slice(data: seq<Byte>, from: nat, to: nat): seq<Byte>
    requires from <= to
  {
    if to <= |data| then data[from..to] else if from <= |data| then data[from..] else []
  }

  datatype Limits = Limits(maxEntries: nat, maxExpandedBytes: nat, maxCompressionRatio: nat)

  /** Decoding of names, the checksum, and decompression up to a number of bytes. */
  datatype Library = Library(
    decode: seq<Byte> -> string,
    crc32: seq<Byte> -> nat,
    inflate: (seq<Byte>, nat) -> Option<seq<Byte>>)

  datatype ZipEntry = ZipEntry(
    name: string,
    compression: nat,
    flags: nat,
    checksum: nat,
    compressedSize: nat,
    uncompressedSize: nat,
    localOffset: nat)

  datatype Error =
    | NoDirectory
    | DirectoryTooLarge
    | InvalidDirectoryEntry
    | PathTraversal
    | Unsupported
    | ExpandsTooMuch
    | UnknownMethod
    | InvalidLocalEntry
    | Truncated
    | CannotInflate
    | SizeMismatch
    | ChecksumMismatch

  // ----- The directory -----

  /** The last offset from `start` on where an end record may begin, -1 if there is none. */
  function FindEnd(data: seq<Byte>, offset: int, start: nat): (end: int)
    ensures end == -1 || (start <= end <= offset && U32(data, end) == END_SIGNATURE)
    ensures forall o | start <= o <= offset && o > end :: U32(data, o) != END_SIGNATURE
    decreases offset
  {
    if offset < start then -1
    else if U32(data, offset) == END_SIGNATURE then offset
    else FindEnd(data, offset - 1, start)
  }

  function SearchStart(data: seq<Byte>): nat {
    if |data| < 65_557 then 0 else |data| - 65_557
  }

  /** An end record is looked for, and found if there is one, among the last 65557 bytes. */
  lemma {:induction false} EndIsSearchedExactly(data: seq<Byte>)
    ensures FindEnd(data, |data| - 22, SearchStart(data)) >= 0
       <==> exists o :: |data| - 65_557 <= o && LooksLikeEnd(data, o)
  {
    forall o | 0 <= o <= |data| - 22 ensures U32(data, o) == END_SIGNATURE <==> LooksLikeEnd(data, o) {
      assert data[o..o + 4] == [data[o], data[o + 1], data[o + 2], data[o + 3]];
    }
    var end := FindEnd(data, |data| - 22, SearchStart(data));
    assert end >= 0 ==> LooksLikeEnd(data, end);
  }

  predicate LooksLikeEnd(data: seq<Byte>, o: int) {
    0 <= o <= |data| - 22 && data[o..o + 4] == [0x50, 0x4b, 5, 6]
  }

  function Slashed(name: string): string {
    if name == "" then "" else [if name[0] == '\\' then '/' else name[0]] + Slashed(name[1..])
  }

  /** `name.split('/')`. */
  function Segments(name: string): (parts: seq<string>)
    ensures |parts| > 0
  {
    if name == "" then [""]
    else
      var rest := Segments(name[1..]);
      if name[0] == '/' then [""] + rest else [[name[0]] + rest[0]] + rest[1..]
  }

  predicate SafeName(name: string) {
    '\0' !in name && !("/" <= name) && ".." !in Segments(name)
  }

  /** A part without slashes stands at `i` between slashes or the ends of the name. */
  predicate StandsAt(name: string, part: string, i: nat) {
    var end := i + |part|;
    && end <= |name| && name[i..end] == part
    && (i == 0 || name[i - 1] == '/') && (end == |name| || name[end] == '/')
  }

  lemma {:induction false} StandsLater(name: string, part: string, i: nat)
    requires name != ""
    ensures i > 0 && StandsAt(name, part, i) ==> StandsAt(name[1..], part, i - 1)
    ensures StandsAt(name[1..], part, i) && (i > 0 || name[0] == '/') ==> StandsAt(name, part, i + 1)
  {
    if i + |part| < |name| {
      assert name[i + 1..i + 1 + |part|] == name[1..][i..i + |part|];
    }
    if 0 < i && i + |part| <= |name| {
      assert name[i..i + |part|] == name[1..][i - 1..i - 1 + |part|];
    }
  }

  lemma {:induction false} FirstSegment(name: string, part: string)
    requires '/' !in part
    ensures Segments(name)[0] == part <==> StandsAt(name, part, 0)
  {
    if name == "" {
      assert StandsAt(name, part, 0) ==> part == name[0..0];
    } else if name[0] == '/' {
      assert name[0..0] == "";
      if part != "" && |part| <= |name| {
        assert name[0..|part|][0] == '/';
      }
    } else if part == "" {
      assert !StandsAt(name, part, 0);
    } else {
      FirstSegment(name[1..], part[1..]);
      if |part| <= |name| {
        assert name[0..|part|] == [name[0]] + name[1..][0..|part| - 1];
      }
      assert part == [part[0]] + part[1..];
    }
  }

  lemma {:induction false} LaterSegments(name: string, part: string)
    requires '/' !in part
    ensures part in Segments(name)[1..] <==> exists i: nat :: i > 0 && StandsAt(name, part, i)
  {
    if name != "" {
      var rest := Segments(name[1..]);
      LaterSegments(name[1..], part);
      FirstSegment(name[1..], part);
      if i: nat :| i > 0 && StandsAt(name, part, i) {
        StandsLater(name, part, i);
        assert StandsAt(name[1..], part, i - 1);
      }
      if i: nat :| StandsAt(name[1..], part, i) && (i > 0 || name[0] == '/') {
        StandsLater(name, part, i);
        assert StandsAt(name, part, i + 1);
      }
      assert rest == [rest[0]] + rest[1..];
      assert Segments(name)[1..] == if name[0] == '/' then rest else rest[1..];
    }
  }

  /** A name is safe exactly if it holds no NUL, does not begin with a slash, and has no two dots alone between slashes
      or ends. */
  lemma SafeNameExactly(name: string)
    ensures SafeName(name)
       <==> '\0' !in name && (name != "" ==> name[0] != '/') && !exists i: nat :: StandsAt(name, "..", i)
  {
    FirstSegment(name, "..");
    LaterSegments(name, "..");
    assert Segments(name) == [Segments(name)[0]] + Segments(name)[1..];
  }

  lemma {:induction false} SlashedExactly(name: string)
    ensures |Slashed(name)| == |name|
    ensures forall i | 0 <= i < |name| :: Slashed(name)[i] == if name[i] == '\\' then '/' else name[i]
  {
    if name != "" {
      SlashedExactly(name[1..]);
    }
  }

  function NameLength(data: seq<Byte>, offset: nat): nat {
    U16(data, offset + 28)
  }

  function EntryName(data: seq<Byte>, offset: nat, lib: Library): string {
    Slashed(lib.decode(Slice(data, offset + 46, offset + 46 + NameLength(data, offset))))
  }

  /** The directory entry at `offset`, when `total` bytes are declared before it. */
  function ReadEntry(data: seq<Byte>, offset: nat, total: nat, limits: Limits, lib: Library): Result<ZipEntry, Error> {
    if offset + 46 > |data| || U32(data, offset) != CENTRAL_SIGNATURE then Err(InvalidDirectoryEntry)
    else
      var e := ZipEntry(
        EntryName(data, offset, lib), U16(data, offset + 10), U16(data, offset + 8), U32(data, offset + 16),
        U32(data, offset + 20), U32(data, offset + 24), U32(data, offset + 42));
      if !SafeName(e.name) then Err(PathTraversal)
      else if e.flags % 2 != 0 || e.uncompressedSize == MAX32 || e.compressedSize == MAX32 then Err(Unsupported)
      else if e.uncompressedSize > limits.maxExpandedBytes || total + e.uncompressedSize > limits.maxExpandedBytes
              || (e.compressedSize > 0 && e.uncompressedSize > limits.maxCompressionRatio * e.compressedSize)
        then Err(ExpandsTooMuch)
      else if e.compression != 0 && e.compression != 8 then Err(UnknownMethod)
      else Ok(e)
  }

  function NextOffset(data: seq<Byte>, offset: nat): nat {
    offset + 46 + NameLength(data, offset) + U16(data, offset + 30) + U16(data, offset + 32)
  }

  /** Reads the entry at an offset, when so many bytes are declared before it. */
  type EntryReader = (nat, nat) -> Result<ZipEntry, Error>

  function Reader(data: seq<Byte>, limits: Limits, lib: Library): EntryReader {
    (offset: nat, total: nat) => ReadEntry(data, offset, total, limits, lib)
  }

  function Next(data: seq<Byte>): nat -> nat {
    (offset: nat) => NextOffset(data, offset)
  }

  /** Reads `count` more entries; one that repeats a name replaces the earlier one. */
  function ReadDirectory(read: EntryReader, next: nat -> nat, offset: nat, count: nat, entries: map<string, ZipEntry>,
                         total: nat): Result<map<string, ZipEntry>, Error>
    decreases count
  {
    if count == 0 then Ok(entries)
    else
      match read(offset, total)
      case Err(error) => Err(error)
      case Ok(e) =>
        ReadDirectory(read, next, next(offset), count - 1, entries[e.name := e], total + e.uncompressedSize)
  }

  function Entries(data: seq<Byte>, limits: Limits, lib: Library): Result<map<string, ZipEntry>, Error> {
    var end := FindEnd(data, |data| - 22, SearchStart(data));
    if end < 0 then Err(NoDirectory)
    else
      var count, size, offset := U16(data, end + 10), U32(data, end + 12), U32(data, end + 16);
      if count == MAX16 || size == MAX32 || offset == MAX32 || count > limits.maxEntries || offset + size > |data|
        then Err(DirectoryTooLarge)
      else ReadDirectory(Reader(data, limits, lib), Next(data), offset, count, map[], 0)
  }

  method ZipEntries(data: seq<Byte>, limits: Limits, lib: Library)
    returns (entries: Result<map<string, ZipEntry>, Error>)
    ensures entries == Entries(data, limits, lib)
  {
    var start := SearchStart(data);
    var offset, end := |data| - 22, -1;
    while offset >= start && end < 0
      invariant end < 0 ==> FindEnd(data, offset, start) == FindEnd(data, |data| - 22, start)
      invariant end < 0 ==> end == -1
      invariant end >= 0 ==> end == FindEnd(data, |data| - 22, start)
      decreases offset - start, -end
    {
      if U32(data, offset) == END_SIGNATURE {
        end := offset;
      } else {
        offset := offset - 1;
      }
    }
    if end < 0 {
      return Err(NoDirectory);
    }
    var count, directorySize, directoryOffset := U16(data, end + 10), U32(data, end + 12), U32(data, end + 16);
    if count == MAX16 || directorySize == MAX32 || directoryOffset == MAX32 || count > limits.maxEntries
       || directoryOffset + directorySize > |data| {
      return Err(DirectoryTooLarge);
    }
    entries := ReadAll(Reader(data, limits, lib), Next(data), directoryOffset, count);
  }

  method ReadAll(read: EntryReader, next: nat -> nat, directoryOffset: nat, count: nat)
    returns (entries: Result<map<string, ZipEntry>, Error>)
    ensures entries == ReadDirectory(read, next, directoryOffset, count, map[], 0)
  {
    var result: map<string, ZipEntry>, offset: nat, expandedTotal: nat := map[], directoryOffset, 0;
    for index := 0 to count
      invariant ReadDirectory(read, next, offset, count - index, result, expandedTotal)
             == ReadDirectory(read, next, directoryOffset, count, map[], 0)
    {
      var entry := read(offset, expandedTotal);
      if entry.Err? {
        return Err(entry.error);
      }
      result := result[entry.value.name := entry.value];
      expandedTotal := expandedTotal + entry.value.uncompressedSize;
      offset := next(offset);
    }
    entries := Ok(result);
  }

  /** Which directory entries are accepted, and with which name: those that are whole, not encrypted, not ZIP64, stored
      or deflated, within the limits, and safely named once backslashes are slashes. */
  lemma EntryIsAcceptedExactly(data: seq<Byte>, offset: nat, total: nat, limits: Limits, lib: Library)
    requires offset + 46 <= |data|
    ensures var r := ReadEntry(data, offset, total, limits, lib);
            var name := Slashed(lib.decode(Slice(data, offset + 46, offset + 46 + U16(data, offset + 28))));
            var compressed, size := U32(data, offset + 20), U32(data, offset + 24);
            && (r.Ok? <==>
                  && data[offset..offset + 4] == [0x50, 0x4b, 1, 2] && SafeName(name)
                  && data[offset + 8] % 2 == 0 && U16(data, offset + 10) in {0, 8}
                  && compressed < 0xffff_ffff && size < 0xffff_ffff
                  && total + size <= limits.maxExpandedBytes
                  && (compressed == 0 || size <= limits.maxCompressionRatio * compressed))
            && (r.Ok? ==>
                  r.value.name == name && r.value.compressedSize == compressed && r.value.uncompressedSize == size)
  {
    var a, b, c, d := data[offset], data[offset + 1], data[offset + 2], data[offset + 3];
    assert data[offset..offset + 4] == [a, b, c, d];
    assert U32(data, offset) == 0x02014b50 <==> a == 0x50 && b == 0x4b && c == 1 && d == 2;
    assert U16(data, offset + 8) % 2 == data[offset + 8] % 2;
  }

  // ----- Members -----

  function ZipRead(data: seq<Byte>, e: ZipEntry, lib: Library): (content: Result<seq<Byte>, Error>)
    ensures content.Ok? ==> |content.value| == e.uncompressedSize && lib.crc32(content.value) == e.checksum
  {
    if U32(data, e.localOffset) != LOCAL_SIGNATURE then Err(InvalidLocalEntry)
    else
      var start := e.localOffset + 30 + U16(data, e.localOffset + 26) + U16(data, e.localOffset + 28);
      if start + e.compressedSize > |data| then Err(Truncated)
      else
        var compressed := Slice(data, start, start + e.compressedSize);
        match if e.compression == 0 then Some(compressed) else lib.inflate(compressed, e.uncompressedSize)
        case None => Err(CannotInflate)
        case Some(value) =>
          if |value| != e.uncompressedSize then Err(SizeMismatch)
          else if lib.crc32(value) != e.checksum then Err(ChecksumMismatch)
          else Ok(value)
  }

  // ----- Limits, on arbitrary bytes -----

  /** The bytes that all entries of a map declare together. */
  ghost function Declared(m: map<string, ZipEntry>): nat {
    if m == map[] then 0
    else
      var name :| name in m;
      m[name].uncompressedSize + Declared(m - {name})
  }

  lemma {:induction false} DeclaredSplit(m: map<string, ZipEntry>, name: string)
    requires name in m
    ensures Declared(m) == m[name].uncompressedSize + Declared(m - {name})
  {
    var first :| first in m && Declared(m) == m[first].uncompressedSize + Declared(m - {first});
    if first != name {
      DeclaredSplit(m - {first}, name);
      DeclaredSplit(m - {name}, first);
      assert m - {first} - {name} == m - {name} - {first};
    }
  }

  lemma {:induction false} DeclaredAfterSet(m: map<string, ZipEntry>, e: ZipEntry, after: map<string, ZipEntry>)
    requires after == m[e.name := e]
    ensures Declared(after) <= Declared(m) + e.uncompressedSize
  {
    DeclaredSplit(after, e.name);
    assert after - {e.name} == m - {e.name};
    if e.name in m {
      DeclaredSplit(m, e.name);
    } else {
      assert m - {e.name} == m;
    }
  }

  lemma SizeAfterSet(m: map<string, ZipEntry>, e: ZipEntry)
    ensures |m[e.name := e]| <= |m| + 1
  {
    assert m[e.name := e].Keys == m.Keys + {e.name};
  }

  predicate Acceptable(e: ZipEntry, limits: Limits) {
    && SafeName(e.name) && e.flags % 2 == 0 && (e.compression == 0 || e.compression == 8)
    && (e.compressedSize > 0 ==> e.uncompressedSize <= limits.maxCompressionRatio * e.compressedSize)
  }

  ghost predicate WithinLimits(m: map<string, ZipEntry>, limits: Limits) {
    && |m| <= limits.maxEntries
    && Declared(m) <= limits.maxExpandedBytes
    && forall name | name in m :: m[name].name == name && Acceptable(m[name], limits)
  }

  /** A condition on the entries so far, the bytes declared so far, and the number of entries still to read. */
  type Condition = (map<string, ZipEntry>, nat, nat) -> bool

  /** What every entry keeps, the directory keeps. */
  lemma {:induction false} DirectoryKeeps(read: EntryReader, next: nat -> nat, offset: nat, count: nat,
                                          entries: map<string, ZipEntry>, total: nat, holds: Condition)
    requires holds(entries, total, count)
    requires forall m, t: nat, c: nat, o: nat, e | holds(m, t, c) && c > 0 && read(o, t) == Ok(e) ::
               holds(m[e.name := e], t + e.uncompressedSize, c - 1)
    ensures var r := ReadDirectory(read, next, offset, count, entries, total);
            r.Ok? ==> exists t: nat :: holds(r.value, t, 0)
    decreases count
  {
    if count > 0 && read(offset, total).Ok? {
      var e := read(offset, total).value;
      DirectoryKeeps(read, next, next(offset), count - 1, entries[e.name := e], total + e.uncompressedSize, holds);
    }
  }

  ghost predicate OnTheWay(m: map<string, ZipEntry>, total: nat, count: nat, limits: Limits) {
    && |m| + count <= limits.maxEntries
    && Declared(m) <= total <= limits.maxExpandedBytes
    && forall name | name in m :: m[name].name == name && Acceptable(m[name], limits)
  }

  lemma EntryStaysWithinLimits(m: map<string, ZipEntry>, total: nat, count: nat, e: ZipEntry, limits: Limits)
    requires OnTheWay(m, total, count, limits) && count > 0
    requires Acceptable(e, limits) && total + e.uncompressedSize <= limits.maxExpandedBytes
    ensures OnTheWay(m[e.name := e], total + e.uncompressedSize, count - 1, limits)
  {
    DeclaredAfterSet(m, e, m[e.name := e]);
    SizeAfterSet(m, e);
  }

  lemma ReaderGuards(data: seq<Byte>, limits: Limits, lib: Library, offset: nat, total: nat, e: ZipEntry)
    requires Reader(data, limits, lib)(offset, total) == Ok(e)
    ensures Acceptable(e, limits) && total + e.uncompressedSize <= limits.maxExpandedBytes
  {
  }

  lemma {:induction false} DirectoryIsWithinLimits(data: seq<Byte>, limits: Limits, lib: Library, offset: nat,
                                                   count: nat)
    requires count <= limits.maxEntries
    ensures var r := ReadDirectory(Reader(data, limits, lib), Next(data), offset, count, map[], 0);
            r.Ok? ==> WithinLimits(r.value, limits)
  {
    var read := Reader(data, limits, lib);
    var holds: Condition := (m: map<string, ZipEntry>, t: nat, c: nat) => OnTheWay(m, t, c, limits);
    forall m, t: nat, c: nat, o: nat, e | holds(m, t, c) && c > 0 && read(o, t) == Ok(e)
      ensures holds(m[e.name := e], t + e.uncompressedSize, c - 1)
    {
      ReaderGuards(data, limits, lib, o, t, e);
      EntryStaysWithinLimits(m, t, c, e, limits);
    }
    DirectoryKeeps(read, Next(data), offset, count, map[], 0, holds);
  }

  /** Whatever the bytes are, an accepted directory stays within the limits, repeated names or not. */
  lemma EntriesAreWithinLimits(data: seq<Byte>, limits: Limits, lib: Library)
    ensures var r := Entries(data, limits, lib); r.Ok? ==> WithinLimits(r.value, limits)
  {
    var end := FindEnd(data, |data| - 22, SearchStart(data));
    if end >= 0 && U16(data, end + 10) <= limits.maxEntries {
      DirectoryIsWithinLimits(data, limits, lib, U32(data, end + 16), U16(data, end + 10));
    }
  }
}
