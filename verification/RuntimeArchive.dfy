/**
  The embedded runtime archive: the writer of the build script and the reader of the
  editor must agree on every file.
 */
module RuntimeArchive {
  import opened Wrappers
  import opened Utf8
  import opened ByteOrder

  const MAX_FILES := 10000
  const MAX_FILE_SIZE := 64 * 1024 * 1024
  const MAGIC: seq<byte> := [0x41, 0x4E, 0x56, 0x52, 0x54, 0x30, 0x30, 0x31]
  const IDENTIFIER_SIZE := 16
  const ENTRY_SIZE := 22

  const SLASH: byte := 0x2F
  const BACKSLASH: byte := 0x5C
  const COLON: byte := 0x3A
  const DOT: byte := 0x2E

  datatype File = File(name: seq<byte>, content: seq<byte>)

  /** Compression and checksum; `inflate` gives at most as many bytes as it has room for. */
  datatype Zlib = Zlib(
    deflate: seq<byte> -> seq<byte>, inflate: (seq<byte>, nat) -> Option<seq<byte>>, crc: seq<byte> -> nat)

  ghost predicate IsZlib(z: Zlib) {
    && (forall x: seq<byte>, room: nat :: |x| <= room ==> z.inflate(z.deflate(x), room) == Some(x))
    && (forall x: seq<byte> :: z.crc(x) < 0x1_0000_0000)
    && (forall x: seq<byte> :: |x| <= MAX_FILE_SIZE ==> |z.deflate(x)| < 0x1_0000_0000_0000_0000)
  }

  /** Storing everything as it is is a compression. */
  lemma StoredIsZlib()
    ensures IsZlib(Zlib((x: seq<byte>) => x, (x: seq<byte>, room: nat) => Some(x), (x: seq<byte>) => 0))
  {
  }

  // ---- Names ----

  function IsSeparator(b: byte): bool {
    b == SLASH || b == BACKSLASH
  }

  /** The components between separators; there is always a last one. */
  function Components(name: seq<byte>): (parts: seq<seq<byte>>)
    ensures |parts| >= 1
  {
    if name == [] then [[]]
    else
      var rest := Components(name[1..]);
      if IsSeparator(name[0]) then [[]] + rest else [[name[0]] + rest[0]] + rest[1..]
  }

  predicate IsBad(part: seq<byte>) {
    part == [] || part == [DOT] || part == [DOT, DOT]
  }

  predicate AllGood(parts: seq<seq<byte>>) {
    forall k :: 0 <= k < |parts| ==> !IsBad(parts[k])
  }

  /** A name that stays below the directory it is extracted to. */
  predicate SafeName(name: seq<byte>) {
    !(|name| >= 2 && name[1] == COLON) && AllGood(Components(name))
  }

  /** The first component, and what follows its separator. */
  lemma {:induction false} FirstComponent(name: seq<byte>, n: nat)
    requires n <= |name| && (forall k :: 0 <= k < n ==> !IsSeparator(name[k])) && (n < |name| ==> IsSeparator(name[n]))
    ensures Components(name) == [name[..n]] + if n < |name| then Components(name[n + 1..]) else []
    decreases n
  {
    if n > 0 {
      FirstComponent(name[1..], n - 1);
      assert name[1..][..n - 1] == name[1..n] && name[..n] == [name[0]] + name[1..n];
      assert n < |name| ==> name[1..][n - 1 + 1..] == name[n + 1..];
    }
  }

  /** Scans the components of a name. */
  method SafeArchiveName(name: seq<byte>) returns (ok: bool)
    ensures ok <==> SafeName(name)
  {
    hide Components, AllGood;
    if |name| == 0 || name[0] == SLASH || name[0] == BACKSLASH {
      NextPart(name, 0, 0);
      assert name[0..] == name;
      return false;
    }
    if |name| >= 2 && name[1] == COLON {
      return false;
    }
    var start: nat, index: nat := 0, 0;
    assert name[0..] == name;
    while index <= |name|
      invariant start <= index <= |name| + 1 && start <= |name| + 1
      invariant forall k :: start <= k < index && k < |name| ==> !IsSeparator(name[k])
      invariant index == |name| + 1 ==> start == index
      invariant AllGood(Components(name)) <==> start > |name| || AllGood(Components(name[start..]))
      decreases |name| + 1 - index
    {
      if index < |name| && !IsSeparator(name[index]) {
        index := index + 1;
        continue;
      }
      NextPart(name, start, index);
      var length := index - start;
      var dot := length == 1 && name[start] == DOT;
      var dotDot := length == 2 && name[start] == DOT && name[start + 1] == DOT;
      if length == 0 || dot || dotDot {
        return false;
      }
      start := index + 1;
      index := index + 1;
    }
    return true;
  }

  /** How many directories deep a path has gone after some of its components; None above the start. */
  function Depth(parts: seq<seq<byte>>): Option<nat> {
    if parts == [] then Some(0)
    else
      var before, last := Depth(parts[..|parts| - 1]), parts[|parts| - 1];
      if before.None? then None
      else if last == [] || last == [DOT] then before
      else if last != [DOT, DOT] then Some(before.value + 1)
      else if before.value > 0 then Some(before.value - 1)
      else None
  }

  ghost predicate GoesDown(parts: seq<seq<byte>>) {
    forall k :: 0 <= k <= |parts| ==> Depth(parts[..k]) == Some(k)
  }

  /** A safe name is one that goes one directory down with every component, and names no drive. */
  lemma {:induction false} SafeNamesGoDown(name: seq<byte>)
    ensures SafeName(name) <==> !(|name| >= 2 && name[1] == COLON) && GoesDown(Components(name))
  {
    GoodGoesDown(Components(name));
    hide Components;
  }

  lemma {:induction false} GoodGoesDown(parts: seq<seq<byte>>)
    ensures AllGood(parts) <==> GoesDown(parts)
  {
    if parts == [] {
      assert parts[..0] == [];
    } else {
      var n := |parts| - 1;
      var front, last := parts[..n], parts[n];
      assert parts == front + [last];
      GoodGoesDown(front);
      DownFront(front, last);
      DownLast(front, last);
      assert AllGood(parts) <==> AllGood(front) && !IsBad(last) by {
        hide IsBad;
        assert forall k :: 0 <= k < n ==> front[k] == parts[k];
      }
      hide AllGood, GoesDown, IsBad, Depth;
    }
  }

  lemma {:induction false} DownFront(front: seq<seq<byte>>, last: seq<byte>)
    ensures GoesDown(front + [last]) <==> GoesDown(front) && Depth(front + [last]) == Some(|front| + 1)
    ensures GoesDown(front) ==> Depth(front) == Some(|front|)
  {
    hide Depth;
    var parts := front + [last];
    assert forall k :: 0 <= k <= |front| ==> parts[..k] == front[..k];
    assert parts[..|parts|] == parts && front[..|front|] == front;
  }

  lemma DownLast(front: seq<seq<byte>>, last: seq<byte>)
    ensures Depth(front) == Some(|front|) ==> (Depth(front + [last]) == Some(|front| + 1) <==> !IsBad(last))
  {
    assert (front + [last])[..|front|] == front;
  }

  /** The component between two separators is bad, or the rest decides. */
  lemma NextPart(name: seq<byte>, start: nat, index: nat)
    requires start <= index <= |name| && (index < |name| ==> IsSeparator(name[index]))
    requires forall k :: start <= k < index ==> !IsSeparator(name[k])
    ensures AllGood(Components(name[start..])) <==>
            !IsBad(name[start..index]) && (index < |name| ==> AllGood(Components(name[index + 1..])))
  {
    FirstComponent(name[start..], index - start);
    assert name[start..][..index - start] == name[start..index];
    assert index < |name| ==> name[start..][index - start + 1..] == name[index + 1..];
    AllGoodFirst(name[start..index], if index < |name| then Components(name[index + 1..]) else []);
  }

  lemma AllGoodFirst(part: seq<byte>, rest: seq<seq<byte>>)
    ensures AllGood([part] + rest) <==> !IsBad(part) && AllGood(rest)
  {
    var all := [part] + rest;
    if AllGood(all) {
      assert !IsBad(all[0]);
      forall k | 0 <= k < |rest| ensures !IsBad(rest[k]) {
        assert all[k + 1] == rest[k];
      }
    }
  }

  // ---- The writer ----

  /** The components of a name for the writer, which only knows the slash. */
  function SlashParts(name: seq<byte>): (parts: seq<seq<byte>>)
    ensures |parts| >= 1
  {
    if name == [] then [[]]
    else
      var rest := SlashParts(name[1..]);
      if name[0] == SLASH then [[]] + rest else [[name[0]] + rest[0]] + rest[1..]
  }

  /** A normalized relative path: no empty component, and "." only by itself. */
  predicate IsNormalized(name: seq<byte>) {
    name == [DOT] || forall k :: 0 <= k < |SlashParts(name)| ==>
      SlashParts(name)[k] != [] && SlashParts(name)[k] != [DOT]
  }

  /** The writer's check of a normalized name. */
  predicate WriterAccepts(name: seq<byte>) {
    IsNormalized(name) && [DOT, DOT] !in SlashParts(name) && 0 < |name| <= 0xFFFF
  }

  lemma {:induction false} SameParts(name: seq<byte>)
    requires BACKSLASH !in name
    ensures Components(name) == SlashParts(name)
  {
    if name != [] {
      SameParts(name[1..]);
    }
  }

  lemma DotParts()
    ensures Components([DOT]) == [[DOT]] && SlashParts([DOT]) == [[DOT]]
  {
    assert [DOT][1..] == [] && Components([]) == [[]] && SlashParts([]) == [[]];
    assert [DOT] + [] == [DOT];
  }

  /** The pieces of a writer's component for the reader, which knows the backslash too. */
  function BackslashPieces(part: seq<byte>): (pieces: seq<seq<byte>>)
    ensures |pieces| >= 1
  {
    if part == [] then [[]]
    else
      var rest := BackslashPieces(part[1..]);
      if part[0] == BACKSLASH then [[]] + rest else [[part[0]] + rest[0]] + rest[1..]
  }

  /** The pieces of all components, in order. */
  function AllPieces(parts: seq<seq<byte>>): (pieces: seq<seq<byte>>)
    ensures parts != [] ==> |pieces| >= 1
  {
    if parts == [] then [] else BackslashPieces(parts[0]) + AllPieces(parts[1..])
  }

  lemma PiecesOfFirst(first: seq<byte>, rest: seq<seq<byte>>)
    ensures AllPieces([first] + rest) == BackslashPieces(first) + AllPieces(rest)
  {
    assert ([first] + rest)[1..] == rest;
  }

  lemma PiecesGrow(b: byte, part: seq<byte>)
    ensures BackslashPieces([b] + part) ==
            if b == BACKSLASH then [[]] + BackslashPieces(part)
            else [[b] + BackslashPieces(part)[0]] + BackslashPieces(part)[1..]
  {
    assert ([b] + part)[1..] == part;
  }

  lemma FirstPieceGrows(b: byte, pieces: seq<seq<byte>>, more: seq<seq<byte>>)
    requires pieces != []
    ensures [[b] + pieces[0]] + pieces[1..] + more == [[b] + (pieces + more)[0]] + (pieces + more)[1..]
    ensures [[]] + pieces + more == [[]] + (pieces + more)
  {
  }

  /** The reader's components are the pieces of the writer's. */
  lemma {:induction false} ComponentsArePieces(name: seq<byte>)
    ensures Components(name) == AllPieces(SlashParts(name))
  {
    hide AllPieces, BackslashPieces;
    if name == [] {
      NoPieces();
    } else {
      var b, parts := name[0], SlashParts(name[1..]);
      ComponentsArePieces(name[1..]);
      if b == SLASH {
        PiecesOfFirst([], parts);
        NoPieces();
      } else {
        PiecesOfFirst([b] + parts[0], parts[1..]);
        PiecesOfFirst(parts[0], parts[1..]);
        assert [parts[0]] + parts[1..] == parts;
        PiecesGrow(b, parts[0]);
        FirstPieceGrows(b, BackslashPieces(parts[0]), AllPieces(parts[1..]));
      }
    }
  }

  lemma NoPieces()
    ensures AllPieces([]) == [] && BackslashPieces([]) == [[]] && AllPieces([[]]) == [[]]
  {
    assert AllPieces([[]]) == BackslashPieces([]) + AllPieces([[]][1..]);
  }

  lemma AllGoodJoin(xs: seq<seq<byte>>, ys: seq<seq<byte>>)
    ensures AllGood(xs + ys) <==> AllGood(xs) && AllGood(ys)
  {
    var all := xs + ys;
    if AllGood(all) {
      forall k | 0 <= k < |xs| ensures !IsBad(xs[k]) {
        assert all[k] == xs[k];
      }
      forall k | 0 <= k < |ys| ensures !IsBad(ys[k]) {
        assert all[|xs| + k] == ys[k];
      }
    }
  }

  lemma NoneBad()
    ensures AllGood([])
  {
  }

  lemma {:induction false} AllPiecesGood(parts: seq<seq<byte>>)
    ensures AllGood(AllPieces(parts)) <==> forall k :: 0 <= k < |parts| ==> AllGood(BackslashPieces(parts[k]))
  {
    hide AllGood, BackslashPieces;
    if parts == [] {
      NoPieces();
      NoneBad();
    } else {
      AllPiecesGood(parts[1..]);
      AllGoodJoin(BackslashPieces(parts[0]), AllPieces(parts[1..]));
      if AllGood(AllPieces(parts)) {
        forall k | 0 <= k < |parts| ensures AllGood(BackslashPieces(parts[k])) {
          assert k > 0 ==> parts[k] == parts[1..][k - 1];
        }
      }
      if forall k :: 0 <= k < |parts| ==> AllGood(BackslashPieces(parts[k])) {
        forall k | 0 <= k < |parts[1..]| ensures AllGood(BackslashPieces(parts[1..][k])) {
          assert parts[1..][k] == parts[k + 1];
        }
      }
    }
  }

  lemma {:induction false} OnePiece(part: seq<byte>)
    requires BACKSLASH !in part
    ensures BackslashPieces(part) == [part]
  {
    if part != [] {
      OnePiece(part[1..]);
      assert [part[0]] + part[1..] == part;
    }
  }

  /**
    When the reader refuses a name that the writer accepts: exactly ".", names with a colon in second
    place, and names with a component that, split at its backslashes, has an empty, a "." or a ".." piece.
   */
  lemma ReaderAcceptsWritten(name: seq<byte>)
    requires WriterAccepts(name)
    ensures SafeName(name) <==>
            && name != [DOT] && !(|name| >= 2 && name[1] == COLON)
            && forall part :: part in SlashParts(name) && BACKSLASH in part ==>
                 [] !in BackslashPieces(part) && [DOT] !in BackslashPieces(part) && [DOT, DOT] !in BackslashPieces(part)
  {
    var parts := SlashParts(name);
    ComponentsArePieces(name);
    AllPiecesGood(parts);
    hide Components, SlashParts, BackslashPieces, AllPieces;
    DotParts();
    forall part | part in parts
      ensures AllGood(BackslashPieces(part)) <==>
              (BACKSLASH !in part && !IsBad(part))
              || (BACKSLASH in part && [] !in BackslashPieces(part) && [DOT] !in BackslashPieces(part)
                  && [DOT, DOT] !in BackslashPieces(part))
    {
      GoodPieces(part);
    }
    if name == [DOT] {
      assert IsBad(parts[0]) && parts[0] in parts && BACKSLASH !in parts[0];
    } else {
      assert forall part :: part in parts ==> !IsBad(part);
    }
  }

  lemma GoodPieces(part: seq<byte>)
    ensures AllGood(BackslashPieces(part)) <==>
            (BACKSLASH !in part && !IsBad(part))
            || (BACKSLASH in part && [] !in BackslashPieces(part) && [DOT] !in BackslashPieces(part)
                && [DOT, DOT] !in BackslashPieces(part))
  {
    var pieces := BackslashPieces(part);
    hide BackslashPieces;
    if BACKSLASH !in part {
      OnePiece(part);
    }
    assert AllGood(pieces) <==> forall k :: 0 <= k < |pieces| ==> !IsBad(pieces[k]);
    forall bad | bad in pieces && IsBad(bad) ensures !AllGood(pieces) {
      var k :| 0 <= k < |pieces| && pieces[k] == bad;
    }
  }

  /** Three names that the writer packs and the reader refuses: ".", "a:b" and "a\..". */
  lemma RefusedNames()
    ensures WriterAccepts([DOT]) && !SafeName([DOT])
    ensures WriterAccepts([0x61, COLON, 0x62]) && !SafeName([0x61, COLON, 0x62])
    ensures WriterAccepts([0x61, BACKSLASH, DOT, DOT]) && !SafeName([0x61, BACKSLASH, DOT, DOT])
  {
    DotParts();
    OnePart([0x61, COLON, 0x62]);
    OnePart([0x61, BACKSLASH, DOT, DOT]);
    var name: seq<byte> := [0x61, BACKSLASH, DOT, DOT];
    FirstComponent(name, 1);
    FirstComponent(name[2..], 2);
    assert name[2..] == [DOT, DOT] && name[2..][..2] == [DOT, DOT];
    assert IsBad(Components(name)[1]);
  }

  lemma {:induction false} OnePart(name: seq<byte>)
    requires SLASH !in name
    ensures SlashParts(name) == [name]
  {
    if name != [] {
      OnePart(name[1..]);
      assert [name[0]] + name[1..] == name;
    }
  }

  function Header(identifier: seq<byte>, count: nat): seq<byte> {
    MAGIC + identifier + LittleEndian(count, 4)
  }

  function EntryHead(name: nat, raw: nat, compressed: nat, crc: nat): (s: seq<byte>)
    ensures |s| == ENTRY_SIZE
  {
    LittleEndian(name, 2) + LittleEndian(raw, 8) + LittleEndian(compressed, 8) + LittleEndian(crc, 4)
  }

  function EntryBytes(z: Zlib, f: File): seq<byte> {
    var compressed := z.deflate(f.content);
    EntryHead(|f.name|, |f.content|, |compressed|, z.crc(f.content)) + f.name + compressed
  }

  function EntriesBytes(z: Zlib, files: seq<File>): seq<byte> {
    if files == [] then [] else EntryBytes(z, files[0]) + EntriesBytes(z, files[1..])
  }

  function ArchiveBytes(z: Zlib, identifier: seq<byte>, files: seq<File>): seq<byte> {
    Header(identifier, |files|) + EntriesBytes(z, files)
  }

  predicate Writable(files: seq<File>) {
    0 < |files| <= MAX_FILES && forall k :: 0 <= k < |files| ==> |files[k].content| <= MAX_FILE_SIZE
  }

  lemma {:induction false} EntriesAppend(z: Zlib, files: seq<File>, f: File)
    ensures EntriesBytes(z, files + [f]) == EntriesBytes(z, files) + EntryBytes(z, f)
  {
    hide EntryBytes;
    if files == [] {
      assert [f][1..] == [] && files + [f] == [f];
    } else {
      assert (files + [f])[1..] == files[1..] + [f];
      EntriesAppend(z, files[1..], f);
    }
  }

  lemma OneMoreEntry(z: Zlib, header: seq<byte>, files: seq<File>, i: nat)
    requires i < |files|
    ensures header + EntriesBytes(z, files[..i]) + EntryBytes(z, files[i]) == header + EntriesBytes(z, files[..i + 1])
  {
    hide *;
    EntriesAppend(z, files[..i], files[i]);
    assert files[..i + 1] == files[..i] + [files[i]];
    assert header + EntriesBytes(z, files[..i]) + EntryBytes(z, files[i])
        == header + (EntriesBytes(z, files[..i]) + EntryBytes(z, files[i]));
  }

  /** Writes the sorted files; None for no files, too many of them, or a file that is too large. */
  method WriteArchive(z: Zlib, identifier: seq<byte>, files: seq<File>) returns (stream: Option<seq<byte>>)
    ensures stream == if Writable(files) then Some(ArchiveBytes(z, identifier, files)) else None
  {
    if |files| == 0 || |files| > MAX_FILES {
      return None;
    }
    hide EntriesBytes, EntryBytes, Header, LittleEndian, EntryHead;
    var out := MAGIC + identifier + LittleEndian(|files|, 4);
    assert out == Header(identifier, |files|) + EntriesBytes(z, files[..0]) by {
      NoEntries(z, identifier, |files|);
    }
    for i := 0 to |files|
      invariant out == Header(identifier, |files|) + EntriesBytes(z, files[..i])
      invariant forall k :: 0 <= k < i ==> |files[k].content| <= MAX_FILE_SIZE
    {
      var f := files[i];
      if |f.content| > MAX_FILE_SIZE {
        return None;
      }
      OneMoreEntry(z, Header(identifier, |files|), files, i);
      out := WriteEntry(z, f, out);
    }
    assert files[..|files|] == files;
    return Some(out);
  }

  /** Appends the head, the name and the compressed contents of a file. */
  method WriteEntry(z: Zlib, f: File, stream: seq<byte>) returns (out: seq<byte>)
    ensures out == stream + EntryBytes(z, f)
  {
    hide EntryHead;
    var compressed := z.deflate(f.content);
    var head := EntryHead(|f.name|, |f.content|, |compressed|, z.crc(f.content));
    out := stream + head;
    out := out + f.name;
    out := out + compressed;
    EntryIs(z, f);
    assert out == stream + (head + f.name + compressed);
  }

  lemma EntryIs(z: Zlib, f: File)
    ensures EntryBytes(z, f) ==
            EntryHead(|f.name|, |f.content|, |z.deflate(f.content)|, z.crc(f.content)) + f.name + z.deflate(f.content)
  {
  }

  lemma NoEntries(z: Zlib, identifier: seq<byte>, count: nat)
    ensures EntriesBytes(z, []) == [] && Header(identifier, count) == MAGIC + identifier + LittleEndian(count, 4)
  {
  }

  // ---- The reader ----

  datatype Parsed = Bad | Parsed(file: File, rest: seq<byte>)

  /** Room for at least one byte. */
  function Room(raw: nat): nat {
    if raw > 0 then raw else 1
  }

  /** The contents of an entry, if they inflate to the announced size and match the checksum. */
  function Unpacked(z: Zlib, compressed: seq<byte>, raw: nat, crc: nat): Option<seq<byte>> {
    match z.inflate(compressed, Room(raw))
    case None => None
    case Some(content) => if |content| != raw || z.crc(content) != crc then None else Some(content)
  }

  /** The first entry of some bytes. `accepts` says whether a name becomes a path on the machine. */
  function ParseEntry(z: Zlib, accepts: seq<byte> -> bool, bytes: seq<byte>): Parsed {
    if |bytes| < ENTRY_SIZE then Bad
    else
      var name := FromLittleEndian(bytes[..2]);
      var raw := FromLittleEndian(bytes[2..10]);
      var compressed := FromLittleEndian(bytes[10..18]);
      ParseBody(z, accepts, name, raw, compressed, FromLittleEndian(bytes[18..ENTRY_SIZE]), bytes[ENTRY_SIZE..])
  }

  function ParseBody(z: Zlib, accepts: seq<byte> -> bool, name: nat, raw: nat, compressed: nat, crc: nat,
                     body: seq<byte>): Parsed
  {
    if name == 0 || raw > MAX_FILE_SIZE || |body| < name + compressed then Bad
    else if !SafeName(body[..name]) || !accepts(body[..name]) then Bad
    else
      match Unpacked(z, body[name..name + compressed], raw, crc)
      case None => Bad
      case Some(content) => Parsed(File(body[..name], content), body[name + compressed..])
  }

  function ParseEntries(z: Zlib, accepts: seq<byte> -> bool, count: nat, bytes: seq<byte>): Option<seq<File>> {
    if count == 0 then if bytes == [] then Some([]) else None
    else
      match ParseEntry(z, accepts, bytes)
      case Bad => None
      case Parsed(file, rest) =>
        match ParseEntries(z, accepts, count - 1, rest)
        case None => None
        case Some(files) => Some([file] + files)
  }

  const HEADER_SIZE := 28

  function ParseArchive(z: Zlib, accepts: seq<byte> -> bool, bytes: seq<byte>): Option<seq<File>> {
    if |bytes| < HEADER_SIZE || bytes[..8] != MAGIC then None
    else
      var count := FromLittleEndian(bytes[24..HEADER_SIZE]);
      if count == 0 || count > MAX_FILES then None else ParseEntries(z, accepts, count, bytes[HEADER_SIZE..])
  }

  /** A cursor over the archive. */
  class Cursor {
    const data: seq<byte>
    var at: nat

    ghost predicate Valid()
      reads this
    {
      at <= |data|
    }

    constructor (data: seq<byte>)
      ensures Valid() && this.data == data && at == 0
    {
      this.data, at := data, 0;
    }

    method ReadBytes(size: nat) returns (ok: bool, bytes: seq<byte>)
      requires Valid()
      modifies this
      ensures Valid() && (ok <==> size <= |data| - old(at))
      ensures ok ==> at == old(at) + size && bytes == data[old(at)..at]
      ensures !ok ==> at == old(at)
    {
      if |data| - at < size {
        return false, [];
      }
      bytes := data[at..at + size];
      at := at + size;
      return true, bytes;
    }

    method ReadU16() returns (ok: bool, value: nat)
      requires Valid()
      modifies this
      ensures Valid() && (ok <==> 2 <= |data| - old(at))
      ensures ok ==> at == old(at) + 2 && value == FromLittleEndian(data[old(at)..at])
      ensures !ok ==> at == old(at)
    {
      var b;
      ok, b := ReadBytes(2);
      if !ok {
        return false, 0;
      }
      TwoBytes(b);
      return true, (b[0] as int) + (b[1] as int) * 0x100;
    }

    method ReadU32() returns (ok: bool, value: nat)
      requires Valid()
      modifies this
      ensures Valid() && (ok <==> 4 <= |data| - old(at))
      ensures ok ==> at == old(at) + 4 && value == FromLittleEndian(data[old(at)..at])
      ensures !ok ==> at == old(at)
    {
      var b;
      ok, b := ReadBytes(4);
      if !ok {
        return false, 0;
      }
      TwoBytes(b[2..]);
      assert b[1..][1..] == b[2..];
      return true, (b[0] as int) + (b[1] as int) * 0x100 + (b[2] as int) * 0x1_0000 + (b[3] as int) * 0x100_0000;
    }

    method ReadU64() returns (ok: bool, value: nat)
      requires Valid()
      modifies this
      ensures Valid() && (ok <==> 8 <= |data| - old(at))
      ensures ok ==> at == old(at) + 8 && value == FromLittleEndian(data[old(at)..at])
      ensures !ok ==> at == old(at)
    {
      var b;
      ok, b := ReadBytes(8);
      if !ok {
        return false, 0;
      }
      value := 0;
      var index := 8;
      while index > 0
        invariant 0 <= index <= 8 && value == FromLittleEndian(b[index..])
      {
        index := index - 1;
        assert b[index..][1..] == b[index + 1..];
        value := value * 256 + b[index];
      }
      assert b[0..] == b;
    }

    /** Reads and checks one entry. */
    method ReadEntry(z: Zlib, accepts: seq<byte> -> bool) returns (file: Option<File>)
      requires Valid()
      modifies this
      ensures Valid()
      ensures match ParseEntry(z, accepts, data[old(at)..])
              case Bad => file == None
              case Parsed(f, rest) => file == Some(f) && data[at..] == rest && at > old(at)
    {
      hide FromLittleEndian, ParseBody;
      ghost var bytes := data[at..];
      var ok, nameLength := ReadU16();
      if !ok {
        return None;
      }
      assert data[old(at)..at] == bytes[..2];
      var rawSize;
      ok, rawSize := ReadU64();
      if !ok {
        return None;
      }
      assert data[old(at) + 2..at] == bytes[2..10];
      var compressedSize;
      ok, compressedSize := ReadU64();
      if !ok {
        return None;
      }
      assert data[old(at) + 10..at] == bytes[10..18];
      var crc;
      ok, crc := ReadU32();
      if !ok {
        return None;
      }
      assert data[old(at) + 18..at] == bytes[18..ENTRY_SIZE] && data[at..] == bytes[ENTRY_SIZE..];
      file := ReadBody(z, accepts, nameLength, rawSize, compressedSize, crc);
    }

    method ReadBody(z: Zlib, accepts: seq<byte> -> bool, nameLength: nat, rawSize: nat, compressedSize: nat, crc: nat)
      returns (file: Option<File>)
      requires Valid()
      modifies this
      ensures Valid() && at >= old(at)
      ensures match ParseBody(z, accepts, nameLength, rawSize, compressedSize, crc, data[old(at)..])
              case Bad => file == None
              case Parsed(f, rest) => file == Some(f) && data[at..] == rest
    {
      hide SafeName;
      ghost var body := data[at..];
      var left := |data| - at;
      if nameLength == 0 || rawSize > MAX_FILE_SIZE || compressedSize > left || left < nameLength + compressedSize {
        return None;
      }
      var name := data[at..at + nameLength];
      assert name == body[..nameLength];
      at := at + nameLength;
      var safe := SafeArchiveName(name);
      if !safe || !accepts(name) {
        return None;
      }
      var compressed := data[at..at + compressedSize];
      assert compressed == body[nameLength..nameLength + compressedSize];
      var content := z.inflate(compressed, Room(rawSize));
      at := at + compressedSize;
      assert data[at..] == body[nameLength + compressedSize..];
      if content.None? || |content.value| != rawSize || z.crc(content.value) != crc {
        return None;
      }
      return Some(File(name, content.value));
    }
  }

  lemma TwoBytes(b: seq<byte>)
    requires |b| == 2
    ensures FromLittleEndian(b) == (b[0] as int) + (b[1] as int) * 0x100
  {
    assert FromLittleEndian(b[1..][1..]) == 0;
    assert FromLittleEndian(b[1..]) == b[1] as int;
  }

  /** Reads a whole archive: None for a bad header, a bad entry, or data after the last entry. */
  method ExtractArchive(z: Zlib, accepts: seq<byte> -> bool, archive: seq<byte>) returns (files: Option<seq<File>>)
    ensures files == ParseArchive(z, accepts, archive)
  {
    hide FromLittleEndian, ParseEntry;
    var cursor := new Cursor(archive);
    var ok, magic := cursor.ReadBytes(8);
    if !ok || magic != MAGIC {
      return None;
    }
    var identifier;
    ok, identifier := cursor.ReadBytes(IDENTIFIER_SIZE);
    if !ok {
      return None;
    }
    var count;
    ok, count := cursor.ReadU32();
    if !ok || count == 0 || count > MAX_FILES {
      return None;
    }
    var done: seq<File> := [];
    assert archive[24..HEADER_SIZE] == archive[24..cursor.at];
    PrefixedNone(ParseEntries(z, accepts, count, archive[cursor.at..]));
    for i := 0 to count
      invariant cursor.Valid() && fresh(cursor) && cursor.data == archive
      invariant ParseArchive(z, accepts, archive) ==
                Prefixed(done, ParseEntries(z, accepts, count - i, archive[cursor.at..]))
    {
      var file := cursor.ReadEntry(z, accepts);
      if file.None? {
        return None;
      }
      assert done + [file.value] + [] == done + [file.value];
      PrefixedOne(done, file.value, ParseEntries(z, accepts, count - i - 1, archive[cursor.at..]));
      done := done + [file.value];
    }
    if cursor.at != |archive| {
      return None;
    }
    assert archive[cursor.at..] == [] && done + [] == done;
    return Some(done);
  }

  function Prefixed(front: seq<File>, back: Option<seq<File>>): Option<seq<File>> {
    match back
    case None => None
    case Some(files) => Some(front + files)
  }

  lemma PrefixedNone(back: Option<seq<File>>)
    ensures Prefixed([], back) == back
  {
    if back.Some? {
      assert [] + back.value == back.value;
    }
  }

  lemma PrefixedOne(front: seq<File>, f: File, back: Option<seq<File>>)
    ensures Prefixed(front, Prefixed([f], back)) == Prefixed(front + [f], back)
  {
    if back.Some? {
      assert front + ([f] + back.value) == front + [f] + back.value;
    }
  }

  // ---- Round trip ----

  predicate Readable(accepts: seq<byte> -> bool, f: File) {
    0 < |f.name| <= 0xFFFF && SafeName(f.name) && accepts(f.name) && |f.content| <= MAX_FILE_SIZE
  }

  lemma EntryRoundTrip(z: Zlib, accepts: seq<byte> -> bool, f: File, more: seq<byte>)
    requires IsZlib(z) && Readable(accepts, f)
    ensures ParseEntry(z, accepts, EntryBytes(z, f) + more) == Parsed(f, more)
  {
    hide LittleEndian, FromLittleEndian, SafeName;
    var compressed := z.deflate(f.content);
    var head := EntryHead(|f.name|, |f.content|, |compressed|, z.crc(f.content));
    var bytes := EntryBytes(z, f) + more;
    assert z.inflate(compressed, Room(|f.content|)) == Some(f.content);
    Widths();
    LittleEndianRoundTrip(|f.name|, 2);
    LittleEndianRoundTrip(|f.content|, 8);
    LittleEndianRoundTrip(|compressed|, 8);
    LittleEndianRoundTrip(z.crc(f.content), 4);
    assert bytes[..2] == LittleEndian(|f.name|, 2) && bytes[2..10] == LittleEndian(|f.content|, 8);
    assert bytes[10..18] == LittleEndian(|compressed|, 8) && bytes[18..ENTRY_SIZE] == LittleEndian(z.crc(f.content), 4);
    var body := bytes[ENTRY_SIZE..];
    assert body == f.name + compressed + more;
    assert body[..|f.name|] == f.name && body[|f.name|..|f.name| + |compressed|] == compressed;
    assert body[|f.name| + |compressed|..] == more;
  }

  lemma {:induction false} EntriesRoundTrip(z: Zlib, accepts: seq<byte> -> bool, files: seq<File>)
    requires IsZlib(z) && forall k :: 0 <= k < |files| ==> Readable(accepts, files[k])
    ensures ParseEntries(z, accepts, |files|, EntriesBytes(z, files)) == Some(files)
  {
    hide EntryBytes, ParseEntry, IsZlib, Readable;
    if files != [] {
      EntryRoundTrip(z, accepts, files[0], EntriesBytes(z, files[1..]));
      EntriesRoundTrip(z, accepts, files[1..]);
      assert [files[0]] + files[1..] == files;
    }
  }

  /** Reading what was written gives the same names and contents, and leaves no byte over. */
  lemma ArchiveRoundTrip(z: Zlib, accepts: seq<byte> -> bool, identifier: seq<byte>, files: seq<File>)
    requires IsZlib(z) && |identifier| == IDENTIFIER_SIZE
    requires Writable(files) && forall k :: 0 <= k < |files| ==> Readable(accepts, files[k])
    ensures ParseArchive(z, accepts, ArchiveBytes(z, identifier, files)) == Some(files)
  {
    hide LittleEndian, FromLittleEndian, EntriesBytes, ParseEntries, Readable, IsZlib;
    var bytes := ArchiveBytes(z, identifier, files);
    EntriesRoundTrip(z, accepts, files);
    Widths();
    LittleEndianRoundTrip(|files|, 4);
    assert bytes[..8] == MAGIC && bytes[24..HEADER_SIZE] == LittleEndian(|files|, 4);
    assert bytes[HEADER_SIZE..] == EntriesBytes(z, files);
  }

  /** Archives with the same bytes hold the same files. */
  lemma WriterIsInjective(z: Zlib, x: seq<byte>, xs: seq<File>, y: seq<byte>, ys: seq<File>)
    requires IsZlib(z) && |x| == |y| == IDENTIFIER_SIZE && Writable(xs) && Writable(ys)
    requires forall k :: 0 <= k < |xs| ==> Readable(_ => true, xs[k])
    requires forall k :: 0 <= k < |ys| ==> Readable(_ => true, ys[k])
    requires ArchiveBytes(z, x, xs) == ArchiveBytes(z, y, ys)
    ensures xs == ys && x == y
  {
    hide IsZlib, Readable, ParseArchive, EntriesBytes;
    var accepts := (_: seq<byte>) => true;
    forall k | 0 <= k < |xs| ensures Readable(accepts, xs[k]) {
      AcceptsAll(xs[k], accepts);
    }
    forall k | 0 <= k < |ys| ensures Readable(accepts, ys[k]) {
      AcceptsAll(ys[k], accepts);
    }
    ArchiveRoundTrip(z, accepts, x, xs);
    ArchiveRoundTrip(z, accepts, y, ys);
    assert ArchiveBytes(z, x, xs)[8..24] == x && ArchiveBytes(z, y, ys)[8..24] == y;
  }

  lemma AcceptsAll(f: File, accepts: seq<byte> -> bool)
    requires Readable(_ => true, f) && accepts(f.name)
    ensures Readable(accepts, f)
  {
  }

  lemma EntryTakesPrefix(z: Zlib, accepts: seq<byte> -> bool, bytes: seq<byte>, more: seq<byte>)
    requires ParseEntry(z, accepts, bytes).Parsed?
    ensures
      var p := ParseEntry(z, accepts, bytes);
      ParseEntry(z, accepts, bytes + more) == Parsed(p.file, p.rest + more)
  {
    hide FromLittleEndian, SafeName, Unpacked;
    var all := bytes + more;
    assert all[..2] == bytes[..2] && all[2..10] == bytes[2..10] && all[10..18] == bytes[10..18];
    assert all[18..ENTRY_SIZE] == bytes[18..ENTRY_SIZE] && all[ENTRY_SIZE..] == bytes[ENTRY_SIZE..] + more;
    var name, compressed := FromLittleEndian(bytes[..2]), FromLittleEndian(bytes[10..18]);
    var body, longer := bytes[ENTRY_SIZE..], all[ENTRY_SIZE..];
    assert longer[..name] == body[..name] && longer[name..name + compressed] == body[name..name + compressed];
    assert longer[name + compressed..] == body[name + compressed..] + more;
  }

  /** Nothing may follow an accepted list of entries. */
  lemma {:induction false} EntriesAreDelimited(z: Zlib, accepts: seq<byte> -> bool, count: nat, bytes: seq<byte>,
                                               more: seq<byte>)
    requires ParseEntries(z, accepts, count, bytes).Some? && more != []
    ensures ParseEntries(z, accepts, count, bytes + more).None?
  {
    hide ParseEntry;
    if count > 0 {
      EntryTakesPrefix(z, accepts, bytes, more);
      EntriesAreDelimited(z, accepts, count - 1, ParseEntry(z, accepts, bytes).rest, more);
    }
  }

  /** An accepted archive is refused with anything behind it: the input is consumed exactly. */
  lemma ArchiveIsDelimited(z: Zlib, accepts: seq<byte> -> bool, bytes: seq<byte>, more: seq<byte>)
    requires ParseArchive(z, accepts, bytes).Some? && more != []
    ensures ParseArchive(z, accepts, bytes + more).None?
  {
    hide FromLittleEndian, ParseEntries;
    var all := bytes + more;
    assert all[..8] == bytes[..8] && all[24..HEADER_SIZE] == bytes[24..HEADER_SIZE]
           && all[HEADER_SIZE..] == bytes[HEADER_SIZE..] + more;
    EntriesAreDelimited(z, accepts, FromLittleEndian(bytes[24..HEADER_SIZE]), bytes[HEADER_SIZE..], more);
  }

  /** Whatever the bytes, all accepted files have safe names and bounded contents, as many as the header says. */
  lemma {:induction false} AcceptedAreSafe(z: Zlib, accepts: seq<byte> -> bool, count: nat, bytes: seq<byte>, k: nat)
    requires ParseEntries(z, accepts, count, bytes).Some?
    ensures |ParseEntries(z, accepts, count, bytes).value| == count
    ensures k < count ==>
              var f := ParseEntries(z, accepts, count, bytes).value[k];
              f.name != [] && SafeName(f.name) && accepts(f.name) && |f.content| <= MAX_FILE_SIZE
    decreases count
  {
    hide FromLittleEndian, SafeName;
    if count > 0 {
      AcceptedAreSafe(z, accepts, count - 1, ParseEntry(z, accepts, bytes).rest, if k > 0 then k - 1 else count);
    }
  }

  // ---- Files on disk ----

  /** The files after all are written in order; names that are one path to the file system overwrite each other. */
  function Written(path: seq<byte> -> seq<byte>, files: seq<File>): map<seq<byte>, seq<byte>> {
    if files == [] then map[]
    else Written(path, files[..|files| - 1])[path(files[|files| - 1].name) := files[|files| - 1].content]
  }

  lemma {:induction false} LastWriteWins(path: seq<byte> -> seq<byte>, files: seq<File>, k: nat) returns (m: nat)
    requires k < |files|
    ensures k <= m < |files| && path(files[m].name) == path(files[k].name)
    ensures path(files[k].name) in Written(path, files) && Written(path, files)[path(files[k].name)] == files[m].content
    ensures forall j :: m < j < |files| ==> path(files[j].name) != path(files[k].name)
  {
    var last := |files| - 1;
    if path(files[last].name) == path(files[k].name) {
      m := last;
    } else {
      m := LastWriteWins(path, files[..last], k);
    }
  }

  ghost predicate AllOnDisk(path: seq<byte> -> seq<byte>, files: seq<File>) {
    forall k :: 0 <= k < |files| ==>
      path(files[k].name) in Written(path, files) && Written(path, files)[path(files[k].name)] == files[k].content
  }

  /** Files of one path have the same contents. */
  predicate NoClash(path: seq<byte> -> seq<byte>, files: seq<File>) {
    forall i, j :: 0 <= i < j < |files| && path(files[i].name) == path(files[j].name) ==>
      files[i].content == files[j].content
  }

  /** Every file is on disk as it was packed exactly when files whose names are one path are equal. */
  lemma OnDiskIffNoClash(path: seq<byte> -> seq<byte>, files: seq<File>)
    ensures AllOnDisk(path, files) <==> NoClash(path, files)
  {
    if NoClash(path, files) {
      forall k | 0 <= k < |files|
        ensures path(files[k].name) in Written(path, files)
                && Written(path, files)[path(files[k].name)] == files[k].content
      {
        var m := LastWriteWins(path, files, k);
      }
    }
    if AllOnDisk(path, files) {
      forall i, j | 0 <= i < j < |files| && path(files[i].name) == path(files[j].name)
        ensures files[i].content == files[j].content
      {
      }
    }
  }

  /** A path as a file system knows it that takes both separators and both cases for the same. */
  function FoldPath(name: seq<byte>): seq<byte> {
    seq(|name|, k requires 0 <= k < |name| =>
      if 0x41 <= name[k] <= 0x5A then name[k] + 0x20 else if name[k] == SLASH then BACKSLASH else name[k])
  }

  /** Two files that are packed and read under names that differ in case only: one overwrites the other. */
  lemma CaseClash(x: seq<byte>, y: seq<byte>)
    requires x != y
    ensures WriterAccepts([0x41]) && SafeName([0x41]) && WriterAccepts([0x61]) && SafeName([0x61])
    ensures !AllOnDisk(FoldPath, [File([0x41], x), File([0x61], y)])
  {
    OnePart([0x41]);
    OnePart([0x61]);
    SameParts([0x41]);
    SameParts([0x61]);
    var files := [File([0x41], x), File([0x61], y)];
    assert FoldPath(files[0].name) == FoldPath(files[1].name) == [0x61];
    OnDiskIffNoClash(FoldPath, files);
  }
}
