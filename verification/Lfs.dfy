/** LFS1, the ramdisk format: its reader (the kernel) and its writer (the build script). */
module Lfs {
  import opened Words
  import opened Utf8

  const HEADER_SIZE := 12
  const ENTRY_SIZE := 64
  const NAME_CAP := 48
  const VERSION := 1
  const MAGIC: bytes := [0x4C, 0x46, 0x53, 0x31]

  datatype FsError = TooSmall | BadMagic | BadVersion | OutOfBounds | InvalidName | NotFound

  datatype FsResult<+T> = Ok(value: T) | Err(error: FsError)

  datatype FileRecord = FileRecord(name: str, mode: u16, data: bytes)

  // ---------------------------------------------------------------- reader

  /** The number of files the header announces. */
  function Header(image: bytes): (r: FsResult<nat>)
    ensures r.Ok? ==> r.value < TWO16 && HEADER_SIZE + r.value * ENTRY_SIZE <= |image|
  {
    Powers();
    if |image| < HEADER_SIZE then Err(TooSmall)
    else if image[0..4] != MAGIC then Err(BadMagic)
    else if LeValue(image[4..6]) != VERSION then Err(BadVersion)
    else if HEADER_SIZE + LeValue(image[6..8]) * ENTRY_SIZE > |image| then Err(OutOfBounds)
    else Ok(LeValue(image[6..8]))
  }

  /** The record described by one 64-byte table entry. */
  function RecordAt(image: bytes, e: bytes): FsResult<FileRecord>
    requires |e| == ENTRY_SIZE
  {
    Powers();
    var nameLen := LeValue(e[0..2]);
    if nameLen == 0 || nameLen > NAME_CAP then Err(InvalidName)
    else
      var offset, size, mode := LeValue(e[4..8]), LeValue(e[8..12]), LeValue(e[12..14]);
      var name := e[16..16 + nameLen];
      if !Valid(name) then Err(InvalidName)
      else if offset + size > |image| then Err(OutOfBounds)
      else Ok(FileRecord(name, mode, image[offset..offset + size]))
  }

  function EntryAt(image: bytes, idx: nat): FsResult<FileRecord> {
    var start := HEADER_SIZE + idx * ENTRY_SIZE;
    if start + ENTRY_SIZE > |image| then Err(OutOfBounds) else RecordAt(image, image[start..start + ENTRY_SIZE])
  }

  function Entry(image: bytes, idx: nat): FsResult<FileRecord> {
    match Header(image)
    case Err(e) => Err(e)
    case Ok(count) => if idx >= count then Err(NotFound) else EntryAt(image, idx)
  }

  function OpenFrom(image: bytes, wanted: bytes, i: nat, count: nat): FsResult<FileRecord>
    decreases count - i
  {
    if i >= count then Err(NotFound)
    else match EntryAt(image, i)
    case Err(e) => Err(e)
    case Ok(rec) => if rec.name == wanted then Ok(rec) else OpenFrom(image, wanted, i + 1, count)
  }

  function Open(image: bytes, wanted: bytes): FsResult<FileRecord> {
    match Header(image)
    case Err(e) => Err(e)
    case Ok(count) => OpenFrom(image, wanted, 0, count)
  }

  /** The records handed to the caller's function, in order, and the error that stopped the walk. */
  datatype Listing = Listing(visited: seq<FileRecord>, stopped: Option<FsError>)

  function ListFrom(image: bytes, i: nat, count: nat): Listing
    decreases count - i
  {
    if i >= count then Listing([], None)
    else match EntryAt(image, i)
    case Err(e) => Listing([], Some(e))
    case Ok(rec) =>
      var rest := ListFrom(image, i + 1, count);
      Listing([rec] + rest.visited, rest.stopped)
  }

  function List(image: bytes): Listing {
    match Header(image)
    case Err(e) => Listing([], Some(e))
    case Ok(count) => ListFrom(image, 0, count)
  }

  // ---------------------------------------------------------------- writer

  function Zeros(n: nat): (z: bytes)
    ensures |z| == n
  {
    seq(n, _ => 0)
  }

  /** Counts and sizes are cut to their field widths, as the casts in the writer do. */
  function HeaderBytes(n: nat): (h: bytes)
    ensures |h| == HEADER_SIZE
  {
    MAGIC + LeBytes(2, VERSION) + LeBytes(2, n) + Zeros(4)
  }

  function EntryBytes(f: FileRecord, offset: nat): (e: bytes)
    requires |f.name| <= NAME_CAP
    ensures |e| == ENTRY_SIZE
  {
    LeBytes(2, |f.name|) + Zeros(2) + LeBytes(4, offset) + LeBytes(4, |f.data|) + LeBytes(2, f.mode) + Zeros(2)
    + f.name + Zeros(NAME_CAP - |f.name|)
  }

  predicate NamesFit(files: seq<FileRecord>) {
    forall k :: 0 <= k < |files| ==> |files[k].name| <= NAME_CAP
  }

  function Table(files: seq<FileRecord>, offset: nat): (t: bytes)
    requires NamesFit(files)
    ensures |t| == ENTRY_SIZE * |files|
  {
    if files == [] then [] else EntryBytes(files[0], offset) + Table(files[1..], offset + |files[0].data|)
  }

  function Contents(files: seq<FileRecord>): bytes {
    if files == [] then [] else files[0].data + Contents(files[1..])
  }

  function TableEnd(n: nat): nat {
    HEADER_SIZE + ENTRY_SIZE * n
  }

  function Image(files: seq<FileRecord>): (image: bytes)
    requires NamesFit(files)
    ensures |image| == TableEnd(|files|) + |Contents(files)|
  {
    HeaderBytes(|files|) + Table(files, TableEnd(|files|)) + Contents(files)
  }

  lemma {:induction false} SpliceMiddle(pre: bytes, z: bytes, post: bytes, k: nat, b: bytes)
    requires k + |b| <= |z|
    ensures Splice(pre + z + post, |pre| + k, b) == pre + Splice(z, k, b) + post
  {
  }

  /** The five stores of the writer turn a zero entry into EntryBytes. */
  lemma {:induction false} EntryIsStores(f: FileRecord, offset: nat)
    requires |f.name| <= NAME_CAP
    ensures Splice(Splice(Splice(Splice(Splice(Zeros(ENTRY_SIZE), 0, LeBytes(2, |f.name|)), 4, LeBytes(4, offset)),
                                 8, LeBytes(4, |f.data|)), 12, LeBytes(2, f.mode)), 16, f.name)
            == EntryBytes(f, offset)
  {
    hide LeBytes;
    var n, o, s, m := LeBytes(2, |f.name|), LeBytes(4, offset), LeBytes(4, |f.data|), LeBytes(2, f.mode);
    var z0 := Splice(Zeros(ENTRY_SIZE), 0, n);
    assert z0 == n + Zeros(62);
    var z1 := Splice(z0, 4, o);
    assert z1 == n + Zeros(2) + o + Zeros(56);
    var z2 := Splice(z1, 8, s);
    assert z2 == n + Zeros(2) + o + s + Zeros(52);
    var z3 := Splice(z2, 12, m);
    assert z3 == n + Zeros(2) + o + s + m + Zeros(50);
  }

  lemma {:induction false} TableSnoc(files: seq<FileRecord>, f: FileRecord, offset: nat)
    requires NamesFit(files + [f]) && |f.name| <= NAME_CAP
    ensures NamesFit(files)
    ensures Table(files + [f], offset) == Table(files, offset) + EntryBytes(f, offset + |Contents(files)|)
  {
    assert NamesFit(files) by {
      assert forall k :: 0 <= k < |files| ==> (files + [f])[k] == files[k];
    }
    hide EntryBytes;
    if files == [] {
      assert (files + [f])[1..] == [];
      assert [f][1..] == [];
    } else {
      assert (files + [f])[1..] == files[1..] + [f];
      TableSnoc(files[1..], f, offset + |files[0].data|);
    }
  }

  lemma {:induction false} ContentsSnoc(files: seq<FileRecord>, f: FileRecord)
    ensures Contents(files + [f]) == Contents(files) + f.data
  {
    if files == [] {
      assert (files + [f])[1..] == [];
    } else {
      assert (files + [f])[1..] == files[1..] + [f];
      ContentsSnoc(files[1..], f);
    }
  }

  /** The blob when the first i files have been written. */
  function Partial(files: seq<FileRecord>, i: nat): bytes
    requires i <= |files| && NamesFit(files[..i])
  {
    HeaderBytes(|files|) + Table(files[..i], TableEnd(|files|)) + Zeros(ENTRY_SIZE * (|files| - i)) +
      Contents(files[..i])
  }

  lemma {:induction false} PartialLength(files: seq<FileRecord>, i: nat)
    requires i <= |files| && NamesFit(files[..i])
    ensures |Partial(files, i)| == TableEnd(|files|) + |Contents(files[..i])|
  {
    hide Contents, Table, HeaderBytes, Zeros, NamesFit;
  }

  lemma {:induction false} PartialStep(files: seq<FileRecord>, i: nat, e: bytes)
    requires i < |files| && NamesFit(files[..i]) && NamesFit(files[..i + 1]) && |files[i].name| <= NAME_CAP
    requires e == EntryBytes(files[i], TableEnd(|files|) + |Contents(files[..i])|)
    requires |Partial(files, i)| == TableEnd(|files|) + |Contents(files[..i])|
    ensures Splice(Partial(files, i), HEADER_SIZE + i * ENTRY_SIZE, e) + files[i].data == Partial(files, i + 1)
  {
    hide EntryBytes, Table, Contents, HeaderBytes, NamesFit, Splice, Zeros;
    assert files[..i + 1] == files[..i] + [files[i]];
    TableSnoc(files[..i], files[i], TableEnd(|files|));
    ContentsSnoc(files[..i], files[i]);
    ZerosSplice(ENTRY_SIZE * (|files| - i), e);
    var table := Table(files[..i], TableEnd(|files|));
    OneEntryMore(HeaderBytes(|files|) + table, Zeros(ENTRY_SIZE * (|files| - i)),
                 Zeros(ENTRY_SIZE * (|files| - (i + 1))), Contents(files[..i]), e, files[i].data);
    assert HeaderBytes(|files|) + (table + e) == HeaderBytes(|files|) + table + e;
  }

  lemma {:induction false} OneEntryMore(pre: bytes, z: bytes, left: bytes, contents: bytes, e: bytes, data: bytes)
    requires |e| <= |z| && Splice(z, 0, e) == e + left
    ensures Splice(pre + z + contents, |pre|, e) + data == pre + e + left + (contents + data)
  {
    hide Splice;
    SpliceMiddle(pre, z, contents, 0, e);
  }

  lemma {:induction false} ZerosSplice(n: nat, b: bytes)
    requires |b| <= n
    ensures Splice(Zeros(n), 0, b) == b + Zeros(n - |b|)
  {
  }

  /** The blob after the five stores of one table entry. */
  function Stored(blob: bytes, at: nat, f: FileRecord, offset: nat): (b: bytes)
    requires |f.name| <= NAME_CAP && at + ENTRY_SIZE <= |blob|
    ensures |b| == |blob|
  {
    Splice(Splice(Splice(Splice(Splice(blob, at, LeBytes(2, |f.name|)), at + 4, LeBytes(4, offset)),
                         at + 8, LeBytes(4, |f.data|)), at + 12, LeBytes(2, f.mode)), at + 16, f.name)
  }

  lemma {:induction false} FiveStores(blob: bytes, at: nat, f: FileRecord, offset: nat)
    requires |f.name| <= NAME_CAP && at + ENTRY_SIZE <= |blob| && blob[at..at + ENTRY_SIZE] == Zeros(ENTRY_SIZE)
    ensures Stored(blob, at, f, offset) == Splice(blob, at, EntryBytes(f, offset))
  {
    hide LeBytes, EntryBytes;
    EntryIsStores(f, offset);
    hide Zeros, Splice;
    var pre, z, post := blob[..at], Zeros(ENTRY_SIZE), blob[at + ENTRY_SIZE..];
    assert blob == pre + z + post;
    var b0, b1, b2, b3 := LeBytes(2, |f.name|), LeBytes(4, offset), LeBytes(4, |f.data|), LeBytes(2, f.mode);
    var z0 := Splice(z, 0, b0);
    var z1 := Splice(z0, 4, b1);
    var z2 := Splice(z1, 8, b2);
    var z3 := Splice(z2, 12, b3);
    SpliceMiddle(pre, z, post, 0, b0);
    SpliceMiddle(pre, z0, post, 4, b1);
    SpliceMiddle(pre, z1, post, 8, b2);
    SpliceMiddle(pre, z2, post, 12, b3);
    SpliceMiddle(pre, z3, post, 16, f.name);
    SpliceMiddle(pre, z, post, 0, EntryBytes(f, offset));
    SpliceWhole(z, EntryBytes(f, offset));
  }

  lemma {:induction false} SpliceWhole(s: bytes, b: bytes)
    requires |s| == |b|
    ensures Splice(s, 0, b) == b
  {
  }

  lemma {:induction false} FitsOneMore(files: seq<FileRecord>, i: nat)
    requires i < |files| && NamesFit(files[..i]) && |files[i].name| <= NAME_CAP
    ensures NamesFit(files[..i + 1])
  {
    assert forall k :: 0 <= k < i ==> files[..i + 1][k] == files[..i][k];
  }

  /** One turn of the writer's loop. */
  lemma {:induction false} LoopStep(files: seq<FileRecord>, i: nat)
    requires i < |files| && NamesFit(files[..i]) && |files[i].name| <= NAME_CAP
    ensures NamesFit(files[..i + 1])
    ensures var f, at, blob := files[i], HEADER_SIZE + i * ENTRY_SIZE, Partial(files, i);
            && at + ENTRY_SIZE <= |blob| == TableEnd(|files|) + |Contents(files[..i])|
            && Stored(blob, at, f, |blob|) + f.data == Partial(files, i + 1)
  {
    FitsOneMore(files, i);
    hide Partial, EntryBytes, Contents, Splice, NamesFit, Zeros, Stored;
    PartialLength(files, i);
    PartialStep(files, i, EntryBytes(files[i], TableEnd(|files|) + |Contents(files[..i])|));
    PartialZeros(files, i);
    FiveStores(Partial(files, i), HEADER_SIZE + i * ENTRY_SIZE, files[i], |Partial(files, i)|);
  }

  /** `build_lfs1`; None is the failed length assertion. */
  method BuildLfs1(files: seq<FileRecord>) returns (r: Option<bytes>)
    ensures r == if NamesFit(files) then Some(Image(files)) else None
  {
    var tableSize := |files| * ENTRY_SIZE;
    var blob: bytes := Zeros(HEADER_SIZE + tableSize);
    blob := Splice(blob, 0, MAGIC);
    blob := Splice(blob, 4, LeBytes(2, VERSION));
    blob := Splice(blob, 6, LeBytes(2, |files|));
    HeaderStores(|files|);
    PartialStart(files);
    hide Partial, EntryBytes, LeBytes, Contents, Splice, HeaderBytes;
    var cursor, i := HEADER_SIZE + tableSize, 0;
    while i < |files|
      invariant 0 <= i <= |files| && NamesFit(files[..i])
      invariant blob == Partial(files, i) && cursor == |blob|
    {
      var file := files[i];
      if |file.name| > NAME_CAP {
        return None;
      }
      var at := HEADER_SIZE + i * ENTRY_SIZE;
      LoopStep(files, i);
      blob := Splice(blob, at, LeBytes(2, |file.name|));
      blob := Splice(blob, at + 4, LeBytes(4, cursor));
      blob := Splice(blob, at + 8, LeBytes(4, |file.data|));
      blob := Splice(blob, at + 12, LeBytes(2, file.mode));
      blob := Splice(blob, at + 16, file.name);
      blob := blob + file.data;
      cursor := cursor + |file.data|;
      i := i + 1;
    }
    PartialEnd(files);
    return Some(blob);
  }

  lemma {:induction false} HeaderStores(n: nat)
    ensures var z := Zeros(HEADER_SIZE + n * ENTRY_SIZE);
            Splice(Splice(Splice(z, 0, MAGIC), 4, LeBytes(2, VERSION)), 6, LeBytes(2, n))
            == HeaderBytes(n) + Zeros(ENTRY_SIZE * n)
  {
    hide LeBytes;
    var v, c := LeBytes(2, VERSION), LeBytes(2, n);
    var z0 := Splice(Zeros(HEADER_SIZE + n * ENTRY_SIZE), 0, MAGIC);
    assert z0 == MAGIC + Zeros(8 + n * ENTRY_SIZE);
    var z1 := Splice(z0, 4, v);
    assert z1 == MAGIC + v + Zeros(6 + n * ENTRY_SIZE);
    assert Splice(z1, 6, c) == MAGIC + v + c + Zeros(4 + n * ENTRY_SIZE);
    assert Zeros(4 + n * ENTRY_SIZE) == Zeros(4) + Zeros(ENTRY_SIZE * n);
  }

  lemma {:induction false} PartialStart(files: seq<FileRecord>)
    ensures NamesFit(files[..0]) && Partial(files, 0) == HeaderBytes(|files|) + Zeros(ENTRY_SIZE * |files|)
  {
    assert files[..0] == [];
  }

  lemma {:induction false} PartialEnd(files: seq<FileRecord>)
    requires NamesFit(files[..|files|])
    ensures NamesFit(files) && Partial(files, |files|) == Image(files)
  {
    assert files[..|files|] == files;
  }

  lemma {:induction false} PartialZeros(files: seq<FileRecord>, i: nat)
    requires i < |files| && NamesFit(files[..i])
    ensures var at := HEADER_SIZE + i * ENTRY_SIZE;
            at + ENTRY_SIZE <= |Partial(files, i)| && Partial(files, i)[at..at + ENTRY_SIZE] == Zeros(ENTRY_SIZE)
  {
    hide HeaderBytes, Table, Contents;
  }
}
