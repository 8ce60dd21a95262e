/** The reader undoes the writer. */
module LfsRoundTrip {
  import opened Words
  import opened Lfs

  /** Reading back the last piece of a prefix of e. */
  lemma {:induction false} Last(a: bytes, b: bytes, e: bytes)
    requires a + b <= e
    ensures a <= e && e[|a|..|a| + |b|] == b
  {
    assert e[..|a + b|] == a + b;
    assert e[|a|..|a| + |b|] == e[..|a + b|][|a|..];
    assert e[..|a|] == e[..|a + b|][..|a|];
  }

  lemma {:induction false} EntrySlices(f: FileRecord, offset: nat)
    requires |f.name| <= NAME_CAP
    ensures var e := EntryBytes(f, offset);
            && e[0..2] == LeBytes(2, |f.name|) && e[4..8] == LeBytes(4, offset) && e[8..12] == LeBytes(4, |f.data|)
            && e[12..14] == LeBytes(2, f.mode) && e[16..16 + |f.name|] == f.name
  {
    hide LeBytes, Zeros;
    var n, o, s, m := LeBytes(2, |f.name|), LeBytes(4, offset), LeBytes(4, |f.data|), LeBytes(2, f.mode);
    var z, e := Zeros(2), EntryBytes(f, offset);
    var p2 := n + z;
    var p3 := p2 + o;
    var p4 := p3 + s;
    var p5 := p4 + m;
    var p6 := p5 + z;
    assert e == p6 + f.name + Zeros(NAME_CAP - |f.name|);
    hide EntryBytes;
    Last(p6, f.name, e);
    Last(p5, z, e);
    Last(p4, m, e);
    Last(p3, s, e);
    Last(p2, o, e);
    Last(n, z, e);
    assert e[0..2] == e[..|n|] == n;
  }

  /** What the reader makes of a table entry the writer wrote. Offset and size come back cut to 32 bits. */
  lemma {:induction false} EntryFields(image: bytes, f: FileRecord, offset: nat)
    requires |f.name| <= NAME_CAP
    ensures var o, s := offset % TWO32, |f.data| % TWO32;
            RecordAt(image, EntryBytes(f, offset)) ==
            if |f.name| == 0 then Err(InvalidName)
            else if o + s > |image| then Err(OutOfBounds)
            else Ok(FileRecord(f.name, f.mode, image[o..o + s]))
  {
    hide LeValue, LeBytes, EntryBytes;
    EntrySlices(f, offset);
    Powers();
    LeRoundTrip(2, |f.name|);
    LeRoundTrip(4, offset);
    LeRoundTrip(4, |f.data|);
    LeRoundTrip(2, f.mode);
  }

  lemma {:induction false} FitTail(files: seq<FileRecord>)
    requires NamesFit(files) && files != []
    ensures |files[0].name| <= NAME_CAP && NamesFit(files[1..])
  {
  }

  lemma {:induction false} TableEntry(files: seq<FileRecord>, offset: nat, i: nat)
    requires NamesFit(files) && i < |files|
    ensures Table(files, offset)[ENTRY_SIZE * i..ENTRY_SIZE * i + ENTRY_SIZE]
            == EntryBytes(files[i], offset + |Contents(files[..i])|)
  {
    hide EntryBytes;
    FitTail(files);
    var e, rest := EntryBytes(files[0], offset), Table(files[1..], offset + |files[0].data|);
    if i == 0 {
      assert files[..0] == [];
      assert (e + rest)[0..ENTRY_SIZE] == e;
    } else {
      TableEntry(files[1..], offset + |files[0].data|, i - 1);
      assert files[..i][1..] == files[1..][..i - 1];
      var k := ENTRY_SIZE * (i - 1);
      assert (e + rest)[ENTRY_SIZE + k..ENTRY_SIZE + k + ENTRY_SIZE] == rest[k..k + ENTRY_SIZE];
    }
  }

  lemma {:induction false} ContentsAt(files: seq<FileRecord>, i: nat)
    requires i < |files|
    ensures var at := |Contents(files[..i])|;
            && at + |files[i].data| == |Contents(files[..i + 1])| <= |Contents(files)|
            && Contents(files)[at..at + |files[i].data|] == files[i].data
  {
    var d, rest := files[0].data, Contents(files[1..]);
    assert files[..i + 1][1..] == files[1..][..i];
    if i == 0 {
      assert files[..0] == [] && files[1..][..0] == [];
      assert (d + rest)[0..|d|] == d;
    } else {
      ContentsAt(files[1..], i - 1);
      assert files[..i][1..] == files[1..][..i - 1];
      var at, n := |Contents(files[1..][..i - 1])|, |files[i].data|;
      assert (d + rest)[|d| + at..|d| + at + n] == rest[at..at + n];
    }
  }

  /** Where the data of file i begins. */
  function DataAt(files: seq<FileRecord>, i: nat): nat
    requires i <= |files|
  {
    TableEnd(|files|) + |Contents(files[..i])|
  }

  /** The data regions tile the image from the end of the table to the end of the image. */
  lemma {:induction false} DataTiles(files: seq<FileRecord>)
    requires NamesFit(files)
    ensures DataAt(files, 0) == TableEnd(|files|) && DataAt(files, |files|) == |Image(files)|
    ensures forall i :: 0 <= i < |files| ==>
              && DataAt(files, i + 1) == DataAt(files, i) + |files[i].data| <= |Image(files)|
              && Image(files)[DataAt(files, i)..DataAt(files, i + 1)] == files[i].data
  {
    assert files[..0] == [] && files[..|files|] == files;
    forall i | 0 <= i < |files|
      ensures DataAt(files, i + 1) == DataAt(files, i) + |files[i].data| <= |Image(files)|
      ensures Image(files)[DataAt(files, i)..DataAt(files, i + 1)] == files[i].data
    {
      ContentsAt(files, i);
      var h, c, at := HeaderBytes(|files|) + Table(files, TableEnd(|files|)), Contents(files), |Contents(files[..i])|;
      assert (h + c)[|h| + at..|h| + at + |files[i].data|] == c[at..at + |files[i].data|];
    }
  }

  /** The header reports the number of files, cut to 16 bits. */
  lemma {:induction false} HeaderOfImage(files: seq<FileRecord>)
    requires NamesFit(files)
    ensures Header(Image(files)) == Ok(|files| % TWO16)
  {
    hide LeValue, LeBytes, Table, Contents;
    var image := Image(files);
    assert image[0..4] == MAGIC;
    assert image[4..6] == LeBytes(2, VERSION);
    assert image[6..8] == LeBytes(2, |files|);
    Powers();
    LeRoundTrip(2, VERSION);
    LeRoundTrip(2, |files|);
  }

  /** Reading entry i of a written image, with no assumption on sizes: an empty name is refused, and the
      data is looked up at the 32-bit remainders of its offset and size. */
  lemma {:induction false} EntryOfImage(files: seq<FileRecord>, i: nat)
    requires NamesFit(files) && i < |files|
    ensures var image, f, o, s := Image(files), files[i], DataAt(files, i) % TWO32, |files[i].data| % TWO32;
            EntryAt(image, i) ==
            if |f.name| == 0 then Err(InvalidName)
            else if o + s > |image| then Err(OutOfBounds)
            else Ok(FileRecord(f.name, f.mode, image[o..o + s]))
  {
    hide RecordAt, EntryBytes, HeaderBytes, Contents;
    var image, t := Image(files), Table(files, TableEnd(|files|));
    TableEntry(files, TableEnd(|files|), i);
    var k := ENTRY_SIZE * i;
    assert image[HEADER_SIZE + k..HEADER_SIZE + k + ENTRY_SIZE] == t[k..k + ENTRY_SIZE];
    EntryFields(image, files[i], DataAt(files, i));
  }

  /** An image below 4 GiB gives every file with a name back exactly; only the empty name is lost. */
  lemma {:induction false} FileRoundTrip(files: seq<FileRecord>, i: nat)
    requires NamesFit(files) && i < |files| && |Image(files)| < TWO32
    ensures EntryAt(Image(files), i) == if |files[i].name| == 0 then Err(InvalidName) else Ok(files[i])
  {
    hide Image;
    EntryOfImage(files, i);
    DataTiles(files);
    assert DataAt(files, i + 1) == DataAt(files, i) + |files[i].data| <= |Image(files)|;
    assert DataAt(files, i) % TWO32 == DataAt(files, i) && |files[i].data| % TWO32 == |files[i].data|;
  }

  /** Entry(i) returns file i exactly when it has a name, for up to 65535 files. */
  lemma {:induction false} EntryRoundTrip(files: seq<FileRecord>, i: nat)
    requires NamesFit(files) && |files| < TWO16 && |Image(files)| < TWO32
    ensures Entry(Image(files), i) ==
            if i >= |files| then Err(NotFound) else if |files[i].name| == 0 then Err(InvalidName) else Ok(files[i])
  {
    hide Image, EntryAt;
    HeaderOfImage(files);
    if i < |files| {
      FileRoundTrip(files, i);
    }
  }

  // ---------------------------------------------------------------- open and list

  /** What opening a file should mean: the first file with that name. */
  predicate IsFirst(files: seq<FileRecord>, wanted: bytes, k: int) {
    0 <= k < |files| && files[k].name == wanted && forall j :: 0 <= j < k ==> files[j].name != wanted
  }

  /** The index of the first file without a name, or the number of files. */
  function FirstUnnamed(files: seq<FileRecord>): (n: nat)
    ensures n <= |files| && (n < |files| ==> |files[n].name| == 0)
    ensures forall k :: 0 <= k < n ==> |files[k].name| != 0
  {
    if files == [] || |files[0].name| == 0 then 0 else 1 + FirstUnnamed(files[1..])
  }

  lemma {:induction false} OpenFromImage(files: seq<FileRecord>, wanted: bytes, i: nat)
    requires NamesFit(files) && |Image(files)| < TWO32 && i <= FirstUnnamed(files)
    requires forall j :: 0 <= j < i ==> files[j].name != wanted
    ensures var r, n := OpenFrom(Image(files), wanted, i, |files|), FirstUnnamed(files);
            && (r.Ok? ==> exists k :: IsFirst(files, wanted, k) && k < n && r.value == files[k])
            && (r.Err? ==> && r.error == (if n < |files| then InvalidName else NotFound)
                           && forall j :: 0 <= j < n ==> files[j].name != wanted)
    decreases |files| - i
  {
    hide Image, EntryAt, FirstUnnamed;
    if i < |files| {
      FileRoundTrip(files, i);
      if i < FirstUnnamed(files) {
        if files[i].name == wanted {
          assert IsFirst(files, wanted, i);
        } else {
          OpenFromImage(files, wanted, i + 1);
        }
      }
    }
  }

  /** Opening by name yields the first file of that name, if it comes before any file without a name; otherwise
      it fails, with InvalidName if there is a file without a name and with NotFound if there is none. */
  lemma {:induction false} OpenRoundTrip(files: seq<FileRecord>, wanted: bytes)
    requires NamesFit(files) && |files| < TWO16 && |Image(files)| < TWO32
    ensures var r, n := Open(Image(files), wanted), FirstUnnamed(files);
            && (r.Ok? ==> exists k :: IsFirst(files, wanted, k) && k < n && r.value == files[k])
            && (r.Err? ==> && r.error == (if n < |files| then InvalidName else NotFound)
                           && forall j :: 0 <= j < n ==> files[j].name != wanted)
  {
    hide Image, FirstUnnamed, Header, OpenFrom, IsFirst;
    HeaderOfImage(files);
    OpenFromImage(files, wanted, 0);
  }

  lemma {:induction false} ListFromImage(files: seq<FileRecord>, i: nat)
    requires NamesFit(files) && |Image(files)| < TWO32 && i <= FirstUnnamed(files)
    ensures var n := FirstUnnamed(files);
            ListFrom(Image(files), i, |files|) == Listing(files[i..n], if n < |files| then Some(InvalidName) else None)
    decreases |files| - i
  {
    hide Image, EntryAt, FirstUnnamed;
    var n := FirstUnnamed(files);
    if i < |files| {
      FileRoundTrip(files, i);
      if i < n {
        ListFromImage(files, i + 1);
        assert files[i..n] == [files[i]] + files[i + 1..n];
      }
    }
  }

  /** Listing visits the files in order, up to the first without a name. */
  lemma {:induction false} ListRoundTrip(files: seq<FileRecord>)
    requires NamesFit(files) && |files| < TWO16 && |Image(files)| < TWO32
    ensures var n := FirstUnnamed(files);
            List(Image(files)) == Listing(files[..n], if n < |files| then Some(InvalidName) else None)
  {
    hide Image, FirstUnnamed, Header, ListFrom;
    HeaderOfImage(files);
    ListFromImage(files, 0);
  }

  /** The limit on the count is real: the 16-bit field of 65536 files reads as none, and no name opens. */
  lemma {:induction false} TooManyFiles(files: seq<FileRecord>, wanted: bytes)
    requires NamesFit(files) && |files| == TWO16
    ensures Header(Image(files)) == Ok(0) && Open(Image(files), wanted) == Err(NotFound)
  {
    hide Image;
    HeaderOfImage(files);
  }
}
