/** The LFS1 format byte by byte: what the writer puts where, and when the reader accepts any image. */
module LfsFormat {
  import opened Words
  import Utf8
  import opened Lfs
  import opened LfsRoundTrip

  function U16(b: bytes, i: nat): (n: nat)
    requires i + 2 <= |b|
    ensures n < 0x1_0000
  {
    (b[i] as int) + 0x100 * (b[i + 1] as int)
  }

  function U32(b: bytes, i: nat): nat
    requires i + 4 <= |b|
  {
    U16(b, i) + 0x1_0000 * U16(b, i + 2)
  }

  lemma {:induction false} Numbers(b: bytes, i: nat)
    ensures i + 2 <= |b| ==> LeValue(b[i..i + 2]) == U16(b, i)
    ensures i + 4 <= |b| ==> LeValue(b[i..i + 4]) == U32(b, i)
  {
    if i + 2 <= |b| {
      Two(b[i..i + 2]);
    }
    if i + 4 <= |b| {
      Four(b[i..i + 4]);
    }
  }

  lemma {:induction false} Two(s: bytes)
    requires |s| == 2
    ensures LeValue(s) == U16(s, 0)
  {
    assert s[1..][1..] == [];
  }

  lemma {:induction false} Four(s: bytes)
    requires |s| == 4
    ensures LeValue(s) == U32(s, 0)
  {
    var t := s[1..][1..];
    assert t[1..][1..] == [];
    assert t == s[2..];
    Two(t);
    assert LeValue(s) == s[0] + TWO8 * LeValue(s[1..]);
    assert LeValue(s[1..]) == s[1] + TWO8 * LeValue(t);
  }

  // ---------------------------------------------------------------- the writer

  /** The 64 bytes at index at describe a file whose data begins at offset. */
  predicate Describes(image: bytes, at: nat, f: FileRecord, offset: int) {
    && at + 64 <= |image| && |f.name| <= 48
    && U16(image, at) == |f.name| && U32(image, at + 4) == offset && U32(image, at + 8) == |f.data| % 0x1_0000_0000
    && U16(image, at + 12) == f.mode && image[at + 16..at + 16 + |f.name|] == f.name
  }

  /** The header is "LFS1", version 1 and the number of files; entry i stands at byte 12 + 64 i and has the name's
      length, the data's offset and length, the mode and the name at bytes 0, 4, 8, 12 and 16. */
  lemma {:induction false} ImageMeaning(files: seq<FileRecord>, i: nat)
    requires NamesFit(files)
    ensures var image := Image(files);
            && |image| >= 12 && image[0..4] == [0x4C, 0x46, 0x53, 0x31]
            && U16(image, 4) == 1 && U16(image, 6) == |files| % 0x1_0000
            && (i < |files| ==> Describes(image, 12 + 64 * i, files[i], DataAt(files, i) % 0x1_0000_0000))
  {
    HeaderParts(files);
    Numbers(Image(files), 4);
    Numbers(Image(files), 6);
    LeRoundTrip(2, 1);
    LeRoundTrip(2, |files|);
    Powers();
    if i < |files| {
      var at := 12 + 64 * i;
      EntryInImage(files, i);
      var e := Image(files)[at..at + 64];
      EntrySlices(files[i], DataAt(files, i));
      EntryNumbers(Image(files), at, e, files[i], DataAt(files, i));
    }
    hide Image, LeBytes, LeValue, EntryBytes, U16, U32;
  }

  lemma {:induction false} HeaderParts(files: seq<FileRecord>)
    requires NamesFit(files)
    ensures var image := Image(files);
            && |image| >= 12 && image[0..4] == [0x4C, 0x46, 0x53, 0x31]
            && image[4..6] == LeBytes(2, 1) && image[6..8] == LeBytes(2, |files|)
  {
    hide LeBytes, Table, Contents, Zeros;
    var h := HeaderBytes(|files|);
    assert h[0..4] == [0x4C, 0x46, 0x53, 0x31] && h[4..6] == LeBytes(2, 1) && h[6..8] == LeBytes(2, |files|);
    assert Image(files)[..12] == h;
    assert Image(files)[0..4] == h[0..4] && Image(files)[4..6] == h[4..6] && Image(files)[6..8] == h[6..8];
  }

  lemma {:induction false} EntryInImage(files: seq<FileRecord>, i: nat)
    requires NamesFit(files) && i < |files|
    ensures 12 + 64 * i + 64 <= |Image(files)|
    ensures Image(files)[12 + 64 * i..12 + 64 * i + 64] == EntryBytes(files[i], DataAt(files, i))
  {
    TableEntry(files, TableEnd(|files|), i);
    hide EntryBytes, Contents;
    var h, t, c := HeaderBytes(|files|), Table(files, TableEnd(|files|)), Contents(files);
    hide HeaderBytes, Table;
    InMiddle(h, t, c, 64 * i);
  }

  lemma {:induction false} InMiddle(h: bytes, t: bytes, c: bytes, k: nat)
    requires |h| == 12 && k + 64 <= |t|
    ensures (h + t + c)[12 + k..12 + k + 64] == t[k..k + 64]
  {
  }

  lemma {:induction false} EntryNumbers(image: bytes, at: nat, e: bytes, f: FileRecord, offset: nat)
    requires at + 64 <= |image| && e == image[at..at + 64] && |f.name| <= 48
    requires e[0..2] == LeBytes(2, |f.name|) && e[4..8] == LeBytes(4, offset) && e[8..12] == LeBytes(4, |f.data|)
    requires e[12..14] == LeBytes(2, f.mode) && e[16..16 + |f.name|] == f.name
    ensures Describes(image, at, f, offset % 0x1_0000_0000)
  {
    hide LeBytes, LeValue, U16, U32;
    RecordNumbers(image, at);
    LeRoundTrip(2, |f.name|);
    LeRoundTrip(4, offset);
    LeRoundTrip(4, |f.data|);
    LeRoundTrip(2, f.mode);
    Powers();
  }

  // ---------------------------------------------------------------- the reader

  /** The header of any image: the first demand that fails, or the count. */
  lemma {:induction false} HeaderMeaning(image: bytes)
    ensures Header(image) ==
            if |image| < 12 then Err(TooSmall)
            else if image[0..4] != [0x4C, 0x46, 0x53, 0x31] then Err(BadMagic)
            else if U16(image, 4) != 1 then Err(BadVersion)
            else if 12 + 64 * U16(image, 6) > |image| then Err(OutOfBounds)
            else Ok(U16(image, 6))
  {
    Numbers(image, 4);
    Numbers(image, 6);
    hide LeValue;
  }

  /** Any entry of any image: the first demand that fails, or name, mode and data. */
  lemma {:induction false} EntryMeaning(image: bytes, i: nat)
    ensures var at := 12 + 64 * i;
            EntryAt(image, i) ==
            if at + 64 > |image| then Err(OutOfBounds)
            else if !(1 <= U16(image, at) <= 48) then Err(InvalidName)
            else if !Utf8.Valid(image[at + 16..at + 16 + U16(image, at)]) then Err(InvalidName)
            else if U32(image, at + 4) + U32(image, at + 8) > |image| then Err(OutOfBounds)
            else Ok(FileRecord(image[at + 16..at + 16 + U16(image, at)], U16(image, at + 12),
                               image[U32(image, at + 4)..U32(image, at + 4) + U32(image, at + 8)]))
  {
    var at := 12 + 64 * i;
    if at + 64 <= |image| {
      RecordMeaning(image, at);
    }
    hide RecordAt, Utf8.Valid, U16, U32;
  }

  lemma {:induction false} RecordMeaning(image: bytes, at: nat)
    requires at + 64 <= |image|
    ensures RecordAt(image, image[at..at + 64]) ==
            if !(1 <= U16(image, at) <= 48) then Err(InvalidName)
            else if !Utf8.Valid(image[at + 16..at + 16 + U16(image, at)]) then Err(InvalidName)
            else if U32(image, at + 4) + U32(image, at + 8) > |image| then Err(OutOfBounds)
            else Ok(FileRecord(image[at + 16..at + 16 + U16(image, at)], U16(image, at + 12),
                               image[U32(image, at + 4)..U32(image, at + 4) + U32(image, at + 8)]))
  {
    RecordNumbers(image, at);
    hide LeValue, Utf8.Valid, U16, U32;
  }

  lemma {:induction false} RecordNumbers(image: bytes, at: nat)
    requires at + 64 <= |image|
    ensures var e, n := image[at..at + 64], U16(image, at);
            && LeValue(e[0..2]) == n && LeValue(e[4..8]) == U32(image, at + 4)
            && LeValue(e[8..12]) == U32(image, at + 8)
            && LeValue(e[12..14]) == U16(image, at + 12) && (n <= 48 ==> e[16..16 + n] == image[at + 16..at + 16 + n])
  {
    Numbers(image, at);
    Numbers(image, at + 4);
    Numbers(image, at + 8);
    Numbers(image, at + 12);
    hide LeValue, U16, U32;
    Subslice(image, at, at + 64, 0, 2);
    Subslice(image, at, at + 64, 4, 8);
    Subslice(image, at, at + 64, 8, 12);
    Subslice(image, at, at + 64, 12, 14);
    var n := U16(image, at);
    if n <= 48 {
      Subslice(image, at, at + 64, 16, 16 + n);
    }
  }

  /** Asking for an entry, and looking for a name. */
  lemma {:induction false} LookupMeaning(image: bytes, i: nat, wanted: bytes)
    ensures Header(image).Err? ==>
              Entry(image, i) == Err(Header(image).error) && Open(image, wanted) == Err(Header(image).error)
    ensures Header(image).Ok? ==>
              Entry(image, i) == if i >= Header(image).value then Err(NotFound) else EntryAt(image, i)
    ensures Open(image, wanted).Ok? ==>
              var r := Open(image, wanted).value;
              exists k: nat :: Entry(image, k) == Ok(r) && r.name == wanted
                               && forall j: nat :: j < k ==> Entry(image, j).Ok? && Entry(image, j).value.name != wanted
  {
    if Header(image).Ok? {
      var count := Header(image).value;
      OpenFinds(image, wanted, 0, count);
    }
    hide Header, EntryAt, OpenFrom;
  }

  lemma {:induction false} OpenFinds(image: bytes, wanted: bytes, i: nat, count: nat)
    requires Header(image) == Ok(count)
    requires forall j: nat :: j < i ==> Entry(image, j).Ok? && Entry(image, j).value.name != wanted
    ensures OpenFrom(image, wanted, i, count).Ok? ==>
              var r := OpenFrom(image, wanted, i, count).value;
              exists k: nat :: Entry(image, k) == Ok(r) && r.name == wanted
                               && forall j: nat :: j < k ==> Entry(image, j).Ok? && Entry(image, j).value.name != wanted
    decreases count - i
  {
    hide Header, EntryAt;
    if i < count && EntryAt(image, i).Ok? && EntryAt(image, i).value.name != wanted {
      OpenFinds(image, wanted, i + 1, count);
    } else if i < count && EntryAt(image, i).Ok? {
      assert Entry(image, i) == EntryAt(image, i);
    }
  }
}
