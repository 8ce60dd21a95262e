/** A reader of getdents64 output, stepping by record length as a user program does. */
module Dirents {
  import opened Words
  import opened Lfs
  import opened LfsRoundTrip
  import opened FdTable
  import opened FdRuns
  import opened FdStreams

  function CutAtNul(s: bytes): (r: bytes)
    ensures |r| <= |s|
  {
    if s == [] || s[0] == 0 then [] else [s[0]] + CutAtNul(s[1..])
  }

  /** The entries in b; None when a record length leaves b or does not cover its own header. */
  function Parse(b: bytes): Option<seq<Dirent>>
    decreases |b|
  {
    if b == [] then Some([])
    else if |b| < 20 then None
    else
      var len := LeValue(b[16..18]);
      if len < 20 || len > |b| then None
      else match Parse(b[len..])
      case None => None
      case Some(rest) =>
        Some([Dirent(LeValue(b[0..8]), LeValue(b[8..16]), b[18], CutAtNul(b[19..len]))] + rest)
  }

  predicate NulFree(s: bytes) {
    forall k :: 0 <= k < |s| ==> s[k] != 0
  }

  lemma {:induction false} CutPadded(name: bytes, pad: bytes)
    requires NulFree(name)
    ensures CutAtNul(name + [0] + pad) == name
  {
    if name == [] {
      assert name + [0] + pad == [0] + pad;
    } else {
      CutPadded(name[1..], pad);
      assert (name + [0] + pad)[1..] == name[1..] + [0] + pad;
      assert [name[0]] + name[1..] == name;
    }
  }

  /** The record's fields, at the offsets of the linux_dirent64 structure. */
  lemma {:induction false} RecordFields(d: Dirent, e: bytes)
    requires Record(d) <= e && |d.name| <= NAME_CAP
    ensures |e| >= 20 && RecordLen(|d.name|) <= |e|
    ensures e[0..8] == LeBytes(8, d.ino) && e[8..16] == LeBytes(8, d.next)
    ensures e[16..18] == LeBytes(2, RecordLen(|d.name|)) && e[18] == d.typ
    ensures e[19..RecordLen(|d.name|)] == d.name + [0] + Zeros(RecordLen(|d.name|) - 20 - |d.name|)
  {
    hide LeBytes, Zeros;
    var n := RecordLen(|d.name|);
    var p1 := LeBytes(8, d.ino);
    var p2 := p1 + LeBytes(8, d.next);
    var p3 := p2 + LeBytes(2, n);
    var p4 := p3 + [d.typ];
    var tail := d.name + [0] + Zeros(n - 20 - |d.name|);
    assert Record(d) == p4 + tail;
    hide Record;
    Last(p4, tail, e);
    Last(p3, [d.typ], e);
    Last(p2, LeBytes(2, n), e);
    Last(p1, LeBytes(8, d.next), e);
    assert e[0..8] == e[..|p1|] == p1;
    assert e[18] == e[18..19][0];
  }

  predicate Fits(d: Dirent) {
    d.ino < TWO64 && d.next < TWO64 && |d.name| <= NAME_CAP && NulFree(d.name)
  }

  /** A record in front of anything is parsed as its entry. */
  lemma {:induction false} ParseRecord(d: Dirent, rest: bytes)
    requires Fits(d)
    ensures Parse(Record(d) + rest) ==
            match Parse(rest) case None => None case Some(ds) => Some([d] + ds)
  {
    var n := RecordLen(|d.name|);
    var e := Record(d) + rest;
    RecordFields(d, e);
    assert e[n..] == rest;
    hide Record, LeBytes, LeValue, Zeros, Parse, CutAtNul;
    LeRoundTrip64(d.ino);
    LeRoundTrip64(d.next);
    LeRoundTrip(2, n);
    Powers();
    CutPadded(d.name, Zeros(n - 20 - |d.name|));
    ParseStep(e, n);
  }

  lemma {:induction false} ParseStep(e: bytes, n: nat)
    requires 20 <= n <= |e| && LeValue(e[16..18]) == n
    ensures Parse(e) ==
            match Parse(e[n..])
            case None => None
            case Some(ds) => Some([Dirent(LeValue(e[0..8]), LeValue(e[8..16]), e[18], CutAtNul(e[19..n]))] + ds)
  {
    hide LeValue, CutAtNul;
  }

  /** The directory entries from position p up to q. */
  function Entries(s: FdState, p: nat, q: nat): seq<Dirent>
    requires Live(s, p, q)
    decreases q - p
  {
    if p >= q then [] else [DirentAt(s, p).value] + Entries(s, p + 1, q)
  }

  predicate PlainNames(s: FdState, p: nat, q: nat)
    requires Live(s, p, q)
  {
    forall k :: p <= k < q ==> NulFree(DirentAt(s, k).value.name)
  }

  /** Parsing a stretch of the canonical serialization gives its entries back, in order. */
  lemma {:induction false} ParseSerial(s: FdState, p: nat, q: nat)
    requires Live(s, p, q) && PlainNames(s, p, q)
    ensures Parse(Serial(s, p, q)) == Some(Entries(s, p, q))
    decreases q - p
  {
    if p < q {
      DirentInRange(s, p);
      ParseSerial(s, p + 1, q);
      hide Record, Parse, DirentAt;
      ParseRecord(DirentAt(s, p).value, Serial(s, p + 1, q));
    }
  }

  /** The same, position by position. */
  lemma {:induction false} EntriesAt(s: FdState, p: nat, q: nat, k: nat)
    requires Live(s, p, q) && k < q - p
    ensures |Entries(s, p, q)| == q - p && Entries(s, p, q)[k] == DirentAt(s, p + k).value
    decreases q - p
  {
    hide DirentAt;
    EntriesLength(s, p + 1, q);
    if k > 0 {
      EntriesAt(s, p + 1, q, k - 1);
    }
  }

  lemma {:induction false} EntriesLength(s: FdState, p: nat, q: nat)
    requires Live(s, p, q)
    ensures |Entries(s, p, q)| == if p < q then q - p else 0
    decreases q - p
  {
    hide DirentAt;
    if p < q {
      EntriesLength(s, p + 1, q);
    }
  }

  /** What a program lists: over the image of some files, reading a directory from the start until 0, with
      any buffer sizes and any other calls in between, and parsing what was delivered, gives ".", ".." and
      the file names in order, each with its position as inode and the next as d_off. A file without a name
      ends the list; without one it is complete. */
  lemma {:induction false} ListingIsComplete(files: seq<FileRecord>, s: FdState, ops: seq<Op>, fd: nat, count: nat)
    requires NamesFit(files) && |files| < TWO16 && |Image(files)| < TWO32
    requires forall k :: 0 <= k < |files| ==> NulFree(files[k].name)
    requires s.rootfs == Some(Image(files)) && |s.fds| == MAX_FDS
    requires fd < MAX_FDS && s.fds[fd] == RootDir(0) && AllSpare(ops, fd)
    requires SysGetdents64(Run(s, ops), fd, true, count).ret == 0
    ensures var r, named := Parse(Delivered(s, ops, fd)), FirstUnnamed(files);
            && r.Some? && |r.value| == named + 2
            && r.value[0] == Dirent(1, 1, 4, [0x2E]) && r.value[1] == Dirent(1, 2, 4, [0x2E, 0x2E])
            && forall k :: 0 <= k < named ==> r.value[k + 2] == Dirent(k + 2, k + 3, 8, files[k].name)
  {
    hide Image, Serial, Parse, DirentAt, SysGetdents64, Run, Delivered, FirstUnnamed, AllSpare;
    DirentsOfImage(files, s);
    var n := FirstUnnamed(files) + 2;
    DirToGap(s, ops, fd, count, n);
    ParseSerial(s, 0, n);
    forall k | 0 <= k < n
      ensures |Entries(s, 0, n)| == n && Entries(s, 0, n)[k] == DirentAt(s, k).value
    {
      EntriesAt(s, 0, n, k);
    }
    hide Entries;
    forall k | 0 <= k < FirstUnnamed(files)
      ensures Entries(s, 0, n)[k + 2] == Dirent(k + 2, k + 3, DT_REG, files[k].name)
    {
      assert DirentAt(s, k + 2) == Some(Dirent(k + 2, k + 3, DT_REG, files[k].name));
    }
  }

  lemma {:induction false} DirentsOfImage(files: seq<FileRecord>, s: FdState)
    requires NamesFit(files) && |files| < TWO16 && |Image(files)| < TWO32
    requires forall k :: 0 <= k < |files| ==> NulFree(files[k].name)
    requires s.rootfs == Some(Image(files))
    ensures var named := FirstUnnamed(files);
            && Live(s, 0, named + 2) && DirentAt(s, named + 2) == None && PlainNames(s, 0, named + 2)
            && DirentAt(s, 0) == Some(Dirent(1, 1, DT_DIR, [0x2E]))
            && DirentAt(s, 1) == Some(Dirent(1, 2, DT_DIR, [0x2E, 0x2E]))
            && forall k: nat :: k < named ==> DirentAt(s, k + 2) == Some(Dirent(k + 2, k + 3, DT_REG, files[k].name))
  {
    hide Image, Entry, Header, FirstUnnamed, DirentAt;
    var named := FirstUnnamed(files);
    forall k: nat | k < named
      ensures DirentAt(s, k + 2) == Some(Dirent(k + 2, k + 3, DT_REG, files[k].name))
    {
      DirentOfFile(files, s, k);
    }
    DirentOfFile(files, s, named);
    DotsFirst(s);
    forall k: nat | k < named + 2
      ensures DirentAt(s, k).Some? && NulFree(DirentAt(s, k).value.name)
    {
      if k >= 2 {
        var i := k - 2;
        assert DirentAt(s, i + 2) == Some(Dirent(i + 2, i + 3, DT_REG, files[i].name));
      }
    }
  }

  lemma {:induction false} DotsFirst(s: FdState)
    ensures DirentAt(s, 0) == Some(Dirent(1, 1, DT_DIR, [0x2E]))
    ensures DirentAt(s, 1) == Some(Dirent(1, 2, DT_DIR, [0x2E, 0x2E]))
  {
  }

  /** The entry of file k; a file without a name has none. */
  lemma {:induction false} DirentOfFile(files: seq<FileRecord>, s: FdState, k: nat)
    requires NamesFit(files) && |files| < TWO16 && |Image(files)| < TWO32
    requires s.rootfs == Some(Image(files))
    ensures DirentAt(s, k + 2) == if k < |files| && |files[k].name| != 0
                                  then Some(Dirent(k + 2, k + 3, DT_REG, files[k].name)) else None
  {
    HeaderOfImage(files);
    hide Image, Entry, Header;
    EntryRoundTrip(files, k);
  }
}
