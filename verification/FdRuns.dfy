/** Properties of whole runs of file-descriptor calls. */
module FdRuns {
  import opened Words
  import opened Lfs
  import opened Paths
  import opened FdTable

  // ---------------------------------------------------------------- the invariant of every run

  predicate HasRecord(image: bytes, i: nat, data: bytes, mode: u16) {
    var r := Entry(image, i);
    r.Ok? && r.value.data == data && r.value.mode == mode
  }

  ghost predicate GoodEntry(rootfs: Option<bytes>, e: FdEntry) {
    match e
    case Free => true
    case RootDir(pos) => pos <= ISIZE_MAX
    case File(data, pos, mode) =>
      pos <= ISIZE_MAX && |data| <= ISIZE_MAX && rootfs.Some? && exists i :: HasRecord(rootfs.value, i, data, mode)
  }

  /** Standard descriptors stay free, positions stay in range, and every open file is the whole data
      of some record of the current image. */
  ghost predicate Inv(s: FdState) {
    && |s.fds| == MAX_FDS
    && (s.rootfs.Some? ==> |s.rootfs.value| <= ISIZE_MAX)
    && (forall k :: 0 <= k < FD_BASE ==> s.fds[k] == Free)
    && (forall k :: 0 <= k < MAX_FDS ==> GoodEntry(s.rootfs, s.fds[k]))
  }

  /** Slices are at most isize::MAX bytes long. */
  predicate Possible(op: Op) {
    op.OpSetRootfs? ==> |op.image| <= ISIZE_MAX
  }

  lemma {:induction false} PutKeepsInv(s: FdState, fd: nat, e: FdEntry)
    requires Inv(s) && FD_BASE <= fd < MAX_FDS && GoodEntry(s.rootfs, e)
    ensures Inv(Put(s, fd, e))
  {
  }

  lemma {:induction false} OpenFinds(image: bytes, name: bytes, i: nat, count: nat)
    requires Header(image) == Ok(count) && OpenFrom(image, name, i, count).Ok?
    ensures var rec := OpenFrom(image, name, i, count).value;
            && rec.name == name && |rec.data| <= |image|
            && exists k :: HasRecord(image, k, rec.data, rec.mode)
    decreases count - i
  {
    hide Header, RecordAt;
    var r := EntryAt(image, i);
    if r.value.name == name {
      RecordInImage(image, i);
      assert HasRecord(image, i, r.value.data, r.value.mode);
    } else {
      OpenFinds(image, name, i + 1, count);
    }
  }

  lemma {:induction false} RecordInImage(image: bytes, i: nat)
    requires EntryAt(image, i).Ok?
    ensures |EntryAt(image, i).value.data| <= |image| && 1 <= |EntryAt(image, i).value.name| <= NAME_CAP
  {
    hide LeValue;
  }

  lemma {:induction false} AllocKeepsInv(s: FdState, e: FdEntry)
    requires Inv(s) && GoodEntry(s.rootfs, e)
    ensures Inv(AllocFd(s, e).s)
  {
    if FirstFree(s.fds, FD_BASE) < MAX_FDS {
      PutKeepsInv(s, FirstFree(s.fds, FD_BASE), e);
    }
  }

  lemma {:induction false} OpenatKeepsInv(s: FdState, dirfd: int, path: Option<bytes>, flags: nat)
    requires Inv(s)
    ensures Inv(SysOpenat(s, dirfd, path, flags).s)
  {
    hide Inv, AllocFd, ReadCstr, NormalizePath, Header, OpenFrom;
    AllocKeepsInv(s, RootDir(0));
    if path.Some? && ReadCstr(path.value).Some? && NormalizePath(ReadCstr(path.value).value).Some? {
      var name := NormalizePath(ReadCstr(path.value).value).value;
      if Lookup(s, name).Rec? {
        LookupIsGood(s, name);
        AllocKeepsInv(s, File(Lookup(s, name).rec.data, 0, Lookup(s, name).rec.mode));
      }
    }
  }

  lemma {:induction false} LookupIsGood(s: FdState, name: bytes)
    requires Inv(s) && Lookup(s, name).Rec?
    ensures GoodEntry(s.rootfs, File(Lookup(s, name).rec.data, 0, Lookup(s, name).rec.mode))
    ensures Lookup(s, name).rec.name == name
  {
    hide Header, OpenFrom, HasRecord;
    OpenFinds(s.rootfs.value, name, 0, Header(s.rootfs.value).value);
  }

  lemma {:induction false} StepKeepsInv(s: FdState, op: Op)
    requires Inv(s) && Possible(op)
    ensures Inv(Apply(s, op).s)
  {
    match op {
      case OpOpenat(dirfd, path, flags) => OpenatKeepsInv(s, dirfd, path, flags);
      case OpDup(fd) => if fd < MAX_FDS { AllocKeepsInv(s, s.fds[fd]); }
      case OpGetdents64(fd, hasBuf, count) => GetdentsKeepsInv(s, fd, hasBuf, count);
      case _ => hide RootEntries;
    }
  }

  /** The directory entries from position p up to q, as bytes. */
  function Serial(s: FdState, p: nat, q: nat): bytes
    decreases q - p
  {
    if p >= q then []
    else match DirentAt(s, p)
    case None => []
    case Some(d) => Record(d) + Serial(s, p + 1, q)
  }

  predicate Live(s: FdState, p: nat, q: nat) {
    forall k :: p <= k < q ==> DirentAt(s, k).Some?
  }

  /** Fill returns exactly the entries from pos up to some q, as many as fit. */
  lemma {:induction false} FillMeaning(s: FdState, pos: nat, room: nat)
    ensures var (q, b) := Fill(s, pos, room);
            && pos <= q && Live(s, pos, q) && b == Serial(s, pos, q) && |b| <= room
            && (q == pos || q <= RootEntries(s))
            && (DirentAt(s, q).Some? ==> |b| + |Record(DirentAt(s, q).value)| > room)
            && (b == [] <==> q == pos)
    decreases RootEntries(s) - pos
  {
    hide DirentAt, Record, RootEntries;
    var d := DirentAt(s, pos);
    if d.Some? && |Record(d.value)| <= room {
      DirentInRange(s, pos);
      FillMeaning(s, pos + 1, room - |Record(d.value)|);
    }
  }

  lemma {:induction false} DirentInRange(s: FdState, pos: nat)
    ensures DirentAt(s, pos).Some? ==>
              pos < RootEntries(s) && DirentAt(s, pos).value.next == pos + 1
              && DirentAt(s, pos).value.ino <= RootEntries(s) && 1 <= |DirentAt(s, pos).value.name| <= NAME_CAP
  {
    hide RecordAt, Header;
    if pos >= 2 && DirentAt(s, pos).Some? {
      RecordInImage(s.rootfs.value, pos - 2);
    }
  }

  lemma {:induction false} GetdentsKeepsInv(s: FdState, fd: nat, hasBuf: bool, count: nat)
    requires Inv(s)
    ensures Inv(SysGetdents64(s, fd, hasBuf, count).s)
  {
    var a := SysGetdents64(s, fd, hasBuf, count);
    if a.s != s {
      FillMeaning(s, s.fds[fd].pos, count);
      hide Fill, DirentAt;
      PutKeepsInv(s, fd, a.s.fds[fd]);
    }
  }

  /** Every state of every run satisfies the invariant. */
  lemma {:induction false} RunKeepsInv(s: FdState, ops: seq<Op>)
    requires Inv(s) && forall k :: 0 <= k < |ops| ==> Possible(ops[k])
    ensures Inv(Run(s, ops))
    decreases |ops|
  {
    hide Apply;
    if ops != [] {
      StepKeepsInv(s, ops[0]);
      RunKeepsInv(Apply(s, ops[0]).s, ops[1..]);
    }
  }

  lemma {:induction false} BootSatisfiesInv(image: bytes)
    requires |image| <= ISIZE_MAX
    ensures Inv(SetRootfs(image))
  {
  }
}
