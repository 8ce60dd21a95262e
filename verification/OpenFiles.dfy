/** Opening, positioning and reading together: from the files given to the image writer to the bytes a
    program reads. */
module OpenFiles {
  import opened Words
  import opened Lfs
  import opened LfsRoundTrip
  import opened Paths
  import opened FdTable
  import opened FdStreams

  /** Files the image format can hold. */
  predicate Holdable(files: seq<FileRecord>) {
    NamesFit(files) && |files| < TWO16 && |Image(files)| < TWO32
  }

  /** path is readable and denotes the file name wanted, which is no name of the root. */
  predicate Denotes(path: Option<bytes>, wanted: bytes) {
    && path.Some? && ReadCstr(path.value).Some?
    && var p := ReadCstr(path.value).value;
       !IsRootName(p) && p != [DOT, DOT] && NormalizePath(p) == Some(wanted) && wanted != []
  }

  /** Some file has the name wanted, and no file before it is without a name. */
  predicate Contains(files: seq<FileRecord>, wanted: bytes) {
    exists k :: 0 <= k < FirstUnnamed(files) && files[k].name == wanted
  }

  /** The answer that hands out descriptor a.ret for f, to be read from the start. */
  predicate Opened(s: FdState, a: Answer, f: FileRecord)
    requires |s.fds| == MAX_FDS
  {
    0 <= a.ret < MAX_FDS && a.s == Put(s, a.ret, File(f.data, 0, f.mode))
  }

  /** How opening a name ends, over the image of some files. */
  lemma {:induction false} OpenatOutcome(
    files: seq<FileRecord>, s: FdState, dirfd: int, path: Option<bytes>, wanted: bytes, flags: nat)
    requires Holdable(files) && s.rootfs == Some(Image(files)) && |s.fds| == MAX_FDS
    requires IsDirFd(s, dirfd) && Denotes(path, wanted)
    ensures var a := SysOpenat(s, dirfd, path, flags);
            && (a.ret == -ENOENT <==> !Contains(files, wanted))
            && (a.ret == -ENOTDIR <==> Contains(files, wanted) && WantsDirectory(flags))
            && (a.ret < 0 ==> a.s == s)
            && (a.ret >= 0 ==> FD_BASE <= a.ret < MAX_FDS && s.fds[a.ret] == Free
                               && exists k :: IsFirst(files, wanted, k) && Opened(s, a, files[k]))
  {
    hide Image, ReadCstr, NormalizePath, Open, AllocFd, FirstUnnamed;
    OpenRoundTrip(files, wanted);
    var r := Open(Image(files), wanted);
    if r.Ok? {
      var k :| IsFirst(files, wanted, k) && r.value == files[k];
      AllocIsLowest(s, File(files[k].data, 0, files[k].mode));
      AllocNonNegative(s, File(files[k].data, 0, files[k].mode));
    }
  }

  lemma {:induction false} AllocNonNegative(s: FdState, e: FdEntry)
    requires |s.fds| == MAX_FDS
    ensures AllocFd(s, e).ret == -EBUSY || AllocFd(s, e).ret >= 0
  {
  }

  /** A program that opens a name and reads until 0, in chunks of any sizes and with any calls on other
      descriptors in between, gets the data of the first file of that name, whole and in order. */
  lemma {:induction false} OpenedFileDelivers(
    files: seq<FileRecord>, s: FdState, dirfd: int, path: Option<bytes>, wanted: bytes, flags: nat,
    ops: seq<Op>, len: nat)
    requires Holdable(files) && s.rootfs == Some(Image(files)) && |s.fds| == MAX_FDS
    requires IsDirFd(s, dirfd) && Denotes(path, wanted)
    requires var a := Apply(s, OpOpenat(dirfd, path, flags));
             a.ret >= 0 && AllSpare(ops, a.ret) && len > 0 && SysRead(Run(a.s, ops), a.ret, true, len).ret == 0
    ensures var a := Apply(s, OpOpenat(dirfd, path, flags));
            exists k :: IsFirst(files, wanted, k) && Delivered(a.s, ops, a.ret) == files[k].data
  {
    hide SysOpenat, Image, SysRead, Run, Delivered;
    OpenatOutcome(files, s, dirfd, path, wanted, flags);
    var a := SysOpenat(s, dirfd, path, flags);
    ReadToEnd(a.s, ops, a.ret, len);
  }

  // ---------------------------------------------------------------- positioning

  /** The position and the end an entry counts from. */
  function Position(e: FdEntry): nat
    requires e != Free
  {
    e.pos
  }

  function EndOf(s: FdState, e: FdEntry): nat
    requires e != Free
  {
    if e.File? then |e.data| else RootEntries(s)
  }

  /** The three ways to seek are one: relative to the position and to the end as from the start. */
  lemma {:induction false} SeekWaysAgree(s: FdState, fd: nat, off: int)
    requires |s.fds| == MAX_FDS && fd < MAX_FDS && s.fds[fd] != Free
    ensures var p := Position(s.fds[fd]);
            p + off <= ISIZE_MAX ==> SysLseek(s, fd, off, SEEK_CUR) == SysLseek(s, fd, p + off, SEEK_SET)
    ensures var n := EndOf(s, s.fds[fd]);
            n + off <= ISIZE_MAX ==> SysLseek(s, fd, off, SEEK_END) == SysLseek(s, fd, n + off, SEEK_SET)
  {
  }

  /** Seeking to p succeeds exactly for p >= 0, and the next read starts there. */
  lemma {:induction false} SeekThenRead(s: FdState, fd: nat, p: int, len: nat)
    requires |s.fds| == MAX_FDS && fd < MAX_FDS && s.fds[fd].File? && p <= ISIZE_MAX
    ensures var a := SysLseek(s, fd, p, SEEK_SET);
            && (a.ret == -EINVAL <==> p < 0)
            && (p < 0 ==> a.s == s)
            && (0 <= p <= |s.fds[fd].data| ==>
                  a.ret == p && SysRead(a.s, fd, true, len).out ==
                    s.fds[fd].data[p..p + Min(len, |s.fds[fd].data| - p)])
  {
  }

  // ---------------------------------------------------------------- closed descriptors

  /** The call op hands out descriptor fd. */
  predicate HandsOut(s: FdState, op: Op, fd: nat)
    requires |s.fds| == MAX_FDS
  {
    match op
    case OpOpenat(_, _, _) => Apply(s, op).ret == fd
    case OpDup(f) => f > 2 && Apply(s, op).ret == fd
    case OpDup2(f, g) => f > 2 && g == fd && Apply(s, op).ret == fd
    case _ => false
  }

  /** A free slot stays free until a call hands it out, and no longer. */
  lemma {:induction false} FreeUntilHandedOut(s: FdState, op: Op, fd: nat)
    requires |s.fds| == MAX_FDS && FD_BASE <= fd < MAX_FDS && s.fds[fd] == Free
    ensures Apply(s, op).s.fds[fd] == Free <==> !HandsOut(s, op, fd)
  {
    hide ReadCstr, NormalizePath, Open, Fill;
  }

  /** No call of the run hands out fd. */
  predicate NeverHandsOut(s: FdState, ops: seq<Op>, fd: nat)
    requires |s.fds| == MAX_FDS
    decreases |ops|
  {
    ops != [] ==> !HandsOut(s, ops[0], fd) && NeverHandsOut(Apply(s, ops[0]).s, ops[1..], fd)
  }

  /** What every call on a free descriptor answers. */
  ghost predicate Dead(s: FdState, fd: nat)
    requires |s.fds| == MAX_FDS
  {
    && SysClose(s, fd) == Fail(s, EBADF) && SysDup(s, fd) == Fail(s, EBADF)
    && (forall newfd: nat :: SysDup2(s, fd, newfd) == Fail(s, EBADF))
    && (forall len: nat :: SysRead(s, fd, true, len) == Fail(s, EBADF))
    && (forall off: int, whence: nat :: SysLseek(s, fd, off, whence) == Fail(s, EBADF))
    && (forall count: nat :: SysGetdents64(s, fd, true, count) == Fail(s, ENOTDIR))
    && SysFstat(s, fd, true) == StatAnswer(-EBADF, None)
  }

  lemma {:induction false} FreeIsDead(s: FdState, fd: nat)
    requires |s.fds| == MAX_FDS && FD_BASE <= fd < MAX_FDS && s.fds[fd] == Free
    ensures Dead(s, fd)
  {
  }

  lemma {:induction false} StaysFree(s: FdState, ops: seq<Op>, fd: nat)
    requires |s.fds| == MAX_FDS && FD_BASE <= fd < MAX_FDS && s.fds[fd] == Free && NeverHandsOut(s, ops, fd)
    ensures |Run(s, ops).fds| == MAX_FDS && Run(s, ops).fds[fd] == Free
    decreases |ops|
  {
    hide Apply, HandsOut;
    if ops != [] {
      FreeUntilHandedOut(s, ops[0], fd);
      StaysFree(Apply(s, ops[0]).s, ops[1..], fd);
    }
  }

  /** A closed descriptor is refused by every call, over any run, until a call hands it out again; and the
      next allocation does so unless a lower slot is free. */
  lemma {:induction false} CloseFrees(s: FdState, fd: nat, ops: seq<Op>, e: FdEntry)
    requires |s.fds| == MAX_FDS && FD_BASE <= fd < MAX_FDS && SysClose(s, fd).ret == 0
    requires NeverHandsOut(Apply(s, OpClose(fd)).s, ops, fd)
    ensures var t := Run(Apply(s, OpClose(fd)).s, ops);
            && |t.fds| == MAX_FDS && Dead(t, fd)
            && FD_BASE <= AllocFd(t, e).ret <= fd
  {
    hide Dead, NeverHandsOut, Run;
    var c := Apply(s, OpClose(fd)).s;
    StaysFree(c, ops, fd);
    FreeIsDead(Run(c, ops), fd);
    AllocIsLowest(Run(c, ops), e);
  }
}
