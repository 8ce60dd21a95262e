/** What single calls promise, with their numbers written out and paths given by their characters. */
module CallMeaning {
  import opened Words
  import Utf8
  import opened Lfs
  import opened LfsRoundTrip
  import opened Paths
  import opened FdTable
  import opened FdStreams
  import opened OpenFiles

  // ---------------------------------------------------------------- paths

  /** The memory at a path pointer holds p and a NUL, and p can be read. */
  predicate HoldsPath(mem: bytes, p: bytes) {
    && |p| < 256 && |p| < |mem| && mem[..|p|] == p && mem[|p|] == 0
    && Utf8.Valid(p) && forall k :: 0 <= k < |p| ==> p[k] != 0
  }

  /** p is white space, an optional "./", slashes, what is left, and white space. */
  ghost predicate Reads(p: bytes, before: seq<bytes>, dot: bool, k: nat, rest: bytes, after: seq<bytes>) {
    && AllWhite(before) && AllWhite(after) && Left(dot, k, rest)
    && BareStart(Prefix(dot, k) + rest) && BareEnd(Prefix(dot, k) + rest) && Prefix(dot, k) + rest != []
    && p == Concat(before) + (Prefix(dot, k) + rest) + Concat(after)
  }

  lemma {:induction false} NotRoot(p: bytes, before: seq<bytes>, dot: bool, k: nat, rest: bytes, after: seq<bytes>)
    requires Reads(p, before, dot, k, rest, after) && rest != []
    ensures p != [] && p != [0x2F]
  {
    var t := Prefix(dot, k) + rest;
    assert p[|Concat(before)|..|Concat(before)| + |t|] == t;
    assert t[|t| - 1] == rest[|rest| - 1];
    hide Concat, AllWhite, BareStart, BareEnd;
  }

  /** So a path denotes what is left of it, unless it names the root. */
  lemma {:induction false} PathDenotes(
    mem: bytes, p: bytes, before: seq<bytes>, dot: bool, k: nat, name: bytes, after: seq<bytes>)
    requires HoldsPath(mem, p) && Reads(p, before, dot, k, name, after) && name != []
    requires 0x2F !in name && p != [0x2E] && p != [0x2E, 0x2E]
    ensures Denotes(Some(mem), name)
  {
    NameMeaning(before, dot, k, name, after);
    NotRoot(p, before, dot, k, name, after);
    ReadCstrMeaning(mem, p);
    hide Concat, AllWhite, BareStart, BareEnd, NormalizePath, ReadCstr, Prefix, Utf8.Valid;
  }

  /** Opening a path over the image of some files: the first file of the name that is left of the path, at
      position 0 in a free slot; ENOENT exactly when there is none, ENOTDIR exactly when a directory was wanted. */
  lemma {:induction false} OpenMeaning(
    files: seq<FileRecord>, s: FdState, dirfd: int, mem: bytes, flags: nat,
    p: bytes, before: seq<bytes>, dot: bool, k: nat, name: bytes, after: seq<bytes>)
    requires Holdable(files) && s.rootfs == Some(Image(files)) && |s.fds| == 64 && IsDirFd(s, dirfd)
    requires HoldsPath(mem, p) && Reads(p, before, dot, k, name, after) && name != []
    requires 0x2F !in name && p != [0x2E] && p != [0x2E, 0x2E]
    ensures var a := SysOpenat(s, dirfd, Some(mem), flags);
            && (a.ret == -2 <==> !Contains(files, name))
            && (a.ret == -20 <==> Contains(files, name) && flags / 0x1_0000 % 2 == 1)
            && (a.ret < 0 ==> a.s == s)
            && (a.ret >= 0 ==> 3 <= a.ret < 64 && s.fds[a.ret] == Free
                               && exists k :: IsFirst(files, name, k) && Opened(s, a, files[k]))
  {
    PathDenotes(mem, p, before, dot, k, name, after);
    OpenatOutcome(files, s, dirfd, Some(mem), name, flags);
    hide SysOpenat, Holdable, Contains, Denotes, HoldsPath, Reads, IsFirst;
  }

  /** A path with a slash left in it denotes nothing. */
  lemma {:induction false} SlashedMeaning(
    s: FdState, dirfd: int, mem: bytes, flags: nat,
    p: bytes, before: seq<bytes>, dot: bool, k: nat, rest: bytes, after: seq<bytes>)
    requires |s.fds| == 64 && IsDirFd(s, dirfd)
    requires HoldsPath(mem, p) && Reads(p, before, dot, k, rest, after) && 0x2F in rest
    ensures var a := SysOpenat(s, dirfd, Some(mem), flags); a.ret == -2 && a.s == s
    ensures SysStatPath(s, Some(mem), true) == StatAnswer(-2, None)
    ensures SysAccess(s, Some(mem)) == -2
  {
    NameMeaning(before, dot, k, rest, after);
    NotRoot(p, before, dot, k, rest, after);
    SlashedIsNotDots(p, before, dot, k, rest, after);
    ReadCstrMeaning(mem, p);
    hide Concat, AllWhite, BareStart, BareEnd, NormalizePath, ReadCstr, Prefix, Utf8.Valid, Lookup;
  }

  lemma {:induction false} SlashedIsNotDots(
    p: bytes, before: seq<bytes>, dot: bool, k: nat, rest: bytes, after: seq<bytes>)
    requires Reads(p, before, dot, k, rest, after) && 0x2F in rest
    ensures p != [0x2E] && p != [0x2E, 0x2E]
  {
    var t := Prefix(dot, k) + rest;
    assert 0x2F in t;
    assert p[|Concat(before)|..|Concat(before)| + |t|] == t;
    assert 0x2F in p[|Concat(before)|..|Concat(before)| + |t|];
    assert 0x2F in p;
  }

  /** The root: the empty path, ".", "/", "..", white space, and what reduces to nothing, open it at position 0. */
  lemma {:induction false} OpenRootMeaning(s: FdState, dirfd: int, mem: bytes, flags: nat, p: bytes)
    requires |s.fds| == 64 && IsDirFd(s, dirfd) && HoldsPath(mem, p)
    requires p == [] || p == [0x2E] || p == [0x2F] || p == [0x2E, 0x2E] || AllSlashes(StripDot(Trim(p)))
    ensures var a := SysOpenat(s, dirfd, Some(mem), flags);
            if a.ret < 0 then a.ret == -16 && a.s == s && forall k :: 3 <= k < 64 ==> s.fds[k] != Free
            else 3 <= a.ret < 64 && s.fds[a.ret] == Free && a.s == s.(fds := s.fds[a.ret := RootDir(0)])
  {
    ReadCstrMeaning(mem, p);
    ReducesToRoot(p);
    AllocIsLowest(s, RootDir(0));
    AllocNonNegative(s, RootDir(0));
    hide NormalizePath, ReadCstr, Utf8.Valid, Lookup, Trim, AllocFd;
  }

  /** A null path, a directory descriptor that is none, and an unreadable path, in this order. */
  lemma {:induction false} OpenErrors(s: FdState, dirfd: int, path: Option<bytes>, flags: nat)
    requires |s.fds| == 64
    ensures var a, dir := SysOpenat(s, dirfd, path, flags), dirfd == -100 || (0 <= dirfd < 64 && s.fds[dirfd].RootDir?);
            && (path == None ==> a.ret == -14 && a.s == s)
            && (path.Some? && !dir ==> a.ret == -9 && a.s == s)
            && (path.Some? && dir && (forall p :: !HoldsPath(path.value, p)) ==> a.ret == -14 && a.s == s)
  {
    if path.Some? && ReadCstr(path.value).Some? {
      ReadCstrMeaning(path.value, ReadCstr(path.value).value);
      assert HoldsPath(path.value, ReadCstr(path.value).value);
    }
    hide NormalizePath, ReadCstr, Utf8.Valid, Lookup;
  }

  // ---------------------------------------------------------------- positions

  /** lseek: EINVAL for a bad origin and for a negative sum, and otherwise the sum, cut to isize::MAX, as the new
      position and answer; nothing else changes. */
  lemma {:induction false} LseekMeaning(s: FdState, fd: nat, off: int, whence: nat)
    requires |s.fds| == 64 && fd < 64 && s.fds[fd] != Free && off >= -0x8000_0000_0000_0000
    ensures var e := s.fds[fd];
            var from := if whence == 0 then 0 else if whence == 1 then e.pos else EndOf(s, e);
            var to := if from + off <= 0x7FFF_FFFF_FFFF_FFFF then from + off else 0x7FFF_FFFF_FFFF_FFFF;
            var a := SysLseek(s, fd, off, whence);
            if whence > 2 || from + off < 0 then a.ret == -22 && a.s == s
            else a.ret == to && a.s == s.(fds := s.fds[fd := e.(pos := to)])
  {
  }

  // ---------------------------------------------------------------- duplicates

  /** dup2 stores a copy of the old entry, position included, at exactly the number asked for. */
  lemma {:induction false} Dup2Copies(s: FdState, fd: nat, g: nat)
    requires |s.fds| == 64 && fd > 2
    ensures var a := SysDup2(s, fd, g);
            if fd < 64 && s.fds[fd] != Free && 3 <= g < 64 then a.ret == g && a.s == s.(fds := s.fds[g := s.fds[fd]])
            else a.ret == -9 && a.s == s
  {
  }

  /** The standard descriptors are only names: dup2 between them changes nothing. */
  lemma {:induction false} Dup2Standard(s: FdState, fd: nat, g: nat)
    requires |s.fds| == 64 && fd <= 2
    ensures SysDup2(s, fd, g) == Answer(s, if g <= 2 then g else -9, [])
    ensures SysDup(s, fd) == Answer(s, fd, [])
  {
  }

  /** A call that only uses one descriptor. */
  datatype Use = Read(len: nat) | Entries(count: nat) | Seek(off: int, whence: nat)

  function Do(s: FdState, fd: nat, u: Use): Answer {
    match u
    case Read(len) => SysRead(s, fd, true, len)
    case Entries(count) => SysGetdents64(s, fd, true, count)
    case Seek(off, whence) => SysLseek(s, fd, off, whence)
  }

  /** What a program gets to see when it uses one descriptor again and again. */
  function Seen(s: FdState, fd: nat, us: seq<Use>): seq<(int, bytes)>
    decreases |us|
  {
    if us == [] then []
    else var a := Do(s, fd, us[0]); [(a.ret, a.out)] + Seen(a.s, fd, us[1..])
  }

  lemma {:induction false} DoAlike(s: FdState, fd: nat, t: FdState, g: nat, u: Use)
    requires |s.fds| == |t.fds| == 64 && fd < 64 && g < 64 && s.rootfs == t.rootfs && s.fds[fd] == t.fds[g]
    ensures var a, b := Do(s, fd, u), Do(t, g, u);
            && a.ret == b.ret && a.out == b.out && |a.s.fds| == |b.s.fds| == 64
            && a.s.rootfs == b.s.rootfs && a.s.fds[fd] == b.s.fds[g]
  {
    if u.Entries? {
      SameDirents(s, t);
      if s.fds[fd].RootDir? {
        FillAlike(s, t, s.fds[fd].pos, u.count);
      }
    } else if u.Seek? {
      SameDirents(s, t);
    }
    hide DirentAt, Fill, RootEntries, Record;
  }

  lemma {:induction false} FillAlike(s: FdState, t: FdState, pos: nat, room: nat)
    requires s.rootfs == t.rootfs
    ensures Fill(s, pos, room) == Fill(t, pos, room)
    decreases RootEntries(s) - pos
  {
    SameDirents(s, t);
    DirentPosition(s, pos);
    hide DirentAt, Record, RootEntries;
    if DirentAt(s, pos).Some? && |Record(DirentAt(s, pos).value)| <= room {
      FillAlike(s, t, pos + 1, room - |Record(DirentAt(s, pos).value)|);
    }
  }

  lemma {:induction false} DirentPosition(s: FdState, pos: nat)
    ensures DirentAt(s, pos).Some? ==> pos < RootEntries(s)
  {
  }

  lemma {:induction false} SeenAlike(s: FdState, fd: nat, t: FdState, g: nat, us: seq<Use>)
    requires |s.fds| == |t.fds| == 64 && fd < 64 && g < 64 && s.rootfs == t.rootfs && s.fds[fd] == t.fds[g]
    ensures Seen(s, fd, us) == Seen(t, g, us)
    decreases |us|
  {
    hide Do;
    if us != [] {
      DoAlike(s, fd, t, g, us[0]);
      SeenAlike(Do(s, fd, us[0]).s, fd, Do(t, g, us[0]).s, g, us[1..]);
    }
  }

  /** Through a duplicate a program sees, from then on, exactly what it would have seen through the original. */
  lemma {:induction false} DuplicatesAlike(s: FdState, fd: nat, g: nat, us: seq<Use>)
    requires |s.fds| == 64 && fd > 2
    ensures SysDup2(s, fd, g).ret >= 0 ==> Seen(SysDup2(s, fd, g).s, g, us) == Seen(s, fd, us)
    ensures SysDup(s, fd).ret >= 0 ==> Seen(SysDup(s, fd).s, SysDup(s, fd).ret, us) == Seen(s, fd, us)
  {
    if SysDup2(s, fd, g).ret >= 0 {
      Dup2Copies(s, fd, g);
      SeenAlike(SysDup2(s, fd, g).s, g, s, fd, us);
    }
    if SysDup(s, fd).ret >= 0 {
      DupCopies(s, fd);
      OthersUnchanged(s, OpDup(fd), fd);
      SeenAlike(SysDup(s, fd).s, SysDup(s, fd).ret, s, fd, us);
    }
  }

  // ---------------------------------------------------------------- wrong descriptors, mounting

  /** Calls on a descriptor of the wrong kind, out of range, or without a buffer. */
  lemma {:induction false} WrongDescriptor(s: FdState, fd: nat, n: nat)
    requires |s.fds| == 64
    ensures SysRead(s, fd, false, n) == Answer(s, -14, []) && SysGetdents64(s, fd, false, n) == Answer(s, -14, [])
    ensures fd >= 64 ==>
              && SysRead(s, fd, true, n) == SysGetdents64(s, fd, true, n) == SysClose(s, fd) == Answer(s, -9, [])
              && SysLseek(s, fd, n, 0) == SysDup(s, fd) == Answer(s, -9, [])
    ensures fd < 64 && s.fds[fd].RootDir? ==> SysRead(s, fd, true, n) == Answer(s, -21, [])
    ensures fd < 64 && s.fds[fd].File? ==> SysGetdents64(s, fd, true, n) == Answer(s, -20, [])
    ensures fd < 64 && s.fds[fd] != Free ==> SysClose(s, fd) == Answer(s.(fds := s.fds[fd := Free]), 0, [])
  {
  }

  /** Mounting an image makes it the root and closes everything. */
  lemma {:induction false} MountMeaning(s: FdState, image: bytes)
    requires |s.fds| == 64
    ensures var t := Apply(s, OpSetRootfs(image)).s;
            t.rootfs == Some(image) && |t.fds| == 64 && forall k :: 0 <= k < 64 ==> t.fds[k] == Free
  {
  }

  // ---------------------------------------------------------------- stat

  /** A stat structure for a file or directory of some size and mode. */
  predicate Describes(b: bytes, directory: bool, size: nat, mode: nat, ino: nat) {
    && |b| == 144
    && (var word := LeValue(b[24..28]); word / 0x1000 == (if directory then 4 else 8) && word % 0x1000 == mode % 0x1000)
    && LeValue(b[48..56]) == size && LeValue(b[8..16]) == ino && LeValue(b[0..8]) == 1 && LeValue(b[16..24]) == 1
    && LeValue(b[56..64]) == 4096
    && (var blocks := LeValue(b[64..72]); 512 * blocks >= size && (blocks > 0 ==> 512 * (blocks - 1) < size))
  }

  lemma {:induction false} StatDescribes(directory: bool, size: nat, mode: u16, ino: nat)
    requires size <= 0x7FFF_FFFF_FFFF_FFFF && ino < 0x1_0000
    ensures Describes(StatBytes(MakeStat(directory, size, mode, ino)), directory, size, mode, ino)
  {
    var st := MakeStat(directory, size, mode, ino);
    StatFields(st);
    StatConstants(st);
    hide StatBytes, LeValue;
  }

  lemma {:induction false} StatConstants(st: Stat)
    ensures var b := StatBytes(st); LeValue(b[0..8]) == 1 && LeValue(b[16..24]) == 1 && LeValue(b[56..64]) == 4096
  {
    LeRoundTrip64(1);
    LeRoundTrip64(4096);
    StatConstantSlices(st);
    hide StatBytes, LeBytes, LeValue;
  }

  lemma {:induction false} StatConstantSlices(st: Stat)
    ensures var b := StatBytes(st);
            b[0..8] == LeBytes(8, 1) && b[16..24] == LeBytes(8, 1) && b[56..64] == LeBytes(8, 4096)
  {
    hide LeBytes, Zeros;
  }

  /** fstat: the console for the standard descriptors, the root directory with mode 755, and a file with its own
      mode and size. */
  lemma {:induction false} FstatMeaning(s: FdState, fd: nat)
    requires |s.fds| == 64
    requires forall k :: 0 <= k < 64 && s.fds[k].File? ==> |s.fds[k].data| <= 0x7FFF_FFFF_FFFF_FFFF
    ensures var a := SysFstat(s, fd, true);
            if fd <= 2 then a.ret == 0 && a.stat.Some? && Describes(StatBytes(a.stat.value), false, 0, 0x1B6, 1)
            else if fd >= 64 || s.fds[fd] == Free then a == StatAnswer(-9, None)
            else if s.fds[fd].RootDir? then
              a.ret == 0 && a.stat.Some? && Describes(StatBytes(a.stat.value), true, 0, 0x1ED, 1)
            else
              a.ret == 0 && a.stat.Some?
              && Describes(StatBytes(a.stat.value), false, |s.fds[fd].data|, s.fds[fd].mode, 2)
    ensures SysFstat(s, fd, false) == StatAnswer(-14, None)
  {
    StatDescribes(false, 0, 0x21B6, 1);
    StatDescribes(true, 0, 0x41ED, 1);
    if fd < 64 && s.fds[fd].File? {
      StatDescribes(false, |s.fds[fd].data|, s.fds[fd].mode, 2);
    }
    hide StatBytes, LeValue, MakeStat;
  }

  /** stat: the root for the paths that name it, and the first file of the name for the others. */
  lemma {:induction false} StatMeaning(
    files: seq<FileRecord>, s: FdState, mem: bytes,
    p: bytes, before: seq<bytes>, dot: bool, k: nat, name: bytes, after: seq<bytes>)
    requires Holdable(files) && s.rootfs == Some(Image(files))
    requires HoldsPath(mem, p) && Reads(p, before, dot, k, name, after) && name != []
    requires 0x2F !in name && p != [0x2E] && p != [0x2E, 0x2E]
    ensures var a := SysStatPath(s, Some(mem), true);
            if !Contains(files, name) then a == StatAnswer(-2, None)
            else a.ret == 0 && a.stat.Some?
                 && exists k :: IsFirst(files, name, k)
                                && Describes(StatBytes(a.stat.value), false, |files[k].data|, files[k].mode, 2)
    ensures SysAccess(s, Some(mem)) == if Contains(files, name) then 0 else -2
  {
    hide *;
    PathDenotes(mem, p, before, dot, k, name, after);
    var j := LookupMeaning(files, s, name);
    StatOfLookup(s, mem, name);
    if Lookup(s, name).Rec? {
      DataSmall(files, j);
      StatDescribes(false, |files[j].data|, files[j].mode, 2);
      assert IsFirst(files, name, j);
    }
  }

  /** The lookup finds the first file of a name before any file without a name. */
  lemma {:induction false} LookupMeaning(files: seq<FileRecord>, s: FdState, name: bytes) returns (j: nat)
    requires Holdable(files) && s.rootfs == Some(Image(files))
    ensures Lookup(s, name).Rec? <==> Contains(files, name)
    ensures Lookup(s, name).Rec? ==> j < |files| && IsFirst(files, name, j) && Lookup(s, name).rec == files[j]
  {
    OpenRoundTrip(files, name);
    var r := Open(Image(files), name);
    hide Image, Open, FirstUnnamed;
    j := 0;
    if r.Ok? {
      j :| IsFirst(files, name, j) && j < FirstUnnamed(files) && r.value == files[j];
    }
  }

  lemma {:induction false} StatOfLookup(s: FdState, mem: bytes, name: bytes)
    requires Denotes(Some(mem), name)
    ensures var a, f := SysStatPath(s, Some(mem), true), Lookup(s, name);
            if f.Rec? then a == StatAnswer(0, Some(MakeStat(false, |f.rec.data|, f.rec.mode, 2)))
            else a == StatAnswer(-2, None)
    ensures SysAccess(s, Some(mem)) == if Lookup(s, name).Rec? then 0 else -2
  {
    hide ReadCstr, NormalizePath, Lookup, MakeStat;
  }

  lemma {:induction false} DataSmall(files: seq<FileRecord>, k: nat)
    requires Holdable(files) && k < |files|
    ensures |files[k].data| <= 0x7FFF_FFFF_FFFF_FFFF
  {
    DataTiles(files);
    hide Image;
  }

  lemma {:induction false} StatRootMeaning(s: FdState, mem: bytes, p: bytes)
    requires HoldsPath(mem, p) && (p == [] || p == [0x2E] || p == [0x2F])
    ensures var a := SysStatPath(s, Some(mem), true);
            a.ret == 0 && a.stat.Some? && Describes(StatBytes(a.stat.value), true, 0, 0x1ED, 1)
    ensures SysAccess(s, Some(mem)) == 0
  {
    ReadCstrMeaning(mem, p);
    StatDescribes(true, 0, 0x41ED, 1);
    hide ReadCstr, NormalizePath, Utf8.Valid, StatBytes, MakeStat, Describes;
  }
}
