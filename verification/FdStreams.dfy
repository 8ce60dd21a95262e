/** What a program reads through one descriptor, whatever other descriptors it uses in between. */
module FdStreams {
  import opened Words
  import opened Lfs
  import Utf8
  import opened Paths
  import opened FdTable
  import opened FdRuns

  // ---------------------------------------------------------------- allocation and frames

  /** A new descriptor is the lowest free slot above the standard ones; EBUSY means there is none. */
  lemma {:induction false} AllocIsLowest(s: FdState, e: FdEntry)
    requires |s.fds| == MAX_FDS
    ensures var a := AllocFd(s, e);
            if a.ret == -EBUSY then a.s == s && forall k :: FD_BASE <= k < MAX_FDS ==> s.fds[k] != Free
            else && FD_BASE <= a.ret < MAX_FDS && s.fds[a.ret] == Free && a.s == Put(s, a.ret, e)
                 && forall k :: FD_BASE <= k < a.ret ==> s.fds[k] != Free
  {
  }

  /** The one slot a call may change. */
  function Changes(s: FdState, op: Op): int
    requires |s.fds| == MAX_FDS
  {
    match op
    case OpSetRootfs(_) => -1
    case OpOpenat(_, _, _) => Apply(s, op).ret
    case OpDup(fd) => Apply(s, op).ret
    case OpDup2(_, newfd) => newfd
    case _ => op.fd
  }

  /** No call but the mounting of a root changes any slot besides its own; opening and duplicating
      choose a slot that was free. */
  lemma {:induction false} OthersUnchanged(s: FdState, op: Op, k: nat)
    requires |s.fds| == MAX_FDS && !op.OpSetRootfs? && k < MAX_FDS
    ensures Apply(s, op).s.rootfs == s.rootfs
    ensures k != Changes(s, op) ==> Apply(s, op).s.fds[k] == s.fds[k]
    ensures (op.OpOpenat? || op.OpDup?) && s.fds[k] != Free ==> Apply(s, op).s.fds[k] == s.fds[k]
  {
    hide Fill, Lookup, NormalizePath, ReadCstr, RootEntries, DirentAt;
  }

  /** A duplicate is a copy: same file or directory, same position, from then on moving on its own. */
  lemma {:induction false} DupCopies(s: FdState, fd: nat)
    requires |s.fds| == MAX_FDS && fd > 2 && SysDup(s, fd).ret >= 0
    ensures var a := SysDup(s, fd);
            a.ret != fd && FD_BASE <= a.ret < MAX_FDS && a.s.fds[a.ret] == s.fds[fd] == a.s.fds[fd]
  {
  }

  // ---------------------------------------------------------------- streams

  /** op leaves slot fd to its reader: it does not mount, close, reposition or overwrite it. */
  predicate Spares(op: Op, fd: nat) {
    match op
    case OpSetRootfs(_) => false
    case OpClose(f) => f != fd
    case OpLseek(f, _, _) => f != fd
    case OpDup2(_, newfd) => newfd != fd
    case _ => true
  }

  predicate AllSpare(ops: seq<Op>, fd: nat) {
    forall k :: 0 <= k < |ops| ==> Spares(ops[k], fd)
  }

  predicate ReadsFrom(op: Op, fd: nat) {
    (op.OpRead? || op.OpGetdents64?) && op.fd == fd
  }

  /** The bytes a run delivers through descriptor fd. */
  function Delivered(s: FdState, ops: seq<Op>, fd: nat): bytes
    requires |s.fds| == MAX_FDS
    decreases |ops|
  {
    if ops == [] then []
    else
      var a := Apply(s, ops[0]);
      (if ReadsFrom(ops[0], fd) then a.out else []) + Delivered(a.s, ops[1..], fd)
  }

  lemma {:induction false} SparedSlot(s: FdState, op: Op, fd: nat)
    requires |s.fds| == MAX_FDS && fd < MAX_FDS && s.fds[fd] != Free && Spares(op, fd) && !ReadsFrom(op, fd)
    ensures Apply(s, op).s.fds[fd] == s.fds[fd] && Apply(s, op).s.rootfs == s.rootfs
  {
    hide Apply;
    OthersUnchanged(s, op, fd);
  }

  /** One read, or a call that cannot move this file, from position pos. */
  lemma {:induction false} FileStep(s: FdState, op: Op, fd: nat)
    requires |s.fds| == MAX_FDS && fd < MAX_FDS && s.fds[fd].File? && s.fds[fd].pos <= |s.fds[fd].data|
             && Spares(op, fd)
    ensures var (a, e) := (Apply(s, op), s.fds[fd]);
            && a.s.fds[fd].File? && a.s.fds[fd].data == e.data && a.s.fds[fd].mode == e.mode
            && e.pos <= a.s.fds[fd].pos <= |e.data|
            && (if ReadsFrom(op, fd) then a.out else []) == e.data[e.pos..a.s.fds[fd].pos]
  {
    if !ReadsFrom(op, fd) {
      SparedSlot(s, op, fd);
    }
  }

  /** Any run that reads a file in chunks of any sizes, interleaved with any calls on other descriptors,
      delivers the file's bytes in order without loss: exactly those between old and new position. */
  lemma {:induction false} FileStream(s: FdState, ops: seq<Op>, fd: nat)
    requires |s.fds| == MAX_FDS && fd < MAX_FDS && s.fds[fd].File? && s.fds[fd].pos <= |s.fds[fd].data|
             && AllSpare(ops, fd)
    ensures var (t, e) := (Run(s, ops), s.fds[fd]);
            && t.fds[fd].File? && t.fds[fd].data == e.data && t.fds[fd].mode == e.mode
            && e.pos <= t.fds[fd].pos <= |e.data|
            && Delivered(s, ops, fd) == e.data[e.pos..t.fds[fd].pos]
    decreases |ops|
  {
    hide Apply;
    if ops != [] {
      FileStep(s, ops[0], fd);
      FileStream(Apply(s, ops[0]).s, ops[1..], fd);
    }
  }

  /** A read with room for at least one byte returns 0 exactly at the end of the file. */
  lemma {:induction false} ReadEndsFile(s: FdState, fd: nat, len: nat)
    requires fd < |s.fds| && s.fds[fd].File? && len > 0
    ensures SysRead(s, fd, true, len).ret == 0 <==> s.fds[fd].pos >= |s.fds[fd].data|
  {
  }

  /** So reading from the start until 0 delivers the whole file. */
  lemma {:induction false} ReadToEnd(s: FdState, ops: seq<Op>, fd: nat, len: nat)
    requires |s.fds| == MAX_FDS && fd < MAX_FDS && s.fds[fd].File? && s.fds[fd].pos == 0 && AllSpare(ops, fd)
    requires len > 0 && SysRead(Run(s, ops), fd, true, len).ret == 0
    ensures Delivered(s, ops, fd) == s.fds[fd].data
  {
    FileStream(s, ops, fd);
    ReadEndsFile(Run(s, ops), fd, len);
    var d := s.fds[fd].data;
    assert d[0..|d|] == d;
  }

  // ---------------------------------------------------------------- directory streams

  lemma {:induction false} SerialAppend(s: FdState, p: nat, q: nat, r: nat)
    requires p <= q <= r && Live(s, p, q)
    ensures Serial(s, p, q) + Serial(s, q, r) == Serial(s, p, r)
    decreases q - p
  {
    hide DirentAt, Record;
    if p < q {
      SerialAppend(s, p + 1, q, r);
    }
  }

  lemma {:induction false} SerialSameRoot(s: FdState, t: FdState, p: nat, q: nat)
    requires s.rootfs == t.rootfs
    ensures Serial(s, p, q) == Serial(t, p, q) && (Live(s, p, q) <==> Live(t, p, q)) && RootEntries(s) == RootEntries(t)
    decreases q - p
  {
    hide Record;
    SameDirents(s, t);
    hide DirentAt;
    if p < q {
      SerialSameRoot(s, t, p + 1, q);
    }
  }

  lemma {:induction false} SameDirents(s: FdState, t: FdState)
    requires s.rootfs == t.rootfs
    ensures RootEntries(s) == RootEntries(t) && forall k: nat :: DirentAt(s, k) == DirentAt(t, k)
  {
  }

  /** One call on an open directory, or a call that leaves it alone. */
  lemma {:induction false} DirStep(s: FdState, op: Op, fd: nat)
    requires |s.fds| == MAX_FDS && fd < MAX_FDS && s.fds[fd].RootDir? && Spares(op, fd)
    ensures var (a, p) := (Apply(s, op), s.fds[fd].pos);
            && a.s.rootfs == s.rootfs && a.s.fds[fd].RootDir?
            && p <= a.s.fds[fd].pos && Live(s, p, a.s.fds[fd].pos)
            && (if ReadsFrom(op, fd) then a.out else []) == Serial(s, p, a.s.fds[fd].pos)
            && (ReadsFrom(op, fd) && a.out != [] ==> a.s.fds[fd].pos > p)
  {
    if !ReadsFrom(op, fd) {
      SparedSlot(s, op, fd);
    } else if op.OpGetdents64? {
      FillMeaning(s, s.fds[fd].pos, op.count);
      hide Fill, DirentAt, Serial, Live;
    }
  }

  /** How many calls of a run deliver entries through fd. */
  function Productive(s: FdState, ops: seq<Op>, fd: nat): nat
    requires |s.fds| == MAX_FDS
    decreases |ops|
  {
    if ops == [] then 0
    else
      var a := Apply(s, ops[0]);
      (if ReadsFrom(ops[0], fd) && a.out != [] then 1 else 0) + Productive(a.s, ops[1..], fd)
  }

  /** Any run of getdents64 calls with any buffer sizes, interleaved with anything on other descriptors,
      delivers one contiguous stretch of the canonical serialization: nothing lost, repeated or reordered.
      Every productive call moves on, so there are at most as many as entries. */
  lemma {:induction false} DirStream(s: FdState, ops: seq<Op>, fd: nat)
    requires |s.fds| == MAX_FDS && fd < MAX_FDS && s.fds[fd].RootDir? && AllSpare(ops, fd)
    ensures var (t, p) := (Run(s, ops), s.fds[fd].pos);
            && t.rootfs == s.rootfs && t.fds[fd].RootDir?
            && p <= t.fds[fd].pos && Live(s, p, t.fds[fd].pos)
            && Delivered(s, ops, fd) == Serial(s, p, t.fds[fd].pos)
            && Productive(s, ops, fd) <= t.fds[fd].pos - p
    decreases |ops|
  {
    hide Apply, Serial, Live;
    if ops == [] {
      EmptySerial(s, s.fds[fd].pos);
    } else {
      var a := Apply(s, ops[0]);
      DirStep(s, ops[0], fd);
      DirStream(a.s, ops[1..], fd);
      var p, q, r := s.fds[fd].pos, a.s.fds[fd].pos, Run(s, ops).fds[fd].pos;
      SerialSameRoot(s, a.s, q, r);
      SerialAppend(s, p, q, r);
      LiveAppend(s, p, q, r);
    }
  }

  lemma {:induction false} EmptySerial(s: FdState, p: nat)
    ensures Serial(s, p, p) == [] && Live(s, p, p)
  {
  }

  lemma {:induction false} LiveAppend(s: FdState, p: nat, q: nat, r: nat)
    requires Live(s, p, q) && Live(s, q, r)
    ensures Live(s, p, r)
  {
    hide DirentAt;
  }

  /** The longest record: a name of 48 bytes. */
  const MAX_RECORD := 72

  /** How one getdents64 call ends: 0 at the end, EINVAL without effect when not even one record fits,
      otherwise at least one record. A buffer of 72 bytes is always enough. */
  lemma {:induction false} GetdentsOutcome(s: FdState, fd: nat, count: nat)
    requires |s.fds| == MAX_FDS && fd < MAX_FDS && s.fds[fd].RootDir?
    ensures var (a, d) := (SysGetdents64(s, fd, true, count), DirentAt(s, s.fds[fd].pos));
            && (a.ret == 0 <==> d == None)
            && (a.ret == -EINVAL <==> d.Some? && RecordLen(|d.value.name|) > count)
            && (a.ret <= 0 ==> a.s == s && a.out == [])
            && (a.ret > 0 ==> a.s.fds[fd].pos > s.fds[fd].pos && a.ret == |a.out| <= count)
            && (d.Some? && count >= MAX_RECORD ==> a.ret > 0)
  {
    var e := s.fds[fd];
    FillMeaning(s, e.pos, count);
    DirentInRange(s, e.pos);
    RecordBound(s, e.pos);
    hide Fill, DirentAt, Serial, Live, Record, RootEntries, RecordLen;
    assert Put(s, fd, e) == s;
  }

  lemma {:induction false} RecordBound(s: FdState, pos: nat)
    ensures DirentAt(s, pos).Some? ==>
              |Record(DirentAt(s, pos).value)| == RecordLen(|DirentAt(s, pos).value.name|) <= MAX_RECORD
  {
    DirentInRange(s, pos);
    hide DirentAt, Record;
  }

  /** Every file entry of the image can be read. */
  predicate WellFormed(s: FdState) {
    s.rootfs.Some? ==> forall i: nat :: i < RootEntries(s) - 2 ==> Entry(s.rootfs.value, i).Ok?
  }

  /** In a well-formed root every position below RootEntries has its entry. */
  lemma {:induction false} WellFormedDirents(s: FdState)
    requires WellFormed(s)
    ensures Live(s, 0, RootEntries(s)) && DirentAt(s, RootEntries(s)) == None
  {
    hide Entry;
    forall k | 0 <= k < RootEntries(s) ensures DirentAt(s, k).Some? {
      if s.rootfs.Some? && 2 <= k {
        assert Entry(s.rootfs.value, k - 2).Ok?;
      }
    }
  }

  /** Reading a directory from the start until 0 delivers, once each, the entries before the first position
      that has none. */
  lemma {:induction false} DirToGap(s: FdState, ops: seq<Op>, fd: nat, count: nat, gap: nat)
    requires |s.fds| == MAX_FDS && fd < MAX_FDS && s.fds[fd] == RootDir(0) && AllSpare(ops, fd)
    requires Live(s, 0, gap) && DirentAt(s, gap) == None
    requires SysGetdents64(Run(s, ops), fd, true, count).ret == 0
    ensures Delivered(s, ops, fd) == Serial(s, 0, gap)
    ensures Productive(s, ops, fd) <= gap
  {
    DirStream(s, ops, fd);
    var t := Run(s, ops);
    GetdentsOutcome(t, fd, count);
    SameDirents(s, t);
    hide DirentAt, SysGetdents64, Run, Delivered, Productive;
    assert t.fds[fd].pos == gap;
  }

  /** Over a well-formed root, that is every entry. */
  lemma {:induction false} DirToEnd(s: FdState, ops: seq<Op>, fd: nat, count: nat)
    requires |s.fds| == MAX_FDS && fd < MAX_FDS && s.fds[fd] == RootDir(0) && AllSpare(ops, fd) && WellFormed(s)
    requires SysGetdents64(Run(s, ops), fd, true, count).ret == 0
    ensures Delivered(s, ops, fd) == Serial(s, 0, RootEntries(s))
    ensures Productive(s, ops, fd) <= RootEntries(s)
  {
    WellFormedDirents(s);
    hide WellFormed, RootEntries, DirentAt;
    DirToGap(s, ops, fd, count, RootEntries(s));
  }

  /** Seeking a directory to an entry's d_off puts it just after that entry. */
  lemma {:induction false} SeekResumes(s: FdState, fd: nat, k: nat)
    requires |s.fds| == MAX_FDS && fd < MAX_FDS && s.fds[fd].RootDir? && DirentAt(s, k).Some?
    ensures var a := SysLseek(s, fd, DirentAt(s, k).value.next, SEEK_SET);
            a.ret == k + 1 && a.s == Put(s, fd, RootDir(k + 1))
  {
    DirentInRange(s, k);
    hide DirentAt;
  }

  // ---------------------------------------------------------------- sizes and paths

  /** The sizes a file reports by path, by descriptor and by seeking to its end agree with its data. */
  lemma {:induction false} SizesAgree(s: FdState, dirfd: int, path: Option<bytes>, flags: nat)
    requires Inv(s) && SysOpenat(s, dirfd, path, flags).ret >= 0
    requires Slot(SysOpenat(s, dirfd, path, flags).s, SysOpenat(s, dirfd, path, flags).ret).File?
    ensures var a := SysOpenat(s, dirfd, path, flags);
            var data := Slot(a.s, a.ret).data;
            && SysStatPath(a.s, path, true).ret == 0 && SysStatPath(a.s, path, true).stat.value.size == |data|
            && SysFstat(a.s, a.ret, true).ret == 0
            && SysFstat(a.s, a.ret, true).stat == SysStatPath(a.s, path, true).stat
            && SysLseek(a.s, a.ret, 0, SEEK_END).ret == |data|
  {
    OpenatKeepsInv(s, dirfd, path, flags);
    hide ReadCstr, NormalizePath, Open;
  }

  /** A program that reads the structure at the offsets of the Linux ABI finds the fields. */
  lemma {:induction false} StatFields(st: Stat)
    requires st.size < TWO64 && st.ino < TWO64 && st.mode < TWO32 && st.blocks < TWO64
    ensures var b := StatBytes(st);
            && LeValue(b[8..16]) == st.ino && LeValue(b[24..28]) == st.mode
            && LeValue(b[48..56]) == st.size && LeValue(b[64..72]) == st.blocks
  {
    hide StatBytes, LeBytes, LeValue, Zeros, Power256;
    LeRoundTrip64(st.ino);
    LeRoundTrip64(st.size);
    LeRoundTrip64(st.blocks);
    LeRoundTrip32(st.mode);
    StatSlices(st);
  }

  lemma {:induction false} StatSlices(st: Stat)
    ensures var b := StatBytes(st);
            && b[8..16] == LeBytes(8, st.ino) && b[24..28] == LeBytes(4, st.mode)
            && b[48..56] == LeBytes(8, st.size) && b[64..72] == LeBytes(8, st.blocks)
  {
    hide LeBytes, Zeros;
  }

  /** With a valid path, access and stat agree except on the paths that reduce to the root by trimming. */
  lemma {:induction false} AccessVersusStat(s: FdState, mem: bytes, p: bytes)
    requires ReadCstr(mem) == Some(p)
    ensures var access, stat := SysAccess(s, Some(mem)), SysStatPath(s, Some(mem), true).ret;
            && (stat == 0 ==> access == 0)
            && (access == 0 && stat != 0 <==> NormalizePath(p) == Some([]) && !IsRootName(p))
  {
    hide ReadCstr, NormalizePath;
    EmptyNameMissing(s);
    hide Lookup;
  }

  /** For one, "./" exists for access and does not for stat, whatever is mounted. */
  lemma {:induction false} AccessWithoutStat(s: FdState)
    ensures var path := Some([DOT, SLASH, 0]);
            SysAccess(s, path) == 0 && SysStatPath(s, path, true).ret == -ENOENT
  {
    var mem: bytes, p: bytes := [DOT, SLASH, 0], [DOT, SLASH];
    assert NulAt(mem, 0, CSTR_MAX) == Some(2) by {
      assert NulAt(mem, 2, CSTR_MAX) == Some(2);
      assert NulAt(mem, 1, CSTR_MAX) == Some(2);
    }
    assert mem[..2] == p;
    assert ReadCstr(mem) == Some(p) by {
      Utf8.AsciiIsValid(p);
    }
    assert Trim(p) == p;
    ReducesToRoot(p);
    hide ReadCstr, NormalizePath;
    EmptyNameMissing(s);
  }

  /** No file has the empty name. */
  lemma {:induction false} EmptyNameMissing(s: FdState)
    ensures Lookup(s, []) == Missing
  {
    if Lookup(s, []).Rec? {
      OpenNamed(s.rootfs.value, [], 0, Header(s.rootfs.value).value);
    }
  }

  lemma {:induction false} OpenNamed(image: bytes, name: bytes, i: nat, count: nat)
    ensures OpenFrom(image, name, i, count).Ok? ==>
              OpenFrom(image, name, i, count).value.name == name && 1 <= |name| <= NAME_CAP
    decreases count - i
  {
    hide RecordAt;
    if i < count && EntryAt(image, i).Ok? {
      RecordInImage(image, i);
      OpenNamed(image, name, i + 1, count);
    }
  }
}
