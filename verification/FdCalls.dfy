/** The system calls as they run: one table updated in place, buffers of the caller filled in place. */
module FdCalls {
  import opened Words
  import opened Bits
  import opened Lfs
  import opened Paths
  import opened FdTable

  class Kernel {
    var rootfs: Option<bytes>
    const table: array<FdEntry>

    predicate Valid() {
      table.Length == MAX_FDS
    }

    function State(): FdState
      reads this, table
    {
      FdState(rootfs, table[..])
    }

    constructor ()
      ensures Valid() && State() == FdState(None, seq(MAX_FDS, _ => Free)) && fresh(table)
    {
      rootfs := None;
      table := new FdEntry[MAX_FDS](_ => Free);
    }

    method SetRoot(image: bytes)
      requires Valid()
      modifies this, table
      ensures State() == Apply(old(State()), OpSetRootfs(image)).s
    {
      rootfs := Some(image);
      forall i | 0 <= i < MAX_FDS {
        table[i] := Free;
      }
    }

    method Alloc(e: FdEntry) returns (r: int)
      requires Valid()
      modifies table
      ensures var a := AllocFd(old(State()), e); r == a.ret && State() == a.s
    {
      for i := FD_BASE to MAX_FDS
        invariant State() == old(State())
        invariant FirstFree(table[..], FD_BASE) == FirstFree(table[..], i)
      {
        if table[i] == Free {
          table[i] := e;
          return i;
        }
      }
      return -EBUSY;
    }

    method Openat(dirfd: int, path: Option<bytes>, flags: nat) returns (r: int)
      requires Valid() && (path.Some? ==> Followable(path.value))
      modifies table
      ensures var a := SysOpenat(old(State()), dirfd, path, flags); r == a.ret && State() == a.s
    {
      if path == None {
        return -EFAULT;
      }
      if !(dirfd == AT_FDCWD || (0 <= dirfd < MAX_FDS && table[dirfd].RootDir?)) {
        return -EBADF;
      }
      var p := ReadCstr(path.value);
      if p == None {
        return -EFAULT;
      }
      if IsRootName(p.value) {
        r := Alloc(RootDir(0));
        return;
      }
      if p.value == [DOT, DOT] {
        r := Alloc(RootDir(0));
        return;
      }
      var name := NormalizePath(p.value);
      if name == None {
        return -ENOENT;
      }
      if name.value == [] {
        r := Alloc(RootDir(0));
        return;
      }
      if rootfs == None {
        return -ENOENT;
      }
      match Open(rootfs.value, name.value) {
        case Ok(rec) =>
          if WantsDirectory(flags) {
            return -ENOTDIR;
          }
          r := Alloc(File(rec.data, 0, rec.mode));
        case Err(_) => return -ENOENT;
      }
    }

    method Read(fd: nat, buf: array?<byte>, len: nat) returns (r: int)
      requires Valid() && (buf != null ==> len <= buf.Length)
      modifies table, buf
      ensures var a := SysRead(old(State()), fd, buf != null, len);
              r == a.ret && State() == a.s && (buf != null ==> buf[..] == Splice(old(buf[..]), 0, a.out))
    {
      if buf == null {
        return -EFAULT;
      }
      SpliceNothing(buf[..], 0);
      if fd >= MAX_FDS {
        return -EBADF;
      }
      match table[fd] {
        case Free => return -EBADF;
        case RootDir(_) => return -EISDIR;
        case File(data, pos, mode) =>
          if pos >= |data| {
            return 0;
          }
          r := Min(len, |data| - pos);
          TakeBytes(fd, buf, r);
      }
    }

    /** The copy out of the file and the position moved past it. */
    method TakeBytes(fd: nat, buf: array<byte>, n: nat)
      requires Valid() && fd < MAX_FDS && table[fd].File?
      requires table[fd].pos + n <= |table[fd].data| && n <= buf.Length
      modifies table, buf
      ensures var e := old(table[fd]);
              && State() == Put(old(State()), fd, File(e.data, e.pos + n, e.mode))
              && buf[..] == Splice(old(buf[..]), 0, e.data[e.pos..e.pos + n])
    {
      hide Splice;
      var e := table[fd];
      CopyInto(buf, 0, e.data[e.pos..e.pos + n]);
      table[fd] := File(e.data, e.pos + n, e.mode);
    }

    method Close(fd: nat) returns (r: int)
      requires Valid()
      modifies table
      ensures var a := SysClose(old(State()), fd); r == a.ret && State() == a.s
    {
      if fd >= MAX_FDS {
        return -EBADF;
      }
      if table[fd] == Free {
        return -EBADF;
      }
      table[fd] := Free;
      return 0;
    }

    method Lseek(fd: nat, off: int, whence: nat) returns (r: int)
      requires Valid()
      modifies table
      ensures var a := SysLseek(old(State()), fd, off, whence); r == a.ret && State() == a.s
    {
      if fd >= MAX_FDS {
        return -EBADF;
      }
      var from: int;
      match table[fd] {
        case Free => return -EBADF;
        case RootDir(pos) =>
          match whence {
            case 0 => from := 0;
            case 1 => from := pos;
            case 2 => from := RootEntries(State());
            case _ => return -EINVAL;
          }
          var to := SaturatingAdd(from, off);
          if to < 0 {
            return -EINVAL;
          }
          table[fd] := RootDir(to);
          return to;
        case File(data, pos, mode) =>
          match whence {
            case 0 => from := 0;
            case 1 => from := pos;
            case 2 => from := |data|;
            case _ => return -EINVAL;
          }
          var to := SaturatingAdd(from, off);
          if to < 0 {
            return -EINVAL;
          }
          table[fd] := File(data, to, mode);
          return to;
      }
    }

    method Dup(fd: nat) returns (r: int)
      requires Valid()
      modifies table
      ensures var a := SysDup(old(State()), fd); r == a.ret && State() == a.s
    {
      if fd <= 2 {
        return fd;
      }
      if fd >= MAX_FDS {
        return -EBADF;
      }
      if table[fd] == Free {
        return -EBADF;
      }
      r := Alloc(table[fd]);
    }

    method Dup2(oldfd: nat, newfd: nat) returns (r: int)
      requires Valid()
      modifies table
      ensures var a := SysDup2(old(State()), oldfd, newfd); r == a.ret && State() == a.s
    {
      if oldfd <= 2 {
        return if newfd <= 2 then newfd else -EBADF;
      }
      if oldfd >= MAX_FDS || newfd >= MAX_FDS || newfd < FD_BASE {
        return -EBADF;
      }
      if table[oldfd] == Free {
        return -EBADF;
      }
      table[newfd] := table[oldfd];
      return newfd;
    }

    method StatPath(path: Option<bytes>, buf: array?<byte>) returns (r: int)
      requires Valid() && (path.Some? ==> Followable(path.value)) && (buf != null ==> STAT_SIZE <= buf.Length)
      modifies buf
      ensures var a := SysStatPath(State(), path, buf != null);
              && r == a.ret
              && (a.stat.Some? ==> buf[..] == Splice(old(buf[..]), 0, StatBytes(a.stat.value)))
              && (a.stat.None? && buf != null ==> buf[..] == old(buf[..]))
    {
      hide Splice, StatBytes, ReadCstr, NormalizePath, Open;
      if path == None || buf == null {
        return -EFAULT;
      }
      var p := ReadCstr(path.value);
      if p == None {
        return -EFAULT;
      }
      if IsRootName(p.value) {
        r := WriteStat(buf, true, 0, 0x41ED, 1);
        return;
      }
      var name := NormalizePath(p.value);
      if name == None || rootfs == None {
        return -ENOENT;
      }
      match Open(rootfs.value, name.value) {
        case Ok(rec) => r := WriteStat(buf, false, |rec.data|, rec.mode, 2);
        case Err(_) => return -ENOENT;
      }
    }

    method Access(path: Option<bytes>) returns (r: int)
      requires Valid() && (path.Some? ==> Followable(path.value))
      ensures r == SysAccess(State(), path)
    {
      hide ReadCstr, NormalizePath, Open;
      if path == None {
        return -EFAULT;
      }
      var p := ReadCstr(path.value);
      if p == None {
        return -EFAULT;
      }
      if IsRootName(p.value) {
        return 0;
      }
      var name := NormalizePath(p.value);
      if name == None {
        return -ENOENT;
      }
      if name.value == [] {
        return 0;
      }
      if rootfs == None {
        return -ENOENT;
      }
      match Open(rootfs.value, name.value) {
        case Ok(_) => return 0;
        case Err(_) => return -ENOENT;
      }
    }

    /** What fstat leaves in the caller's buffer. */
    method Fstat(fd: nat, buf: array?<byte>) returns (r: int)
      requires Valid() && (buf != null ==> STAT_SIZE <= buf.Length)
      modifies buf
      ensures var a := SysFstat(State(), fd, buf != null);
              && r == a.ret
              && (a.stat.Some? ==> buf[..] == Splice(old(buf[..]), 0, StatBytes(a.stat.value)))
              && (a.stat.None? && buf != null ==> buf[..] == old(buf[..]))
    {
      hide Splice, StatBytes;
      if buf == null {
        return -EFAULT;
      }
      if fd <= 2 {
        r := WriteStat(buf, false, 0, 0x21B6, 1);
        return;
      }
      if fd >= MAX_FDS {
        return -EBADF;
      }
      match table[fd] {
        case Free => return -EBADF;
        case RootDir(_) => r := WriteStat(buf, true, 0, 0x41ED, 1);
        case File(data, _, mode) => r := WriteStat(buf, false, |data|, mode, 2);
      }
    }

    method Getdents64(fd: nat, dirp: array?<byte>, count: nat) returns (r: int)
      requires Valid() && (dirp != null ==> count <= dirp.Length)
      modifies table, dirp
      ensures var a := SysGetdents64(old(State()), fd, dirp != null, count);
              r == a.ret && State() == a.s && (dirp != null ==> dirp[..] == Splice(old(dirp[..]), 0, a.out))
    {
      if dirp == null {
        return -EFAULT;
      }
      SpliceNothing(dirp[..], 0);
      if fd >= MAX_FDS {
        return -EBADF;
      }
      if !table[fd].RootDir? {
        return -ENOTDIR;
      }
      var total := RootEntries(State());
      if table[fd].pos >= total {
        NoEntries(State(), fd, count);
        return 0;
      }
      r := FillEntries(fd, dirp, count, total);
    }

    method FillEntries(fd: nat, dirp: array<byte>, count: nat, total: nat) returns (r: int)
      requires Valid() && count <= dirp.Length && total == RootEntries(State())
      requires fd < MAX_FDS && table[fd].RootDir? && table[fd].pos < total
      modifies table, dirp
      ensures var a := SysGetdents64(old(State()), fd, true, count);
              r == a.ret && State() == a.s && dirp[..] == Splice(old(dirp[..]), 0, a.out)
    {
      hide DirentAt, Record, RecordLen, Splice, Filling, SysGetdents64, RootEntries;
      ghost var s, buf, done := State(), dirp[..], [];
      SpliceNothing(buf, 0);
      FillStarts(s, fd, count);
      var pos, written := table[fd].pos, 0;
      hide State, Put;
      while pos < total
        invariant State() == Put(s, fd, RootDir(pos)) && State().rootfs == s.rootfs && s.fds[fd].pos <= pos
        invariant written == |done| <= count && dirp[..] == Splice(buf, 0, done)
        invariant Filling(s, fd, count, pos, done)
      {
        SameRoot(s, State(), pos);
        var d := EntryAtPos(pos);
        if d == None {
          break;
        }
        var reclen := RecordLen(|d.value.name|);
        if written + reclen > count {
          if written == 0 {
            FillRefuses(s, fd, count, pos, done);
            return -EINVAL;
          }
          break;
        }
        FillStep(s, fd, count, pos, done);
        SpliceMore(buf, done, Record(d.value));
        PutTwice(s, fd, RootDir(pos), RootDir(pos + 1));
        Deliver(fd, dirp, written, d.value, pos);
        done := done + Record(d.value);
        written := written + reclen;
        pos := pos + 1;
      }
      SameRoot(s, State(), pos);
      if pos >= total {
        PastTheEnd(s, pos);
      }
      FillStops(s, fd, count, pos, done);
      return written;
    }

    /** One record into the buffer, and the position in the table moved past it. */
    method Deliver(fd: nat, dirp: array<byte>, at: nat, d: Dirent, pos: nat)
      requires Valid() && fd < MAX_FDS && at + RecordLen(|d.name|) <= dirp.Length
      modifies table, dirp
      ensures State() == Put(old(State()), fd, RootDir(pos + 1)) && State().rootfs == old(State().rootfs)
      ensures dirp[..] == Splice(old(dirp[..]), at, Record(d))
    {
      hide Splice, Record, RecordLen;
      PutRecord(dirp, at, d);
      table[fd] := RootDir(pos + 1);
    }

    /** The match on the position inside the getdents64 loop. */
    method EntryAtPos(pos: nat) returns (d: Option<Dirent>)
      requires Valid() && pos < RootEntries(State())
      ensures d == DirentAt(State(), pos)
    {
      match pos {
        case 0 => return Some(Dirent(1, 1, DT_DIR, [DOT]));
        case 1 => return Some(Dirent(1, 2, DT_DIR, [DOT, DOT]));
        case _ =>
          var fileIdx := pos - 2;
          if rootfs == None {
            return None;
          }
          match Entry(rootfs.value, fileIdx) {
            case Ok(rec) => return Some(Dirent(fileIdx + 2, pos + 1, DT_REG, rec.name));
            case Err(_) => return None;
          }
      }
    }
  }

  method WriteStat(buf: array<byte>, isDir: bool, size: nat, mode: u16, ino: nat) returns (r: int)
    requires STAT_SIZE <= buf.Length
    modifies buf
    ensures r == 0 && buf[..] == Splice(old(buf[..]), 0, StatBytes(MakeStat(isDir, size, mode, ino)))
  {
    CopyInto(buf, 0, StatBytes(MakeStat(isDir, size, mode, ino)));
    return 0;
  }

  lemma {:induction false} NoEntries(s: FdState, fd: nat, count: nat)
    requires fd < |s.fds| && s.fds[fd].RootDir? && s.fds[fd].pos >= RootEntries(s)
    ensures SysGetdents64(s, fd, true, count) == Answer(s, 0, [])
  {
    assert Put(s, fd, s.fds[fd]) == s;
  }

  lemma {:induction false} PutTwice(s: FdState, fd: nat, d: FdEntry, e: FdEntry)
    requires fd < |s.fds|
    ensures Put(Put(s, fd, d), fd, e) == Put(s, fd, e) && |Put(s, fd, d).fds| == |s.fds|
  {
  }

  lemma {:induction false} SameRoot(s: FdState, t: FdState, pos: nat)
    requires s.rootfs == t.rootfs
    ensures DirentAt(s, pos) == DirentAt(t, pos) && RootEntries(s) == RootEntries(t)
  {
  }

  lemma {:induction false} PastTheEnd(s: FdState, pos: nat)
    requires pos >= RootEntries(s)
    ensures DirentAt(s, pos) == None
  {
  }

  lemma {:induction false} SpliceMore(buf: bytes, done: bytes, b: bytes)
    requires |done| + |b| <= |buf|
    ensures Splice(Splice(buf, 0, done), |done|, b) == Splice(buf, 0, done + b)
  {
  }

  /** done is what the loop has written when it stands at position pos. */
  predicate Filling(s: FdState, fd: nat, count: nat, pos: nat, done: bytes)
    requires fd < |s.fds| && s.fds[fd].RootDir? && |done| <= count
  {
    var f, rest := Fill(s, s.fds[fd].pos, count), Fill(s, pos, count - |done|);
    f.0 == rest.0 && f.1 == done + rest.1 && (done == [] <==> pos == s.fds[fd].pos)
  }

  lemma {:induction false} FillStarts(s: FdState, fd: nat, count: nat)
    requires fd < |s.fds| && s.fds[fd].RootDir?
    ensures Filling(s, fd, count, s.fds[fd].pos, []) && Put(s, fd, s.fds[fd]) == s
  {
    hide Fill;
    assert [] + Fill(s, s.fds[fd].pos, count).1 == Fill(s, s.fds[fd].pos, count).1;
  }

  lemma {:induction false} FillStep(s: FdState, fd: nat, count: nat, pos: nat, done: bytes)
    requires fd < |s.fds| && s.fds[fd].RootDir? && |done| <= count && s.fds[fd].pos <= pos
    requires Filling(s, fd, count, pos, done)
    requires DirentAt(s, pos).Some? && |done| + |Record(DirentAt(s, pos).value)| <= count
    ensures Filling(s, fd, count, pos + 1, done + Record(DirentAt(s, pos).value))
  {
    hide DirentAt, Record;
    var r := Record(DirentAt(s, pos).value);
    var rest := Fill(s, pos + 1, count - |done| - |r|);
    assert Fill(s, pos, count - |done|) == (rest.0, r + rest.1);
    assert done + (r + rest.1) == (done + r) + rest.1;
  }

  /** Where the loop stops with something written, or nothing to write, the call is complete. */
  lemma {:induction false} FillStops(s: FdState, fd: nat, count: nat, pos: nat, done: bytes)
    requires fd < |s.fds| && s.fds[fd].RootDir? && |done| <= count
    requires Filling(s, fd, count, pos, done)
    requires DirentAt(s, pos).Some? ==> done != [] && |done| + |Record(DirentAt(s, pos).value)| > count
    ensures SysGetdents64(s, fd, true, count) == Answer(Put(s, fd, RootDir(pos)), |done|, done)
  {
    hide DirentAt, Record;
    assert Fill(s, pos, count - |done|) == (pos, []);
    assert done + [] == done;
  }

  lemma {:induction false} FillRefuses(s: FdState, fd: nat, count: nat, pos: nat, done: bytes)
    requires fd < |s.fds| && s.fds[fd].RootDir? && |done| <= count && done == []
    requires Filling(s, fd, count, pos, done)
    requires DirentAt(s, pos).Some? && |Record(DirentAt(s, pos).value)| > count
    ensures SysGetdents64(s, fd, true, count) == Fail(s, EINVAL) && Put(s, fd, RootDir(pos)) == s
  {
    hide DirentAt, Record;
    assert Fill(s, pos, count) == (pos, []);
  }

  /** `(len + 7) & !7`, the rounding of RecordLen. */
  lemma {:induction false} RecordLenIsMask(nameLen: nat)
    requires nameLen + 27 < TWO64
    ensures RecordLen(nameLen) == And64(nameLen + 27, Not64(7))
  {
    assert Pow2(3) == 8;
    MaskRoundsDown(3, nameLen + 27);
  }

  /** A record without its padding. */
  function RecordHead(d: Dirent): (h: bytes)
    ensures |h| == 20 + |d.name|
  {
    LeBytes(8, d.ino) + LeBytes(8, d.next) + LeBytes(2, RecordLen(|d.name|)) + [d.typ] + d.name + [0]
  }

  /** The stores that lay out one record. */
  method PutRecord(dirp: array<byte>, at: nat, d: Dirent)
    requires at + RecordLen(|d.name|) <= dirp.Length
    modifies dirp
    ensures dirp[..] == Splice(old(dirp[..]), at, Record(d))
  {
    RecordPadding(d);
    ghost var s := dirp[..];
    hide Splice, Record, RecordLen, Zeros, RecordHead;
    PutFields(dirp, at, d);
    PutPadding(dirp, s, at, RecordHead(d), 20 + |d.name|, RecordLen(|d.name|));
  }

  method PutFields(dirp: array<byte>, at: nat, d: Dirent)
    requires at + RecordLen(|d.name|) <= dirp.Length
    modifies dirp
    ensures dirp[..] == Splice(old(dirp[..]), at, RecordHead(d))
  {
    ghost var s, p := dirp[..], [];
    SpliceNothing(s, at);
    hide LeBytes, Splice, RecordLen;
    p := Append(dirp, s, at, 0, p, LeBytes(8, d.ino));
    p := Append(dirp, s, at, 8, p, LeBytes(8, d.next));
    p := Append(dirp, s, at, 16, p, LeBytes(2, RecordLen(|d.name|)));
    assert p == LeBytes(8, d.ino) + LeBytes(8, d.next) + LeBytes(2, RecordLen(|d.name|));
    PutNameFields(dirp, s, at, p, d);
  }

  method PutNameFields(dirp: array<byte>, ghost s: bytes, at: nat, ghost done: bytes, d: Dirent)
    requires |done| == 18 && at + 20 + |d.name| <= dirp.Length == |s| && dirp[..] == Splice(s, at, done)
    modifies dirp
    ensures dirp[..] == Splice(s, at, done + [d.typ] + d.name + [0])
  {
    hide Splice;
    ghost var p := Append(dirp, s, at, 18, done, [d.typ]);
    p := Append(dirp, s, at, 19, p, d.name);
    p := Append(dirp, s, at, 19 + |d.name|, p, [0]);
  }

  method PutPadding(dirp: array<byte>, ghost s: bytes, at: nat, ghost head: bytes, from: nat, to: nat)
    requires from == |head| <= to && at + to <= dirp.Length == |s| && dirp[..] == Splice(s, at, head)
    modifies dirp
    ensures dirp[..] == Splice(s, at, head + Zeros(to - from))
  {
    hide Splice, Zeros;
    var pad := from;
    ghost var p := head;
    ZerosMore(head, 0);
    while pad < to
      invariant from <= pad <= to && |p| == pad
      invariant p == head + Zeros(pad - from) && dirp[..] == Splice(s, at, p)
    {
      ZerosMore(head, pad - from);
      p := Append(dirp, s, at, pad, p, [0]);
      pad := pad + 1;
    }
  }

  lemma {:induction false} RecordPadding(d: Dirent)
    ensures Record(d) == RecordHead(d) + Zeros(RecordLen(|d.name|) - (20 + |d.name|))
  {
  }

  lemma {:induction false} ZerosMore(head: bytes, n: nat)
    ensures (head + Zeros(n)) + [0] == head + Zeros(n + 1)
    ensures head + Zeros(0) == head
  {
  }

  /** Stores b at offset off of the record at index at, just after the bytes done. */
  method Append(dirp: array<byte>, ghost s: bytes, at: nat, off: nat, ghost done: bytes, b: bytes)
    returns (ghost grown: bytes)
    requires |done| == off && at + off + |b| <= dirp.Length == |s| && dirp[..] == Splice(s, at, done)
    modifies dirp
    ensures grown == done + b && |grown| == off + |b| && dirp[..] == Splice(s, at, grown)
  {
    CopyInto(dirp, at + off, b);
    grown := done + b;
    SpliceJoin(s, at, done, b);
  }
}
