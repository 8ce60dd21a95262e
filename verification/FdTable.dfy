/** The file-descriptor table and the system calls on it, as functions from state to state. */
module FdTable {
  import opened Words
  import opened Lfs
  import opened Paths

  const MAX_FDS := 64
  const FD_BASE := 3
  const ISIZE_MAX := TWO63 - 1
  const AT_FDCWD := -100

  const ENOENT := 2
  const EBADF := 9
  const EFAULT := 14
  const EBUSY := 16
  const ENOTDIR := 20
  const EISDIR := 21
  const EINVAL := 22

  const SEEK_SET := 0
  const SEEK_CUR := 1
  const SEEK_END := 2

  const DT_DIR: byte := 4
  const DT_REG: byte := 8

  datatype FdEntry = Free | RootDir(pos: nat) | File(data: bytes, pos: nat, mode: u16)

  datatype FdState = FdState(rootfs: Option<bytes>, fds: seq<FdEntry>)

  /** The state after a call, its return value and the bytes it put into the caller's buffer. */
  datatype Answer = Answer(s: FdState, ret: int, out: bytes)

  function Fail(s: FdState, errno: int): Answer {
    Answer(s, -errno, [])
  }

  function Slot(s: FdState, fd: int): FdEntry {
    if 0 <= fd < |s.fds| then s.fds[fd] else Free
  }

  function Put(s: FdState, fd: nat, e: FdEntry): FdState
    requires fd < |s.fds|
  {
    s.(fds := s.fds[fd := e])
  }

  // ---------------------------------------------------------------- opening

  /** The first Free slot from i on, or the table's length. */
  function FirstFree(fds: seq<FdEntry>, i: nat): (k: nat)
    requires i <= |fds|
    ensures i <= k <= |fds|
    ensures forall j :: i <= j < k ==> fds[j] != Free
    ensures k < |fds| ==> fds[k] == Free
    decreases |fds| - i
  {
    if i == |fds| || fds[i] == Free then i else FirstFree(fds, i + 1)
  }

  function AllocFd(s: FdState, e: FdEntry): Answer
    requires |s.fds| == MAX_FDS
  {
    var k := FirstFree(s.fds, FD_BASE);
    if k == MAX_FDS then Fail(s, EBUSY) else Answer(Put(s, k, e), k, [])
  }

  predicate IsDirFd(s: FdState, dirfd: int) {
    dirfd == AT_FDCWD || Slot(s, dirfd).RootDir?
  }

  /** The file a non-root path names, or an errno. */
  datatype Found = Dir | Rec(rec: FileRecord) | Missing

  function Lookup(s: FdState, name: bytes): Found {
    match s.rootfs
    case None => Missing
    case Some(image) =>
      match Open(image, name)
      case Ok(rec) => Rec(rec)
      case Err(_) => Missing
  }

  predicate WantsDirectory(flags: nat) {
    flags / 0x1_0000 % 2 == 1
  }

  /** path is the memory at the path pointer, None for a null pointer. */
  function SysOpenat(s: FdState, dirfd: int, path: Option<bytes>, flags: nat): Answer
    requires |s.fds| == MAX_FDS
  {
    if path == None then Fail(s, EFAULT)
    else if !IsDirFd(s, dirfd) then Fail(s, EBADF)
    else match ReadCstr(path.value)
    case None => Fail(s, EFAULT)
    case Some(p) =>
      if IsRootName(p) || p == [DOT, DOT] then AllocFd(s, RootDir(0))
      else match NormalizePath(p)
      case None => Fail(s, ENOENT)
      case Some(name) =>
        if name == [] then AllocFd(s, RootDir(0))
        else match Lookup(s, name)
        case Rec(rec) =>
          if WantsDirectory(flags) then Fail(s, ENOTDIR) else AllocFd(s, File(rec.data, 0, rec.mode))
        case _ => Fail(s, ENOENT)
  }

  // ---------------------------------------------------------------- reading and positioning

  function Min(a: nat, b: nat): nat {
    if a < b then a else b
  }

  function SysRead(s: FdState, fd: nat, hasBuf: bool, len: nat): (a: Answer)
    ensures |a.out| <= len
  {
    if !hasBuf then Fail(s, EFAULT)
    else if fd >= |s.fds| then Fail(s, EBADF)
    else match s.fds[fd]
    case Free => Fail(s, EBADF)
    case RootDir(_) => Fail(s, EISDIR)
    case File(data, pos, mode) =>
      if pos >= |data| then Answer(s, 0, [])
      else
        var n := Min(len, |data| - pos);
        Answer(Put(s, fd, File(data, pos + n, mode)), n, data[pos..pos + n])
  }

  function SysClose(s: FdState, fd: nat): Answer {
    if Slot(s, fd) == Free then Fail(s, EBADF) else Answer(Put(s, fd, Free), 0, [])
  }

  function SaturatingAdd(a: int, b: int): int {
    if a + b > ISIZE_MAX then ISIZE_MAX else if a + b < -TWO63 then -TWO63 else a + b
  }

  /** Files in the image plus "." and "..". */
  function RootEntries(s: FdState): (n: nat)
    ensures 2 <= n < TWO16 + 2
  {
    match s.rootfs
    case None => 2
    case Some(image) => if Header(image).Ok? then Header(image).value + 2 else 2
  }

  function Seek(pos: nat, end: nat, off: int, whence: nat): Option<nat> {
    if whence > SEEK_END then None
    else
      var from := if whence == SEEK_SET then 0 else if whence == SEEK_CUR then pos else end;
      var to := SaturatingAdd(from, off);
      if to < 0 then None else Some(to)
  }

  function SysLseek(s: FdState, fd: nat, off: int, whence: nat): Answer {
    match Slot(s, fd)
    case Free => Fail(s, EBADF)
    case RootDir(pos) =>
      (match Seek(pos, RootEntries(s), off, whence)
       case None => Fail(s, EINVAL)
       case Some(p) => Answer(Put(s, fd, RootDir(p)), p, []))
    case File(data, pos, mode) =>
      (match Seek(pos, |data|, off, whence)
       case None => Fail(s, EINVAL)
       case Some(p) => Answer(Put(s, fd, File(data, p, mode)), p, []))
  }

  function SysDup(s: FdState, fd: nat): Answer
    requires |s.fds| == MAX_FDS
  {
    if fd <= 2 then Answer(s, fd, [])
    else if Slot(s, fd) == Free then Fail(s, EBADF)
    else AllocFd(s, s.fds[fd])
  }

  function SysDup2(s: FdState, oldfd: nat, newfd: nat): Answer
    requires |s.fds| == MAX_FDS
  {
    if oldfd <= 2 then if newfd <= 2 then Answer(s, newfd, []) else Fail(s, EBADF)
    else if oldfd >= MAX_FDS || newfd >= MAX_FDS || newfd < FD_BASE || s.fds[oldfd] == Free then Fail(s, EBADF)
    else Answer(Put(s, newfd, s.fds[oldfd]), newfd, [])
  }

  // ---------------------------------------------------------------- directories

  datatype Dirent = Dirent(ino: nat, next: nat, typ: byte, name: bytes)

  /** The directory entry at position pos; None past the end or at an entry the reader refuses. */
  function DirentAt(s: FdState, pos: nat): Option<Dirent> {
    if pos >= RootEntries(s) then None
    else if pos == 0 then Some(Dirent(1, 1, DT_DIR, [DOT]))
    else if pos == 1 then Some(Dirent(1, 2, DT_DIR, [DOT, DOT]))
    else match s.rootfs
    case None => None
    case Some(image) =>
      match Entry(image, pos - 2)
      case Err(_) => None
      case Ok(rec) => Some(Dirent(pos, pos + 1, DT_REG, rec.name))
  }

  function RecordLen(nameLen: nat): (n: nat)
    ensures nameLen + 20 <= n < nameLen + 28 && n % 8 == 0
  {
    var raw := nameLen + 27;
    raw - raw % 8
  }

  /** A linux_dirent64 record. */
  function Record(d: Dirent): (r: bytes)
    ensures |r| == RecordLen(|d.name|)
  {
    LeBytes(8, d.ino) + LeBytes(8, d.next) + LeBytes(2, RecordLen(|d.name|)) + [d.typ] + d.name + [0]
    + Zeros(RecordLen(|d.name|) - 20 - |d.name|)
  }

  /** The records from pos on that fit into room bytes, and the position after them. */
  function Fill(s: FdState, pos: nat, room: nat): (f: (nat, bytes))
    ensures |f.1| <= room
    decreases RootEntries(s) - pos
  {
    match DirentAt(s, pos)
    case None => (pos, [])
    case Some(d) =>
      if |Record(d)| > room then (pos, [])
      else
        var rest := Fill(s, pos + 1, room - |Record(d)|);
        (rest.0, Record(d) + rest.1)
  }

  function SysGetdents64(s: FdState, fd: nat, hasBuf: bool, count: nat): (a: Answer)
    ensures |a.out| <= count
  {
    if !hasBuf then Fail(s, EFAULT)
    else if fd >= |s.fds| then Fail(s, EBADF)
    else if !s.fds[fd].RootDir? then Fail(s, ENOTDIR)
    else
      var pos := s.fds[fd].pos;
      var f := Fill(s, pos, count);
      if f.1 == [] && DirentAt(s, pos).Some? then Fail(s, EINVAL)
      else Answer(Put(s, fd, RootDir(f.0)), |f.1|, f.1)
  }

  // ---------------------------------------------------------------- metadata

  /** The fields of the stat structure that vary. */
  datatype Stat = Stat(mode: nat, size: nat, ino: nat, blocks: nat)

  const S_IFDIR := 0x4000
  const S_IFREG := 0x8000

  function MakeStat(isDir: bool, size: nat, mode: u16, ino: nat): Stat {
    Stat((if isDir then S_IFDIR else S_IFREG) + mode % 0x1000, size, ino, (size + 511) / 512)
  }

  const STAT_SIZE := 144

  /** The stat structure in the caller's memory: one link on device 1, no owner, no times. */
  function StatBytes(st: Stat): (b: bytes)
    ensures |b| == STAT_SIZE
  {
    LeBytes(8, 1) + LeBytes(8, st.ino) + LeBytes(8, 1) + LeBytes(4, st.mode) + Zeros(20) + LeBytes(8, st.size) +
    LeBytes(8, 4096) + LeBytes(8, st.blocks) + Zeros(72)
  }

  const ROOT_STAT := MakeStat(true, 0, 0x41ED, 1)
  const CONSOLE_STAT := MakeStat(false, 0, 0x21B6, 1)

  /** Return value, and the structure written when it is 0. */
  datatype StatAnswer = StatAnswer(ret: int, stat: Option<Stat>)

  function SysStatPath(s: FdState, path: Option<bytes>, hasBuf: bool): StatAnswer {
    if path == None || !hasBuf then StatAnswer(-EFAULT, None)
    else match ReadCstr(path.value)
    case None => StatAnswer(-EFAULT, None)
    case Some(p) =>
      if IsRootName(p) then StatAnswer(0, Some(ROOT_STAT))
      else match NormalizePath(p)
      case None => StatAnswer(-ENOENT, None)
      case Some(name) =>
        match Lookup(s, name)
        case Rec(rec) => StatAnswer(0, Some(MakeStat(false, |rec.data|, rec.mode, 2)))
        case _ => StatAnswer(-ENOENT, None)
  }

  function SysFstat(s: FdState, fd: nat, hasBuf: bool): StatAnswer {
    if !hasBuf then StatAnswer(-EFAULT, None)
    else if fd <= 2 then StatAnswer(0, Some(CONSOLE_STAT))
    else match Slot(s, fd)
    case Free => StatAnswer(-EBADF, None)
    case RootDir(_) => StatAnswer(0, Some(ROOT_STAT))
    case File(data, _, mode) => StatAnswer(0, Some(MakeStat(false, |data|, mode, 2)))
  }

  predicate PathExists(s: FdState, p: bytes) {
    IsRootName(p) ||
    match NormalizePath(p)
    case None => false
    case Some(name) => name == [] || Lookup(s, name).Rec?
  }

  function SysAccess(s: FdState, path: Option<bytes>): int {
    if path == None then -EFAULT
    else match ReadCstr(path.value)
    case None => -EFAULT
    case Some(p) => if PathExists(s, p) then 0 else -ENOENT
  }

  // ---------------------------------------------------------------- runs

  function SetRootfs(image: bytes): FdState {
    FdState(Some(image), seq(MAX_FDS, _ => Free))
  }

  datatype Op =
    | OpSetRootfs(image: bytes)
    | OpOpenat(dirfd: int, path: Option<bytes>, flags: nat)
    | OpRead(fd: nat, hasBuf: bool, len: nat)
    | OpClose(fd: nat)
    | OpLseek(fd: nat, off: int, whence: nat)
    | OpDup(fd: nat)
    | OpDup2(fd: nat, newfd: nat)
    | OpGetdents64(fd: nat, hasBuf: bool, count: nat)

  function Apply(s: FdState, op: Op): (a: Answer)
    requires |s.fds| == MAX_FDS
    ensures |a.s.fds| == MAX_FDS
  {
    match op
    case OpSetRootfs(image) => Answer(SetRootfs(image), 0, [])
    case OpOpenat(dirfd, path, flags) => SysOpenat(s, dirfd, path, flags)
    case OpRead(fd, hasBuf, len) => SysRead(s, fd, hasBuf, len)
    case OpClose(fd) => SysClose(s, fd)
    case OpLseek(fd, off, whence) => SysLseek(s, fd, off, whence)
    case OpDup(fd) => SysDup(s, fd)
    case OpDup2(fd, newfd) => SysDup2(s, fd, newfd)
    case OpGetdents64(fd, hasBuf, count) => SysGetdents64(s, fd, hasBuf, count)
  }

  function Run(s: FdState, ops: seq<Op>): (t: FdState)
    requires |s.fds| == MAX_FDS
    ensures |t.fds| == MAX_FDS
    decreases |ops|
  {
    if ops == [] then s else Run(Apply(s, ops[0]).s, ops[1..])
  }
}
