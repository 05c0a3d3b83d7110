/** The HAL's file descriptor table: open, close, ioctl and fcntl, with exclusive locks
    on devices.  Device lookup and the drivers' own callbacks are opaque results. */
module FdTable {
  import opened Machine

  const MAX_FD := 32

  const FD_EXCL: bv32 := 0x8000_0000
  const FD_DEV: bv32 := 0x4000_0000
  const FD_FLAGS_MASK: bv32 := 0xC000_0000

  /** O_APPEND | O_NONBLOCK of the C library. */
  const FCNTL_FLAGS_MASK: bv32 := 0x4008

  /** Error numbers of the C library. */
  const EACCES := 13
  const ENODEV := 19
  const EINVAL := 22
  const EMFILE := 24
  const ENOTTY := 25
  const EBADFD := 81

  datatype Option<T> = None | Some(value: T)

  /** A registered alt_dev: it is in the device list or in the file system list. */
  datatype Dev = Device(id: nat) | FileSystem(id: nat)

  const DEV_NULL := Device(0)

  /** An alt_fd; free when it has no device. */
  datatype Fd = Fd(dev: Option<Dev>, flags: bv32)

  predicate Excl(f: bv32) {
    f & FD_EXCL != 0
  }

  predicate IsDev(f: bv32) {
    f & FD_DEV != 0
  }

  /** alt_fd_list and alt_max_fd. */
  datatype State = State(fds: seq<Fd>, maxFd: int)

  // ------------------------------------------------------------------- invariants

  /** Descriptors 0 to 2 are always in use, no descriptor in use is above the high-water
      mark, a free one is not locked, and only devices carry the device mark. */
  ghost predicate Shape(s: State) {
    && |s.fds| == MAX_FD && -1 <= s.maxFd < MAX_FD
    && (forall i :: 0 <= i <= 2 ==> s.fds[i].dev.Some?)
    && (forall i :: 0 <= i < MAX_FD && s.fds[i].dev.Some? ==> i <= Max(s.maxFd, 2))
    && (forall i :: 0 <= i < MAX_FD && s.fds[i].dev.None? ==> !Excl(s.fds[i].flags))
    && (forall i :: 0 <= i < MAX_FD && IsDev(s.fds[i].flags) ==>
          s.maxFd >= 3 && s.fds[i].dev.Some? && s.fds[i].dev.value.Device?)
  }

  ghost predicate Holds(s: State, i: int) {
    0 <= i < |s.fds| && Excl(s.fds[i].flags)
  }

  /** A lock is held on a device, by the lowest descriptor open on it. */
  ghost predicate LowestHolds(s: State) {
    forall i, j :: Holds(s, i) && 0 <= j < |s.fds| && s.fds[j].dev == s.fds[i].dev ==>
      i <= j && IsDev(s.fds[i].flags)
  }

  ghost predicate Inv(s: State) {
    Shape(s) && LowestHolds(s)
  }

  /** The descriptors open on a device. */
  ghost function On(s: State, dev: Dev): set<int> {
    set i | 0 <= i < |s.fds| && s.fds[i].dev == Some(dev)
  }

  ghost predicate Locked(s: State, dev: Dev) {
    exists i :: Holds(s, i) && s.fds[i].dev == Some(dev)
  }

  lemma AtMostOneHolder(s: State, i: int, j: int)
    requires Inv(s) && Holds(s, i) && Holds(s, j) && s.fds[i].dev == s.fds[j].dev
    ensures i == j
  {
  }

  // ------------------------------------------------------------------- flag words

  /** The word operations of the sources, one function each. */
  function Unmarked(flags: bv32): bv32 {
    flags & !FD_FLAGS_MASK
  }

  lemma UnmarkedFlags(flags: bv32)
    ensures Unmarked(flags) == flags & 0x3FFF_FFFF
  {
  }

  function WithDev(flags: bv32): bv32 {
    flags | FD_DEV
  }

  function WithExcl(flags: bv32): bv32 {
    flags | FD_EXCL
  }

  function WithoutExcl(flags: bv32): bv32 {
    flags & !FD_EXCL
  }

  function WithoutSettable(flags: bv32): bv32 {
    flags & !FCNTL_FLAGS_MASK
  }

  function WithSettable(flags: bv32, arg: bv32): bv32 {
    flags | (arg & FCNTL_FLAGS_MASK)
  }

  /** The flags of a newly opened descriptor. */
  function OpenFlags(flags: bv32, device: bool): bv32 {
    if device then WithDev(Unmarked(flags)) else Unmarked(flags)
  }

  lemma OpenFlagsMark(flags: bv32, device: bool)
    ensures !Excl(OpenFlags(flags, device))
    ensures IsDev(OpenFlags(flags, device)) <==> device
  {
  }

  /** An opened descriptor keeps the flags that were asked for. */
  lemma OpenKeepsFlags(flags: bv32, device: bool)
    ensures OpenFlags(flags, device) & 0x3FFF_FFFF == flags & 0x3FFF_FFFF
  {
  }

  /** Two words agree but for the lock bit. */
  predicate SameButExcl(f: bv32, g: bv32) {
    f & 0x7FFF_FFFF == g & 0x7FFF_FFFF
  }

  /** Locking sets the lock bit and no other, and unlocking clears it and no other. */
  lemma LockFlags(flags: bv32)
    ensures Excl(WithExcl(flags))
  {
  }

  lemma LockKeepsFlags(flags: bv32)
    ensures SameButExcl(WithExcl(flags), flags)
  {
  }

  lemma UnlockFlags(flags: bv32)
    ensures !Excl(WithoutExcl(flags))
  {
  }

  lemma UnlockKeepsFlags(flags: bv32)
    ensures SameButExcl(WithoutExcl(flags), flags)
  {
  }

  /** The flags after F_SETFL. */
  function SetFlags(flags: bv32, arg: bv32): bv32 {
    WithSettable(WithoutSettable(flags), arg)
  }

  /** What fcntl can change: a later F_GETFL reports the two settable flags as given. */
  lemma SettableRoundTrip(flags: bv32, arg: bv32)
    ensures Unmarked(SetFlags(flags, arg)) & FCNTL_FLAGS_MASK == arg & FCNTL_FLAGS_MASK
  {
  }

  /** Every other flag stays. */
  lemma OthersStay(flags: bv32, arg: bv32)
    ensures WithoutSettable(SetFlags(flags, arg)) == WithoutSettable(flags)
  {
  }

  lemma SetKeepsExcl(flags: bv32, arg: bv32)
    ensures Excl(SetFlags(flags, arg)) <==> Excl(flags)
  {
  }

  lemma SetKeepsDev(flags: bv32, arg: bv32)
    ensures IsDev(SetFlags(flags, arg)) <==> IsDev(flags)
  {
  }

  // ----------------------------------------------------------------------- calls

  /** The requests that ioctl tells apart. */
  datatype Request = TIOCEXCL | TIOCNXCL | OtherRequest

  datatype Command = F_GETFL | F_SETFL(arg: bv32) | OtherCommand

  /** A call, with what the device lookup finds and the driver's callback answers. */
  datatype Call =
    | Open(found: Option<Dev>, flags: bv32, driver: int)
    | Ioctl(file: int, req: Request, answer: Option<int>)
    | Close(file: int, driver: int)
    | Fcntl(file: int, cmd: Command)
    | Redirect(file: int, found: Option<Dev>, flags: bv32, driver: int)

  /** What the calls demand: an in-range descriptor, which must be open where the code
      follows its device pointer.  Redirection is of the standard three. */
  predicate Legal(s: State, c: Call)
    requires |s.fds| == MAX_FD
  {
    match c
    case Open(_, _, _) => true
    case Ioctl(file, _, _) => file < MAX_FD && (file >= 0 ==> s.fds[file].dev.Some?)
    case Close(file, _) => file < MAX_FD && (file >= 0 ==> s.fds[file].dev.Some?)
    case Fcntl(file, _) => file < MAX_FD
    case Redirect(file, _, _, _) => 0 <= file <= 2
  }

  /** The lowest free descriptor at or above k, or MAX_FD. */
  function FreeFrom(s: State, k: nat): (r: nat)
    requires k <= |s.fds| == MAX_FD
    ensures k <= r <= MAX_FD
    decreases MAX_FD - k
  {
    if k == MAX_FD || s.fds[k].dev.None? then k else FreeFrom(s, k + 1)
  }

  lemma {:induction false} LowestFree(s: State, k: nat)
    requires k <= |s.fds| == MAX_FD
    ensures var r := FreeFrom(s, k);
            && (r < MAX_FD ==> s.fds[r].dev.None?)
            && forall i :: k <= i < r ==> s.fds[i].dev.Some?
    decreases MAX_FD - k
  {
    if k < MAX_FD && s.fds[k].dev.Some? {
      LowestFree(s, k + 1);
    }
  }

  lemma {:induction false} FirstFree(s: State, k: nat, r: nat)
    requires k <= r < |s.fds| == MAX_FD && s.fds[r].dev.None? && forall i :: k <= i < r ==> s.fds[i].dev.Some?
    ensures FreeFrom(s, k) == r
    decreases MAX_FD - k
  {
    if k < r {
      FirstFree(s, k + 1, r);
    }
  }

  /** Whether open succeeds: something was found, a descriptor is free, no one has the
      device locked, and the driver agrees. */
  ghost predicate Opens(s: State, found: Option<Dev>, driver: int)
    requires |s.fds| == MAX_FD
  {
    found.Some? && FreeFrom(s, 0) < MAX_FD && !Locked(s, found.value) && driver >= 0
  }

  ghost function AfterOpen(s: State, found: Option<Dev>, flags: bv32, driver: int): State
    requires |s.fds| == MAX_FD
  {
    var k := FreeFrom(s, 0);
    if found.None? || k == MAX_FD then s
    else
      var mark := Max(s.maxFd, k);
      if Opens(s, found, driver) then
        State(s.fds[k := Fd(found, OpenFlags(flags, found.value.Device?))], mark)
      else State(s.fds[k := Fd(None, 0)], mark)
  }

  /** alt_fd_lock looks below the high-water mark only. */
  ghost predicate Grants(s: State, file: int)
    requires 0 <= file < |s.fds| == MAX_FD && s.maxFd < MAX_FD
  {
    forall i :: 0 <= i < s.maxFd && i != file ==> s.fds[i].dev != s.fds[file].dev
  }

  function Freed(s: State, file: int): State
    requires file < |s.fds| == MAX_FD
  {
    if file > 2 then s.(fds := s.fds[file := Fd(None, 0)]) else s
  }

  /** What alt_file_locked looks for. */
  ghost predicate LockedByOther(s: State, file: int)
    requires 0 <= file < |s.fds| && s.maxFd < |s.fds|
  {
    exists i :: 0 <= i <= s.maxFd && i != file && s.fds[i].dev == s.fds[file].dev && Excl(s.fds[i].flags)
  }

  function Reflag(s: State, file: int, flags: bv32): State
    requires 0 <= file < |s.fds|
  {
    s.(fds := s.fds[file := s.fds[file].(flags := flags)])
  }

  ghost function AfterIoctl(s: State, file: int, req: Request): State
    requires Shape(s) && file < MAX_FD
  {
    if file < 0 || !IsDev(s.fds[file].flags) then s
    else
      var flags := s.fds[file].flags;
      match req
      case TIOCEXCL => if Grants(s, file) then Reflag(s, file, WithExcl(flags)) else s
      case TIOCNXCL => Reflag(s, file, WithoutExcl(flags))
      case OtherRequest => s
  }

  /** The table after a call. */
  ghost function After(s: State, c: Call): State
    requires Shape(s) && Legal(s, c)
  {
    match c
    case Open(found, flags, driver) => AfterOpen(s, found, flags, driver)
    case Ioctl(file, req, _) => AfterIoctl(s, file, req)
    case Close(file, _) => Freed(s, file)
    case Fcntl(file, cmd) =>
      if file < 0 || !cmd.F_SETFL? then s else Reflag(s, file, SetFlags(s.fds[file].flags, cmd.arg))
    case Redirect(file, found, flags, driver) =>
      var t := AfterOpen(s, found, flags, driver);
      if Opens(s, found, driver) then
        var k := FreeFrom(s, 0);
        Freed(t.(fds := t.fds[file := t.fds[k]]), k)
      else t
  }

  // ----------------------------------------------------------- what a call preserves

  lemma MarkKeeps(s: State, k: int)
    requires Inv(s) && 0 <= k < MAX_FD
    ensures Inv(State(s.fds, Max(s.maxFd, k)))
  {
  }

  /** A free descriptor is given to a device that no one has locked. */
  lemma ClaimKeeps(s: State, k: int, fd: Fd)
    requires Inv(s) && 3 <= k < MAX_FD && k <= s.maxFd && fd.dev.Some? && s.fds[k].dev.None?
    requires !Excl(fd.flags) && (IsDev(fd.flags) ==> fd.dev.value.Device?)
    requires !Locked(s, fd.dev.value)
    ensures Inv(s.(fds := s.fds[k := fd]))
  {
  }

  lemma OpenKeeps(s: State, found: Option<Dev>, flags: bv32, driver: int)
    requires Inv(s)
    ensures Inv(AfterOpen(s, found, flags, driver))
    ensures FreeFrom(s, 0) >= 3
  {
    LowestFree(s, 0);
    hide Excl, IsDev, LowestHolds, OpenFlags;
    var k := FreeFrom(s, 0);
    assert k >= 3;
    if found.Some? && k < MAX_FD {
      var t := State(s.fds, Max(s.maxFd, k));
      MarkKeeps(s, k);
      FreeKeeps(t, k);
      if Opens(s, found, driver) {
        OpenFlagsMark(flags, found.value.Device?);
        SameLocks(s, t, found.value);
        ClaimKeeps(t, k, Fd(found, OpenFlags(flags, found.value.Device?)));
      }
    }
  }

  lemma SameLocks(s: State, t: State, dev: Dev)
    requires s.fds == t.fds
    ensures Locked(s, dev) <==> Locked(t, dev)
  {
  }

  /** Up to the high-water mark is far enough to find any lock. */
  lemma ScanFindsLock(s: State, dev: Dev, flags: bv32)
    requires Inv(s) && FreeFrom(s, 0) < MAX_FD
    ensures var k := FreeFrom(s, 0);
            LockedByOther(State(s.fds[k := Fd(Some(dev), flags)], Max(s.maxFd, k)), k) <==> Locked(s, dev)
    ensures dev.FileSystem? ==> !Locked(s, dev)
  {
    LowestFree(s, 0);
    hide Excl, IsDev;
    var k := FreeFrom(s, 0);
    var t := State(s.fds[k := Fd(Some(dev), flags)], Max(s.maxFd, k));
    if Locked(s, dev) {
      var i :| Holds(s, i) && s.fds[i].dev == Some(dev);
      assert i != k && t.fds[i] == s.fds[i] && i <= t.maxFd;
    }
    if LockedByOther(t, k) {
      var i :| 0 <= i <= t.maxFd && i != k && t.fds[i].dev == t.fds[k].dev && Excl(t.fds[i].flags);
      assert Holds(s, i);
    }
  }

  lemma OpenRefused(s: State, found: Option<Dev>, flags: bv32, driver: int)
    requires |s.fds| == MAX_FD && (found.None? || FreeFrom(s, 0) == MAX_FD)
    ensures AfterOpen(s, found, flags, driver) == s && !Opens(s, found, driver)
  {
  }

  lemma OpenOutcome(s: State, t: State, found: Dev, flags: bv32, driver: int, status: int)
    requires Inv(s) && FreeFrom(s, 0) < MAX_FD
    requires t == State(s.fds[FreeFrom(s, 0) := Fd(Some(found), OpenFlags(flags, found.Device?))], Max(s.maxFd, FreeFrom(s, 0)))
    requires status == if Locked(s, found) then -EACCES else driver
    ensures FreeFrom(s, 0) >= 3
    ensures status >= 0 <==> Opens(s, Some(found), driver)
    ensures AfterOpen(s, Some(found), flags, driver) == if status >= 0 then t else Freed(t, FreeFrom(s, 0))
  {
  }

  lemma Overwrite(fds: seq<Fd>, claimed: seq<Fd>, k: nat, dev: Option<Dev>, flags: bv32)
    requires k < |fds| && claimed == fds[k := fds[k].(dev := dev)]
    ensures claimed[k := Fd(dev, flags)] == fds[k := Fd(dev, flags)]
  {
  }

  lemma HeldIsLocked(s: State, i: int)
    requires Holds(s, i) && s.fds[i].dev.Some?
    ensures Locked(s, s.fds[i].dev.value)
  {
  }

  /** Although the grant can miss a descriptor, the one that gets the lock is the lowest
      on its device. */
  lemma LockKeeps(s: State, file: int)
    requires Inv(s) && 0 <= file < MAX_FD && IsDev(s.fds[file].flags) && Grants(s, file)
    ensures Inv(Reflag(s, file, WithExcl(s.fds[file].flags)))
  {
  }

  lemma FlagsKeep(s: State, file: int, flags: bv32)
    requires Inv(s) && 0 <= file < MAX_FD
    requires Excl(flags) ==> Excl(s.fds[file].flags)
    requires IsDev(flags) <==> IsDev(s.fds[file].flags)
    ensures Inv(Reflag(s, file, flags))
  {
  }

  lemma FreeKeeps(s: State, file: int)
    requires Inv(s) && file < MAX_FD
    ensures Inv(Freed(s, file))
  {
  }

  /** Redirection copies the new descriptor and frees it. */
  lemma MoveKeeps(s: State, file: int, k: int)
    requires Inv(s) && 0 <= file <= 2 < k < MAX_FD && s.fds[k].dev.Some? && !Excl(s.fds[k].flags)
    requires forall i :: Holds(s, i) ==> s.fds[i].dev != s.fds[k].dev
    ensures Inv(Freed(s.(fds := s.fds[file := s.fds[k]]), k))
  {
  }

  lemma IoctlKeeps(s: State, file: int, req: Request)
    requires Inv(s) && file < MAX_FD
    ensures Inv(AfterIoctl(s, file, req))
  {
  }

  lemma RedirectKeeps(s: State, file: int, found: Option<Dev>, flags: bv32, driver: int)
    requires Inv(s) && 0 <= file <= 2
    ensures Inv(After(s, Redirect(file, found, flags, driver)))
  {
    hide Excl, IsDev, LowestHolds, AfterOpen, Opens, Freed;
    OpenKeeps(s, found, flags, driver);
    if Opens(s, found, driver) {
      NewHolder(s, found, flags, driver);
      MoveKeeps(AfterOpen(s, found, flags, driver), file, FreeFrom(s, 0));
    }
  }

  /** Every call keeps the invariant. */
  lemma Keeps(s: State, c: Call)
    requires Inv(s) && Legal(s, c)
    ensures Inv(After(s, c))
  {
    hide Excl, IsDev, LowestHolds, AfterOpen, AfterIoctl, Freed, SetFlags, Reflag;
    match c
    case Open(found, flags, driver) => OpenKeeps(s, found, flags, driver);
    case Ioctl(file, req, _) => IoctlKeeps(s, file, req);
    case Close(file, _) => FreeKeeps(s, file);
    case Fcntl(file, cmd) =>
      if 0 <= file && cmd.F_SETFL? {
        SetKeepsExcl(s.fds[file].flags, cmd.arg);
        SetKeepsDev(s.fds[file].flags, cmd.arg);
        FlagsKeep(s, file, SetFlags(s.fds[file].flags, cmd.arg));
      }
    case Redirect(file, found, flags, driver) => RedirectKeeps(s, file, found, flags, driver);
  }

  lemma NewHolder(s: State, found: Option<Dev>, flags: bv32, driver: int)
    requires Inv(s) && Opens(s, found, driver)
    ensures var t, k := AfterOpen(s, found, flags, driver), FreeFrom(s, 0);
            && 3 <= k < MAX_FD == |t.fds| && found.Some? && t.fds[k].dev == found && !Excl(t.fds[k].flags)
            && forall i :: Holds(t, i) ==> t.fds[i].dev != t.fds[k].dev
  {
  }

  // -------------------------------------------------------------- what a lock is for

  lemma OpenNeverGrows(s: State, found: Option<Dev>, flags: bv32, driver: int, dev: Dev)
    requires Shape(s) && Locked(s, dev)
    ensures |AfterOpen(s, found, flags, driver).fds| == MAX_FD
    ensures Opens(s, found, driver) ==> found.Some? && found.value != dev && FreeFrom(s, 0) < MAX_FD
    ensures Opens(s, found, driver) ==> AfterOpen(s, found, flags, driver).fds[FreeFrom(s, 0)].dev == found
    ensures On(AfterOpen(s, found, flags, driver), dev) <= On(s, dev)
  {
  }

  lemma FreeNeverGrows(s: State, file: int, dev: Dev)
    requires file < |s.fds| == MAX_FD
    ensures On(Freed(s, file), dev) <= On(s, dev)
  {
  }

  lemma ReflagOnSame(s: State, file: int, flags: bv32, dev: Dev)
    requires 0 <= file < |s.fds|
    ensures On(Reflag(s, file, flags), dev) == On(s, dev)
  {
  }

  lemma CopyNeverGrows(s: State, file: int, fd: Fd, dev: Dev)
    requires 0 <= file < |s.fds| && fd.dev != Some(dev)
    ensures On(s.(fds := s.fds[file := fd]), dev) <= On(s, dev)
  {
  }

  /** While a device is locked, no call adds a descriptor to it. */
  lemma LockedNeverGrows(s: State, c: Call, dev: Dev)
    requires Inv(s) && Legal(s, c) && Locked(s, dev)
    ensures On(After(s, c), dev) <= On(s, dev)
  {
    hide Locked, On, AfterOpen, Opens, Freed, Reflag, LowestHolds, IsDev, Excl;
    match c
    case Open(found, flags, driver) => OpenNeverGrows(s, found, flags, driver, dev);
    case Ioctl(file, _, _) =>
      if file >= 0 {
        ReflagOnSame(s, file, WithExcl(s.fds[file].flags), dev);
        ReflagOnSame(s, file, WithoutExcl(s.fds[file].flags), dev);
      }
    case Close(file, _) => FreeNeverGrows(s, file, dev);
    case Fcntl(file, cmd) =>
      if file >= 0 && cmd.F_SETFL? {
        ReflagOnSame(s, file, SetFlags(s.fds[file].flags, cmd.arg), dev);
      }
    case Redirect(file, found, flags, driver) =>
      OpenNeverGrows(s, found, flags, driver, dev);
      if Opens(s, found, driver) {
        var t, k := AfterOpen(s, found, flags, driver), FreeFrom(s, 0);
        CopyNeverGrows(t, file, t.fds[k], dev);
        FreeNeverGrows(t.(fds := t.fds[file := t.fds[k]]), k, dev);
      }
  }

  /** The calls that end descriptor i's lock: closing it, unless it is one of the
      standard three, unlocking it, and redirecting it. */
  predicate Releases(c: Call, i: int) {
    || (c.Close? && c.file == i && i > 2)
    || (c.Ioctl? && c.file == i && c.req == TIOCNXCL)
    || (c.Redirect? && c.file == i)
  }

  /** No other call takes the lock away. */
  lemma LockStays(s: State, c: Call, i: int)
    requires Inv(s) && Legal(s, c) && Holds(s, i) && !Releases(c, i)
    ensures Holds(After(s, c), i) && After(s, c).fds[i].dev == s.fds[i].dev
  {
    hide Excl, IsDev, SetFlags, OpenFlags, WithExcl, WithoutExcl, LowestHolds, AfterOpen, Opens, Grants;
    assert s.fds[i].dev.Some?;
    match c
    case Open(found, flags, driver) => OpenLeaves(s, found, flags, driver, i);
    case Ioctl(_, _, _) => LockFlags(s.fds[i].flags);
    case Close(_, _) =>
    case Fcntl(_, cmd) =>
      if cmd.F_SETFL? {
        SetKeepsExcl(s.fds[i].flags, cmd.arg);
      }
    case Redirect(_, found, flags, driver) => RedirectLeaves(s, c.file, found, flags, driver, i);
  }

  lemma Redirected(s: State, file: int, found: Option<Dev>, flags: bv32, driver: int)
    requires Shape(s) && 0 <= file <= 2
    ensures var t, k := AfterOpen(s, found, flags, driver), FreeFrom(s, 0);
            && file < |t.fds| == MAX_FD && (Opens(s, found, driver) ==> k < MAX_FD)
            && After(s, Call.Redirect(file, found, flags, driver))
               == if Opens(s, found, driver) then Freed(State(t.fds[file := t.fds[k]], t.maxFd), k) else t
  {
    hide Locked, OpenFlags, Excl, IsDev;
  }

  lemma RedirectLeaves(s: State, file: int, found: Option<Dev>, flags: bv32, driver: int, i: int)
    requires Shape(s) && 0 <= file <= 2 && 0 <= i < MAX_FD && s.fds[i].dev.Some? && i != file
    ensures var t := After(s, Redirect(file, found, flags, driver)); |t.fds| == MAX_FD && t.fds[i] == s.fds[i]
  {
    hide AfterOpen, Opens, LowestHolds;
    OpenLeaves(s, found, flags, driver, i);
  }

  /** Opening leaves the descriptors in use alone. */
  lemma OpenLeaves(s: State, found: Option<Dev>, flags: bv32, driver: int, i: int)
    requires Shape(s) && 0 <= i < MAX_FD && s.fds[i].dev.Some?
    ensures AfterOpen(s, found, flags, driver).fds[i] == s.fds[i]
    ensures |AfterOpen(s, found, flags, driver).fds| == MAX_FD
    ensures i != FreeFrom(s, 0) && (Opens(s, found, driver) ==> FreeFrom(s, 0) < MAX_FD)
  {
    LowestFree(s, 0);
  }

  /** Closing one of the standard descriptors does not release its lock; closing any
      other does. */
  lemma CloseUnlocks(s: State, file: int, driver: int)
    requires Inv(s) && Legal(s, Close(file, driver)) && Holds(s, file)
    ensures Holds(After(s, Close(file, driver)), file) <==> file <= 2
  {
  }

  /** A granted lock is held. */
  lemma LockTakes(s: State, file: int, answer: Option<int>)
    requires Inv(s) && 0 <= file < MAX_FD && IsDev(s.fds[file].flags) && Grants(s, file)
    ensures var t := After(s, Ioctl(file, TIOCEXCL, answer));
            && Holds(t, file) && t.maxFd == s.maxFd && t.fds[file].dev == s.fds[file].dev
            && SameButExcl(t.fds[file].flags, s.fds[file].flags)
            && forall i :: 0 <= i < MAX_FD && i != file ==> t.fds[i] == s.fds[i]
  {
    LockFlags(s.fds[file].flags);
    LockKeepsFlags(s.fds[file].flags);
    hide Excl, IsDev, WithExcl, SameButExcl, LowestHolds;
  }

  /** While a device is locked it cannot be opened; once its holder unlocks it, it can. */
  lemma UnlockReleases(s: State, file: int, answer: Option<int>, driver: int)
    requires Inv(s) && Holds(s, file) && driver >= 0
    ensures s.fds[file].dev.Some? && Legal(s, Ioctl(file, TIOCNXCL, answer))
    ensures var t, dev := After(s, Ioctl(file, TIOCNXCL, answer)), s.fds[file].dev;
            && !Opens(s, dev, driver)
            && !Locked(t, dev.value) && t.fds[file].dev == dev && t.maxFd == s.maxFd
            && SameButExcl(t.fds[file].flags, s.fds[file].flags)
            && (forall i :: 0 <= i < MAX_FD && i != file ==> t.fds[i] == s.fds[i])
            && (Opens(t, dev, driver) <==> exists i :: 0 <= i < MAX_FD && s.fds[i].dev.None?)
  {
    UnlockFlags(s.fds[file].flags);
    UnlockKeepsFlags(s.fds[file].flags);
    hide Excl, IsDev, WithoutExcl, SameButExcl;
    assert IsDev(s.fds[file].flags);
    HeldIsLocked(s, file);
    NoHolderLeft(s, file, WithoutExcl(s.fds[file].flags));
    LowestFree(After(s, Ioctl(file, TIOCNXCL, answer)), 0);
  }

  lemma NoHolderLeft(s: State, file: int, flags: bv32)
    requires Inv(s) && Holds(s, file) && s.fds[file].dev.Some? && !Excl(flags)
    ensures !Locked(Reflag(s, file, flags), s.fds[file].dev.value)
  {
    hide Excl, IsDev;
    assert forall i :: Holds(s, i) && s.fds[i].dev == s.fds[file].dev ==> i == file;
  }

  /** A closed descriptor above the standard three can be had again. */
  lemma CloseFrees(s: State, file: int, driver: int)
    requires Inv(s) && Legal(s, Close(file, driver)) && file > 2
    ensures var t := After(s, Close(file, driver));
            && t.fds[file].dev.None? && t.maxFd == s.maxFd && FreeFrom(t, 0) == Min(FreeFrom(s, 0), file)
            && forall i :: 0 <= i < MAX_FD && i != file ==> t.fds[i] == s.fds[i]
  {
    hide Excl, IsDev, LowestHolds;
    var t := After(s, Close(file, driver));
    LowestFree(s, 0);
    FirstFree(t, 0, Min(FreeFrom(s, 0), file));
  }

  /** A successful open gives the lowest free descriptor to what was found, with the flags
      asked for and no lock, and touches no other. */
  lemma OpenTakes(s: State, found: Option<Dev>, flags: bv32, driver: int)
    requires Inv(s) && Opens(s, found, driver)
    ensures var t, k := AfterOpen(s, found, flags, driver), FreeFrom(s, 0);
            && 3 <= k < MAX_FD && s.fds[k].dev.None? && (forall i :: 0 <= i < k ==> s.fds[i].dev.Some?)
            && |t.fds| == MAX_FD && t.fds[k].dev == found && t.fds[k].flags & 0x3FFF_FFFF == flags & 0x3FFF_FFFF
            && !Excl(t.fds[k].flags) && (IsDev(t.fds[k].flags) <==> found.value.Device?)
            && t.maxFd == Max(s.maxFd, k) && forall i :: 0 <= i < MAX_FD && i != k ==> t.fds[i] == s.fds[i]
  {
    LowestFree(s, 0);
    OpenKeepsFlags(flags, found.value.Device?);
    OpenFlagsMark(flags, found.value.Device?);
    hide Excl, IsDev, OpenFlags, LowestHolds, Locked;
  }

  /** A refused open leaves every descriptor in use as it was, and every free one free. */
  lemma OpenRefusedKeeps(s: State, found: Option<Dev>, flags: bv32, driver: int, i: int)
    requires Inv(s) && !Opens(s, found, driver) && 0 <= i < MAX_FD
    ensures var t := AfterOpen(s, found, flags, driver);
            |t.fds| == MAX_FD && if s.fds[i].dev.Some? then t.fds[i] == s.fds[i] else t.fds[i].dev.None?
  {
    LowestFree(s, 0);
    hide Excl, IsDev, LowestHolds, Opens;
  }

  /** A successful redirection puts what was opened in the standard descriptor's place, and
      leaves every other one as it was. */
  lemma RedirectTakes(s: State, file: int, found: Option<Dev>, flags: bv32, driver: int)
    requires Inv(s) && 0 <= file <= 2 && Opens(s, found, driver)
    ensures var t := After(s, Redirect(file, found, flags, driver));
            && |t.fds| == MAX_FD && t.fds[file] == AfterOpen(s, found, flags, driver).fds[FreeFrom(s, 0)]
            && t.fds[file].dev == found && t.fds[FreeFrom(s, 0)].dev.None?
            && forall i :: 0 <= i < MAX_FD && i != file && i != FreeFrom(s, 0) ==> t.fds[i] == s.fds[i]
  {
    OpenTakes(s, found, flags, driver);
    Redirected(s, file, found, flags, driver);
    hide Excl, IsDev, OpenFlags, LowestHolds, Locked, AfterOpen, After, Opens;
  }

  /** The grant is right except for one descriptor: it is refused exactly when some
      other descriptor below the high-water mark is open on the device. */
  lemma GrantExact(s: State, file: int)
    requires Inv(s) && 0 <= file < MAX_FD && IsDev(s.fds[file].flags)
    ensures var dev := s.fds[file].dev.value;
            && (On(s, dev) == {file} ==> Grants(s, file))
            && (Grants(s, file) ==>
                  (On(s, dev) == {file} <==> s.maxFd == file || s.fds[s.maxFd].dev != Some(dev)))
  {
    hide Excl, IsDev, LowestHolds;
    var dev := s.fds[file].dev.value;
    assert file in On(s, dev);
    if On(s, dev) == {file} {
      forall i | 0 <= i < s.maxFd && i != file
        ensures s.fds[i].dev != s.fds[file].dev
      {
        assert i !in On(s, dev);
      }
      assert s.maxFd in On(s, dev) ==> s.maxFd == file;
    }
    if Grants(s, file) && (s.maxFd == file || s.fds[s.maxFd].dev != Some(dev)) {
      assert On(s, dev) == {file};
    }
  }

  // ------------------------------------------------------------------------ runs

  ghost predicate LegalRun(s: State, calls: seq<Call>)
    requires Inv(s)
    decreases |calls|
  {
    calls == [] || (Legal(s, calls[0]) && (Keeps(s, calls[0]); LegalRun(After(s, calls[0]), calls[1..])))
  }

  ghost function AfterRun(s: State, calls: seq<Call>): (t: State)
    requires Inv(s) && LegalRun(s, calls)
    ensures Inv(t)
    decreases |calls|
  {
    if calls == [] then s
    else
      Keeps(s, calls[0]);
      AfterRun(After(s, calls[0]), calls[1..])
  }

  /** A lock lasts until its holder gives it up, and until then the set of descriptors
      on the device never grows, whatever anyone calls. */
  lemma {:induction false} RunUnderLock(s: State, calls: seq<Call>, i: int)
    requires Inv(s) && LegalRun(s, calls) && Holds(s, i)
    requires forall c :: c in calls ==> !Releases(c, i)
    ensures var t, dev := AfterRun(s, calls), s.fds[i].dev;
            Holds(t, i) && dev.Some? && t.fds[i].dev == dev && On(t, dev.value) <= On(s, dev.value)
    decreases |calls|
  {
    hide Excl, IsDev, Legal, After, On, Releases;
    assert s.fds[i].dev.Some?;
    if calls != [] {
      var c := calls[0];
      Keeps(s, c);
      LockStays(s, c, i);
      HeldIsLocked(s, i);
      LockedNeverGrows(s, c, s.fds[i].dev.value);
      RunUnderLock(After(s, c), calls[1..], i);
    }
  }

  /** The table as it is linked in: the standard three on the null device. */
  function Boot(): State {
    State(seq(MAX_FD, i requires 0 <= i < MAX_FD => if i <= 2 then Fd(Some(DEV_NULL), 0) else Fd(None, 0)), -1)
  }

  lemma BootHolds()
    ensures Inv(Boot()) && FreeFrom(Boot(), 0) == 3
  {
  }

  lemma OpensUnlocked(s: State, dev: nat)
    requires Inv(s) && FreeFrom(s, 0) < MAX_FD && forall i :: !Holds(s, i)
    ensures var k, t := FreeFrom(s, 0), After(s, Open(Some(Device(dev)), 0, 0));
            && t == State(s.fds[k := Fd(Some(Device(dev)), OpenFlags(0, true))], Max(s.maxFd, k))
            && Inv(t) && forall i :: !Holds(t, i)
  {
    LowestFree(s, 0);
    assert !Locked(s, Device(dev));
    hide Excl, IsDev, OpenFlags, LowestHolds, Locked;
    Keeps(s, Open(Some(Device(dev)), 0, 0));
    OpenFlagsMark(0, true);
    var t := AfterOpen(s, Some(Device(dev)), 0, 0);
    assert forall i :: Holds(t, i) ==> i == FreeFrom(s, 0) || Holds(s, i);
  }

  lemma RunStep(s: State, c: Call, rest: seq<Call>)
    requires Inv(s) && Legal(s, c) && Inv(After(s, c)) && LegalRun(After(s, c), rest)
    ensures LegalRun(s, [c] + rest) && AfterRun(s, [c] + rest) == AfterRun(After(s, c), rest)
  {
  }

  lemma RunThree(s: State, a: Call, b: Call, c: Call)
    requires Inv(s) && Legal(s, a) && Inv(After(s, a)) && Legal(After(s, a), b)
    requires var t := After(After(s, a), b); Inv(t) && Legal(t, c) && Inv(After(t, c))
    ensures LegalRun(s, [a, b, c]) && AfterRun(s, [a, b, c]) == After(After(After(s, a), b), c)
  {
    var s1, s2 := After(s, a), After(After(s, a), b);
    hide Inv, Legal, After;
    RunStep(s2, c, []);
    RunStep(s1, b, [c] + []);
    RunStep(s, a, [b] + ([c] + []));
    assert [a] + ([b] + ([c] + [])) == [a, b, c];
  }

  /** The grant that misses: a device opened twice is locked by its first descriptor
      while the second, at the high-water mark, stays open. */
  lemma LockMissesHighest()
    ensures Inv(Boot())
    ensures var calls := [Open(Some(Device(1)), 0, 0), Open(Some(Device(1)), 0, 0), Ioctl(3, TIOCEXCL, None)];
            && LegalRun(Boot(), calls)
            && Holds(AfterRun(Boot(), calls), 3) && {3, 4} <= On(AfterRun(Boot(), calls), Device(1))
  {
    var uart, lock := Open(Some(Device(1)), 0, 0), Ioctl(3, TIOCEXCL, None);
    OpensTwice();
    LockSecond(After(After(Boot(), uart), uart));
    RunThree(Boot(), uart, uart, lock);
  }

  lemma OpensTwice()
    ensures Inv(Boot())
    ensures var uart := Open(Some(Device(1)), 0, 0);
            var s1, s2 := After(Boot(), uart), After(After(Boot(), uart), uart);
            && Inv(s1) && Inv(s2) && s2.maxFd == 4
            && s2.fds[3] == s2.fds[4] == Fd(Some(Device(1)), OpenFlags(0, true))
            && forall i :: 0 <= i <= 2 ==> s2.fds[i].dev == Some(DEV_NULL)
  {
    BootHolds();
    NoneHeld();
    OpensUnlocked(Boot(), 1);
    var s1 := After(Boot(), Open(Some(Device(1)), 0, 0));
    assert FreeFrom(s1, 3) == 4 && FreeFrom(s1, 2) == 4;
    assert FreeFrom(s1, 1) == 4;
    OpensUnlocked(s1, 1);
  }

  lemma LockSecond(s: State)
    requires Inv(s) && s.maxFd == 4 && s.fds[3] == s.fds[4] == Fd(Some(Device(1)), OpenFlags(0, true))
    requires forall i :: 0 <= i <= 2 ==> s.fds[i].dev == Some(DEV_NULL)
    ensures var t := After(s, Ioctl(3, TIOCEXCL, None)); Inv(t) && Holds(t, 3) && {3, 4} <= On(t, Device(1))
  {
  }

  /** Standard input redirected to a device, locked, and closed: the lock stays. */
  lemma CloseKeepsLock()
    ensures Inv(Boot())
    ensures var calls := [Redirect(0, Some(Device(1)), 0, 0), Ioctl(0, TIOCEXCL, None), Close(0, 0)];
            LegalRun(Boot(), calls) && Holds(AfterRun(Boot(), calls), 0)
  {
    var redirect, lock, close := Redirect(0, Some(Device(1)), 0, 0), Ioctl(0, TIOCEXCL, None), Close(0, 0);
    RedirectedInput();
    var s := After(Boot(), redirect);
    LockInput(s);
    hide Boot, OpenFlags, After, Inv, Shape;
    RunThree(Boot(), redirect, lock, close);
  }

  lemma RedirectedInput()
    ensures Inv(Boot()) && Legal(Boot(), Redirect(0, Some(Device(1)), 0, 0))
    ensures var s := After(Boot(), Redirect(0, Some(Device(1)), 0, 0));
            && Inv(s) && s.maxFd == 3 && s.fds[0] == Fd(Some(Device(1)), OpenFlags(0, true))
            && s.fds[1].dev == s.fds[2].dev == Some(DEV_NULL)
  {
    BootHolds();
    NoneHeld();
    OpensUnlocked(Boot(), 1);
    Redirected(Boot(), 0, Some(Device(1)), 0, 0);
    assert !Locked(Boot(), Device(1));
    Keeps(Boot(), Redirect(0, Some(Device(1)), 0, 0));
  }

  lemma LockInput(s: State)
    requires Inv(s) && s.maxFd == 3 && s.fds[0] == Fd(Some(Device(1)), OpenFlags(0, true))
    requires s.fds[1].dev == s.fds[2].dev == Some(DEV_NULL)
    ensures Legal(s, Ioctl(0, TIOCEXCL, None))
    ensures var t := After(s, Ioctl(0, TIOCEXCL, None));
            && Inv(t) && Legal(t, Close(0, 0)) && Inv(After(t, Close(0, 0))) && Holds(After(t, Close(0, 0)), 0)
  {
    OpenFlagsMark(0, true);
    LockFlags(OpenFlags(0, true));
    hide Excl, IsDev, OpenFlags, WithExcl, LowestHolds;
    Keeps(s, Ioctl(0, TIOCEXCL, None));
    assert Grants(s, 0);
    Keeps(After(s, Ioctl(0, TIOCEXCL, None)), Close(0, 0));
  }

  lemma NoneHeld()
    ensures forall i :: !Holds(Boot(), i)
  {
  }

  // ------------------------------------------------------------------------ the table

  class Table {
    const list: array<Fd>
    var maxFd: int
    var errno: int

    ghost function View(): State
      reads this, list
    {
      State(list[..], maxFd)
    }

    constructor ()
      ensures fresh(list) && View() == Boot() && Inv(View())
    {
      list := new Fd[MAX_FD](i requires 0 <= i < MAX_FD => if i <= 2 then Fd(Some(DEV_NULL), 0) else Fd(None, 0));
      maxFd := -1;
      errno := 0;
      new;
      assert list[..] == Boot().fds;
      BootHolds();
    }

    /** alt_get_fd: claim the lowest free descriptor. */
    method GetFd(dev: Dev) returns (rc: int)
      requires list.Length == MAX_FD
      modifies list, `maxFd
      ensures var s := old(View()); var k := FreeFrom(s, 0);
              if k == MAX_FD then rc == -EMFILE && View() == s
              else rc == k && View() == State(s.fds[k := s.fds[k].(dev := Some(dev))], Max(s.maxFd, k))
    {
      rc := -EMFILE;
      var i := 0;
      while i < MAX_FD
        invariant 0 <= i <= MAX_FD
        invariant View() == old(View()) && FreeFrom(old(View()), 0) == FreeFrom(old(View()), i)
        invariant rc == -EMFILE
      {
        if list[i].dev.None? {
          list[i] := list[i].(dev := Some(dev));
          if i > maxFd {
            maxFd := i;
          }
          rc := i;
          return;
        }
        i := i + 1;
      }
    }

    /** alt_release_fd. */
    method ReleaseFd(fd: int)
      requires fd < list.Length == MAX_FD
      modifies list
      ensures View() == Freed(old(View()), fd)
    {
      if fd > 2 {
        list[fd] := list[fd].(flags := 0);
        list[fd] := list[fd].(dev := None);
      }
    }

    /** alt_file_locked: mark the descriptor as a device's, and look for a lock.  The scan
        counts up to alt_max_fd as an unsigned number, so some descriptor must have been
        allocated. */
    method FileLocked(fd: nat) returns (rc: int)
      requires fd < list.Length == MAX_FD && 0 <= maxFd < MAX_FD
      modifies list
      ensures View() == Reflag(old(View()), fd, WithDev(old(list[fd].flags)))
      ensures rc == if LockedByOther(old(View()), fd) then -EACCES else 0
    {
      hide Excl, WithDev;
      ghost var s := View();
      list[fd] := list[fd].(flags := WithDev(list[fd].flags));
      var i := 0;
      while i <= maxFd
        invariant 0 <= i <= maxFd + 1
        invariant View() == Reflag(s, fd, WithDev(s.fds[fd].flags))
        invariant forall j :: 0 <= j < i && j != fd && s.fds[j].dev == s.fds[fd].dev ==> !Excl(s.fds[j].flags)
      {
        assert list[i] == View().fds[i] && list[fd] == View().fds[fd];
        if list[i].dev == list[fd].dev && Excl(list[i].flags) && i != fd {
          return -EACCES;
        }
        i := i + 1;
      }
      return 0;
    }

    /** What ALT_OPEN does with the descriptor that it was given: only devices are
        checked for a lock, and the driver is asked only when there is none. */
    method Attach(fd: nat, found: Dev, flags: bv32, driver: int) returns (status: int)
      requires fd < list.Length == MAX_FD && 0 <= maxFd < MAX_FD && list[fd].dev == Some(found)
      modifies list
      ensures View() == State(old(list[..])[fd := Fd(Some(found), OpenFlags(flags, found.Device?))], maxFd)
      ensures status
           == if found.Device? && LockedByOther(State(old(list[..])[fd := Fd(Some(found), Unmarked(flags))], maxFd), fd)
                        then -EACCES else driver
    {
      hide LockedByOther, Unmarked, WithDev;
      list[fd] := list[fd].(flags := Unmarked(flags));
      status := 0;
      assert View() == State(old(list[..])[fd := Fd(Some(found), Unmarked(flags))], maxFd);
      if found.Device? {
        status := FileLocked(fd);
      }
      if found.FileSystem? || status >= 0 {
        status := driver;
      }
    }

    /** The allocating half of ALT_OPEN. */
    method Claim(found: Dev, flags: bv32, driver: int) returns (index: int, status: int)
      requires list.Length == MAX_FD && Inv(View())
      modifies list, `maxFd
      ensures var s := old(View()); var k := FreeFrom(s, 0);
              if k == MAX_FD then index < 0 && status == -EMFILE && View() == s
              else
                && index == k && status == (if Locked(s, found) then -EACCES else driver)
                && View() == State(s.fds[k := Fd(Some(found), OpenFlags(flags, found.Device?))], Max(s.maxFd, k))
    {
      ghost var s := View();
      hide Excl, IsDev, LowestHolds, Locked, LockedByOther, OpenFlags, Unmarked, AfterOpen, Opens;
      index := GetFd(found);
      status := index;
      if index >= 0 {
        ScanFindsLock(s, found, Unmarked(flags));
        assert list[..][index] == list[index];
        Overwrite(s.fds, list[..], index, Some(found), Unmarked(flags));
        Overwrite(s.fds, list[..], index, Some(found), OpenFlags(flags, found.Device?));
        status := Attach(index, found, flags, driver);
      }
    }

    /** ALT_OPEN up to its clean-up. */
    method Allocate(found: Option<Dev>, flags: bv32, driver: int) returns (index: int, status: int)
      requires list.Length == MAX_FD && Inv(View())
      modifies list, `maxFd
      ensures index < MAX_FD
      ensures status >= 0 <==> Opens(old(View()), found, driver)
      ensures status >= 0 ==>
                index == FreeFrom(old(View()), 0) && View() == AfterOpen(old(View()), found, flags, driver)
      ensures status < 0 ==> Freed(View(), index) == AfterOpen(old(View()), found, flags, driver)
      ensures status < 0 ==>
                -status == if found.None? then ENODEV
                           else if FreeFrom(old(View()), 0) == MAX_FD then EMFILE
                           else if Locked(old(View()), found.value) then EACCES
                           else -driver
    {
      ghost var s := View();
      hide Inv, Locked, OpenFlags, AfterOpen, Opens;
      index := -1;
      status := -ENODEV;
      if found.None? || FreeFrom(s, 0) == MAX_FD {
        OpenRefused(s, found, flags, driver);
      }
      if found.Some? {
        index, status := Claim(found.value, flags, driver);
        if FreeFrom(s, 0) < MAX_FD {
          OpenOutcome(s, View(), found.value, flags, driver, status);
        }
      }
    }

    /** ALT_OPEN, given what the lookup found and what the driver's open answers. */
    method OpenFile(found: Option<Dev>, flags: bv32, driver: int) returns (index: int)
      requires list.Length == MAX_FD && Inv(View())
      modifies list, `maxFd, `errno
      ensures View() == AfterOpen(old(View()), found, flags, driver) && Inv(View())
      ensures index == if Opens(old(View()), found, driver) then FreeFrom(old(View()), 0) else -1
      ensures errno == if index >= 0 then old(errno)
                       else if found.None? then ENODEV
                       else if FreeFrom(old(View()), 0) == MAX_FD then EMFILE
                       else if Locked(old(View()), found.value) then EACCES
                       else -driver
    {
      OpenKeeps(View(), found, flags, driver);
      hide Inv, Locked, AfterOpen, Opens, Freed;
      var status;
      index, status := Allocate(found, flags, driver);
      if status < 0 {
        ReleaseFd(index);
        errno := -status;
        return -1;
      }
    }

    /** alt_fd_lock. */
    method FdLock(fd: nat) returns (rc: int)
      requires fd < list.Length == MAX_FD && maxFd < MAX_FD
      modifies list
      ensures rc == if Grants(old(View()), fd) then 0 else -EACCES
      ensures View() == if rc == 0 then Reflag(old(View()), fd, WithExcl(old(list[fd].flags))) else old(View())
      ensures rc == 0 ==> Excl(list[fd].flags) && SameButExcl(list[fd].flags, old(list[fd].flags))
    {
      LockFlags(list[fd].flags);
      LockKeepsFlags(list[fd].flags);
      hide WithExcl, Excl, SameButExcl;
      var i := 0;
      while i < maxFd
        invariant 0 <= i <= Max(maxFd, 0)
        invariant forall j :: 0 <= j < i && j != fd ==> list[..][j].dev != list[..][fd].dev
      {
        if i != fd && list[i].dev == list[fd].dev {
          return -EACCES;
        }
        i := i + 1;
      }
      list[fd] := list[fd].(flags := WithExcl(list[fd].flags));
      return 0;
    }

    /** alt_fd_unlock. */
    method FdUnlock(fd: nat) returns (rc: int)
      requires fd < list.Length == MAX_FD
      modifies list
      ensures rc == 0 && View() == Reflag(old(View()), fd, WithoutExcl(old(list[fd].flags)))
      ensures !Excl(list[fd].flags) && SameButExcl(list[fd].flags, old(list[fd].flags))
    {
      UnlockFlags(list[fd].flags);
      UnlockKeepsFlags(list[fd].flags);
      hide WithoutExcl, Excl, SameButExcl;
      list[fd] := list[fd].(flags := WithoutExcl(list[fd].flags));
      return 0;
    }

    /** ALT_IOCTL; answer is the driver's, if it has an ioctl function. */
    method Ioctl(file: int, req: Request, answer: Option<int>) returns (rc: int)
      requires list.Length == MAX_FD && Inv(View()) && Legal(View(), Call.Ioctl(file, req, answer))
      modifies list, `errno
      ensures View() == After(old(View()), Call.Ioctl(file, req, answer)) && Inv(View())
      ensures var s := old(View());
              rc == if file < 0 then -EBADFD
                    else if IsDev(s.fds[file].flags) && req.TIOCEXCL? then (if Grants(s, file) then 0 else -EACCES)
                    else if IsDev(s.fds[file].flags) && req.TIOCNXCL? then 0
                    else if answer.Some? then answer.value else -ENOTTY
      ensures errno == if rc < 0 then -rc else old(errno)
    {
      Keeps(View(), Call.Ioctl(file, req, answer));
      hide Excl, IsDev, LowestHolds, Shape, WithExcl, WithoutExcl, Grants;
      if file >= 0 {
        assert list[file] == View().fds[file];
        if IsDev(list[file].flags) && req.TIOCEXCL? {
          rc := FdLock(file);
        } else if IsDev(list[file].flags) && req.TIOCNXCL? {
          rc := FdUnlock(file);
        } else if answer.Some? {
          rc := answer.value;
        } else {
          rc := -ENOTTY;
        }
      } else {
        rc := -EBADFD;
      }
      if rc < 0 {
        errno := -rc;
      }
    }

    /** ALT_CLOSE; driver is the answer of the driver's close, 0 if it has none. */
    method CloseFile(file: int, driver: int) returns (rc: int)
      requires list.Length == MAX_FD && Inv(View()) && Legal(View(), Close(file, driver))
      modifies list, `errno
      ensures View() == After(old(View()), Close(file, driver)) && Inv(View())
      ensures rc == if file < 0 || driver < 0 then -1 else 0
      ensures errno == if file < 0 then EBADFD else if driver < 0 then -driver else old(errno)
    {
      Keeps(View(), Close(file, driver));
      if file >= 0 {
        ReleaseFd(file);
        if driver < 0 {
          errno := -driver;
          return -1;
        }
        return 0;
      } else {
        errno := EBADFD;
        return -1;
      }
    }

    /** ALT_FCNTL; the result is a flag word for F_GETFL. */
    method Fcntl(file: int, cmd: Command) returns (rc: int, flags: bv32)
      requires list.Length == MAX_FD && Inv(View()) && file < MAX_FD
      modifies list, `errno
      ensures View() == After(old(View()), Call.Fcntl(file, cmd)) && Inv(View())
      ensures rc == if file < 0 || cmd.OtherCommand? then -1 else 0
      ensures errno == if file < 0 then EBADFD else if cmd.OtherCommand? then EINVAL else old(errno)
      ensures file >= 0 && cmd.F_GETFL? ==> flags == old(list[file].flags) & 0x3FFF_FFFF
    {
      Keeps(View(), Call.Fcntl(file, cmd));
      if file >= 0 {
        UnmarkedFlags(list[file].flags);
      }
      hide Excl, IsDev, Inv, Unmarked, WithoutSettable, WithSettable;
      flags := 0;
      if file >= 0 {
        match cmd
        case F_GETFL =>
          flags := Unmarked(list[file].flags);
          return 0, flags;
        case F_SETFL(arg) =>
          list[file] := list[file].(flags := WithoutSettable(list[file].flags));
          list[file] := list[file].(flags := WithSettable(list[file].flags, arg));
          return 0, flags;
        case OtherCommand =>
          errno := EINVAL;
          return -1, flags;
      }
      errno := EBADFD;
      return -1, flags;
    }

    /** The copying half of alt_open_fd. */
    method Copy(to: nat, from: nat)
      requires to < list.Length && from < list.Length
      modifies list
      ensures list[..] == old(list[..])[to := old(list[..])[from]]
    {
      list[to] := list[to].(dev := list[from].dev);
      list[to] := list[to].(flags := list[from].flags);
    }

    /** alt_open_fd: open, copy the new descriptor over one of the standard three, and
        release it. */
    method Redirect(file: nat, found: Option<Dev>, flags: bv32, driver: int)
      requires list.Length == MAX_FD && Inv(View()) && file <= 2
      modifies list, `maxFd, `errno
      ensures View() == After(old(View()), Call.Redirect(file, found, flags, driver)) && Inv(View())
    {
      RedirectKeeps(View(), file, found, flags, driver);
      Redirected(View(), file, found, flags, driver);
      hide Inv, After, AfterOpen, Opens, Freed, FreeFrom;
      var fd := OpenFile(found, flags, driver);
      if fd >= 0 {
        Copy(file, fd);
        ReleaseFd(fd);
      }
    }

    /** Any legal run of calls, from any state that satisfies the invariant: the table
        follows the specification and keeps the invariant. */
    method Run(calls: seq<Call>)
      requires list.Length == MAX_FD && Inv(View()) && LegalRun(View(), calls)
      modifies list, `maxFd, `errno
      ensures View() == AfterRun(old(View()), calls) && Inv(View())
      decreases |calls|
    {
      if calls != [] {
        var c := calls[0];
        Keeps(View(), c);
        hide Excl, IsDev, LowestHolds, Shape, After;
        match c {
          case Open(found, flags, driver) => var _ := OpenFile(found, flags, driver);
          case Ioctl(file, req, answer) => var _ := Ioctl(file, req, answer);
          case Close(file, driver) => var _ := CloseFile(file, driver);
          case Fcntl(file, cmd) => var _, _ := Fcntl(file, cmd);
          case Redirect(file, found, flags, driver) => Redirect(file, found, flags, driver);
        }
        Run(calls[1..]);
      }
    }
  }
}
