/** The file descriptor table of the HAL: first-free allocation with a high-water
    mark, exclusive locks on devices, and the three reserved descriptors. */
module FdTable {
  import opened Wrappers

  const EACCES: int := 13
  const ENODEV: int := 19
  const EMFILE: int := 24

  // ALT_FD_EXCL, ALT_FD_DEV, and the flags that open() was called with.
  datatype Flags = Flags(excl: bool, isDev: bool, user: nat)

  const NO_FLAGS: Flags := Flags(false, false, 0)

  datatype Fd = Fd(dev: Option<nat>, priv: int, flags: Flags)

  // What the two name lists hold for a file name.
  datatype Found = Nothing | Device(dev: nat) | FileSystem(dev: nat)

  // The driver's open function: absent, or its status and what it leaves in `priv`.
  datatype Driver = NoCallback | Callback(status: int, priv: int)

  datatype Table = Table(fds: seq<Fd>, maxFd: int)

  // ----- the specification

  function FirstFree(fds: seq<Fd>, from: nat): (i: nat)
    requires from <= |fds|
    ensures from <= i <= |fds|
    ensures i < |fds| ==> fds[i].dev.None?
    ensures forall j :: from <= j < i ==> fds[j].dev.Some?
    decreases |fds| - from
  {
    if from == |fds| || fds[from].dev.None? then from else FirstFree(fds, from + 1)
  }

  // Some other descriptor, anywhere in the table, holds the device exclusively.
  ghost predicate Locked(fds: seq<Fd>, dev: nat, i: nat) {
    exists j :: 0 <= j < |fds| && j != i && fds[j].dev == Some(dev) && fds[j].flags.excl
  }

  // Descriptors 0 to 2 are in use; everything above them and above the mark is free; a free
  // descriptor has no flags.
  ghost predicate Sound(t: Table) {
    && 3 <= |t.fds| && -1 <= t.maxFd < |t.fds|
    && (forall i :: 0 <= i < 3 ==> t.fds[i].dev.Some?)
    && (forall i :: 3 <= i < |t.fds| && t.maxFd < i ==> t.fds[i].dev.None?)
    && (forall i :: 3 <= i < |t.fds| && t.fds[i].dev.None? ==> t.fds[i].flags == NO_FLAGS)
  }

  function Boot(n: nat, devNull: nat): Table
    requires 3 <= n
  {
    Table(seq(n, i => Fd(if i < 3 then Some(devNull) else None, 0, NO_FLAGS)), -1)
  }

  lemma BootIsSound(n: nat, devNull: nat)
    requires 3 <= n
    ensures Sound(Boot(n, devNull))
  {}

  function Max(a: int, b: int): int { if a > b then a else b }

  // What open() leaves behind: the table, the index or -1, and the error number.
  datatype Opened = Opened(table: Table, index: int, errno: int)

  ghost function OpenStep(t: Table, found: Found, user: nat, driver: Driver): Opened {
    var i := FirstFree(t.fds, 0);
    if found.Nothing? then Opened(t, -1, ENODEV)
    else if i == |t.fds| then Opened(t, -1, EMFILE)
    else
      var mark := Max(t.maxFd, i);
      if found.Device? && Locked(t.fds, found.dev, i) then
        Opened(Table(t.fds[i := Fd(None, t.fds[i].priv, NO_FLAGS)], mark), -1, EACCES)
      else if driver.Callback? && driver.status < 0 then
        Opened(Table(t.fds[i := Fd(None, driver.priv, NO_FLAGS)], mark), -1, -driver.status)
      else
        var priv := if driver.Callback? then driver.priv else t.fds[i].priv;
        Opened(Table(t.fds[i := Fd(Some(found.dev), priv, Flags(false, found.Device?, user))], mark), i, 0)
  }

  function ReleaseStep(t: Table, fd: int): Table {
    if 2 < fd < |t.fds| then t.(fds := t.fds[fd := Fd(None, t.fds[fd].priv, NO_FLAGS)]) else t
  }

  // alt_open_fd: reopen one of the reserved descriptors.
  ghost function RedirectStep(t: Table, target: nat, found: Found, user: nat, driver: Driver): Table
    requires target < |t.fds|
  {
    var Opened(t', index, _) := OpenStep(t, found, user, driver);
    if 0 <= index < |t'.fds| && target < |t'.fds| then
      ReleaseStep(t'.(fds := t'.fds[target := t'.fds[index]]), index)
    else t'
  }

  // ioctl: takes or drops the exclusive flag of a descriptor in use.
  function ExclStep(t: Table, fd: nat, excl: bool): Table
    requires fd < |t.fds|
  {
    t.(fds := t.fds[fd := t.fds[fd].(flags := t.fds[fd].flags.(excl := excl))])
  }

  // ----- safety

  predicate SameDevices(a: seq<Fd>, b: seq<Fd>) {
    |a| == |b| && forall i :: 0 <= i < |a| ==> a[i].dev == b[i].dev && a[i].flags == b[i].flags
  }

  // A successful open takes a descriptor above 2 that was free, disturbs no other one, and for a
  // device leaves no exclusive holder beside it; a failed one leaves every device and every
  // flag as it was.
  lemma OpenIsSafe(t: Table, found: Found, user: nat, driver: Driver)
    requires Sound(t)
    ensures var Opened(t', index, _) := OpenStep(t, found, user, driver);
            && Sound(t') && |t'.fds| == |t.fds|
            && (index < 0 ==> SameDevices(t.fds, t'.fds))
            && (index >= 0 ==> && 3 <= index < |t.fds| && t.fds[index].dev.None? && !found.Nothing?
                               && t'.fds == t.fds[index := t'.fds[index]] && t'.fds[index].dev == Some(found.dev)
                               && (found.Device? ==> !Locked(t'.fds, found.dev, index)))
  {
    var i := FirstFree(t.fds, 0);
    assert i >= 3;
    var t' := OpenStep(t, found, user, driver).table;
    if !found.Nothing? && Locked(t'.fds, found.dev, i) {
      var j :| 0 <= j < |t'.fds| && j != i && t'.fds[j].dev == Some(found.dev) && t'.fds[j].flags.excl;
      assert t.fds[j] == t'.fds[j];
    }
  }

  lemma LockedElsewhere(a: seq<Fd>, b: seq<Fd>, dev: nat, i: nat)
    requires |a| == |b| && forall j :: 0 <= j < |a| && j != i ==> a[j] == b[j]
    ensures Locked(a, dev, i) <==> Locked(b, dev, i)
  {
    if Locked(a, dev, i) {
      var j :| 0 <= j < |a| && j != i && a[j].dev == Some(dev) && a[j].flags.excl;
      assert b[j] == a[j];
    }
    if Locked(b, dev, i) {
      var j :| 0 <= j < |b| && j != i && b[j].dev == Some(dev) && b[j].flags.excl;
      assert a[j] == b[j];
    }
  }

  // Some descriptor holds the device exclusively.
  ghost predicate HeldExclusively(fds: seq<Fd>, dev: nat) {
    exists j :: 0 <= j < |fds| && fds[j].dev == Some(dev) && fds[j].flags.excl
  }

  // It fails for exactly four reasons, all of which a caller can see in the table before the call.
  lemma OpenFailsExactlyWhen(t: Table, found: Found, user: nat, driver: Driver)
    requires Sound(t)
    ensures OpenStep(t, found, user, driver).index < 0 <==>
            || found.Nothing?
            || (forall i :: 0 <= i < |t.fds| ==> t.fds[i].dev.Some?)
            || (found.Device? && HeldExclusively(t.fds, found.dev))
            || (driver.Callback? && driver.status < 0)
  {}

  // The promises below speak of descriptors one by one, and of the four reasons to fail in turn.
  ghost predicate Accepts(t: Table, found: Found, driver: Driver) {
    && !found.Nothing? && (exists i :: 0 <= i < |t.fds| && t.fds[i].dev.None?)
    && (found.Device? ==> !HeldExclusively(t.fds, found.dev))
    && (driver.Callback? ==> driver.status >= 0)
  }

  // What a successful open leaves: a new descriptor that is not exclusive, with the flags given, and
  // all others as they were.
  ghost predicate OpenedAt(a: seq<Fd>, b: seq<Fd>, i: int, found: Found, user: nat, driver: Driver)
    requires !found.Nothing?
  {
    && 3 <= i < |a| && |b| == |a| && a[i].dev == None && (forall j :: 0 <= j < i ==> a[j].dev.Some?)
    && b[i].dev == Some(found.dev)
    && b[i].flags.excl == false && b[i].flags.isDev == found.Device? && b[i].flags.user == user
    && b[i].priv == (if driver.Callback? then driver.priv else a[i].priv)
    && forall j :: 0 <= j < |a| && j != i ==> b[j] == a[j]
  }

  // The private data is what the lowest free descriptor had.
  ghost predicate TookPriv(a: seq<Fd>, i: int, priv: int) {
    0 <= i < |a| && a[i].dev == None && (forall j :: 0 <= j < i ==> a[j].dev.Some?) && priv == a[i].priv
  }

  // The error number says which reason came first.
  lemma OpenMeans(t: Table, found: Found, user: nat, driver: Driver)
    requires Sound(t)
    ensures var Opened(t', index, errno) := OpenStep(t, found, user, driver);
            && (Accepts(t, found, driver) ==> errno == 0 && OpenedAt(t.fds, t'.fds, index, found, user, driver))
            && (!Accepts(t, found, driver) ==> index == -1 && SameDevices(t.fds, t'.fds))
            && (found.Nothing? ==> errno == 19 && t' == t)
            && (!found.Nothing? && (forall i :: 0 <= i < |t.fds| ==> t.fds[i].dev.Some?) ==> errno == 24 && t' == t)
            && (!found.Nothing? && (exists i :: 0 <= i < |t.fds| && t.fds[i].dev.None?) ==>
                  && (found.Device? && HeldExclusively(t.fds, found.dev) ==> errno == 13)
                  && (!(found.Device? && HeldExclusively(t.fds, found.dev)) && driver.Callback? && driver.status < 0 ==>
                        errno == -driver.status))
  {
    OpenIsSafe(t, found, user, driver);
    var i := FirstFree(t.fds, 0);
    if !found.Nothing? && HeldExclusively(t.fds, found.dev) && i < |t.fds| {
      var j :| 0 <= j < |t.fds| && t.fds[j].dev == Some(found.dev) && t.fds[j].flags.excl;
      assert Locked(t.fds, found.dev, i);
    }
  }

  // Redirection onto a reserved descriptor, when the open succeeds and when it does not.
  lemma RedirectMeans(t: Table, target: nat, found: Found, user: nat, driver: Driver)
    requires Sound(t) && target < 3
    ensures var t' := RedirectStep(t, target, found, user, driver);
            && |t'.fds| == |t.fds|
            && (Accepts(t, found, driver) ==>
                  && t'.fds[target].dev == Some(found.dev)
                  && t'.fds[target].flags.excl == false && t'.fds[target].flags.isDev == found.Device?
                  && t'.fds[target].flags.user == user
                  && (driver.Callback? ==> t'.fds[target].priv == driver.priv)
                  && (driver.NoCallback? ==> exists i :: TookPriv(t.fds, i, t'.fds[target].priv))
                  && forall j :: 0 <= j < |t.fds| && j != target ==>
                       t'.fds[j].dev == t.fds[j].dev && t'.fds[j].flags == t.fds[j].flags)
            && (!Accepts(t, found, driver) ==> SameDevices(t.fds, t'.fds))
  {
    OpenMeans(t, found, user, driver);
    var o := OpenStep(t, found, user, driver);
    hide OpenStep; hide Accepts; hide HeldExclusively;
    if Accepts(t, found, driver) && driver.NoCallback? { assert TookPriv(t.fds, o.index, o.table.fds[o.index].priv); }
  }

  // Opening and releasing again gives back the same devices and flags.
  lemma OpenThenRelease(t: Table, found: Found, user: nat, driver: Driver)
    requires Sound(t)
    ensures var Opened(t', index, _) := OpenStep(t, found, user, driver);
            SameDevices(t.fds, ReleaseStep(t', index).fds)
  {
    OpenIsSafe(t, found, user, driver);
  }

  datatype Op =
    | Open(found: Found, user: nat, driver: Driver)
    | Release(fd: int)
    | Redirect(target: nat, file: Found, mode: nat, opener: Driver)
    | SetExcl(holder: nat, excl: bool)

  ghost predicate Legal(t: Table, op: Op) {
    match op
    case Redirect(target, _, _, _) => target < 3
    case SetExcl(holder, _) => holder < |t.fds| && t.fds[holder].dev.Some?
    case _ => true
  }

  ghost predicate Steps(t: Table, op: Op, t': Table) {
    && Legal(t, op)
    && match op
       case Open(found, user, driver) => t' == OpenStep(t, found, user, driver).table
       case Release(fd) => t' == ReleaseStep(t, fd)
       case Redirect(target, file, mode, opener) =>
         target < |t.fds| && t' == RedirectStep(t, target, file, mode, opener)
       case SetExcl(holder, excl) => holder < |t.fds| && t' == ExclStep(t, holder, excl)
  }

  lemma StepKeepsSound(t: Table, op: Op, t': Table)
    requires Sound(t) && Steps(t, op, t')
    ensures Sound(t') && |t'.fds| == |t.fds|
  {
    match op
    case Open(found, user, driver) => OpenIsSafe(t, found, user, driver);
    case Redirect(target, file, mode, opener) => OpenIsSafe(t, file, mode, opener);
    case _ =>
  }

  ghost predicate Run(t: Table, ops: seq<Op>, t': Table)
    decreases |ops|
  {
    if ops == [] then t == t' else exists mid :: Steps(t, ops[0], mid) && Run(mid, ops[1..], t')
  }

  // From the boot table on, whatever is done: the mark covers every descriptor in use.
  lemma {:induction false} RunKeepsSound(t: Table, ops: seq<Op>, t': Table)
    requires Sound(t) && Run(t, ops, t')
    ensures Sound(t') && |t'.fds| == |t.fds|
    decreases |ops|
  {
    if ops != [] {
      var mid :| Steps(t, ops[0], mid) && Run(mid, ops[1..], t');
      StepKeepsSound(t, ops[0], mid);
      RunKeepsSound(mid, ops[1..], t');
    }
  }

  // ----- the table in memory

  class Descriptors {
    const fds: array<Fd>
    var maxFd: int
    var errno: int

    function View(): Table
      reads this, fds
    {
      Table(fds[..], maxFd)
    }

    constructor (n: nat, devNull: nat)
      requires 3 <= n
      ensures View() == Boot(n, devNull) && Sound(View()) && fresh(fds)
    {
      fds := new Fd[n](i => Fd(if i < 3 then Some(devNull) else None, 0, NO_FLAGS));
      maxFd, errno := -1, 0;
      new;
      assert fds[..] == Boot(n, devNull).fds;
    }

    // alt_get_fd.
    method GetFd(dev: nat) returns (rc: int)
      requires Sound(View())
      modifies this`maxFd, fds
      ensures var i := FirstFree(old(fds[..]), 0);
              if i == fds.Length then rc == -EMFILE && fds[..] == old(fds[..]) && maxFd == old(maxFd)
              else rc == i && maxFd == Max(old(maxFd), i)
                   && fds[..] == old(fds[..])[i := old(fds[i]).(dev := Some(dev))]
    {
      rc := -EMFILE;
      var i: nat := 0;
      while i < fds.Length
        invariant i <= fds.Length && fds[..] == old(fds[..]) && maxFd == old(maxFd) && rc == -EMFILE
        invariant FirstFree(old(fds[..]), 0) == FirstFree(old(fds[..]), i)
      {
        if fds[i].dev.None? {
          fds[i] := fds[i].(dev := Some(dev));
          if i > maxFd {
            maxFd := i;
          }
          rc := i;
          return;
        }
        i := i + 1;
      }
    }

    // alt_release_fd.
    method ReleaseFd(fd: int)
      requires fd < fds.Length
      modifies fds
      ensures View() == ReleaseStep(old(View()), fd)
      ensures fd > 2 ==> fds[fd].dev.None? && fds[fd].flags == Flags(false, false, 0)
      ensures forall j :: 0 <= j < fds.Length && (j != fd || fd <= 2) ==> fds[j] == old(fds[j])
    {
      if fd > 2 {
        fds[fd] := fds[fd].(flags := NO_FLAGS);
        fds[fd] := fds[fd].(dev := None);
      }
    }

    // alt_file_locked: scans only up to the mark, and that is enough.
    method FileLocked(fd: nat, dev: nat) returns (status: int)
      requires fd < fds.Length && fd <= maxFd < fds.Length && fds[fd].dev == Some(dev)
      requires forall i :: maxFd < i < fds.Length ==> i < 3 || fds[i].dev.None?
      requires 3 <= maxFd
      modifies fds
      ensures fds[..] == old(fds[..])[fd := old(fds[fd]).(flags := old(fds[fd]).flags.(isDev := true))]
      ensures status == if Locked(old(fds[..]), dev, fd) then -EACCES else 0
    {
      fds[fd] := fds[fd].(flags := fds[fd].flags.(isDev := true));
      var i: nat := 0;
      while i <= maxFd
        invariant i <= maxFd + 1
        invariant fds[..] == old(fds[..])[fd := old(fds[fd]).(flags := old(fds[fd]).flags.(isDev := true))]
        invariant forall j :: 0 <= j < i && j != fd ==> !(fds[j].dev == Some(dev) && fds[j].flags.excl)
      {
        if fds[i].dev == fds[fd].dev && fds[i].flags.excl && i != fd {
          assert old(fds[..])[i] == fds[i];
          return -EACCES;
        }
        i := i + 1;
      }
      forall j | 0 <= j < fds.Length && j != fd
        ensures !(old(fds[..])[j].dev == Some(dev) && old(fds[..])[j].flags.excl)
      {
        assert old(fds[..])[j] == fds[j];
      }
      return 0;
    }

    // ALT_OPEN; `found`, `user` and `driver` stand for the lookups, the flags and the callback.
    method OpenFound(found: Found, user: nat, driver: Driver) returns (index: int)
      requires Sound(View())
      modifies this`maxFd, this`errno, fds
      ensures Opened(View(), index, if index < 0 then errno else 0) == OpenStep(old(View()), found, user, driver)
      ensures index >= 0 ==> errno == old(errno)
    {
      index := -1;
      var status := -ENODEV;
      if !found.Nothing? {
        index := GetFd(found.dev);
        if index < 0 {
          status := index;
        } else {
          fds[index] := fds[index].(flags := Flags(false, false, user));
          if found.Device? {
            LockedElsewhere(old(fds[..]), fds[..], found.dev, index);
            status := FileLocked(index, found.dev);
          }
          if found.FileSystem? || status >= 0 {
            status := 0;
            if driver.Callback? {
              fds[index] := fds[index].(priv := driver.priv);
              status := driver.status;
            }
          }
        }
      }
      if status < 0 {
        ReleaseFd(index);
        errno := -status;
        assert index >= 0 ==> fds[..] == old(fds[..])[index := fds[index]];
        return -1;
      }
      assert fds[..] == old(fds[..])[index := fds[index]];
    }

    // ... with its whole promise.
    method Open(found: Found, user: nat, driver: Driver) returns (index: int)
      requires Sound(View())
      modifies this`maxFd, this`errno, fds
      ensures Opened(View(), index, if index < 0 then errno else 0) == OpenStep(old(View()), found, user, driver)
      ensures index >= 0 ==> errno == old(errno)
      ensures Accepts(old(View()), found, driver) ==> OpenedAt(old(fds[..]), fds[..], index, found, user, driver)
      ensures !Accepts(old(View()), found, driver) ==> index == -1 && SameDevices(old(fds[..]), fds[..])
    {
      OpenMeans(View(), found, user, driver);
      hide Accepts; hide OpenedAt; hide HeldExclusively; hide SameDevices; hide Sound; hide OpenStep;
      index := OpenFound(found, user, driver);
    }

    // alt_open_fd.
    method RedirectFd(target: nat, found: Found, user: nat, driver: Driver)
      requires Sound(View()) && target < 3
      modifies this`maxFd, this`errno, fds
      ensures View() == RedirectStep(old(View()), target, found, user, driver)
      ensures Accepts(old(View()), found, driver) ==>
                && fds[target].dev == Some(found.dev)
                && fds[target].flags.excl == false && fds[target].flags.isDev == found.Device?
                && fds[target].flags.user == user
                && (driver.Callback? ==> fds[target].priv == driver.priv)
                && (driver.NoCallback? ==> exists i :: TookPriv(old(fds[..]), i, fds[target].priv))
                && forall j :: 0 <= j < fds.Length && j != target ==>
                     fds[j].dev == old(fds[j].dev) && fds[j].flags == old(fds[j].flags)
      ensures !Accepts(old(View()), found, driver) ==>
                forall j :: 0 <= j < fds.Length ==>
                  fds[j].dev == old(fds[j].dev) && fds[j].flags == old(fds[j].flags)
    {
      RedirectMeans(View(), target, found, user, driver);
      hide Accepts; hide OpenedAt; hide HeldExclusively; hide TookPriv;
      OpenIsSafe(View(), found, user, driver);
      var index := Open(found, user, driver);
      if index >= 0 {
        fds[target] := fds[index];
        ReleaseFd(index);
      }
    }
  }
}
