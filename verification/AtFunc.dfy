/**
 The emulation of the at-functions in at-func.c: operate on a file relative to an
 open directory, if need be by changing the working directory and back.

 The operation itself is an arbitrary function of the file system, the working
 directory and the file name.  What the kernel decides (the descriptor `open`
 yields, whether a call fails) is a parameter.
 */
module AtFunc {
  import opened Options

  type Dir = nat
  type Fs = nat

  datatype OpenFile = Directory(dir: Dir) | OtherFile

  /** New file system, result, and `errno` if the result is a failure. */
  datatype Done = Done(fs: Fs, value: int, err: int)

  type Operation = (Fs, Dir, string) -> Done

  const FUNC_FAIL: int := -1
  const AT_FDCWD: int := -100
  const EINVAL: int := 22
  const EBADF: int := 9

  const EPERM: int := 1
  const ENOENT: int := 2
  const EACCES: int := 13
  const ENOTDIR: int := 20
  const ENOSYS: int := 38
  const EOPNOTSUPP: int := 95

  /** Errors that may only mean that /proc cannot be used. */
  predicate ExpectedErrno(e: int) {
    e == ENOTDIR || e == ENOENT || e == EPERM || e == EACCES || e == ENOSYS || e == EOPNOTSUPP
  }

  predicate IsAbsolute(file: string) {
    file != [] && file[0] == '/'
  }

  /** `struct saved_cwd`: a descriptor, or a name when there is none. */
  datatype SavedCwd = SavedCwd(desc: int, name: Option<Dir>)

  /** The kernel's choices.  `noise` is what a successful call leaves in `errno`. */
  datatype Kernel = Kernel(openDot: Option<int>, getcwdFails: bool, fchdirError: Option<int>,
                           restoreFails: bool, noise: int)

  /** The program exits when the working directory cannot be saved or restored. */
  datatype Exit = Returned(value: int) | Died

  class Process {
    const op: Operation
    var fs: Fs
    var cwd: Dir
    var fds: map<int, OpenFile>
    var errno: int

    constructor (op: Operation, fs: Fs, cwd: Dir, fds: map<int, OpenFile>)
      ensures this.op == op && this.fs == fs && this.cwd == cwd && this.fds == fds
    {
      this.op, this.fs, this.cwd, this.fds, this.errno := op, fs, cwd, fds, 0;
    }

    /** The directory that `fd` is open on. */
    predicate OpenDir(fd: int)
      reads this
    {
      fd in fds && fds[fd].Directory?
    }

    /** `CALL_FUNC (file)`. */
    method CallFunc(file: string) returns (value: int)
      modifies this`fs, this`errno
      ensures var d := op(old(fs), cwd, file);
              fs == d.fs && value == d.value && (value == FUNC_FAIL ==> errno == d.err)
    {
      var d := op(fs, cwd, file);
      fs, value := d.fs, d.value;
      if value == FUNC_FAIL { errno := d.err; }
    }

    /** `save_cwd`: a new descriptor on ".", or else the name. */
    method SaveCwd(k: Kernel) returns (ok: bool, saved: SavedCwd)
      requires k.openDot.Some? ==> k.openDot.v >= 0 && k.openDot.v !in fds
      modifies this`fds, this`errno
      ensures ok <==> k.openDot.Some? || !k.getcwdFails
      ensures k.openDot.Some? ==> saved == SavedCwd(k.openDot.v, None) && fds == old(fds)[saved.desc := Directory(cwd)]
      ensures k.openDot.None? ==> fds == old(fds) && saved.desc < 0 && (ok ==> saved.name == Some(cwd))
    {
      errno := k.noise;
      match k.openDot
      case Some(desc) =>
        fds := fds[desc := Directory(cwd)];
        return true, SavedCwd(desc, None);
      case None =>
        return !k.getcwdFails, SavedCwd(-1, if k.getcwdFails then None else Some(cwd));
    }

    /** `fchdir`: fails on what is not an open directory, and may fail otherwise. */
    method Fchdir(fd: int, error: Option<int>) returns (ok: bool)
      modifies this`cwd, this`errno
      ensures ok <==> OpenDir(fd) && error.None?
      ensures cwd == if ok then fds[fd].dir else old(cwd)
      ensures !ok ==> errno == if fd !in fds then EBADF else if !OpenDir(fd) then ENOTDIR else error.v
    {
      if fd !in fds { errno := EBADF; return false; }
      if !fds[fd].Directory? { errno := ENOTDIR; return false; }
      if error.Some? { errno := error.v; return false; }
      cwd := fds[fd].dir;
      return true;
    }

    /** `restore_cwd`. */
    method RestoreCwd(saved: SavedCwd, k: Kernel) returns (ok: bool)
      modifies this`cwd, this`errno
      ensures ok && saved.desc >= 0 ==> OpenDir(saved.desc) && cwd == fds[saved.desc].dir
      ensures ok && saved.desc < 0 ==> saved.name == Some(cwd)
      ensures ok <==> !k.restoreFails && if saved.desc >= 0 then OpenDir(saved.desc) else saved.name.Some?
    {
      errno := k.noise;
      if saved.desc >= 0 {
        ok := Fchdir(saved.desc, if k.restoreFails then Some(EACCES) else None);
      } else if saved.name.Some? && !k.restoreFails {
        cwd := saved.name.v;
        ok := true;
      } else {
        ok := false;
      }
    }

    /** `free_cwd`: closes the descriptor, if any. */
    method FreeCwd(saved: SavedCwd, k: Kernel)
      modifies this`fds, this`errno
      ensures fds == if saved.desc >= 0 then old(fds) - {saved.desc} else old(fds)
    {
      errno := k.noise;
      if saved.desc >= 0 { fds := fds - {saved.desc}; }
    }

    /** The name under /proc means the same file, or using it fails; and a failure
        there has no effect. */
    ghost predicate ProcHonest(fd: int, file: string, proc: Option<string>)
      reads this
    {
      proc.Some? ==>
        var d := op(fs, cwd, proc.v);
        && ((OpenDir(fd) && d == op(fs, fds[fd].dir, file)) || d.value == FUNC_FAIL)
        && (d.value == FUNC_FAIL ==> d.fs == fs)
    }

    /** `fchdir (fd)` will succeed. */
    predicate CanEnter(fd: int, k: Kernel)
      reads this
    {
      OpenDir(fd) && k.fchdirError.None?
    }

    /** Why `fchdir (fd)` fails. */
    function EnterError(fd: int, k: Kernel): int
      requires !CanEnter(fd, k)
      reads this
    {
      if fd !in fds then EBADF else if !OpenDir(fd) then ENOTDIR else k.fchdirError.v
    }

    /** The working directory cannot be saved, or cannot be restored once left. */
    predicate MustDie(fd: int, k: Kernel)
      reads this
    {
      (k.openDot.None? && k.getcwdFails) || (CanEnter(fd, k) && k.restoreFails)
    }

    /** The slow way: save the working directory, change it, operate, restore it. */
    method ViaChdir(fd: int, file: string, k: Kernel) returns (r: Exit)
      requires k.openDot.Some? ==> k.openDot.v >= 0 && k.openDot.v !in fds
      modifies this
      ensures r.Died? <==> || (k.openDot.None? && k.getcwdFails)
                           || (old(OpenDir(fd)) && k.fchdirError.None? && k.restoreFails)
      ensures r.Returned? ==> cwd == old(cwd) && fds == old(fds)
      ensures r.Returned? && old(CanEnter(fd, k)) ==>
                var d := op(old(fs), old(fds)[fd].dir, file);
                fs == d.fs && r.value == d.value && (d.value == FUNC_FAIL && d.err != 0 ==> errno == d.err)
      ensures r.Returned? && !old(CanEnter(fd, k)) ==>
                r.value == FUNC_FAIL && fs == old(fs) && errno == old(EnterError(fd, k))
    {
      var ok, saved := SaveCwd(k);
      if !ok { return Died; }
      if 0 <= fd && fd == saved.desc {
        assert fd !in old(fds);
        FreeCwd(saved, k);
        assert fds == old(fds);
        errno := EBADF;
        return Returned(FUNC_FAIL);
      }
      ok := Fchdir(fd, k.fchdirError);
      if !ok {
        var savedErrno := errno;
        FreeCwd(saved, k);
        assert fds == old(fds);
        errno := savedErrno;
        return Returned(FUNC_FAIL);
      }
      var err := CallFunc(file);
      var savedErrno := if err == FUNC_FAIL then errno else 0;
      ok := RestoreCwd(saved, k);
      if !ok { return Died; }
      FreeCwd(saved, k);
      assert fds == old(fds);
      if savedErrno != 0 { errno := savedErrno; }
      return Returned(err);
    }

    /** The attempt through /proc decides: it succeeds, or fails for a reason of
        the operation's own. */
    predicate ProcDecides(proc: Option<string>)
      reads this
    {
      proc.Some? && var d := op(fs, cwd, proc.v); d.value != FUNC_FAIL || !ExpectedErrno(d.err)
    }

    /** The at-function.  `flagOk`: the flags are valid.  `proc`: the name under
        /proc, if one can be built. */
    method AtFunction(fd: int, file: string, flagOk: bool, proc: Option<string>, k: Kernel) returns (r: Exit)
      requires k.openDot.Some? ==> k.openDot.v >= 0 && k.openDot.v !in fds
      requires ProcHonest(fd, file, proc)
      modifies this
      // the working directory and the open descriptors are as on entry
      ensures r.Returned? ==> cwd == old(cwd) && fds == old(fds)
      ensures !flagOk ==> r == Returned(FUNC_FAIL) && errno == EINVAL && fs == old(fs)
      // relative to the working directory, or absolute: just the operation
      ensures flagOk && (fd == AT_FDCWD || IsAbsolute(file)) ==>
                var d := op(old(fs), old(cwd), file);
                r == Returned(d.value) && fs == d.fs && (d.value == FUNC_FAIL ==> errno == d.err)
      // otherwise it dies exactly when /proc does not decide and the slow way dies
      ensures flagOk && fd != AT_FDCWD && !IsAbsolute(file) ==>
                (r.Died? <==> !old(ProcDecides(proc)) && old(MustDie(fd, k)))
      // success: the operation was done once, in the directory of `fd`
      ensures flagOk && fd != AT_FDCWD && !IsAbsolute(file) && r.Returned? && r.value != FUNC_FAIL ==>
                old(OpenDir(fd)) && var d := op(old(fs), old(fds)[fd].dir, file); fs == d.fs && r.value == d.value
      // failure: an error of /proc's own, the operation's failure there, or no way in
      ensures flagOk && fd != AT_FDCWD && !IsAbsolute(file) && r == Returned(FUNC_FAIL) ==>
                if old(ProcDecides(proc)) then fs == old(fs) && errno == op(old(fs), old(cwd), proc.v).err
                else if old(CanEnter(fd, k)) then
                  var d := op(old(fs), old(fds)[fd].dir, file);
                  d.value == FUNC_FAIL && fs == d.fs && (d.err != 0 ==> errno == d.err)
                else fs == old(fs) && errno == old(EnterError(fd, k))
      // and the result is never another one
      ensures flagOk && fd != AT_FDCWD && !IsAbsolute(file) && old(ProcDecides(proc)) ==>
                r == Returned(op(old(fs), old(cwd), proc.v).value)
      ensures flagOk && fd != AT_FDCWD && !IsAbsolute(file) && !old(ProcDecides(proc)) && r.Returned? ==>
                r.value == if old(CanEnter(fd, k)) then op(old(fs), old(fds)[fd].dir, file).value else FUNC_FAIL
      // which errors of the attempt through /proc lead to the slow way: ENOTDIR,
      // ENOENT, EPERM, EACCES, ENOSYS and EOPNOTSUPP, and no other
      ensures flagOk && fd != -100 && (file == "" || file[0] != '/') && proc.Some? && r.Returned? ==>
                var d := op(old(fs), old(cwd), proc.v);
                if d.value == -1 && d.err in {20, 2, 1, 13, 38, 95} then
                  r.value == if old(CanEnter(fd, k)) then op(old(fs), old(fds)[fd].dir, file).value else -1
                else r.value == d.value && (d.value == -1 ==> errno == d.err)
      // EINVAL for the flags; the plain call for a name that starts with '/'
      ensures !flagOk ==> r == Returned(-1) && errno == 22
      ensures flagOk && (fd == -100 || (file != "" && file[0] == '/')) ==>
                r == Returned(op(old(fs), old(cwd), file).value)
      // EBADF for a closed descriptor, ENOTDIR for one that is no directory
      ensures flagOk && fd != -100 && (file == "" || file[0] != '/') && proc.None? && r.Returned? && !old(OpenDir(fd)) ==>
                r == Returned(-1) && errno == if fd !in old(fds) then 9 else 20
    {
      if !flagOk { errno := EINVAL; return Returned(FUNC_FAIL); }
      if fd == AT_FDCWD || IsAbsolute(file) {
        var value := CallFunc(file);
        return Returned(value);
      }
      if proc.Some? {
        var value := CallFunc(proc.v);
        var procErrno := errno;
        if value != FUNC_FAIL { return Returned(value); }
        if !ExpectedErrno(procErrno) {
          errno := procErrno;
          return Returned(value);
        }
      }
      r := ViaChdir(fd, file, k);
    }
  }
}
