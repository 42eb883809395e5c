/**
 * One invocation of the wrapper (`main` in main.go) over an abstract
 * filesystem: derive the key and the file names, look the cache file up,
 * and then delete it, replay it, or run the command and keep its output
 * only if it succeeded. The result is the final filesystem, the bytes
 * written to standard output and the code passed to os.Exit.
 */
module Invocation {
  import opened Text
  import opened Wrappers
  import CacheKey
  import CacheFile
  import GoTime
  import Run

  /** Regular files by path. Directories are not modelled. */
  type FileSystem = map<Bytes, Bytes>

  /**
   * Which filesystem calls fail for reasons outside the model (permissions,
   * a full disk, a vanished file, a closed standard output).
   */
  datatype Faults = Faults(
    stat: bool,         // os.Stat fails with an error other than "does not exist"
    mkdir: bool,        // os.MkdirAll of the cache directory fails
    create: bool,       // os.Create of the temporary file fails
    removeTemp: bool,   // os.Remove of the temporary file fails (main ignores it)
    rename: bool,       // os.Rename of the temporary file into place fails
    remove: bool,       // os.Remove of the cache file under -del fails
    open: bool,         // os.Open of the cache file fails
    copy: Option<nat>)  // io.Copy to standard output fails after this many bytes

  const NoFaults: Faults := Faults(false, false, false, false, false, false, false, None)

  /** The parsed flags. maxDur is None when -t does not parse as a duration. */
  datatype Flags = Flags(help: bool, del: bool, hashCwd: bool, dir: Bytes, maxDur: Option<int>)

  /** What an invocation leaves behind: the filesystem, its standard output, and its exit code. */
  datatype Outcome = Outcome(fs: FileSystem, stdout: Bytes, exit: int)

  /** The first two lines of the help text, which fmt.Println writes to standard output. */
  function Usage(): Bytes {
    Ascii("clicache caches the STDOUT of a given command") + [Newline, Newline]
  }

  /** p holds the same file (or is absent) in both filesystems. */
  predicate SameAt(fs: FileSystem, fs': FileSystem, p: Bytes) {
    (p in fs <==> p in fs') && (p in fs ==> fs[p] == fs'[p])
  }

  /**
   * The miss branch (main.go:73-111): create the temporary file, run the
   * command teeing its output into it, then rename it into place if the run
   * succeeded, or remove it and exit with run's code if it did not.
   */
  function Execute(final: Bytes, temp: Bytes, args: seq<Bytes>, fs: FileSystem, faults: Faults, child: Run.Child): (o: Outcome)
    ensures faults.mkdir || faults.create ==> o == Outcome(fs, [], 1)
    ensures !faults.mkdir && !faults.create ==> o.stdout == Run.Captured(args, child)
    ensures !faults.mkdir && !faults.create && Run.Succeeded(args, child) && !faults.rename ==>
      o.exit == 0 && final in o.fs && o.fs[final] == Run.Captured(args, child) && (final != temp ==> temp !in o.fs)
    ensures !faults.mkdir && !faults.create && Run.Succeeded(args, child) && faults.rename ==>
      o.exit == 1 && temp in o.fs && o.fs[temp] == Run.Captured(args, child)
    ensures !faults.mkdir && !faults.create && !Run.Succeeded(args, child) && Run.Plausible(child) ==>
      o.exit == Run.Run(args, child).code && o.exit != 0
    ensures !faults.mkdir && !faults.create && !Run.Succeeded(args, child) && !faults.removeTemp ==>
      o.fs == fs - {temp}
    ensures forall p :: p != final && p != temp ==> SameAt(fs, o.fs, p)
  {
    if faults.mkdir || faults.create then Outcome(fs, [], 1)
    else
      var out := Run.Captured(args, child);
      var written := fs[temp := out];
      var r := Run.Run(args, child);
      if r.failed || r.code != 0 then
        Outcome(if faults.removeTemp then written else written - {temp}, out, r.code)
      else if faults.rename then Outcome(written, out, 1)
      else Outcome((written - {temp})[final := out], out, 0)
  }

  /**
   * The hit branch without -del (main.go:120-135): copy the cache file to
   * standard output, leaving the filesystem alone.
   */
  function Replay(final: Bytes, fs: FileSystem, faults: Faults): (o: Outcome)
    requires final in fs
    ensures o.fs == fs
    ensures !faults.open && faults.copy.None? ==> o.stdout == fs[final] && o.exit == 0
    ensures faults.open || faults.copy.Some? ==> o.exit == 1
    ensures o.stdout <= fs[final]
  {
    if faults.open then Outcome(fs, [], 1)
    else match faults.copy
      case Some(n) => Outcome(fs, fs[final][..if n < |fs[final]| then n else |fs[final]|], 1)
      case None => Outcome(fs, fs[final], 0)
  }

  /** The lookup and its branches (main.go:61-136), given the final and temporary names. */
  function Decide(final: Bytes, temp: Bytes, del: bool, args: seq<Bytes>, fs: FileSystem, faults: Faults, child: Run.Child): (o: Outcome)
    // a stat error other than "does not exist": exit 1, nothing changes
    ensures faults.stat ==> o == Outcome(fs, [], 1)
    // -del and no file: a successful no-op
    ensures !faults.stat && final !in fs && del ==> o == Outcome(fs, [], 0)
    // -del and a file: it is removed, or exit 1 if that fails
    ensures !faults.stat && final in fs && del ==>
      o == if faults.remove then Outcome(fs, [], 1) else Outcome(fs - {final}, [], 0)
    // a file and no -del: its bytes on standard output, nothing changes
    ensures !faults.stat && final in fs && !del && !faults.open && faults.copy.None? ==>
      o == Outcome(fs, fs[final], 0)
    // no file and no -del: the command runs
    ensures !faults.stat && final !in fs && !del ==> o == Execute(final, temp, args, fs, faults, child)
    // only the final and the temporary file can change
    ensures forall p :: p != final && p != temp ==> SameAt(fs, o.fs, p)
    // a final file that appears or changes holds exactly what the command just wrote, and the exit is 0
    ensures final != temp && final in o.fs && !SameAt(fs, o.fs, final) ==>
      o.fs[final] == Run.Captured(args, child) && o.exit == 0
  {
    if faults.stat then Outcome(fs, [], 1)
    else if final !in fs then
      if del then Outcome(fs, [], 0)
      else Execute(final, temp, args, fs, faults, child)
    else if del then
      if faults.remove then Outcome(fs, [], 1) else Outcome(fs - {final}, [], 0)
    else Replay(final, fs, faults)
  }

  /** The final and temporary names of an invocation, or None when main exits before computing them. */
  function Names(flags: Flags, args: seq<Bytes>, wd: Option<Bytes>, now: int): (names: Option<(Bytes, Bytes)>)
    ensures names.Some? <==> !flags.help && |args| >= 1 && CacheKey.KeyFor(flags.hashCwd, wd, args).Some? && flags.maxDur.Some?
    ensures names.Some? ==> names.value.0 != names.value.1
    ensures names.Some? ==>
      (CacheFile.ParseFinal(flags.dir, names.value.0) ==
       Some((CacheKey.KeyFor(flags.hashCwd, wd, args).value, GoTime.Unix(GoTime.Truncate(now, flags.maxDur.value)))))
  {
    if flags.help || |args| < 1 then None
    else match CacheKey.KeyFor(flags.hashCwd, wd, args)
      case None => None
      case Some(key) =>
        match flags.maxDur
        case None => None
        case Some(d) => Some(CacheFile.File(flags.dir, key, now, d))
  }

  /**
   * main(): the help/usage exit, the working-directory and duration errors,
   * then the lookup and its branches.
   */
  function Invoke(flags: Flags, args: seq<Bytes>, wd: Option<Bytes>, now: int, fs: FileSystem, faults: Faults, child: Run.Child): (o: Outcome)
    ensures flags.help || |args| < 1 ==> o == Outcome(fs, Usage(), 1)
    ensures Names(flags, args, wd, now).None? && !flags.help && |args| >= 1 ==> o == Outcome(fs, [], 1)
    ensures Names(flags, args, wd, now).None? ==> o.exit == 1 && o.fs == fs
    ensures forall p :: (Names(flags, args, wd, now).None? || (p != Names(flags, args, wd, now).value.0 && p != Names(flags, args, wd, now).value.1)) ==> SameAt(fs, o.fs, p)
  {
    if flags.help || |args| < 1 then Outcome(fs, Usage(), 1)
    else match Names(flags, args, wd, now)
      case None => Outcome(fs, [], 1)
      case Some((final, temp)) => Decide(final, temp, flags.del, args, fs, faults, child)
  }

  /**
   * Running a command twice within one bucket runs it once: if the first
   * invocation exits 0, the second replays byte for byte what the first
   * printed and changes nothing, whatever the child would have done.
   */
  lemma SecondRunReplays(flags: Flags, args: seq<Bytes>, wd: Option<Bytes>, t1: int, t2: int,
                         fs: FileSystem, child1: Run.Child, child2: Run.Child)
    requires !flags.del && flags.maxDur.Some?
    requires GoTime.Truncate(t1, flags.maxDur.value) == GoTime.Truncate(t2, flags.maxDur.value)
    requires Run.Plausible(child1)
    requires Invoke(flags, args, wd, t1, fs, NoFaults, child1).exit == 0
    ensures Invoke(flags, args, wd, t2, Invoke(flags, args, wd, t1, fs, NoFaults, child1).fs, NoFaults, child2)
         == Outcome(Invoke(flags, args, wd, t1, fs, NoFaults, child1).fs, Invoke(flags, args, wd, t1, fs, NoFaults, child1).stdout, 0)
  {
    var o1 := Invoke(flags, args, wd, t1, fs, NoFaults, child1);
    var n1 := Names(flags, args, wd, t1);
    var n2 := Names(flags, args, wd, t2);
    assert n1.Some? && n2.Some?;
    assert n1.value.0 == n2.value.0;
    var final := n1.value.0;
    if final !in fs {
      Run.ZeroOnlyOnSuccess(args, child1);
      assert Run.Succeeded(args, child1);
      assert final in o1.fs && o1.fs[final] == o1.stdout;
    }
  }

  /**
   * A command that exits with a non-zero status makes the wrapper exit with
   * that status, prints what the command printed, and leaves no cache file:
   * only the temporary file is gone afterwards.
   */
  lemma FailedRunCachesNothing(flags: Flags, args: seq<Bytes>, wd: Option<Bytes>, now: int,
                               fs: FileSystem, out: Bytes, status: byte)
    requires !flags.del && Names(flags, args, wd, now).Some?
    requires Names(flags, args, wd, now).value.0 !in fs
    requires status != 0
    ensures Invoke(flags, args, wd, now, fs, NoFaults, Run.Finished(Run.ExitError(Some(Run.Exited(status))), out))
         == Outcome(fs - {Names(flags, args, wd, now).value.1}, out, status as int)
    ensures Names(flags, args, wd, now).value.0 !in fs - {Names(flags, args, wd, now).value.1}
  {
  }

  /**
   * -del removes an existing entry and exits 0; the next plain invocation in
   * the same bucket is a miss, so the command runs again and its output is
   * what the wrapper prints.
   */
  lemma DeleteThenMiss(flags: Flags, args: seq<Bytes>, wd: Option<Bytes>, t1: int, t2: int,
                       fs: FileSystem, child1: Run.Child, child2: Run.Child)
    requires flags.del && Names(flags, args, wd, t1).Some?
    requires Names(flags, args, wd, t1).value.0 in fs
    requires GoTime.Truncate(t1, flags.maxDur.value) == GoTime.Truncate(t2, flags.maxDur.value)
    ensures Invoke(flags, args, wd, t1, fs, NoFaults, child1) == Outcome(fs - {Names(flags, args, wd, t1).value.0}, [], 0)
    ensures Invoke(flags.(del := false), args, wd, t2, fs - {Names(flags, args, wd, t1).value.0}, NoFaults, child2).stdout
         == Run.Captured(args, child2)
  {
    var n2 := Names(flags.(del := false), args, wd, t2);
    assert n2.Some? && n2.value.0 == Names(flags, args, wd, t1).value.0;
  }
}
