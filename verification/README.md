# clicache, modelled in Dafny

clicache wraps a command line and caches the command's standard output. It
derives a key from the arguments and a file name from the key and the
current time bucket. If the file exists, it prints the file. Otherwise it
runs the command, tees its output to the terminal and to a temporary file,
and renames that file into place only if the command succeeded. The `-del`
flag deletes the entry instead. `-c` folds the working directory into the key.

This project models the pure logic of `main.go`:

- `CacheKey` (`hash`): arguments joined with `_`, hashed with 64-bit FNV-1a
  (`Fnv`), rendered as an unsigned decimal numeral (`Decimal`).
- `GoTime`: the parts of Go's `time` the naming uses. A time is a count of
  nanoseconds since Go's zero time (January 1, year 1 UTC). `Truncate`
  floors to a multiple of the bucket. `Unix` and `UnixNano` are computed in
  int64 arithmetic with explicit wrap-around.
- `CacheFile` (`file`): the final name `dir/key-<unix seconds of the bucket
  start>.stdout` and the temporary name `dir/key-<unix nanoseconds>.stdout.tmp`.
  `ParseFinal`/`ParseTemp` read names back and serve as the inverse.
- `Run` (`run`): the mapping from how the child ended to run's exit code and
  error. The child is an abstract value: not found, failed to start, or
  finished with a wait result and the bytes it wrote.
- `Invocation` (`main`): the decision machine over an abstract filesystem
  (a map from path to bytes). Filesystem failures are an explicit `Faults`
  record. The result is the new filesystem, the bytes on standard output,
  and the code passed to `os.Exit`.

Go strings are byte sequences, so arguments, paths and file contents are all
`Text.Bytes`, a `seq<byte>` where `byte` is the integer newtype `0 <= x < 256`.
Bit-vectors appear only inside `Fnv`, whose state is a `bv64`. The cache
directory is a parameter instead of the global `-dir` flag.

Behaviour of the code worth knowing, all of it modelled as written:

- A child killed by a signal makes `run` return `ExitStatus()`, which is -1,
  and `main` calls `os.Exit(-1)`. A Unix parent sees status 255
  (`Run.StatusPropagation`).
- A failed rename after a successful run exits 1 and leaves the temporary
  file behind.
- If removing the temporary file fails after a failed run, the code ignores
  the error. The temporary file then stays.
- The temporary name is not unique across all times. `UnixNano` is exact only
  from 1677-09-21 00:12:43 UTC to 2262-04-11 23:47:16 UTC and wraps outside
  that range, for example at `time.Time{}`.
- With a bucket shorter than one second, two different buckets can share one
  final name (`CacheFile.SubSecondBucketsShareFile`).

## Model

| member | source | states |
|---|---|---|
| Text.Join | main.go:141 | the joined string starts with the first element; with a non-empty list none of whose elements contains `_`, splitting the joined string at `_` gives the list back |
| Text.JoinCons | main.go:49 | joining `[wd] ++ args` puts `wd` and one `_` in front of the joined arguments |
| Decimal.FromNat | main.go:144 | the `%d` numeral of a natural number is canonical (no superfluous leading zero), parses back to the number, and is "0" exactly for zero |
| Decimal.FromNatToNat | main.go:144 | every canonical digit string (no superfluous leading zero) is the `%d` numeral of its value |
| Decimal.FromInt | main.go:150 | the `%d` numeral of an integer starts with `-` exactly for negatives, has a canonical digit part, and parses back to the integer |
| Decimal.FromIntToInt | main.go:150 | every string the integer parser accepts is the `%d` numeral of the integer it denotes |
| Decimal.FromIntInjective | main.go:150 | distinct integers get distinct `%d` numerals |
| Fnv.AbsorbAppend | main.go:142-144 | hashing a concatenation is hashing the second part from the state the first part leaves |
| Fnv.Sum64a | main.go:142-144 | the sum agrees with FNV-1a-64 as its definition reads: the offset basis for no bytes, and one more xor-then-multiply round for each byte appended |
| Fnv.AbsorbIsReference | main.go:142-144 | absorbing the bytes front to back from the offset basis computes that definition's fold |
| Fnv.Write | main.go:142-143 | the byte loop from the offset basis computes FNV-1a-64 as the left fold defines it |
| CacheKey.Hash | main.go:140-145 | the key is a canonical decimal numeral whose value is FNV-1a-64 of the `_`-joined arguments |
| CacheKey.HashDependsOnlyOnSum | main.go:140-145 | two argument lists get the same key if and only if their joined bytes have the same FNV-1a-64 sum |
| CacheKey.JoinDeterminesArgs | main.go:141 | lists whose elements contain no `_` and that join alike are equal, so their keys differ unless FNV collides |
| CacheKey.UnderscoreCollision | main.go:141 | `["a_b"]` and `["a","b"]` get the same key |
| CacheKey.CwdKey | main.go:41-52 | with `-c` the key is FNV-1a-64 of the directory, one `_`, and the joined arguments |
| CacheKey.KeyFor | main.go:41-52 | under `-c` the key hashes `[wd] ++ args` and is absent exactly when the working directory is unknown; otherwise it hashes `args` |
| CacheKey.SumsOfTestArgs | main_test.go:10-11 | the FNV-1a-64 sums of "a_b" and "a_bc" |
| CacheKey.HashTest | main_test.go:10-18 | `["a","b"]` and `["a","bc"]` get different keys |
| GoTime.Wrap64 | main.go:150 | the int64 value is in range, congruent to the exact value mod 2^64, and equal to it when it fits |
| GoTime.Truncate | main.go:148 | for d > 0 the bucket start is a multiple of d, at most t, and within d of t; for d <= 0 it is t |
| GoTime.TruncateIsLargest | main.go:148 | every multiple of d that is not after t is at most the bucket start |
| GoTime.SameBucket | main.go:148 | two times share a bucket if and only if their floor quotients by d agree |
| GoTime.UnixNano | main.go:150 | UnixNano is the nanosecond distance from the Unix epoch wrapped into int64, exact when it fits |
| GoTime.Unix | main.go:148-150 | Unix is in the int64 range, congruent mod 2^64 to the floor of the seconds since the epoch, and equal to that floor when it fits |
| GoTime.UnixInjective | main.go:150 | for times Go can represent (seconds since the zero time in an int64), different whole seconds give different Unix() values, wrapped or not |
| CacheFile.TempName | main.go:150 | the temporary name equals no final name at all, and with a digit-string key it parses back to its key and stamp |
| CacheFile.File | main.go:147-151 | the final and temporary names differ, and with a digit-string key they parse back to the key with the bucket's Unix seconds and the time's Unix nanoseconds |
| CacheFile.FinalName | main.go:150 | the final name ends in ".stdout", and with a digit-string key it parses back to its key and stamp |
| CacheFile.ParseFinalSound | main.go:150 | every name the final-name parser accepts is the final name of the key and stamp it reads |
| CacheFile.ParseTempSound | main.go:150 | every name the temporary-name parser accepts is the temporary name of the key and stamp it reads |
| CacheFile.FinalNameInjective | main.go:150 | in one directory, final names with digit-string keys determine the key and the stamp |
| CacheFile.SameBucketSameFile | main.go:147-151 | two times in the same bucket get the same final name |
| CacheFile.DistinctKeysDistinctFiles | main.go:147-151 | different digit-string keys get different final names at any times |
| CacheFile.DistinctBucketsDistinctFiles | main.go:147-151 | with a positive whole-second bucket, different buckets get different final names whenever both bucket starts are times Go can represent |
| CacheFile.FileTestKeys | main_test.go:21-29 | at the zero time with a five-minute bucket, keys "123" and "124" give different final names |
| CacheFile.FileTestBuckets | main_test.go:30-33 | ten minutes after the zero time falls in another bucket and gets another final name |
| CacheFile.FileTestSameBucket | main_test.go:34-37 | five seconds after the zero time falls in the same bucket and gets the same final name |
| CacheFile.SubSecondBucketsShareFile | main.go:148-150 | with a 500 ms bucket, 0 s and 0.5 s are in different buckets but get the same final name |
| Run.Run | main.go:153-203 | the error is nil exactly for a clean wait after a start; then the code is 0; an ExitError's wait status gives ExitStatus(), -1 for a signal; every other failure gives 1 |
| Run.ZeroOnlyOnSuccess | main.go:93 | for a child os/exec can produce, "error or non-zero code" holds exactly when the run did not succeed |
| Run.ObservedStatus | main.go:104 | a Unix parent sees the exit code modulo 256: codes 0 to 255 unchanged |
| Run.StatusPropagation | main.go:192-198 | the child's exit status reaches the wrapper's parent unchanged; a signal-killed child shows as 255 |
| Invocation.Execute | main.go:73-111 | on a miss the command's output goes to standard output; after a successful run the final file holds exactly that output and the exit is 0; after a failed run the exit is run's non-zero code and only the temporary file is removed |
| Invocation.Replay | main.go:120-135 | a hit prints exactly the file's bytes and exits 0, or prints a prefix and exits 1 on an I/O error; the filesystem is unchanged |
| Invocation.Decide | main.go:61-136 | the stat error, `-del` and hit/miss branches with their exits; only the final and temporary files can change; a final file that appears or changes holds exactly the command's output and the exit is 0 |
| Invocation.Names | main.go:35-60 | names exist exactly when main gets past the help, working-directory and duration checks; they differ, and the final name encodes the key and the bucket's Unix seconds |
| Invocation.Invoke | main.go:35-136 | help or no arguments prints the usage lines and exits 1; the early errors exit 1 with no change; no file other than the two names changes |
| Invocation.SecondRunReplays | main.go:61-136 | after an invocation that exits 0, a second one in the same bucket replays the same bytes, exits 0, changes nothing, and does not consult the child |
| Invocation.FailedRunCachesNothing | main.go:92-105 | a child that exits with non-zero status s makes the wrapper exit s, print the child's output, and leave no cache file |
| Invocation.DeleteThenMiss | main.go:112-119 | `-del` on an existing entry removes it and exits 0, and the next plain invocation in that bucket runs the command |

## Left out

- Process spawning, `exec.LookPath`, and stdin/stderr passthrough (main.go:157-181). The child is an abstract `Run.Child` value.
- The `io.MultiWriter` tee. Both destinations are assumed to receive the same bytes. A failed terminal write that stops the file write is not modelled.
- Flag parsing (main.go:16-23, 30). The flags arrive parsed in `Invocation.Flags`. A duration that fails to parse is `None`.
- `flag.PrintDefaults`, which writes to standard error, and the rest of the help text. Only the two `fmt.Println` lines on standard output are modelled.
- `os.Getwd`, `time.Now` and the monotonic clock. They are parameters; an unknown working directory is `None`.
- Directories and `os.MkdirAll` permissions. The filesystem holds only regular files; MkdirAll appears only as a possible failure.
- Logging and verbose output, and the unconditional `log.Printf` calls on the failure path (main.go:95-103).
- `file.Sync`/`file.Close`, and deferred `Close` calls skipped by `os.Exit`. They do not change the modelled file contents.
- Concurrency: the atomicity of `os.Rename`, and readers racing writers. Invocations are modelled one after another.
- Go's representable time range. Times are unbounded integers, while Go keeps seconds in an int64. The int64 wrap of `Unix()` and `UnixNano()` is modelled.
- Text.Join: models `strings.Join` for a one-byte separator only, because main.go only joins with "_".
- CacheFile.DistinctBucketsDistinctFiles: requires both bucket starts to be times Go can represent, with their seconds since the zero time in an int64. The model's times are unbounded and `Unix()` wraps for the others. For every representable time, `Unix()` is injective (`GoTime.UnixInjective`).
- Run.Run: models wait statuses as on Unix, where the exit status is 0 to 255 or -1 for a signal. Windows exit codes, which are 32 bits wide and never -1, are not modelled.
- Invocation.SecondRunReplays: requires `Run.Plausible` of the first child. os/exec never reports an ExitError with status 0. Without that requirement, a failed run could exit 0 without creating the file.
