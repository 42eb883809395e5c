/**
 * Cache-file naming (`file` in main.go): the final name
 * `dir/key-<Unix seconds of the bucket start>.stdout` and the temporary name
 * `dir/key-<Unix nanoseconds of now>.stdout.tmp`. The directory is a
 * parameter here rather than the `-dir` flag.
 */
module CacheFile {
  import opened Text
  import opened Wrappers
  import Decimal
  import GoTime

  const StdoutSuffix: Bytes := [0x2E, 0x73, 0x74, 0x64, 0x6F, 0x75, 0x74]  // ".stdout"
  const TmpSuffix: Bytes := [0x2E, 0x74, 0x6D, 0x70]  // ".tmp"

  /**
   * fmt.Sprintf("%s/%s-%d.stdout", dir, key, stamp): it ends in ".stdout",
   * and with a digit-string key it parses back to the key and the stamp.
   */
  function FinalName(dir: Bytes, key: Bytes, stamp: int): (name: Bytes)
    ensures |name| >= |StdoutSuffix| && name[|name| - |StdoutSuffix|..] == StdoutSuffix
    ensures Decimal.AllDigits(key) ==> ParseFinal(dir, name) == Some((key, stamp))
  {
    var num := Decimal.FromInt(stamp);
    var name := (dir + [Slash]) + (key + [Dash] + num) + StdoutSuffix;
    Slices(dir + [Slash], key + [Dash] + num, StdoutSuffix);
    assert Decimal.AllDigits(key) ==> ParseFinal(dir, name) == Some((key, stamp)) by {
      if Decimal.AllDigits(key) {
        ParseComposed(dir, key, num, stamp);
      }
    }
    name
  }

  /**
   * fmt.Sprintf("%s/%s-%d.stdout.tmp", dir, key, stamp): it is no final name
   * at all, and with a digit-string key it parses back to the key and the stamp.
   */
  function TempName(dir: Bytes, key: Bytes, stamp: int): (name: Bytes)
    ensures forall dir', key', stamp' :: FinalName(dir', key', stamp') != name
    ensures Decimal.AllDigits(key) ==> ParseTemp(dir, name) == Some((key, stamp))
  {
    var f := FinalName(dir, key, stamp);
    Slices(f, [], TmpSuffix);
    assert forall dir', key', stamp' :: FinalName(dir', key', stamp') != f + TmpSuffix by {
      forall dir', key', stamp' ensures FinalName(dir', key', stamp') != f + TmpSuffix {
        FinalEndsInT(dir', key', stamp');
      }
    }
    f + TmpSuffix
  }

  /** A final name ends in 't', the last byte of ".stdout"; a temporary name ends in 'p'. */
  lemma FinalEndsInT(dir: Bytes, key: Bytes, stamp: int)
    ensures FinalName(dir, key, stamp)[|FinalName(dir, key, stamp)| - 1] == 0x74
  {
    var g := FinalName(dir, key, stamp);
    assert g[|g| - 1] == g[|g| - |StdoutSuffix|..][|StdoutSuffix| - 1];
  }

  /** file(key, t, d): the final and the temporary name of the cache file. */
  function File(dir: Bytes, key: Bytes, t: int, d: int): (names: (Bytes, Bytes))
    ensures names.0 != names.1
    ensures Decimal.AllDigits(key) ==> ParseFinal(dir, names.0) == Some((key, GoTime.Unix(GoTime.Truncate(t, d))))
    ensures Decimal.AllDigits(key) ==> ParseTemp(dir, names.1) == Some((key, GoTime.UnixNano(t)))
  {
    (FinalName(dir, key, GoTime.Unix(GoTime.Truncate(t, d))), TempName(dir, key, GoTime.UnixNano(t)))
  }

  /** The position of the first occurrence of b in s. */
  function FirstIndex(s: Bytes, b: byte): (r: Option<nat>)
    ensures r.None? <==> b !in s
    ensures r.Some? ==> r.value < |s| && s[r.value] == b && b !in s[..r.value]
  {
    if |s| == 0 then None
    else if s[0] == b then Some(0)
    else match FirstIndex(s[1..], b)
      case None => None
      case Some(i) =>
        assert s[..i + 1] == [s[0]] + s[1..][..i];
        Some(i + 1)
  }

  /**
   * Reads a final cache-file name back: the key is everything up to the first
   * dash after "dir/", and the stamp the numeral between it and ".stdout".
   * Names of any other shape, and keys that are not digit strings, give None.
   */
  function ParseFinal(dir: Bytes, name: Bytes): Option<(Bytes, int)>
  {
    var p := dir + [Slash];
    if |name| < |p| + |StdoutSuffix| || name[..|p|] != p || name[|name| - |StdoutSuffix|..] != StdoutSuffix then None
    else
      var body := name[|p|..|name| - |StdoutSuffix|];
      match FirstIndex(body, Dash)
      case None => None
      case Some(i) =>
        if !Decimal.AllDigits(body[..i]) then None
        else match Decimal.ToInt(body[i + 1..])
          case None => None
          case Some(n) => Some((body[..i], n))
  }

  /** Reads a temporary cache-file name back, as ParseFinal after removing ".tmp". */
  function ParseTemp(dir: Bytes, name: Bytes): Option<(Bytes, int)>
  {
    if |name| < |TmpSuffix| || name[|name| - |TmpSuffix|..] != TmpSuffix then None
    else ParseFinal(dir, name[..|name| - |TmpSuffix|])
  }

  /** "dir/", a digit-string key, a dash, the numeral of stamp and ".stdout" parse back to key and stamp. */
  lemma ParseComposed(dir: Bytes, key: Bytes, num: Bytes, stamp: int)
    requires Decimal.AllDigits(key) && num == Decimal.FromInt(stamp)
    ensures ParseFinal(dir, (dir + [Slash]) + (key + [Dash] + num) + StdoutSuffix) == Some((key, stamp))
  {
    Slices(dir + [Slash], key + [Dash] + num, StdoutSuffix);
    DigitsHaveNoDash(key);
    FirstIndexAfterFree(key, num, Dash);
    Slices(key, [Dash], num);
  }

  /** The three parts of a concatenation are its slices. */
  lemma Slices(a: Bytes, b: Bytes, c: Bytes)
    ensures (a + b + c)[..|a|] == a
    ensures (a + b + c)[|a|..|a + b + c| - |c|] == b
    ensures (a + b + c)[|a + b + c| - |c|..] == c
    ensures (a + b + c)[|a| + |b|..] == c
  {
  }

  lemma DigitsHaveNoDash(key: Bytes)
    requires Decimal.AllDigits(key)
    ensures Dash !in key
  {
    forall i | 0 <= i < |key| ensures key[i] != Dash {
      assert Decimal.IsDigit(key[i]);
    }
  }

  /** In a + [b] + c with b not in a, the first b is the one after a. */
  lemma FirstIndexAfterFree(a: Bytes, c: Bytes, b: byte)
    requires b !in a
    ensures FirstIndex(a + [b] + c, b) == Some(|a|)
  {
    var s := a + [b] + c;
    var r := FirstIndex(s, b);
    assert s[|a|] == b;
    assert r.Some?;
    assert s[..|a|] == a;
    assert r.value <= |a|;
  }

  /** Every name ParseFinal accepts is the final name of the key and stamp it reads. */
  lemma ParseFinalSound(dir: Bytes, name: Bytes, key: Bytes, stamp: int)
    requires ParseFinal(dir, name) == Some((key, stamp))
    ensures name == FinalName(dir, key, stamp)
  {
    var p := dir + [Slash];
    assert |name| >= |p| + |StdoutSuffix| && name[..|p|] == p && name[|name| - |StdoutSuffix|..] == StdoutSuffix;
    var body := name[|p|..|name| - |StdoutSuffix|];
    var fi := FirstIndex(body, Dash);
    assert fi.Some?;
    var i := fi.value;
    var num := body[i + 1..];
    assert key == body[..i] && Decimal.ToInt(num) == Some(stamp);
    Decimal.FromIntToInt(num);
    Around(body, i);
    Recompose(name, |p|, |StdoutSuffix|);
    assert name == p + (key + [Dash] + num) + StdoutSuffix;
  }

  /** A sequence is its part before i, its element at i, and its part after i. */
  lemma Around(s: Bytes, i: nat)
    requires i < |s|
    ensures s == s[..i] + [s[i]] + s[i + 1..]
  {
  }

  /** A sequence is its first a elements, its middle, and its last b elements. */
  lemma Recompose(s: Bytes, a: nat, b: nat)
    requires a + b <= |s|
    ensures s == s[..a] + s[a..|s| - b] + s[|s| - b..]
  {
  }

  /** Every name ParseTemp accepts is the temporary name of the key and stamp it reads. */
  lemma ParseTempSound(dir: Bytes, name: Bytes, key: Bytes, stamp: int)
    requires ParseTemp(dir, name) == Some((key, stamp))
    ensures name == TempName(dir, key, stamp)
  {
    var f := name[..|name| - |TmpSuffix|];
    ParseFinalSound(dir, f, key, stamp);
    assert name == f + TmpSuffix;
  }

  /** Final names in one directory with digit-string keys determine key and stamp. */
  lemma FinalNameInjective(dir: Bytes, k1: Bytes, s1: int, k2: Bytes, s2: int)
    requires Decimal.AllDigits(k1) && Decimal.AllDigits(k2)
    requires FinalName(dir, k1, s1) == FinalName(dir, k2, s2)
    ensures k1 == k2 && s1 == s2
  {
  }

  /** Two times in the same bucket share the final name (TestFile's f1 == f4). */
  lemma SameBucketSameFile(dir: Bytes, key: Bytes, t1: int, t2: int, d: int)
    requires d > 0 && t1 / d == t2 / d
    ensures File(dir, key, t1, d).0 == File(dir, key, t2, d).0
  {
    GoTime.SameBucket(t1, t2, d);
  }

  /** Different keys give different final names, whatever the times (TestFile's f1 != f2). */
  lemma DistinctKeysDistinctFiles(dir: Bytes, k1: Bytes, k2: Bytes, t1: int, t2: int, d: int)
    requires Decimal.AllDigits(k1) && Decimal.AllDigits(k2) && k1 != k2
    ensures File(dir, k1, t1, d).0 != File(dir, k2, t2, d).0
  {
    var f1 := File(dir, k1, t1, d);
    var f2 := File(dir, k2, t2, d);
  }

  /**
   * With a bucket of a whole number of seconds, different buckets give
   * different final names whenever both bucket starts are times Go can
   * represent (TestFile's f1 != f3).
   */
  lemma DistinctBucketsDistinctFiles(dir: Bytes, key: Bytes, t1: int, t2: int, d: int)
    requires Decimal.AllDigits(key)
    requires d > 0 && d % GoTime.NanosPerSecond == 0
    requires t1 / d != t2 / d
    requires GoTime.InInt64(GoTime.Truncate(t1, d) / GoTime.NanosPerSecond)
    requires GoTime.InInt64(GoTime.Truncate(t2, d) / GoTime.NanosPerSecond)
    ensures File(dir, key, t1, d).0 != File(dir, key, t2, d).0
  {
    var b1 := GoTime.Truncate(t1, d);
    var b2 := GoTime.Truncate(t2, d);
    GoTime.SameBucket(t1, t2, d);
    WholeSeconds(b1, d);
    WholeSeconds(b2, d);
    GoTime.UnixInjective(b1, b2);
    var f1 := File(dir, key, t1, d);
    var f2 := File(dir, key, t2, d);
  }

  /** A multiple of a whole number of seconds is a whole number of seconds. */
  lemma WholeSeconds(b: int, d: int)
    requires d > 0 && d % GoTime.NanosPerSecond == 0 && b % d == 0
    ensures b == (b / GoTime.NanosPerSecond) * GoTime.NanosPerSecond
  {
    var c := d / GoTime.NanosPerSecond;
    var j := b / d;
    assert b == j * d;
    assert d == c * GoTime.NanosPerSecond;
    assert b == (j * c) * GoTime.NanosPerSecond;
    GoTime.DivModUnique(b, GoTime.NanosPerSecond, j * c, 0);
  }

  /** TestFile's f1 != f2: at time.Time{} with a five-minute bucket, keys "123" and "124" differ. */
  lemma FileTestKeys(dir: Bytes)
    ensures File(dir, Ascii("123"), 0, 5 * GoTime.Minute).0 != File(dir, Ascii("124"), 0, 5 * GoTime.Minute).0
  {
    assert Ascii("123") == [0x31, 0x32, 0x33];
    assert Ascii("124") == [0x31, 0x32, 0x34];
    DistinctKeysDistinctFiles(dir, Ascii("123"), Ascii("124"), 0, 0, 5 * GoTime.Minute);
  }

  /** TestFile's f1 != f3: ten minutes after time.Time{} is another five-minute bucket. */
  lemma FileTestBuckets(dir: Bytes)
    ensures File(dir, Ascii("123"), 0, 5 * GoTime.Minute).0 != File(dir, Ascii("123"), 10 * GoTime.Minute, 5 * GoTime.Minute).0
  {
    var d := 5 * GoTime.Minute;
    assert Ascii("123") == [0x31, 0x32, 0x33];
    assert GoTime.Truncate(0, d) == 0;
    assert GoTime.Truncate(10 * GoTime.Minute, d) == 10 * GoTime.Minute;
    DistinctBucketsDistinctFiles(dir, Ascii("123"), 0, 10 * GoTime.Minute, d);
  }

  /** TestFile's f1 == f4: five seconds after time.Time{} is the same five-minute bucket. */
  lemma FileTestSameBucket(dir: Bytes)
    ensures File(dir, Ascii("123"), 0, 5 * GoTime.Minute).0 == File(dir, Ascii("123"), 5 * GoTime.NanosPerSecond, 5 * GoTime.Minute).0
  {
    SameBucketSameFile(dir, Ascii("123"), 0, 5 * GoTime.NanosPerSecond, 5 * GoTime.Minute);
  }

  /**
   * With a bucket shorter than a second, two different buckets can share a
   * final name, because the name records whole seconds only: 0 s and 0.5 s
   * with a 500 ms bucket.
   */
  lemma SubSecondBucketsShareFile(dir: Bytes, key: Bytes)
    ensures GoTime.Truncate(0, 500_000_000) != GoTime.Truncate(500_000_000, 500_000_000)
    ensures File(dir, key, 0, 500_000_000).0 == File(dir, key, 500_000_000, 500_000_000).0
  {
    assert GoTime.Unix(0) == GoTime.Unix(500_000_000);
  }
}
