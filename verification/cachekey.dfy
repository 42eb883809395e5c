/**
 * Cache-key derivation: the arguments joined with "_", hashed with 64-bit
 * FNV-1a, rendered as an unsigned decimal numeral (`hash` in main.go). With
 * `-c` the working directory is hashed as an extra first argument.
 */
module CacheKey {
  import opened Text
  import opened Wrappers
  import Decimal
  import Fnv

  /** hash(args): the key of an argument list. */
  function Hash(args: seq<Bytes>): (key: Bytes)
    ensures Decimal.IsCanonical(key)
    ensures Decimal.ToNat(key) == Fnv.Sum64a(Join(args, Underscore)) as nat
  {
    var h := Fnv.Sum64a(Join(args, Underscore));
    Decimal.FromNat(h as nat)
  }

  /** Two argument lists get the same key exactly when their joined forms hash alike. */
  lemma HashDependsOnlyOnSum(a: seq<Bytes>, b: seq<Bytes>)
    ensures Hash(a) == Hash(b) <==> Fnv.Sum64a(Join(a, Underscore)) == Fnv.Sum64a(Join(b, Underscore))
  {
    NumeralsOfSums(Fnv.Sum64a(Join(a, Underscore)), Fnv.Sum64a(Join(b, Underscore)));
  }

  /** Two 64-bit sums have the same numeral exactly when they are equal. */
  lemma NumeralsOfSums(x: bv64, y: bv64)
    ensures Decimal.FromNat(x as nat) == Decimal.FromNat(y as nat) <==> x == y
  {
    var m, n := x as nat, y as nat;
    NumeralsOfNats(m, n);
    BvEqual(x, y);
  }

  lemma NumeralsOfNats(m: nat, n: nat)
    ensures Decimal.FromNat(m) == Decimal.FromNat(n) <==> m == n
  {
    if Decimal.FromNat(m) == Decimal.FromNat(n) {
      Decimal.FromNatInjective(m, n);
    }
  }

  lemma BvEqual(x: bv64, y: bv64)
    ensures x as nat == y as nat <==> x == y
  {
    BvToNatRoundTrip(x);
    BvToNatRoundTrip(y);
  }

  lemma BvToNatRoundTrip(x: bv64)
    ensures (x as nat) as bv64 == x
  {
  }

  /**
   * The key of the working-directory-prefixed list (`-c`) hashes the
   * directory, one underscore and the joined arguments.
   */
  lemma CwdKey(wd: Bytes, args: seq<Bytes>)
    requires |args| >= 1
    ensures Hash([wd] + args) == Decimal.FromNat(Fnv.Sum64a(wd + [Underscore] + Join(args, Underscore)) as nat)
  {
    JoinCons(wd, args, Underscore);
  }

  /** The key of the invocation: main.go hashes [wd] ++ args under -c, and exits 1 if the working directory is unknown. */
  function KeyFor(hashCwd: bool, wd: Option<Bytes>, args: seq<Bytes>): (key: Option<Bytes>)
    ensures key.None? <==> hashCwd && wd.None?
    ensures key.Some? ==> Decimal.IsCanonical(key.value)
    ensures key.Some? && !hashCwd ==> key.value == Hash(args)
    ensures key.Some? && hashCwd ==> key.value == Hash([wd.value] + args)
  {
    if hashCwd then
      match wd
      case None => None
      case Some(w) => Some(Hash([w] + args))
    else Some(Hash(args))
  }

  /**
   * Argument lists whose elements contain no underscore and that join alike
   * are equal; so among such lists, equal keys come only from FNV collisions.
   */
  lemma JoinDeterminesArgs(a: seq<Bytes>, b: seq<Bytes>)
    requires |a| >= 1 && |b| >= 1
    requires NoneContains(a, Underscore)
    requires NoneContains(b, Underscore)
    requires Join(a, Underscore) == Join(b, Underscore)
    ensures a == b
  {
  }

  /** ["a_b"] and ["a", "b"] join to the same bytes, so they share a key. */
  lemma UnderscoreCollision()
    ensures Hash([Ascii("a_b")]) == Hash([Ascii("a"), Ascii("b")])
  {
    assert Join([Ascii("a"), Ascii("b")], Underscore) == Ascii("a") + [Underscore] + Join([Ascii("b")], Underscore);
    assert Ascii("a") + [Underscore] + Ascii("b") == Ascii("a_b");
  }

  /** The four FNV-1a rounds over the bytes of "a_bc". */
  lemma RoundsOfTestArgs()
    ensures Fnv.Round(Fnv.OffsetBasis64, 0x61) == 0xaf63dc4c8601ec8c
    ensures Fnv.Round(0xaf63dc4c8601ec8c, 0x5F) == 0x089c2907b5456a89
    ensures Fnv.Round(0x089c2907b5456a89, 0x62) == 0xe6c4a31904f4ad51
    ensures Fnv.Round(0xe6c4a31904f4ad51, 0x63) == 0x14ce55836bc24bf6
  {
    assert (0x61 as byte) as bv64 == 0x61;
    assert (0x5F as byte) as bv64 == 0x5F;
    assert (0x62 as byte) as bv64 == 0x62;
    assert (0x63 as byte) as bv64 == 0x63;
  }

  /** FNV-1a-64 of "a_b" and of "a_bc", one round at a time. */
  lemma SumsOfTestArgs()
    ensures Fnv.Sum64a([0x61, 0x5F, 0x62]) == 0xe6c4a31904f4ad51
    ensures Fnv.Sum64a([0x61, 0x5F, 0x62, 0x63]) == 0x14ce55836bc24bf6
  {
    RoundsOfTestArgs();
    SumOfPrefix();
    var d2: Bytes := [0x61, 0x5F];
    SumStep(d2, 0x62, 0x089c2907b5456a89, 0xe6c4a31904f4ad51);
    var d3 := d2 + [0x62];
    SumStep(d3, 0x63, 0xe6c4a31904f4ad51, 0x14ce55836bc24bf6);
    assert d3 == [0x61, 0x5F, 0x62];
    assert d3 + [0x63] == [0x61, 0x5F, 0x62, 0x63];
  }

  /** FNV-1a-64 of "a_", the common prefix of the two test inputs. */
  lemma SumOfPrefix()
    ensures Fnv.Sum64a([0x61, 0x5F]) == 0x089c2907b5456a89
  {
    RoundsOfTestArgs();
    var d0: Bytes := [];
    SumStep(d0, 0x61, Fnv.OffsetBasis64, 0xaf63dc4c8601ec8c);
    var d1 := d0 + [0x61];
    SumStep(d1, 0x5F, 0xaf63dc4c8601ec8c, 0x089c2907b5456a89);
    assert d1 + [0x5F] == [0x61, 0x5F];
  }

  /** One byte more on a hash whose value is known. */
  lemma SumStep(data: Bytes, b: byte, h: bv64, h': bv64)
    requires Fnv.Sum64a(data) == h && Fnv.Round(h, b) == h'
    ensures Fnv.Sum64a(data + [b]) == h'
  {
    Fnv.Sum64aSnoc(data, b);
  }

  /** TestHash in main_test.go: ["a","b"] and ["a","bc"] get different keys. */
  lemma HashTest()
    ensures Hash([Ascii("a"), Ascii("b")]) != Hash([Ascii("a"), Ascii("bc")])
  {
    assert Ascii("a") == [0x61] && Ascii("b") == [0x62] && Ascii("bc") == [0x62, 0x63];
    assert Join([Ascii("a"), Ascii("b")], Underscore) == [0x61, 0x5F, 0x62];
    assert Join([Ascii("a"), Ascii("bc")], Underscore) == [0x61, 0x5F, 0x62, 0x63];
    SumsOfTestArgs();
    HashDependsOnlyOnSum([Ascii("a"), Ascii("b")], [Ascii("a"), Ascii("bc")]);
  }
}
