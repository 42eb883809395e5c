/**
 * Byte strings. Go's `string` is an immutable sequence of bytes, and so are
 * command-line arguments, paths and file contents; they are all modelled as
 * `Bytes`. This module also holds `strings.Join` (and a `Split` to invert it
 * when no element contains the separator).
 */
module Text {

  /** Go's byte, an unsigned 8-bit integer. */
  newtype byte = x: int | 0 <= x < 256

  type Bytes = seq<byte>

  /** The bytes used to build keys and paths. */
  const Underscore: byte := 0x5F
  const Slash: byte := 0x2F
  const Dash: byte := 0x2D
  const Newline: byte := 0x0A

  predicate IsAscii(s: string) {
    forall i :: 0 <= i < |s| ==> s[i] as int < 128
  }

  /** The bytes of an ASCII string literal (the low byte of each character). */
  function Ascii(s: string): (r: Bytes)
    ensures |r| == |s|
    ensures IsAscii(s) ==> forall i :: 0 <= i < |s| ==> r[i] as int == s[i] as int
  {
    seq(|s|, i requires 0 <= i < |s| => (s[i] as int % 256) as byte)
  }

  /** No element of the list contains the separator byte. */
  predicate NoneContains(elems: seq<Bytes>, sep: byte)
  {
    forall i :: 0 <= i < |elems| ==> sep !in elems[i]
  }

  /**
   * strings.Join(elems, sep) for a one-byte separator: the elements in order
   * with one separator between neighbours; the empty list joins to "".
   * Splitting at the separator gives a non-empty list back when no element
   * contains the separator, so such lists are determined by their joined form.
   */
  function Join(elems: seq<Bytes>, sep: byte): (r: Bytes)
    ensures |elems| >= 1 ==> elems[0] <= r
    ensures |elems| >= 1 && NoneContains(elems, sep) ==> Split(r, sep) == elems
  {
    if |elems| == 0 then []
    else if |elems| == 1 then
      assert sep !in elems[0] ==> Split(elems[0], sep) == elems by {
        if sep !in elems[0] {
          SplitFree(elems[0], sep);
        }
      }
      elems[0]
    else
      var rest := Join(elems[1..], sep);
      assert NoneContains(elems, sep) ==> Split(elems[0] + [sep] + rest, sep) == elems by {
        if NoneContains(elems, sep) {
          forall i | 0 <= i < |elems[1..]| ensures sep !in elems[1..][i] {
            assert elems[1..][i] == elems[i + 1];
          }
          SplitPrefix(elems[0], rest, sep);
          assert [elems[0]] + elems[1..] == elems;
        }
      }
      elems[0] + [sep] + rest
  }

  /** The number of separator bytes a joined string holds. */
  function Count(s: Bytes, b: byte): nat
  {
    if |s| == 0 then 0 else (if s[0] == b then 1 else 0) + Count(s[1..], b)
  }

  /** strings.Split(s, sep) for a one-byte separator: the maximal separator-free pieces. */
  function Split(s: Bytes, sep: byte): (r: seq<Bytes>)
    ensures |r| == Count(s, sep) + 1
    ensures forall i :: 0 <= i < |r| ==> sep !in r[i]
  {
    if |s| == 0 then [[]]
    else
      var rest := Split(s[1..], sep);
      if s[0] == sep then [[]] + rest
      else [[s[0]] + rest[0]] + rest[1..]
  }

  /** Splitting a separator-free prefix followed by the separator peels the prefix off. */
  lemma {:induction false} SplitPrefix(a: Bytes, b: Bytes, sep: byte)
    requires sep !in a
    ensures Split(a + [sep] + b, sep) == [a] + Split(b, sep)
  {
    if |a| == 0 {
      assert a + [sep] + b == [sep] + b;
      assert ([sep] + b)[1..] == b;
    } else {
      assert (a + [sep] + b)[1..] == a[1..] + [sep] + b;
      SplitPrefix(a[1..], b, sep);
      assert [a[0]] + a[1..] == a;
    }
  }

  /** A separator-free string splits into itself. */
  lemma {:induction false} SplitFree(a: Bytes, sep: byte)
    requires sep !in a
    ensures Split(a, sep) == [a]
  {
    if |a| > 0 {
      SplitFree(a[1..], sep);
      assert [a[0]] + a[1..] == a;
    }
  }

  /** Prepending an element joins it in front with one separator. */
  lemma JoinCons(x: Bytes, elems: seq<Bytes>, sep: byte)
    requires |elems| >= 1
    ensures Join([x] + elems, sep) == x + [sep] + Join(elems, sep)
  {
    assert ([x] + elems)[1..] == elems;
  }
}
