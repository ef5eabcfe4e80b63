/** Optional values, standing in for the nullable pointers of the C interface. */
module Wrappers {

  datatype Option<+T> = None | Some(value: T)
}

/**
  Keys of the trie.  The C library stores `char` strings terminated by NUL, so a
  key is a sequence of bytes none of which is zero; the empty key is stored at
  the root.  A node of the trie is identified by the path of edge bytes that
  leads to it from the root, so paths and keys share one type.
 */
module Keys {

  newtype byte = x: int | 0 <= x < 256

  type Path = seq<byte>

  predicate NulFree(s: Path) {
    forall i :: 0 <= i < |s| ==> s[i] != 0
  }

  /** A key as the C interface can express it: a string without embedded NUL. */
  type Key = s: Path | NulFree(s) witness []

  /** The node above `p`, for a non-root path. */
  function Parent(p: Path): Path
    requires p != []
  {
    p[..|p| - 1]
  }

  /** The edge byte that leads into `p` from its parent. */
  function Last(p: Path): byte
    requires p != []
  {
    p[|p| - 1]
  }

  /**
    Hamming distance: the number of positions at which two strings of equal
    length differ.  Defined from the end, the way a depth-first walk extends a
    path one byte at a time.
   */
  function Hamming(a: Path, b: Path): nat
    requires |a| == |b|
    decreases |a|
  {
    if |a| == 0 then 0
    else Hamming(Parent(a), Parent(b)) + (if Last(a) == Last(b) then 0 else 1)
  }

  /** Extending both strings by one byte adds one exactly when the bytes differ. */
  lemma HammingSnoc(a: Path, b: Path, x: byte, y: byte)
    requires |a| == |b|
    ensures Hamming(a + [x], b + [y]) == Hamming(a, b) + (if x == y then 0 else 1)
  {
    assert Parent(a + [x]) == a;
    assert Parent(b + [y]) == b;
  }

  /** The distance between two prefixes never exceeds the distance between the wholes. */
  lemma {:induction false} HammingPrefix(a: Path, b: Path, i: nat)
    requires |a| == |b| && i <= |a|
    ensures Hamming(a[..i], b[..i]) <= Hamming(a, b)
    decreases |a| - i
  {
    if i < |a| {
      HammingPrefix(a, b, i + 1);
      HammingSnoc(a[..i], b[..i], a[i], b[i]);
      assert a[..i + 1] == a[..i] + [a[i]];
      assert b[..i + 1] == b[..i] + [b[i]];
    } else {
      assert a[..i] == a && b[..i] == b;
    }
  }

  /** Distance zero means equal strings, and only then. */
  lemma {:induction false} HammingZero(a: Path, b: Path)
    requires |a| == |b|
    ensures Hamming(a, b) == 0 <==> a == b
    decreases |a|
  {
    if |a| > 0 {
      HammingZero(Parent(a), Parent(b));
      assert a == Parent(a) + [Last(a)];
      assert b == Parent(b) + [Last(b)];
    }
  }

  lemma {:induction false} HammingSymmetric(a: Path, b: Path)
    requires |a| == |b|
    ensures Hamming(a, b) == Hamming(b, a)
    decreases |a|
  {
    if |a| > 0 {
      HammingSymmetric(Parent(a), Parent(b));
    }
  }
}
