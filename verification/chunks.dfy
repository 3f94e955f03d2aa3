/** Sequences stored in chunks, as a log stores its entries in blocks. */
module Chunks {

  function Concat<T>(xss: seq<seq<T>>): seq<T> {
    if xss == [] then [] else Concat(xss[..|xss| - 1]) + xss[|xss| - 1]
  }

  lemma ConcatOne<T>(xs: seq<T>)
    ensures Concat([xs]) == xs
  {
    assert [xs][..0] == [];
  }

  lemma ConcatAppend<T>(xss: seq<seq<T>>, xs: seq<T>)
    ensures Concat(xss + [xs]) == Concat(xss) + xs
  {
    assert (xss + [xs])[..|xss|] == xss;
  }

  lemma {:induction false} ConcatSplit<T>(xss: seq<seq<T>>, yss: seq<seq<T>>)
    ensures Concat(xss + yss) == Concat(xss) + Concat(yss)
    decreases |yss|
  {
    var n := |yss| - 1;
    if yss == [] {
      assert xss + yss == xss;
    } else {
      ConcatSplit(xss, yss[..n]);
      assert xss + yss == (xss + yss[..n]) + [yss[n]];
      ConcatAppend(xss + yss[..n], yss[n]);
    }
  }

  lemma ConcatHead<T>(xss: seq<seq<T>>)
    requires xss != []
    ensures Concat(xss) == xss[0] + Concat(xss[1..])
  {
    assert xss == [xss[0]] + xss[1..];
    ConcatSplit([xss[0]], xss[1..]);
    ConcatOne(xss[0]);
  }

  /** All chunks but the last have the same size. */
  ghost predicate Even<T>(xss: seq<seq<T>>, size: nat) {
    forall i :: 0 <= i < |xss| - 1 ==> |xss[i]| == size
  }

  lemma {:induction false} EvenLength<T>(xss: seq<seq<T>>, size: nat)
    requires Even(xss, size) && xss != []
    ensures |Concat(xss)| == size * (|xss| - 1) + |xss[|xss| - 1]|
    decreases |xss|
  {
    var n := |xss| - 1;
    if n == 0 {
      assert xss[..0] == [];
    } else {
      EvenLength(xss[..n], size);
      assert size * n == size * (n - 1) + size;
    }
  }

  /** Where element s of chunk i ends up. */
  lemma {:induction false} EvenPosition<T>(xss: seq<seq<T>>, size: nat, i: nat, s: nat)
    requires Even(xss, size) && i < |xss| && s < |xss[i]|
    ensures 0 <= size * i + s < |Concat(xss)| && Concat(xss)[size * i + s] == xss[i][s]
    decreases |xss|
  {
    var n := |xss| - 1;
    EvenLength(xss, size);
    if i < n {
      EvenPosition(xss[..n], size, i, s);
    } else if n > 0 {
      EvenLength(xss[..n], size);
      assert size * n == size * (n - 1) + size;
    } else {
      assert xss[..0] == [];
    }
  }
}
