/** Sequence helpers shared by the handlers and the reports: mapping, flattening, and two splitting facts. */
module Seqs {

  /** `f` applied to each element, in order. */
  function MapSeq<A, B>(xs: seq<A>, f: A -> B): (r: seq<B>)
    ensures |r| == |xs|
  {
    if xs == [] then [] else MapSeq(xs[..|xs| - 1], f) + [f(xs[|xs| - 1])]
  }

  lemma {:induction false} MapSeqAt<A, B>(xs: seq<A>, f: A -> B, i: nat)
    requires i < |xs|
    ensures MapSeq(xs, f)[i] == f(xs[i])
    decreases |xs|
  {
    var n := |xs| - 1;
    if n == 0 {
      assert MapSeq(xs[..n], f) == [];
    } else if i == n {
      MapSeqAt(xs[..n], f, 0);
    } else {
      MapSeqAt(xs[..n], f, i);
      assert xs[..n][i] == xs[i];
    }
  }

  /** Every element of the image, at once. */
  lemma MapSeqAll<A, B>(xs: seq<A>, f: A -> B)
    ensures forall i :: 0 <= i < |xs| ==> MapSeq(xs, f)[i] == f(xs[i])
  {
    forall i | 0 <= i < |xs|
      ensures MapSeq(xs, f)[i] == f(xs[i])
    {
      MapSeqAt(xs, f, i);
    }
  }

  /** Indexing into a sequence with one element put in front. */
  lemma ConsIndex<T>(x: T, xs: seq<T>)
    ensures |[x] + xs| == |xs| + 1 && ([x] + xs)[0] == x
    ensures forall j :: 0 <= j < |xs| ==> ([x] + xs)[1 + j] == xs[j]
  {
  }

  /** Indexing into the front part of a concatenation. */
  lemma PrefixIndex<T>(a: seq<T>, b: seq<T>)
    ensures |a + b| == |a| + |b|
    ensures forall j :: 0 <= j < |a| ==> (a + b)[j] == a[j]
    ensures forall j :: 0 <= j < |b| ==> (a + b)[|a| + j] == b[j]
  {
  }

  lemma MapSeqSnoc<A, B>(xs: seq<A>, x: A, f: A -> B)
    ensures MapSeq(xs + [x], f) == MapSeq(xs, f) + [f(x)]
  {
    assert (xs + [x])[..|xs|] == xs;
  }

  lemma AppendAssoc<T>(a: seq<T>, b: seq<T>, c: seq<T>)
    ensures a + b + c == a + (b + c)
  {
  }

  lemma TakeSnoc<T>(xs: seq<T>, i: nat)
    requires i < |xs|
    ensures xs[..i + 1] == xs[..i] + [xs[i]]
  {
  }

  /** A concatenation split before the last element of its second part. */
  lemma AppendSnoc<T>(a: seq<T>, b: seq<T>)
    requires b != []
    ensures a + b == (a + b[..|b| - 1]) + [b[|b| - 1]]
  {
    assert b == b[..|b| - 1] + [b[|b| - 1]];
  }

  lemma ConsTakeSnoc<T>(x: T, xs: seq<T>, i: nat)
    requires i < |xs|
    ensures [x] + xs[..i + 1] == [x] + xs[..i] + [xs[i]]
  {
    assert xs[..i + 1] == xs[..i] + [xs[i]];
  }

  lemma SnocSnoc<T>(xs: seq<T>, x: T, y: T)
    ensures xs + [x] + [y] == xs + [x, y]
  {
  }

  /** The pieces one after the other. */
  function Flatten<T>(pieces: seq<seq<T>>): seq<T>
  {
    if pieces == [] then []
    else Flatten(pieces[..|pieces| - 1]) + pieces[|pieces| - 1]
  }

  lemma FlattenSnoc<T>(pieces: seq<seq<T>>, x: seq<T>)
    ensures Flatten(pieces + [x]) == Flatten(pieces) + x
  {
    assert (pieces + [x])[..|pieces|] == pieces;
  }

  /** Every element of every piece is in the flattening. */
  lemma {:induction false} FlattenHas<T>(pieces: seq<seq<T>>, i: nat, k: nat)
    requires i < |pieces| && k < |pieces[i]|
    ensures pieces[i][k] in Flatten(pieces)
  {
    var n := |pieces| - 1;
    var rest := Flatten(pieces[..n]);
    if i == n {
      assert (rest + pieces[n])[|rest| + k] == pieces[i][k];
    } else {
      assert pieces[..n][i] == pieces[i];
      FlattenHas(pieces[..n], i, k);
    }
  }

  /** Every element of the flattening comes from one of the pieces. */
  lemma {:induction false} FlattenOrigin<T>(pieces: seq<seq<T>>, x: T) returns (i: nat)
    requires x in Flatten(pieces)
    ensures i < |pieces| && x in pieces[i]
  {
    var n := |pieces| - 1;
    if x in pieces[n] {
      i := n;
    } else {
      i := FlattenOrigin(pieces[..n], x);
    }
  }
}
