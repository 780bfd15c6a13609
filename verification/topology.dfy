/** Face topology as the cache stores it: a face-count array and a face-index
    array in which each face's vertex list is stored in reverse order
    (AlembicPolyMsh.cpp:165-173, 291-302), and the host's "polies" layout that
    the reader rebuilds from it, a count followed by that face's indices
    (AlembicPolyMsh.cpp:963-985). */
module Topology {

  function Reverse<T>(s: seq<T>): seq<T> {
    seq(|s|, k requires 0 <= k < |s| => s[|s| - 1 - k])
  }

  function Sum(xs: seq<int>): int {
    if xs == [] then 0 else Sum(xs[..|xs| - 1]) + xs[|xs| - 1]
  }

  /** The vertex count of every face. */
  function FaceSizes<T>(faces: seq<seq<T>>): seq<int> {
    seq(|faces|, i requires 0 <= i < |faces| => |faces[i]|)
  }

  /** Counts that are non-negative and do not run past an array of length n. */
  predicate Fits(counts: seq<int>, n: int) {
    (forall i :: 0 <= i < |counts| ==> counts[i] >= 0) && Sum(counts) <= n
  }

  /** The faces' lists one after the other, in their own order. */
  function Concat<T>(faces: seq<seq<T>>): seq<T> {
    if faces == [] then [] else Concat(faces[..|faces| - 1]) + faces[|faces| - 1]
  }

  /** The faces' lists one after the other, each reversed: the encoder's
      traversal order. */
  function ReversedConcat<T>(faces: seq<seq<T>>): seq<T> {
    if faces == [] then [] else ReversedConcat(faces[..|faces| - 1]) + Reverse(faces[|faces| - 1])
  }

  /** Cuts xs into consecutive runs of the given lengths and reverses each
      run: the read-back order of per-face-vertex values. Only meaningful
      when the counts fit xs (then no run is cut short). */
  function ReverseEachFace<T>(counts: seq<int>, xs: seq<T>): seq<T> {
    if counts == [] then []
    else if 0 <= Sum(counts[..|counts| - 1]) <= Sum(counts) <= |xs| then
      ReverseEachFace(counts[..|counts| - 1], xs) + Reverse(xs[Sum(counts[..|counts| - 1])..Sum(counts)])
    else []
  }

  /** The host polygon layout the reader builds: for each face its count,
      then its run of xs read back to front. Only meaningful when the counts
      fit xs. */
  function Polies(counts: seq<int>, xs: seq<int>): seq<int> {
    if counts == [] then []
    else if 0 <= Sum(counts[..|counts| - 1]) <= Sum(counts) <= |xs| then
      Polies(counts[..|counts| - 1], xs) + [counts[|counts| - 1]]
        + Reverse(xs[Sum(counts[..|counts| - 1])..Sum(counts)])
    else []
  }

  /** The host layout of a list of faces: each face's size followed by its
      vertex indices in the host's own order. */
  function Interleaved(faces: seq<seq<int>>): seq<int> {
    if faces == [] then []
    else Interleaved(faces[..|faces| - 1]) + [|faces[|faces| - 1]|] + faces[|faces| - 1]
  }

  lemma {:induction false} SumNonNegative(counts: seq<int>)
    requires forall i :: 0 <= i < |counts| ==> counts[i] >= 0
    ensures Sum(counts) >= 0
  {
    if counts != [] {
      SumNonNegative(counts[..|counts| - 1]);
    }
  }

  /** A prefix of fitting counts fits, and the next run lies inside the array. */
  lemma {:induction false} FitsPrefix(counts: seq<int>, n: int, j: nat)
    requires Fits(counts, n) && j <= |counts|
    ensures Fits(counts[..j], n)
    ensures 0 <= Sum(counts[..j]) <= Sum(counts)
    ensures j < |counts| ==> Sum(counts[..j + 1]) == Sum(counts[..j]) + counts[j] <= Sum(counts)
  {
    if j == |counts| {
      assert counts[..j] == counts;
      SumNonNegative(counts);
    } else {
      var init := counts[..|counts| - 1];
      FitsPrefix(init, n, j);
      assert init[..j] == counts[..j];
      if j + 1 < |counts| {
        assert init[..j + 1] == counts[..j + 1];
      } else {
        assert counts[..j + 1] == counts;
        assert counts[..j + 1][..j] == counts[..j];
      }
    }
  }

  /** The encoder's traversal holds every face vertex once: its length is the
      total of the face sizes, which fit it exactly. */
  lemma {:induction false} ReversedConcatLength<T>(faces: seq<seq<T>>)
    ensures |ReversedConcat(faces)| == Sum(FaceSizes(faces))
    ensures Fits(FaceSizes(faces), |ReversedConcat(faces)|)
  {
    if faces != [] {
      ReversedConcatLength(faces[..|faces| - 1]);
      assert FaceSizes(faces)[..|faces| - 1] == FaceSizes(faces[..|faces| - 1]);
    }
  }

  /** The layout holds one count per face plus every face's run. */
  lemma {:induction false} PoliesLength(counts: seq<int>, xs: seq<int>)
    requires Fits(counts, |xs|)
    ensures |Polies(counts, xs)| == |counts| + Sum(counts)
  {
    if counts != [] {
      FitsPrefix(counts, |xs|, |counts| - 1);
      assert counts[..|counts|] == counts;
      PoliesLength(counts[..|counts| - 1], xs);
    }
  }

  /** The per-face reversal keeps every value of the runs and no more. */
  lemma {:induction false} ReverseEachFaceLength<T>(counts: seq<int>, xs: seq<T>)
    requires Fits(counts, |xs|)
    ensures |ReverseEachFace(counts, xs)| == Sum(counts)
  {
    if counts != [] {
      FitsPrefix(counts, |xs|, |counts| - 1);
      assert counts[..|counts|] == counts;
      ReverseEachFaceLength(counts[..|counts| - 1], xs);
    }
  }

  lemma ReverseReverse<T>(s: seq<T>)
    ensures Reverse(Reverse(s)) == s
  {
  }

  lemma SliceOfAppend<T>(xs: seq<T>, ys: seq<T>, lo: int, hi: int)
    requires 0 <= lo <= hi <= |xs|
    ensures (xs + ys)[lo..hi] == xs[lo..hi]
  {
  }

  /** Polies reads only the first Sum(counts) entries of xs. */
  lemma {:induction false} PoliesPrefix(counts: seq<int>, xs: seq<int>, ys: seq<int>)
    requires Fits(counts, |xs|)
    ensures Polies(counts, xs + ys) == Polies(counts, xs)
  {
    if counts != [] {
      var init := counts[..|counts| - 1];
      FitsPrefix(counts, |xs|, |counts| - 1);
      assert counts[..|counts|] == counts;
      PoliesPrefix(init, xs, ys);
      SliceOfAppend(xs, ys, Sum(init), Sum(counts));
    }
  }

  /** ReverseEachFace reads only the first Sum(counts) entries of xs. */
  lemma {:induction false} ReverseEachFacePrefix<T>(counts: seq<int>, xs: seq<T>, ys: seq<T>)
    requires Fits(counts, |xs|)
    ensures ReverseEachFace(counts, xs + ys) == ReverseEachFace(counts, xs)
  {
    if counts != [] {
      var init := counts[..|counts| - 1];
      FitsPrefix(counts, |xs|, |counts| - 1);
      assert counts[..|counts|] == counts;
      ReverseEachFacePrefix(init, xs, ys);
      SliceOfAppend(xs, ys, Sum(init), Sum(counts));
    }
  }

  /** Topology round trip: reading back what the encoder stored gives every
      face's size followed by its vertices in their original order. */
  lemma {:induction false} TopologyRoundTrip(faces: seq<seq<int>>)
    ensures Fits(FaceSizes(faces), |ReversedConcat(faces)|)
    ensures Polies(FaceSizes(faces), ReversedConcat(faces)) == Interleaved(faces)
  {
    ReversedConcatLength(faces);
    if faces != [] {
      var init := faces[..|faces| - 1];
      var last := faces[|faces| - 1];
      var counts := FaceSizes(faces);
      assert counts[..|counts| - 1] == FaceSizes(init);
      ReversedConcatLength(init);
      TopologyRoundTrip(init);
      PoliesPrefix(FaceSizes(init), ReversedConcat(init), Reverse(last));
      assert ReversedConcat(faces)[Sum(FaceSizes(init))..Sum(counts)] == Reverse(last);
      ReverseReverse(last);
    }
  }

  /** The per-face reversal the normals reader applies undoes the encoder's
      traversal: the values come back in the faces' own order. */
  lemma {:induction false} FaceReversalRoundTrip<T>(faces: seq<seq<T>>)
    ensures Fits(FaceSizes(faces), |ReversedConcat(faces)|)
    ensures ReverseEachFace(FaceSizes(faces), ReversedConcat(faces)) == Concat(faces)
  {
    ReversedConcatLength(faces);
    if faces != [] {
      var init := faces[..|faces| - 1];
      var last := faces[|faces| - 1];
      var counts := FaceSizes(faces);
      assert counts[..|counts| - 1] == FaceSizes(init);
      ReversedConcatLength(init);
      FaceReversalRoundTrip(init);
      ReverseEachFacePrefix(FaceSizes(init), ReversedConcat(init), Reverse(last));
      assert ReversedConcat(faces)[Sum(FaceSizes(init))..Sum(counts)] == Reverse(last);
      ReverseReverse(last);
    }
  }

  /** One face more of the encoder's traversal. */
  lemma ReversedConcatStep<T>(faces: seq<seq<T>>, i: nat)
    requires i < |faces|
    ensures ReversedConcat(faces[..i + 1]) == ReversedConcat(faces[..i]) + Reverse(faces[i])
    ensures FaceSizes(faces[..i]) == FaceSizes(faces)[..i]
  {
    assert faces[..i + 1][..i] == faces[..i];
  }

  lemma PoliesUnfold(counts: seq<int>, xs: seq<int>)
    requires counts != [] && 0 <= Sum(counts[..|counts| - 1]) <= Sum(counts) <= |xs|
    ensures Polies(counts, xs) == Polies(counts[..|counts| - 1], xs) + [counts[|counts| - 1]]
                                  + Reverse(xs[Sum(counts[..|counts| - 1])..Sum(counts)])
  {
  }

  /** One face more of the polies layout. */
  lemma PoliesStep(counts: seq<int>, xs: seq<int>, j: nat)
    requires Fits(counts, |xs|) && j < |counts|
    ensures 0 <= Sum(counts[..j]) && Sum(counts[..j + 1]) == Sum(counts[..j]) + counts[j] <= |xs|
    ensures Polies(counts[..j + 1], xs)
         == Polies(counts[..j], xs) + [counts[j]] + Reverse(xs[Sum(counts[..j])..Sum(counts[..j + 1])])
  {
    FitsPrefix(counts, |xs|, j);
    var c := counts[..j + 1];
    assert c[..|c| - 1] == counts[..j] && c[|c| - 1] == counts[j];
    PoliesUnfold(c, xs);
  }

  lemma ReverseEachFaceUnfold<T>(counts: seq<int>, xs: seq<T>)
    requires counts != [] && 0 <= Sum(counts[..|counts| - 1]) <= Sum(counts) <= |xs|
    ensures ReverseEachFace(counts, xs)
         == ReverseEachFace(counts[..|counts| - 1], xs) + Reverse(xs[Sum(counts[..|counts| - 1])..Sum(counts)])
  {
  }

  /** One face more of the per-face reversal. */
  lemma ReverseEachFaceStep<T>(counts: seq<int>, xs: seq<T>, j: nat)
    requires Fits(counts, |xs|) && j < |counts|
    ensures 0 <= Sum(counts[..j]) && Sum(counts[..j + 1]) == Sum(counts[..j]) + counts[j] <= |xs|
    ensures ReverseEachFace(counts[..j + 1], xs)
         == ReverseEachFace(counts[..j], xs) + Reverse(xs[Sum(counts[..j])..Sum(counts[..j + 1])])
  {
    FitsPrefix(counts, |xs|, j);
    var c := counts[..j + 1];
    assert c[..|c| - 1] == counts[..j];
    ReverseEachFaceUnfold(c, xs);
  }

  /** The first k entries of a reversal, grown by one. */
  lemma ReversePrefixStep<T>(s: seq<T>, k: nat)
    requires k < |s|
    ensures Reverse(s)[..k + 1] == Reverse(s)[..k] + [s[|s| - 1 - k]]
  {
  }

  /** The traversal of the first i faces plus face i fits in the whole. */
  lemma TraversalPrefix<T>(faces: seq<seq<T>>, i: nat)
    requires i < |faces|
    ensures ReversedConcat(faces[..i + 1]) == ReversedConcat(faces[..i]) + Reverse(faces[i])
    ensures |ReversedConcat(faces[..i])| + |faces[i]| <= |ReversedConcat(faces)|
  {
    ReversedConcatStep(faces, i);
    ReversedConcatLength(faces);
    ReversedConcatLength(faces[..i]);
    FitsPrefix(FaceSizes(faces), |ReversedConcat(faces)|, i);
  }

  /** Entry m of face i's run in the per-face reversal is that run's entry m
      counted from its end. */
  lemma {:induction false} ReverseEachFaceAt<T>(counts: seq<int>, xs: seq<T>, i: nat, m: nat)
    requires Fits(counts, |xs|) && i < |counts| && m < counts[i]
    ensures 0 <= Sum(counts[..i]) && Sum(counts[..i]) + counts[i] <= Sum(counts) <= |xs|
    ensures |ReverseEachFace(counts, xs)| == Sum(counts)
    ensures ReverseEachFace(counts, xs)[Sum(counts[..i]) + m] == xs[Sum(counts[..i]) + counts[i] - 1 - m]
  {
    var n := |counts|;
    var init := counts[..n - 1];
    FitsPrefix(counts, |xs|, i);
    FitsPrefix(counts, |xs|, n - 1);
    assert counts[..n] == counts;
    ReverseEachFaceUnfold(counts, xs);
    ReverseEachFaceLength(init, xs);
    if i < n - 1 {
      assert init[..i] == counts[..i];
      ReverseEachFaceAt(init, xs, i, m);
    } else {
      assert init == counts[..i];
    }
  }

  /** The traversal of the first i faces is a prefix of the whole traversal. */
  lemma {:induction false} TraversalIsPrefix<T>(faces: seq<seq<T>>, i: nat)
    requires i <= |faces|
    ensures |ReversedConcat(faces[..i])| <= |ReversedConcat(faces)|
    ensures ReversedConcat(faces)[..|ReversedConcat(faces[..i])|] == ReversedConcat(faces[..i])
    decreases |faces| - i
  {
    if i == |faces| {
      assert faces[..i] == faces;
    } else {
      TraversalIsPrefix(faces, i + 1);
      ReversedConcatStep(faces, i);
    }
  }

  /** Entry m of face i's reversed run sits in the whole traversal right after
      the traversal of the faces before it. */
  lemma TraversalAt<T>(faces: seq<seq<T>>, i: nat, m: nat)
    requires i < |faces| && m < |faces[i]|
    ensures |ReversedConcat(faces[..i])| + m < |ReversedConcat(faces)|
    ensures ReversedConcat(faces)[|ReversedConcat(faces[..i])| + m] == faces[i][|faces[i]| - 1 - m]
  {
    TraversalPrefix(faces, i);
    TraversalIsPrefix(faces, i + 1);
    var p := ReversedConcat(faces[..i]);
    var q := ReversedConcat(faces[..i + 1]);
    assert q[|p| + m] == Reverse(faces[i])[m];
    assert ReversedConcat(faces)[..|q|][|p| + m] == q[|p| + m];
  }
}
