/** The segment stitcher: recursive pairwise reduction of a list of
    frequency-band segments into one.

    A segment is modelled as the sequence of its samples, lowest frequency
    first. Stitching two adjacent bands is modelled as concatenation, the
    lower band first. The network-file library that really performs the
    stitch is not part of this model; concatenation is the abstraction of it. */
module Stitcher {

  type Segment<T> = seq<T>

  /** Strict left-to-right fold of the segments: the reference the pairwise
      reduction is compared with. */
  function Flatten<T>(segments: seq<Segment<T>>): Segment<T> {
    if |segments| == 0 then [] else Flatten(segments[..|segments| - 1]) + segments[|segments| - 1]
  }

  /** Total number of samples over all segments. */
  function SampleCount<T>(segments: seq<Segment<T>>): nat {
    if |segments| == 0 then 0 else SampleCount(segments[1..]) + |segments[0]|
  }

  /** Iterations `i .. |s|-1` of one pass's loop. An odd `i` appends the
      stitch of elements `i-1` and `i`. When the length is odd, the last
      iteration also appends the last element unchanged. */
  function PassFrom<T>(s: seq<Segment<T>>, i: nat): seq<Segment<T>>
    decreases |s| - i
  {
    if i >= |s| then []
    else
      (if i % 2 == 1 then [s[i - 1] + s[i]] else [])
      + (if |s| % 2 != 0 && i == |s| - 1 then [s[i]] else [])
      + PassFrom(s, i + 1)
  }

  /** One pass of the reduction: the list built by one run of the loop. */
  function Pass<T>(s: seq<Segment<T>>): seq<Segment<T>> {
    PassFrom(s, 0)
  }

  /** From an even index with two elements left, the loop appends their
      stitch (at the odd index) and carries on two further. */
  lemma PassFromPair<T>(s: seq<Segment<T>>, i: nat)
    requires i % 2 == 0 && i + 1 < |s|
    ensures PassFrom(s, i) == [s[i] + s[i + 1]] + PassFrom(s, i + 2)
  {
    var rest := PassFrom(s, i + 2);
    assert (i + 1) % 2 == 1;
    assert i + 1 == |s| - 1 ==> |s| % 2 == 0;
    assert PassFrom(s, i + 1) == [s[i] + s[i + 1]] + [] + rest;
    assert PassFrom(s, i) == [] + [] + PassFrom(s, i + 1);
  }

  /** From an even index at the last element, the length is odd and the loop
      appends that element unchanged. */
  lemma PassFromLast<T>(s: seq<Segment<T>>, i: nat)
    requires i % 2 == 0 && i + 1 == |s|
    ensures PassFrom(s, i) == [s[i]]
  {
    assert |s| % 2 != 0;
  }

  lemma FlattenSingle<T>(x: Segment<T>)
    ensures Flatten([x]) == x
  {
    assert [x][..0] == [];
  }

  lemma {:induction false} PassFromLength<T>(s: seq<Segment<T>>, i: nat)
    requires i % 2 == 0 && i <= |s|
    ensures |PassFrom(s, i)| == (|s| - i + 1) / 2
    decreases |s| - i
  {
    if i == |s| {
    } else if i + 1 == |s| {
      PassFromLast(s, i);
    } else {
      PassFromLength(s, i + 2);
      PassFromPair(s, i);
    }
  }

  /** Output `k` of the tail from an even `i` stitches inputs `i + 2k` and
      `i + 2k + 1`. */
  lemma {:induction false} PassFromAt<T>(s: seq<Segment<T>>, i: nat, k: nat)
    requires i % 2 == 0 && i + 2 * k + 1 < |s|
    ensures k < |PassFrom(s, i)| && PassFrom(s, i)[k] == s[i + 2 * k] + s[i + 2 * k + 1]
    decreases k
  {
    PassFromPair(s, i);
    if k > 0 {
      PassFromAt(s, i + 2, k - 1);
    }
  }

  /** An odd last input ends the tail from any even `i` before it. */
  lemma {:induction false} PassFromOdd<T>(s: seq<Segment<T>>, i: nat)
    requires i % 2 == 0 && i < |s| && |s| % 2 == 1
    ensures (|s| - i) / 2 < |PassFrom(s, i)| && PassFrom(s, i)[(|s| - i) / 2] == s[|s| - 1]
    decreases |s| - i
  {
    if i + 1 == |s| {
      PassFromLast(s, i);
    } else {
      PassFromPair(s, i);
      PassFromOdd(s, i + 2);
      assert (|s| - i) / 2 == (|s| - (i + 2)) / 2 + 1;
    }
  }

  /** What the tail of a pass holds: the pairs that start at or after an even
      index `i`, then the odd element left over. */
  lemma PassFromShape<T>(s: seq<Segment<T>>, i: nat)
    requires i % 2 == 0 && i <= |s|
    ensures |PassFrom(s, i)| == (|s| - i + 1) / 2
    ensures forall k :: 0 <= k < (|s| - i) / 2 ==> PassFrom(s, i)[k] == s[i + 2 * k] + s[i + 2 * k + 1]
    ensures |s| % 2 == 1 ==> PassFrom(s, i)[(|s| - i) / 2] == s[|s| - 1]
  {
    PassFromLength(s, i);
    forall k | 0 <= k < (|s| - i) / 2
      ensures PassFrom(s, i)[k] == s[i + 2 * k] + s[i + 2 * k + 1]
    {
      PassFromAt(s, i, k);
    }
    if |s| % 2 == 1 {
      PassFromOdd(s, i);
    }
  }

  /** One pass maps `n` segments to `ceil(n/2)`: output `k` is the stitch of
      inputs `2k` and `2k+1`, and an odd last input is carried over unchanged
      at the end. */
  lemma PassShape<T>(s: seq<Segment<T>>)
    ensures |Pass(s)| == (|s| + 1) / 2
    ensures forall k :: 0 <= k < |s| / 2 ==> Pass(s)[k] == s[2 * k] + s[2 * k + 1]
    ensures |s| % 2 == 1 ==> Pass(s)[|s| / 2] == s[|s| - 1]
  {
    PassFromShape(s, 0);
  }

  lemma {:induction false} FlattenAppend<T>(a: seq<Segment<T>>, b: seq<Segment<T>>)
    ensures Flatten(a + b) == Flatten(a) + Flatten(b)
    decreases |b|
  {
    if |b| == 0 {
      assert a + b == a;
    } else {
      var last := b[|b| - 1];
      assert (a + b)[..|a + b| - 1] == a + b[..|b| - 1];
      FlattenAppend(a, b[..|b| - 1]);
    }
  }

  /** The pass a pair-or-tail at a time: the tail from even index `i` on
      flattens to the same samples as the inputs from `i` on. */
  lemma {:induction false} PassFromKeepsSamples<T>(s: seq<Segment<T>>, i: nat)
    requires i % 2 == 0 && i <= |s|
    ensures Flatten(PassFrom(s, i)) == Flatten(s[i..])
    decreases |s| - i
  {
    if i == |s| {
      assert s[i..] == [];
    } else if i + 1 == |s| {
      PassFromLast(s, i);
      assert s[i..] == [s[i]];
    } else {
      PassFromKeepsSamples(s, i + 2);
      PassFromPair(s, i);
      var rest := PassFrom(s, i + 2);
      FlattenAppend([s[i] + s[i + 1]], rest);
      FlattenSingle(s[i] + s[i + 1]);
      assert s[i..] == [s[i], s[i + 1]] + s[i + 2..];
      FlattenAppend([s[i], s[i + 1]], s[i + 2..]);
      FlattenAppend([s[i]], [s[i + 1]]);
      assert [s[i], s[i + 1]] == [s[i]] + [s[i + 1]];
      FlattenSingle(s[i]);
      FlattenSingle(s[i + 1]);
    }
  }

  /** A pass never changes the in-order samples. */
  lemma PassKeepsSamples<T>(s: seq<Segment<T>>)
    ensures Flatten(Pass(s)) == Flatten(s)
  {
    PassFromKeepsSamples(s, 0);
    assert s[0..] == s;
  }

  /** `stitch_s2p_list`: a single segment is returned as the list itself;
      otherwise one pass is made and the result is stitched again. The
      result is one segment holding every input sample in input order. An
      empty list never reaches one element (see `PassOfEmpty`), so the source
      never returns on it (Python stops it with RecursionError); the model
      requires a non-empty list. */
  function Stitch<T>(s: seq<Segment<T>>): (r: seq<Segment<T>>)
    requires |s| >= 1
    ensures r == [Flatten(s)]
    decreases |s|
  {
    if |s| == 1 then
      FlattenSingle(s[0]);
      assert s == [s[0]];
      s
    else
      PassShape(s);
      PassKeepsSamples(s);
      Stitch(Pass(s))
  }

  /** A single segment is stitched to itself. */
  lemma StitchSingleton<T>(x: Segment<T>)
    ensures Stitch([x]) == [x]
  {
  }

  /** The pass of an empty list is empty, so the recursion on `[]` makes no
      progress and never reaches the one-element stop. */
  lemma PassOfEmpty<T>(s: seq<Segment<T>>)
    requires |s| == 0
    ensures Pass(s) == s
  {
  }

  /** The stitched segment holds as many samples as all inputs together. */
  lemma {:induction false} StitchSampleCount<T>(s: seq<Segment<T>>)
    requires |s| >= 1
    ensures |Stitch(s)[0]| == SampleCount(s)
  {
    FlattenLength(s);
  }

  lemma {:induction false} FlattenLength<T>(s: seq<Segment<T>>)
    ensures |Flatten(s)| == SampleCount(s)
    decreases |s|
  {
    if |s| > 0 {
      FlattenAppend([s[0]], s[1..]);
      assert [s[0]] + s[1..] == s;
      FlattenSingle(s[0]);
      FlattenLength(s[1..]);
    }
  }
}
