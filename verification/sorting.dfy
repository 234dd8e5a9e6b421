/** Ordering the measurements to plot (`sort_measurements_list`). The ordinal
    of every file is read first, and an unreadable one raises ValueError
    before anything moves. A selection sort then orders the files by ordinal,
    swapping entries of the file list and of the parallel ordinal list in
    lockstep. Each pass picks the FIRST smallest ordinal, because a later
    entry replaces the current choice only when it is strictly smaller. A swap
    can carry an entry past an equal one, so the sort is not stable. */
module MeasurementSort {
  import opened Basics
  import opened Naming

  /** The first loop: the ordinals of a listing, read in order; None is the
      first `ValueError`. */
  function Ordinals(read: Reader, files: seq<string>): (r: Option<seq<int>>)
    ensures r.Some? <==> forall i :: 0 <= i < |files| ==> read(files[i]).Some?
    ensures r.Some? ==> |r.value| == |files|
    ensures r.Some? ==> forall i :: 0 <= i < |files| ==> read(files[i]) == Some(r.value[i])
  {
    if |files| == 0 then Some([])
    else
      match read(files[0])
      case None => None
      case Some(o) =>
        match Ordinals(read, files[1..])
        case None => None
        case Some(rest) => Some([o] + rest)
  }

  predicate Sorted(s: seq<int>) {
    forall i, j :: 0 <= i < j < |s| ==> s[i] <= s[j]
  }

  /** The two lists side by side: entry `k` pairs file `k` with ordinal `k`. */
  function Zip(names: seq<string>, ords: seq<int>): (z: seq<(string, int)>)
    requires |names| == |ords|
    ensures |z| == |names|
    ensures forall k :: 0 <= k < |z| ==> z[k] == (names[k], ords[k])
  {
    seq(|names|, k requires 0 <= k < |names| => (names[k], ords[k]))
  }

  /** Exchanging positions `i` and `m`, as the three-assignment swap does. */
  function Swap<T>(s: seq<T>, i: nat, m: nat): (r: seq<T>)
    requires i < |s| && m < |s|
    ensures |r| == |s| && r[i] == s[m] && r[m] == s[i]
    ensures forall k :: 0 <= k < |s| && k != i && k != m ==> r[k] == s[k]
    ensures multiset(r) == multiset(s)
  {
    s[i := s[m]][m := s[i]]
  }

  /** Swapping both lists at the same positions swaps the pairs. */
  lemma ZipSwap(names: seq<string>, ords: seq<int>, i: nat, m: nat)
    requires |names| == |ords| && i < |names| && m < |names|
    ensures Zip(Swap(names, i, m), Swap(ords, i, m)) == Swap(Zip(names, ords), i, m)
  {
  }

  /** The inner loop: the index of the first smallest ordinal in `ords[i..]`. */
  method SmallestFrom(ords: seq<int>, i: nat) returns (m: nat)
    requires i < |ords|
    ensures i <= m < |ords|
    ensures forall k :: i <= k < |ords| ==> ords[m] <= ords[k]
    ensures forall k :: i <= k < m ==> ords[k] > ords[m]
  {
    m := i;
    var j := i;
    while j < |ords|
      invariant i <= j <= |ords| && i <= m < |ords| && m <= j
      invariant forall k :: i <= k < j ==> ords[m] <= ords[k]
      invariant forall k :: i <= k < m ==> ords[k] > ords[m]
    {
      if ords[j] < ords[m] {
        m := j;
      }
      j := j + 1;
    }
  }

  /** The outer loop over both lists. The result pairs the same files with
      the same ordinals, in a different order, with the ordinals
      non-decreasing. */
  method SortParallel(names: seq<string>, ords: seq<int>) returns (sorted: seq<string>, keys: seq<int>)
    requires |names| == |ords|
    ensures |sorted| == |keys| == |names|
    ensures multiset(Zip(sorted, keys)) == multiset(Zip(names, ords))
    ensures multiset(sorted) == multiset(names)
    ensures Sorted(keys)
  {
    sorted, keys := names, ords;
    var i := 0;
    while i < |keys|
      invariant 0 <= i <= |keys|
      invariant |sorted| == |keys| == |names|
      invariant multiset(Zip(sorted, keys)) == multiset(Zip(names, ords))
      invariant multiset(sorted) == multiset(names)
      invariant forall a, b :: 0 <= a < b < i ==> keys[a] <= keys[b]
      invariant forall a, b :: 0 <= a < i <= b < |keys| ==> keys[a] <= keys[b]
    {
      var m := SmallestFrom(keys, i);
      ZipSwap(sorted, keys, i, m);
      sorted := Swap(sorted, i, m);
      keys := Swap(keys, i, m);
      i := i + 1;
    }
  }

  /** A pair of the result is a pair of the input. */
  lemma PairFromInput(names: seq<string>, ords: seq<int>, sorted: seq<string>, keys: seq<int>, k: nat)
    requires |names| == |ords| && |sorted| == |keys| && k < |sorted|
    requires multiset(Zip(sorted, keys)) == multiset(Zip(names, ords))
    ensures exists j :: 0 <= j < |names| && names[j] == sorted[k] && ords[j] == keys[k]
  {
    var z := Zip(names, ords);
    assert Zip(sorted, keys)[k] in multiset(Zip(sorted, keys));
    assert (sorted[k], keys[k]) in z;
    var j :| 0 <= j < |z| && z[j] == (sorted[k], keys[k]);
  }

  /** Both loops for any ordinal reader. */
  method SortBy(read: Reader, files: seq<string>) returns (r: Option<seq<string>>)
    ensures r.None? <==> exists i :: 0 <= i < |files| && read(files[i]).None?
    ensures r.Some? ==> multiset(r.value) == multiset(files)
    ensures r.Some? ==> forall k :: 0 <= k < |r.value| ==> read(r.value[k]).Some?
    ensures r.Some? ==> forall a, b :: 0 <= a < b < |r.value| ==>
      read(r.value[a]).value <= read(r.value[b]).value
  {
    var ords := Ordinals(read, files);
    if ords.None? {
      return None;
    }
    var sorted, keys := SortParallel(files, ords.value);
    forall k | 0 <= k < |sorted|
      ensures read(sorted[k]) == Some(keys[k])
    {
      PairFromInput(files, ords.value, sorted, keys, k);
    }
    r := Some(sorted);
  }

  /** `sort_measurements_list`: None when some ordinal does not parse.
      Otherwise the same files (as a multiset) ordered by non-decreasing
      ordinal. */
  method SortMeasurements(files: seq<string>) returns (r: Option<seq<string>>)
    ensures r.None? <==> exists i :: 0 <= i < |files| && Ordinal(files[i]).None?
    ensures r.Some? ==> multiset(r.value) == multiset(files)
    ensures r.Some? ==> forall k :: 0 <= k < |r.value| ==> Ordinal(r.value[k]).Some?
    ensures r.Some? ==> forall a, b :: 0 <= a < b < |r.value| ==>
      Ordinal(r.value[a]).value <= Ordinal(r.value[b]).value
  {
    r := SortBy(Ordinal, files);
  }
}
