/** Stitching a directory of stored segments (`stitch_s_parameter_measurements`).
    A list of `None`s as long as the directory listing is built. Each file is
    then put at index `ordinal - 1`, and the filled list is stitched.

    Python's negative indexing applies to `ordinal - 1`, so an ordinal in
    `1-n .. 0` silently lands in a slot counted from the end. An ordinal
    outside `1-n .. n` raises IndexError. Loading a file into a segment is a
    parameter of the model. */
module Placement {
  import opened Basics
  import opened Naming
  import Stitcher

  /** Why stitching a directory fails. */
  datatype Failure =
    | BadOrdinal(file: string)      // int() raised ValueError
    | SlotOutOfRange(file: string)  // the list index raised IndexError
    | MissingSegment                // a slot still None reached the stitch
    | EmptyDirectory                // stitching [] never returns (RecursionError)

  datatype Placed = Placed(slots: seq<Option<string>>) | PlaceFailed(failure: Failure)

  /** The slot `slots[ordinal - 1]` addresses in a list of length `n`, with
      Python's negative indexing. None stands for the IndexError. */
  function SlotIndex(ordinal: int, n: nat): (r: Option<nat>)
    ensures r.Some? <==> 1 - n <= ordinal <= n
    ensures r.Some? ==> r.value < n
    ensures 1 <= ordinal <= n ==> r == Some(ordinal - 1)
    ensures 1 - n <= ordinal <= 0 ==> r == Some(ordinal - 1 + n)
  {
    var i := ordinal - 1;
    if 0 <= i < n then Some(i) else if 0 <= i + n < n then Some(i + n) else None
  }

  /** The slot a file goes to in a list of length `n`, if any. */
  function Target(read: Reader, file: string, n: nat): Option<nat> {
    match read(file)
    case None => None
    case Some(o) => SlotIndex(o, n)
  }

  /** The placement loop, one file after another: a file whose ordinal does not
      parse or addresses no slot stops the loop; otherwise it overwrites its
      slot. */
  function Fill(read: Reader, slots: seq<Option<string>>, files: seq<string>): (r: Placed)
    ensures r.Placed? ==> |r.slots| == |slots|
    decreases |files|
  {
    if |files| == 0 then Placed(slots)
    else
      var f := files[0];
      match read(f)
      case None => PlaceFailed(BadOrdinal(f))
      case Some(o) =>
        match SlotIndex(o, |slots|)
        case None => PlaceFailed(SlotOutOfRange(f))
        case Some(k) => Fill(read, slots[k := Some(f)], files[1..])
  }

  /** The list of `None`s the first loop builds. */
  function EmptySlots(n: nat): (slots: seq<Option<string>>)
    ensures |slots| == n
    ensures forall k :: 0 <= k < n ==> slots[k].None?
  {
    seq(n, _ => None)
  }

  /** Both loops over the listing: one `None` per entry, then every entry
      placed in listing order. */
  function Place(listing: seq<string>): Placed {
    Fill(Ordinal, EmptySlots(|listing|), listing)
  }

  /** Fill succeeds exactly when every file addresses a slot. */
  lemma {:induction false} FillSucceeds(read: Reader, slots: seq<Option<string>>, files: seq<string>)
    ensures Fill(read, slots, files).Placed? <==> forall i :: 0 <= i < |files| ==> Target(read, files[i], |slots|).Some?
    decreases |files|
  {
    if |files| > 0 {
      var rest := files[1..];
      match Target(read, files[0], |slots|)
      case None =>
      case Some(k) =>
        FillSucceeds(read, slots[k := Some(files[0])], rest);
        assert forall i :: 0 < i < |files| ==> files[i] == rest[i - 1];
    }
  }

  /** After a successful fill, each slot either kept its old content or holds
      a listed file that addresses that slot. */
  lemma {:induction false} FillSound(read: Reader, slots: seq<Option<string>>, files: seq<string>, j: nat)
    requires Fill(read, slots, files).Placed? && j < |slots|
    ensures var out := Fill(read, slots, files).slots;
      || out[j] == slots[j]
      || (out[j].Some? && out[j].value in files && Target(read, out[j].value, |slots|) == Some(j))
    decreases |files|
  {
    if |files| > 0 {
      var k := Target(read, files[0], |slots|).value;
      FillSound(read, slots[k := Some(files[0])], files[1..], j);
    }
  }

  /** A filled slot stays filled. */
  lemma {:induction false} FillKeepsFilled(read: Reader, slots: seq<Option<string>>, files: seq<string>, j: nat)
    requires Fill(read, slots, files).Placed? && j < |slots| && slots[j].Some?
    ensures Fill(read, slots, files).slots[j].Some?
    decreases |files|
  {
    if |files| > 0 {
      var k := Target(read, files[0], |slots|).value;
      FillKeepsFilled(read, slots[k := Some(files[0])], files[1..], j);
    }
  }

  /** A slot that some listed file addresses ends up filled. */
  lemma {:induction false} FillCovers(read: Reader, slots: seq<Option<string>>, files: seq<string>, i: nat, j: nat)
    requires Fill(read, slots, files).Placed? && i < |files| && Target(read, files[i], |slots|) == Some(j)
    ensures Fill(read, slots, files).slots[j].Some?
    decreases i
  {
    var next := slots[Target(read, files[0], |slots|).value := Some(files[0])];
    if i == 0 {
      FillKeepsFilled(read, next, files[1..], j);
    } else {
      assert files[i] == files[1..][i - 1];
      FillCovers(read, next, files[1..], i - 1, j);
    }
  }

  /** Some file of the listing has ordinal `k`. */
  predicate HasOrdinal(read: Reader, files: seq<string>, k: int) {
    exists i :: 0 <= i < |files| && read(files[i]) == Some(k)
  }

  /** The ordinals `read` gives the `n` files are exactly `1..n`. */
  predicate Dense(read: Reader, files: seq<string>) {
    && (forall i :: 0 <= i < |files| ==> read(files[i]).Some? && 1 <= read(files[i]).value <= |files|)
    && (forall k :: 1 <= k <= |files| ==> HasOrdinal(read, files, k))
  }

  /** Under dense ordinals some file addresses slot `k`. */
  lemma DenseWitness(read: Reader, files: seq<string>, k: nat) returns (i: nat)
    requires Dense(read, files) && k < |files|
    ensures i < |files| && Target(read, files[i], |files|) == Some(k)
  {
    assert HasOrdinal(read, files, k + 1);
    i :| 0 <= i < |files| && read(files[i]) == Some(k + 1);
  }

  /** Under dense ordinals a listed file in slot `k` has ordinal `k + 1`. */
  lemma DenseTarget(read: Reader, files: seq<string>, f: string, k: nat)
    requires Dense(read, files) && f in files && Target(read, f, |files|) == Some(k)
    ensures read(f) == Some(k + 1)
  {
    var m :| 0 <= m < |files| && files[m] == f;
    assert read(f).Some? && 1 <= read(f).value <= |files|;
  }

  /** A slot some file addresses ends up holding a listed file that
      addresses it. */
  lemma FillHolds(read: Reader, files: seq<string>, i: nat, k: nat)
    requires Fill(read, EmptySlots(|files|), files).Placed?
    requires i < |files| && Target(read, files[i], |files|) == Some(k)
    ensures var out := Fill(read, EmptySlots(|files|), files).slots;
      out[k].Some? && out[k].value in files && Target(read, out[k].value, |files|) == Some(k)
  {
    FillCovers(read, EmptySlots(|files|), files, i, k);
    FillSound(read, EmptySlots(|files|), files, k);
  }

  /** One slot of a dense placement. */
  lemma FillDenseSlot(read: Reader, files: seq<string>, k: nat)
    requires Dense(read, files) && k < |files|
    requires Fill(read, EmptySlots(|files|), files).Placed?
    ensures var out := Fill(read, EmptySlots(|files|), files).slots;
      out[k].Some? && out[k].value in files && read(out[k].value) == Some(k + 1)
  {
    var i := DenseWitness(read, files, k);
    FillHolds(read, files, i, k);
    var f := Fill(read, EmptySlots(|files|), files).slots[k].value;
    DenseTarget(read, files, f, k);
  }

  /** Dense placement for any ordinal reader: every slot is filled, and slot
      `k-1` holds a listed file whose ordinal is `k`. */
  lemma FillDense(read: Reader, files: seq<string>)
    requires Dense(read, files)
    ensures Fill(read, EmptySlots(|files|), files).Placed?
    ensures forall k :: 0 <= k < |files| ==>
      && Fill(read, EmptySlots(|files|), files).slots[k].Some?
      && Fill(read, EmptySlots(|files|), files).slots[k].value in files
      && read(Fill(read, EmptySlots(|files|), files).slots[k].value) == Some(k + 1)
  {
    var n := |files|;
    forall i | 0 <= i < n
      ensures Target(read, files[i], n).Some?
    {
      assert read(files[i]).Some? && 1 <= read(files[i]).value <= n;
    }
    FillSucceeds(read, EmptySlots(n), files);
    forall k | 0 <= k < n
      ensures var out := Fill(read, EmptySlots(n), files).slots;
        out[k].Some? && out[k].value in files && read(out[k].value) == Some(k + 1)
    {
      FillDenseSlot(read, files, k);
    }
  }

  /** Dense ordinals: when the ordinals of the `n` listed files are exactly
      `1..n`, every slot is filled, slot `k-1` holds a listed file with
      ordinal `k`, and no `None` remains. */
  lemma PlaceDense(listing: seq<string>)
    requires Dense(Ordinal, listing)
    ensures Place(listing).Placed?
    ensures |Place(listing).slots| == |listing|
    ensures forall k :: 0 <= k < |listing| ==>
      && Place(listing).slots[k].Some?
      && Place(listing).slots[k].value in listing
      && Ordinal(Place(listing).slots[k].value) == Some(k + 1)
  {
    FillDense(Ordinal, listing);
  }

  /** When each listed file is the entry of `ref` its ordinal names, a dense
      placement rebuilds `ref`: slot `k` holds `ref[k]`. */
  lemma FillDetermined(read: Reader, files: seq<string>, ref: seq<string>)
    requires Dense(read, files) && |ref| == |files|
    requires forall f :: f in files ==> read(f).Some? && 1 <= read(f).value <= |ref| && ref[read(f).value - 1] == f
    ensures Fill(read, EmptySlots(|files|), files).Placed?
    ensures |Fill(read, EmptySlots(|files|), files).slots| == |files|
    ensures forall k :: 0 <= k < |files| ==> Fill(read, EmptySlots(|files|), files).slots[k] == Some(ref[k])
  {
    FillDense(read, files);
    var out := Fill(read, EmptySlots(|files|), files).slots;
    forall k | 0 <= k < |files|
      ensures out[k] == Some(ref[k])
    {
      var f := out[k].value;
      assert f in files && read(f) == Some(k + 1);
    }
  }

  /** `FillDetermined` for the placement of a directory listing. */
  lemma PlaceDetermined(listing: seq<string>, ref: seq<string>)
    requires Dense(Ordinal, listing) && |ref| == |listing|
    requires forall f :: f in listing ==> Ordinal(f).Some? && 1 <= Ordinal(f).value <= |ref| && ref[Ordinal(f).value - 1] == f
    ensures Place(listing).Placed? && |Place(listing).slots| == |listing|
    ensures forall k :: 0 <= k < |listing| ==> Place(listing).slots[k] == Some(ref[k])
  {
    FillDetermined(Ordinal, listing, ref);
  }

  /** The files of a fully filled list, in slot order. */
  function Present(slots: seq<Option<string>>): (files: seq<string>)
    requires forall k :: 0 <= k < |slots| ==> slots[k].Some?
    ensures |files| == |slots|
    ensures forall k :: 0 <= k < |slots| ==> slots[k] == Some(files[k])
  {
    if |slots| == 0 then [] else [slots[0].value] + Present(slots[1..])
  }

  /** The segments loaded from files, in order. */
  function LoadAll<T>(files: seq<string>, load: string -> Stitcher.Segment<T>): (segments: seq<Stitcher.Segment<T>>)
    ensures |segments| == |files|
    ensures forall k :: 0 <= k < |files| ==> segments[k] == load(files[k])
  {
    if |files| == 0 then [] else [load(files[0])] + LoadAll(files[1..], load)
  }

  datatype Stitched<T> = Stitched(network: Stitcher.Segment<T>) | StitchFailed(failure: Failure)

  /** The stitch step after placement. Placement errors come first. An empty
      list never finishes stitching. A slot still `None` makes the first
      stitch it takes part in fail. */
  function StitchSlots<T>(placed: Placed, load: string -> Stitcher.Segment<T>): (r: Stitched<T>)
    ensures r.Stitched? ==> placed.Placed? && |placed.slots| > 0
    ensures placed.PlaceFailed? ==> r == StitchFailed(placed.failure)
  {
    match placed
    case PlaceFailed(e) => StitchFailed(e)
    case Placed(slots) =>
      if |slots| == 0 then StitchFailed(EmptyDirectory)
      else if exists k :: 0 <= k < |slots| && slots[k].None? then StitchFailed(MissingSegment)
      else Stitched(Stitcher.Stitch(LoadAll(Present(slots), load))[0])
  }

  /** A fully filled, non-empty list stitches to its loaded segments
      concatenated in slot order; a list with a hole fails. */
  lemma StitchSlotsFull<T>(slots: seq<Option<string>>, load: string -> Stitcher.Segment<T>)
    requires |slots| >= 1
    ensures (forall k :: 0 <= k < |slots| ==> slots[k].Some?) <==>
      StitchSlots(Placed(slots), load).Stitched?
    ensures (forall k :: 0 <= k < |slots| ==> slots[k].Some?) ==>
      StitchSlots(Placed(slots), load) == Stitched(Stitcher.Flatten(LoadAll(Present(slots), load)))
  {
  }

  /** The stitched network a directory listing yields. */
  function StitchDirectory<T>(listing: seq<string>, load: string -> Stitcher.Segment<T>): (r: Stitched<T>)
    ensures r.Stitched? ==> |listing| > 0 && Place(listing).Placed?
    ensures |listing| == 0 ==> r == StitchFailed(EmptyDirectory)
  {
    StitchSlots(Place(listing), load)
  }

  /** End to end: for a listing whose ordinals are exactly `1..n` with
      `n >= 1`, the directory stitches to the samples of the files with
      ordinals 1, 2, ..., n, concatenated in that order. */
  lemma StitchDirectoryDense<T>(listing: seq<string>, load: string -> Stitcher.Segment<T>)
    requires |listing| >= 1
    requires Dense(Ordinal, listing)
    ensures Place(listing).Placed?
    ensures |Place(listing).slots| == |listing|
    ensures forall k :: 0 <= k < |listing| ==> Place(listing).slots[k].Some?
    ensures StitchDirectory(listing, load)
      == Stitched(Stitcher.Flatten(LoadAll(Present(Place(listing).slots), load)))
    ensures forall k :: 0 <= k < |listing| ==> Ordinal(Present(Place(listing).slots)[k]) == Some(k + 1)
  {
    PlaceDense(listing);
    StitchSlotsFull(Place(listing).slots, load);
  }
}
