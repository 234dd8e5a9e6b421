/** The file-naming convention that connects the measurement sequence to the
    stitcher. Calibration state `id` is saved as `base` when `id == 0` (the
    coarse single-segment run) and as `base_<id>` otherwise. The instrument
    appends `.s2p`. The stitcher and the plotting sort read the ordinal back as
    the text between the last `_` and the last `.`. */
module Naming {
  import opened Basics
  import opened PyText

  /** Name handed to the instrument's save for calibration state `id`. */
  function SaveName(base: string, id: int): (name: string)
    ensures id == 0 ==> name == base
    ensures id != 0 ==> |name| > |base| && name[..|base|] == base && name[|base|] == '_'
  {
    if id == 0 then base else base + "_" + IntToString(id)
  }

  /** The file the instrument writes for a save name: the store command
      appends the `.s2p` extension. */
  function StoredFile(name: string): string {
    name + ".s2p"
  }

  /** The text between the last `_` and the last `.` of a file name, with
      Python's slice semantics. A missing `_` makes the slice start at 0; a
      missing `.` makes the stop -1, so the slice ends before the last
      character. */
  function OrdinalText(file: string): string {
    Slice(file, RFind(file, '_') + 1, RFind(file, '.'))
  }

  /** The ordinal `int()` reads from a file name; None is the `ValueError`. */
  function Ordinal(file: string): Option<int> {
    ParseInt(OrdinalText(file))
  }

  /** Reads a file name's ordinal; `Ordinal` in the program. The placement
      and ordering laws hold for any reader, so they take it as a parameter
      and are then applied to `Ordinal`. */
  type Reader = string -> Option<int>

  /** Where the last `_` and the last `.` of a fine-mode file name are: the
      `_` the naming inserted and the `.` of the extension. */
  lemma StoredFileMarkers(base: string, id: int)
    requires id != 0
    ensures var file := StoredFile(SaveName(base, id));
      && RFind(file, '_') == |base|
      && RFind(file, '.') == |base| + 1 + |IntToString(id)|
  {
    var digits := IntToString(id);
    var file := StoredFile(SaveName(base, id));
    assert file == base + "_" + digits + ".s2p";
    var u := |base|;
    var d := |base| + 1 + |digits|;
    assert file[u] == '_';
    assert file[d] == '.';
    forall j | u < j < |file|
      ensures file[j] != '_'
    {
      if j < d {
        assert file[j] == digits[j - u - 1];
      }
    }
    forall j | d < j < |file|
      ensures file[j] != '.'
    {
    }
  }

  /** Naming round trip: for every base and every non-zero calibration id,
      reading the ordinal back from the stored file gives the id. The base may
      itself contain `_` or `.`. */
  lemma OrdinalOfStoredFile(base: string, id: int)
    requires id != 0
    ensures Ordinal(StoredFile(SaveName(base, id))) == Some(id)
  {
    var digits := IntToString(id);
    var file := StoredFile(SaveName(base, id));
    StoredFileMarkers(base, id);
    assert file == base + "_" + digits + ".s2p";
    assert file[|base| + 1..|base| + 1 + |digits|] == digits;
    assert OrdinalText(file) == digits;
    ParseIntOfIntToString(id);
  }

  /** The coarse run saves under the bare base name, which carries no
      ordinal of its own: its file name is `base.s2p`. */
  lemma CoarseFileIsBase(base: string)
    ensures StoredFile(SaveName(base, 0)) == base + ".s2p"
  {
  }

  /** The measurement choices the menu offers. */
  datatype Resolution = Coarse | Fine

  /** The calibration-id range each menu choice runs: coarse is state 0
      alone; fine is states 1..30 in the `SONA` copy and 1..20 in the
      `SO_VNA` copy. */
  function CalibrationRange(v: Variant, resolution: Resolution): (range: (int, int))
    ensures resolution == Coarse ==> range == (0, 0)
    ensures resolution == Fine ==> range.0 == 1 && range.1 == (if v == Sona then 30 else 20)
  {
    match resolution
    case Coarse => (0, 0)
    case Fine => if v == Sona then (1, 30) else (1, 20)
  }
}
