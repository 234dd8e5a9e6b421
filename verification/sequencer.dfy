/** The measurement sequence (`take_s_parameters_measurements` /
    `take_S_parameters_measurements`). The analyser is switched to network
    analyser mode, then for each calibration id from `start` to `end` in
    ascending order: the calibration state is loaded, three sweeps are
    taken, and the traces are saved under the name the naming convention
    gives the id. The save name `base` has already been read from the user. */
module Sequencer {
  import opened Basics
  import opened PyText
  import opened Naming
  import opened Instrument
  import Placement
  import Stitcher

  /** One iteration of the loop: the calibration id and the save name. */
  datatype Round = Round(calState: int, saveName: string)

  /** The iterations of `range(start, end + 1)`. */
  function Plan(base: string, start: int, end: int): (p: seq<Round>)
    ensures |p| == if end < start then 0 else end - start + 1
    ensures forall k :: 0 <= k < |p| ==> p[k] == Round(start + k, SaveName(base, start + k))
    decreases end - start
  {
    if end < start then [] else [Round(start, SaveName(base, start))] + Plan(base, start + 1, end)
  }

  /** One iteration: change calibration state, measure, save. Each step
      reads where the previous one stopped; a step that does not return ends
      the iteration. */
  function RunRound(v: Variant, round: Round, script: seq<ReadOutcome>): (r: Exchange)
    ensures |r.writes| >= 2 && r.writes[..2] == [InternalDir, LoadState(round.calState)]
    ensures ChangeCalState(round.calState, script).status != Ok ==> r == ChangeCalState(round.calState, script)
  {
    var c := ChangeCalState(round.calState, script);
    if c.status != Ok then c
    else
      var m := TakeMeasurements(v, c.rest);
      if m.status != Ok then Exchange(m.status, c.writes + m.writes, m.rest)
      else
        var s := SaveS2p(round.saveName, m.rest);
        Exchange(s.status, c.writes + m.writes + s.writes, s.rest)
  }

  /** The loop over the planned iterations; the first iteration that does
      not return ends the run. */
  function Execute(v: Variant, rounds: seq<Round>, script: seq<ReadOutcome>): (r: Exchange)
    ensures |rounds| == 0 ==> r == Exchange(Ok, [], script)
    ensures |rounds| > 0 ==> |r.writes| >= 2 && r.writes[..2] == [InternalDir, LoadState(rounds[0].calState)]
    decreases |rounds|
  {
    if |rounds| == 0 then Exchange(Ok, [], script)
    else
      var f := RunRound(v, rounds[0], script);
      if f.status != Ok then f
      else
        var e := Execute(v, rounds[1..], f.rest);
        Exchange(e.status, f.writes + e.writes, e.rest)
  }

  /** Running two plans back to back is running their concatenation: the
      second plan starts where the first stopped reading, and only when the
      first returned. */
  lemma {:induction false} ExecuteAppend(v: Variant, a: seq<Round>, b: seq<Round>, script: seq<ReadOutcome>)
    ensures var ea := Execute(v, a, script);
      var eb := Execute(v, b, ea.rest);
      Execute(v, a + b, script) == if ea.status != Ok then ea else Exchange(eb.status, ea.writes + eb.writes, eb.rest)
    decreases |a|
  {
    if |a| == 0 {
      assert a + b == b;
    } else {
      assert (a + b)[1..] == a[1..] + b;
      assert (a + b)[0] == a[0];
      var first := RunRound(v, a[0], script);
      if first.status == Ok {
        ExecuteAppend(v, a[1..], b, first.rest);
        var ea := Execute(v, a[1..], first.rest);
        AppendAssociative(first.writes, ea.writes, Execute(v, b, ea.rest).writes);
      }
    }
  }

  /** Appending is associative (a fact the solver misses when the traces are
      big terms). */
  lemma AppendAssociative(x: seq<string>, y: seq<string>, z: seq<string>)
    ensures x + (y + z) == (x + y) + z
  {
  }

  /** The whole measurement sequence for the ids `start..end`: the mode
      switch, then the loop. */
  function TakeSParameters(v: Variant, base: string, start: int, end: int, script: seq<ReadOutcome>): (r: Exchange)
    ensures SetMode(script).status != Ok ==> r == SetMode(script)
    ensures |r.writes| > 0 && r.writes[0] == SetNaMode
  {
    var mode := SetMode(script);
    if mode.status != Ok then mode
    else
      var e := Execute(v, Plan(base, start, end), mode.rest);
      Exchange(e.status, mode.writes + e.writes, e.rest)
  }

  /** A store command: the only command that creates a file. */
  predicate IsStore(cmd: string) {
    StartsWith(cmd, "MMEM:STOR:SNP \"")
  }

  /** The store commands of a write trace, in order. */
  function Stored(writes: seq<string>): (r: seq<string>)
    ensures |r| <= |writes|
    ensures forall x :: x in r ==> x in writes && IsStore(x)
  {
    if |writes| == 0 then []
    else (if IsStore(writes[0]) then [writes[0]] else []) + Stored(writes[1..])
  }

  lemma {:induction false} StoredAppend(a: seq<string>, b: seq<string>)
    ensures Stored(a + b) == Stored(a) + Stored(b)
    decreases |a|
  {
    if |a| == 0 {
      assert a + b == b;
    } else {
      assert (a + b)[1..] == a[1..] + b;
      StoredAppend(a[1..], b);
    }
  }

  lemma {:induction false} StoredNone(a: seq<string>)
    requires forall x :: x in a ==> !IsStore(x)
    ensures Stored(a) == []
    decreases |a|
  {
    if |a| > 0 {
      assert a[0] in a;
      StoredNone(a[1..]);
    }
  }

  /** A command that differs from the store prefix in one of its first
      characters is not a store command. */
  lemma NotStoreAt(cmd: string, i: nat)
    requires i < 15 && i < |cmd| && cmd[i] != "MMEM:STOR:SNP \""[i]
    ensures !IsStore(cmd)
  {
  }

  /** A calibration load starts `MMEMo`, not `MMEM:`. */
  lemma LoadIsNotStore(id: int)
    ensures !IsStore(LoadState(id))
  {
    var load := LoadState(id);
    assert load[..|"MMEMory:LOAD:STATe \"CalState_"|] == "MMEMory:LOAD:STATe \"CalState_";
    assert load[4] == 'o';
    NotStoreAt(load, 4);
  }

  /** No autoscale command is a store command. */
  lemma ScalesAreNotStores()
    ensures forall x :: x in Autoscales ==> !IsStore(x)
  {
    forall x | x in Autoscales
      ensures !IsStore(x)
    {
      NotStoreAt(x, 0);
    }
  }

  /** No command other than the store command looks like one. */
  lemma OnlyStoresStore(id: int)
    ensures !IsStore(InternalDir) && !IsStore(UsbDir) && !IsStore(LoadState(id))
    ensures !IsStore(Trigger) && forall x :: x in Autoscales ==> !IsStore(x)
    ensures !IsStore(SetNaMode) && !IsStore(HoldSweeps) && !IsStore(ShowFourTraces)
  {
    NotStoreAt(InternalDir, 5);
    NotStoreAt(UsbDir, 5);
    LoadIsNotStore(id);
    NotStoreAt(Trigger, 0);
    ScalesAreNotStores();
    NotStoreAt(SetNaMode, 0);
    NotStoreAt(HoldSweeps, 0);
    NotStoreAt(ShowFourTraces, 0);
  }

  /** A measurement trace holds no store command. */
  lemma MeasureWritesNoStore(writes: seq<string>)
    requires forall x :: x in writes ==> x == Trigger || x in Autoscales
    ensures Stored(writes) == []
  {
    OnlyStoresStore(0);
    StoredNone(writes);
  }

  /** The store commands of the traces an iteration can leave: a stopped
      calibration change or measurement stores nothing, a save stores its
      file. */
  lemma RoundTraceStores(id: int, measured: seq<string>, name: string)
    requires Stored(measured) == []
    ensures Stored([InternalDir, LoadState(id)]) == []
    ensures Stored([InternalDir, LoadState(id)] + measured) == []
    ensures Stored([InternalDir, LoadState(id)] + measured + [UsbDir, StoreSnp(name)]) == [StoreSnp(name)]
  {
    OnlyStoresStore(id);
    var c := [InternalDir, LoadState(id)];
    StoredNone(c);
    StoredAppend(c, measured);
    var s := [UsbDir, StoreSnp(name)];
    assert s[1..] == [StoreSnp(name)] && s[1..][1..] == [];
    assert Stored(s) == [StoreSnp(name)];
    StoredAppend(c + measured, s);
  }

  /** The store commands of one iteration: the save of its name when the
      iteration got that far, and nothing else. */
  lemma RoundStores(v: Variant, round: Round, script: seq<ReadOutcome>)
    ensures var r := RunRound(v, round, script);
      && |Stored(r.writes)| <= 1
      && (r.status == Ok ==> Stored(r.writes) == [StoreSnp(round.saveName)])
      && (forall x :: x in Stored(r.writes) ==> x == StoreSnp(round.saveName))
  {
    var c := ChangeCalState(round.calState, script);
    var m := TakeMeasurements(v, c.rest);
    MeasureWritesNoStore(m.writes);
    RoundTraceStores(round.calState, m.writes, round.saveName);
  }

  /** The stored files are the save names of the first iterations, in
      plan order. */
  predicate StoresInOrder(stored: seq<string>, rounds: seq<Round>) {
    && |stored| <= |rounds|
    && forall k :: 0 <= k < |stored| ==> stored[k] == StoreSnp(rounds[k].saveName)
  }

  /** An iteration that stored its file, followed by later iterations that
      stored theirs in order, stores in order. */
  lemma StoresInOrderStep(first: seq<string>, later: seq<string>, rounds: seq<Round>)
    requires |rounds| > 0
    requires Stored(first) == [StoreSnp(rounds[0].saveName)]
    requires StoresInOrder(Stored(later), rounds[1..])
    ensures StoresInOrder(Stored(first + later), rounds)
    ensures |Stored(first + later)| == 1 + |Stored(later)|
  {
    StoredAppend(first, later);
    StoresInOrderCons(StoreSnp(rounds[0].saveName), Stored(later), rounds);
  }

  /** The store of the first iteration's name, then stores in the order of
      the later iterations. */
  lemma StoresInOrderCons(x: string, stored: seq<string>, rounds: seq<Round>)
    requires |rounds| > 0 && x == StoreSnp(rounds[0].saveName)
    requires StoresInOrder(stored, rounds[1..])
    ensures StoresInOrder([x] + stored, rounds)
  {
    var all := [x] + stored;
    forall k | 0 <= k < |all|
      ensures all[k] == StoreSnp(rounds[k].saveName)
    {
      if k > 0 {
        assert all[k] == stored[k - 1] && rounds[1..][k - 1] == rounds[k];
      }
    }
  }

  /** An iteration that stopped stored at most its own file. */
  lemma StoresInOrderStop(first: seq<string>, rounds: seq<Round>)
    requires |rounds| > 0 && |Stored(first)| <= 1
    requires forall x :: x in Stored(first) ==> x == StoreSnp(rounds[0].saveName)
    ensures StoresInOrder(Stored(first), rounds)
  {
    var st := Stored(first);
    if |st| == 1 {
      assert st[0] in st;
    }
  }

  /** Across the loop, files are stored in plan order, one per iteration
      reached. A run that returns stores every planned name. */
  lemma {:induction false} ExecuteStores(v: Variant, rounds: seq<Round>, script: seq<ReadOutcome>)
    ensures StoresInOrder(Stored(Execute(v, rounds, script).writes), rounds)
    ensures Execute(v, rounds, script).status == Ok ==> |Stored(Execute(v, rounds, script).writes)| == |rounds|
    decreases |rounds|
  {
    if |rounds| > 0 {
      var first := RunRound(v, rounds[0], script);
      RoundStores(v, rounds[0], script);
      if first.status == Ok {
        var next := Execute(v, rounds[1..], first.rest);
        ExecuteStores(v, rounds[1..], first.rest);
        StoresInOrderStep(first.writes, next.writes, rounds);
      } else {
        StoresInOrderStop(first.writes, rounds);
      }
    }
  }

  /** A completed measurement sequence stores the save names of its plan,
      all of them, in plan order. */
  lemma RunStores(v: Variant, base: string, start: int, end: int, script: seq<ReadOutcome>)
    requires TakeSParameters(v, base, start, end, script).status == Ok
    ensures var plan := Plan(base, start, end);
      var stored := Stored(TakeSParameters(v, base, start, end, script).writes);
      StoresInOrder(stored, plan) && |stored| == |plan|
  {
    RunStoresOnlyInRounds(v, base, start, end, script);
    ExecuteStores(v, Plan(base, start, end), SetMode(script).rest);
  }

  /** The mode commands store nothing, so a completed run stores what its
      rounds store. */
  lemma RunStoresOnlyInRounds(v: Variant, base: string, start: int, end: int, script: seq<ReadOutcome>)
    requires TakeSParameters(v, base, start, end, script).status == Ok
    ensures var e := Execute(v, Plan(base, start, end), SetMode(script).rest);
      && e.status == Ok
      && Stored(TakeSParameters(v, base, start, end, script).writes) == Stored(e.writes)
  {
    var mode := SetMode(script);
    var e := Execute(v, Plan(base, start, end), mode.rest);
    assert TakeSParameters(v, base, start, end, script).writes == mode.writes + e.writes;
    OnlyStoresStore(0);
    StoredNone(mode.writes);
    StoredAppend(mode.writes, e.writes);
  }

  /** Stores in the order of `Plan(base, start, end)` are the stores of the
      names `start, start + 1, ...`. */
  lemma PlanStores(stored: seq<string>, base: string, start: int, end: int)
    requires StoresInOrder(stored, Plan(base, start, end))
    ensures forall k :: 0 <= k < |stored| ==> stored[k] == StoreSnp(SaveName(base, start + k))
  {
    var plan := Plan(base, start, end);
    forall k | 0 <= k < |stored|
      ensures stored[k] == StoreSnp(SaveName(base, start + k))
    {
      assert plan[k] == Round(start + k, SaveName(base, start + k));
    }
  }

  /** A completed fine run stores `base_1 .. base_30` (the `SONA` copy) or
      `base_1 .. base_20` (the `SO_VNA` copy), in that order; a completed
      coarse run stores only `base`. */
  lemma CompletedRunStores(v: Variant, resolution: Resolution, base: string, script: seq<ReadOutcome>)
    ensures var range := CalibrationRange(v, resolution);
      var r := TakeSParameters(v, base, range.0, range.1, script);
      r.status == Ok ==>
        && |Stored(r.writes)| == range.1 - range.0 + 1
        && forall k :: 0 <= k < |Stored(r.writes)| ==>
          Stored(r.writes)[k] == StoreSnp(SaveName(base, range.0 + k))
  {
    var range := CalibrationRange(v, resolution);
    var r := TakeSParameters(v, base, range.0, range.1, script);
    if r.status == Ok {
      RunStores(v, base, range.0, range.1, script);
      PlanStores(Stored(r.writes), base, range.0, range.1);
    }
  }

  /** A calibration load command. */
  predicate IsLoad(cmd: string) {
    StartsWith(cmd, "MMEMory:")
  }

  /** The load commands of a write trace, in order. */
  function Loaded(writes: seq<string>): (r: seq<string>)
    ensures |r| <= |writes|
    ensures forall x :: x in r ==> x in writes && IsLoad(x)
  {
    if |writes| == 0 then []
    else (if IsLoad(writes[0]) then [writes[0]] else []) + Loaded(writes[1..])
  }

  lemma {:induction false} LoadedAppend(a: seq<string>, b: seq<string>)
    ensures Loaded(a + b) == Loaded(a) + Loaded(b)
    decreases |a|
  {
    if |a| == 0 {
      assert a + b == b;
    } else {
      assert (a + b)[1..] == a[1..] + b;
      LoadedAppend(a[1..], b);
    }
  }

  lemma {:induction false} LoadedNone(a: seq<string>)
    requires forall x :: x in a ==> !IsLoad(x)
    ensures Loaded(a) == []
    decreases |a|
  {
    if |a| > 0 {
      assert a[0] in a;
      LoadedNone(a[1..]);
    }
  }

  /** A command that differs from the load prefix in one of its first
      characters is not a load command. */
  lemma NotLoadAt(cmd: string, i: nat)
    requires i < 8 && i < |cmd| && cmd[i] != "MMEMory:"[i]
    ensures !IsLoad(cmd)
  {
  }

  /** The calibration load is the only command that loads. */
  lemma OnlyLoadsLoad(id: int, name: string)
    ensures IsLoad(LoadState(id))
    ensures !IsLoad(InternalDir) && !IsLoad(UsbDir) && !IsLoad(StoreSnp(name))
    ensures !IsLoad(Trigger) && forall x :: x in Autoscales ==> !IsLoad(x)
    ensures !IsLoad(SetNaMode) && !IsLoad(HoldSweeps) && !IsLoad(ShowFourTraces)
  {
    var load := LoadState(id);
    assert load[..|LoadPrefix|] == LoadPrefix;
    assert load[..8] == LoadPrefix[..8];
    NotLoadAt(InternalDir, 4);
    NotLoadAt(UsbDir, 4);
    var store := StoreSnp(name);
    assert store[..|StorePrefix|] == StorePrefix;
    assert store[4] == ':';
    NotLoadAt(store, 4);
    NotLoadAt(Trigger, 0);
    forall x | x in Autoscales
      ensures !IsLoad(x)
    {
      NotLoadAt(x, 0);
    }
    NotLoadAt(SetNaMode, 0);
    NotLoadAt(HoldSweeps, 0);
    NotLoadAt(ShowFourTraces, 0);
  }

  /** The load commands of the traces an iteration can leave: each holds
      exactly the load of its own state. */
  lemma RoundTraceLoads(id: int, measured: seq<string>, name: string)
    requires Loaded(measured) == []
    ensures Loaded([InternalDir, LoadState(id)]) == [LoadState(id)]
    ensures Loaded([InternalDir, LoadState(id)] + measured) == [LoadState(id)]
    ensures Loaded([InternalDir, LoadState(id)] + measured + [UsbDir, StoreSnp(name)]) == [LoadState(id)]
  {
    OnlyLoadsLoad(id, name);
    var c := [InternalDir, LoadState(id)];
    assert c[1..] == [LoadState(id)] && c[1..][1..] == [];
    assert Loaded(c) == [LoadState(id)];
    LoadedAppend(c, measured);
    var s := [UsbDir, StoreSnp(name)];
    LoadedNone(s);
    LoadedAppend(c + measured, s);
  }

  /** Every iteration, however far it gets, loads its own calibration
      state once. */
  lemma RoundLoads(v: Variant, round: Round, script: seq<ReadOutcome>)
    ensures Loaded(RunRound(v, round, script).writes) == [LoadState(round.calState)]
  {
    var c := ChangeCalState(round.calState, script);
    var m := TakeMeasurements(v, c.rest);
    OnlyLoadsLoad(round.calState, round.saveName);
    LoadedNone(m.writes);
    RoundTraceLoads(round.calState, m.writes, round.saveName);
  }

  /** A completed iteration writes its load, then the measurement's three
      triggers and their autoscales, then the save of its own name. */
  lemma RoundShape(v: Variant, round: Round, script: seq<ReadOutcome>) returns (measured: seq<string>)
    requires RunRound(v, round, script).status == Ok
    ensures RunRound(v, round, script).writes
      == [InternalDir, LoadState(round.calState)] + measured + [UsbDir, StoreSnp(round.saveName)]
    ensures Occurrences(measured, Trigger) == 3
    ensures forall x :: x in measured ==> IsMeasureWrite(x)
  {
    var c := ChangeCalState(round.calState, script);
    var m := TakeMeasurements(v, c.rest);
    MeasurementTrace(v, c.rest);
    measured := m.writes;
  }

  /** The loads are the calibration states of the first iterations, in
      plan order. */
  predicate LoadsInOrder(loaded: seq<string>, rounds: seq<Round>) {
    && |loaded| <= |rounds|
    && forall k :: 0 <= k < |loaded| ==> loaded[k] == LoadState(rounds[k].calState)
  }

  lemma LoadsInOrderCons(x: string, loaded: seq<string>, rounds: seq<Round>)
    requires |rounds| > 0 && x == LoadState(rounds[0].calState)
    requires LoadsInOrder(loaded, rounds[1..])
    ensures LoadsInOrder([x] + loaded, rounds)
  {
    var all := [x] + loaded;
    forall k | 0 <= k < |all|
      ensures all[k] == LoadState(rounds[k].calState)
    {
      if k > 0 {
        assert all[k] == loaded[k - 1] && rounds[1..][k - 1] == rounds[k];
      }
    }
  }

  /** Across the loop, the calibration states are loaded in plan order,
      one load per iteration reached. A run that returns loads every planned
      state. */
  lemma {:induction false} ExecuteLoads(v: Variant, rounds: seq<Round>, script: seq<ReadOutcome>)
    ensures LoadsInOrder(Loaded(Execute(v, rounds, script).writes), rounds)
    ensures |rounds| > 0 ==> |Loaded(Execute(v, rounds, script).writes)| > 0
    ensures Execute(v, rounds, script).status == Ok ==> |Loaded(Execute(v, rounds, script).writes)| == |rounds|
    decreases |rounds|
  {
    if |rounds| > 0 {
      var first := RunRound(v, rounds[0], script);
      RoundLoads(v, rounds[0], script);
      if first.status == Ok {
        var next := Execute(v, rounds[1..], first.rest);
        ExecuteLoads(v, rounds[1..], first.rest);
        LoadedAppend(first.writes, next.writes);
        LoadsInOrderCons(LoadState(rounds[0].calState), Loaded(next.writes), rounds);
      }
    }
  }

  /** A completed measurement sequence loads the states `start..end`, each
      once, in ascending order. */
  lemma RunLoads(v: Variant, base: string, start: int, end: int, script: seq<ReadOutcome>)
    requires TakeSParameters(v, base, start, end, script).status == Ok
    ensures var loaded := Loaded(TakeSParameters(v, base, start, end, script).writes);
      && |loaded| == |Plan(base, start, end)|
      && forall k :: 0 <= k < |loaded| ==> loaded[k] == LoadState(start + k)
  {
    var plan := Plan(base, start, end);
    var e := Execute(v, plan, SetMode(script).rest);
    RunLoadsOnlyInRounds(v, base, start, end, script);
    ExecuteLoads(v, plan, SetMode(script).rest);
    PlanLoads(base, start, end, Loaded(e.writes));
  }

  /** The mode commands load nothing, so a completed run loads what its
      rounds load. */
  lemma RunLoadsOnlyInRounds(v: Variant, base: string, start: int, end: int, script: seq<ReadOutcome>)
    requires TakeSParameters(v, base, start, end, script).status == Ok
    ensures var e := Execute(v, Plan(base, start, end), SetMode(script).rest);
      && e.status == Ok
      && Loaded(TakeSParameters(v, base, start, end, script).writes) == Loaded(e.writes)
  {
    var mode := SetMode(script);
    var e := Execute(v, Plan(base, start, end), mode.rest);
    assert TakeSParameters(v, base, start, end, script).writes == mode.writes + e.writes;
    OnlyLoadsLoad(0, "");
    LoadedNone(mode.writes);
    LoadedAppend(mode.writes, e.writes);
  }

  /** Loads in the order of the plan are the states `start..end`. */
  lemma PlanLoads(base: string, start: int, end: int, loaded: seq<string>)
    requires LoadsInOrder(loaded, Plan(base, start, end)) && |loaded| == |Plan(base, start, end)|
    ensures forall k :: 0 <= k < |loaded| ==> loaded[k] == LoadState(start + k)
  {
    var plan := Plan(base, start, end);
    forall k | 0 <= k < |loaded|
      ensures loaded[k] == LoadState(start + k)
    {
      assert plan[k].calState == start + k;
    }
  }

  /** The files a fine run leaves on the disk: `base_1.s2p .. base_n.s2p`. */
  function FineFiles(base: string, n: nat): (files: seq<string>)
    ensures |files| == n
    ensures forall k :: 0 <= k < n ==> files[k] == StoredFile(SaveName(base, k + 1))
  {
    seq(n, k requires 0 <= k < n => StoredFile(SaveName(base, k + 1)))
  }

  /** Whatever order the directory lists them in, the files of a fine run
      carry the ordinals `1..n` exactly, so they stitch in id order. */
  lemma FineFilesDense(base: string, n: nat, listing: seq<string>)
    requires multiset(listing) == multiset(FineFiles(base, n))
    ensures Placement.Dense(Ordinal, listing)
  {
    var files := FineFiles(base, n);
    assert |listing| == |multiset(listing)| == |files|;
    forall i | 0 <= i < |listing|
      ensures Ordinal(listing[i]).Some? && 1 <= Ordinal(listing[i]).value <= |listing|
    {
      assert listing[i] in multiset(files);
      var k :| 0 <= k < n && files[k] == listing[i];
      OrdinalOfStoredFile(base, k + 1);
    }
    forall id | 1 <= id <= |listing|
      ensures Placement.HasOrdinal(Ordinal, listing, id)
    {
      assert files[id - 1] in multiset(listing);
      var i :| 0 <= i < |listing| && listing[i] == files[id - 1];
      OrdinalOfStoredFile(base, id);
    }
  }

  /** Slot `k` of the placement holds the file of id `k + 1`. */
  lemma FineSlots(base: string, n: nat, listing: seq<string>)
    requires multiset(listing) == multiset(FineFiles(base, n))
    ensures Placement.Place(listing).Placed? && |Placement.Place(listing).slots| == n
    ensures forall k :: 0 <= k < n ==> Placement.Place(listing).slots[k] == Some(FineFiles(base, n)[k])
  {
    var files := FineFiles(base, n);
    FineFilesDense(base, n, listing);
    assert |listing| == |multiset(listing)| == n;
    forall f | f in listing
      ensures Ordinal(f).Some? && 1 <= Ordinal(f).value <= n && files[Ordinal(f).value - 1] == f
    {
      var id := FineOrdinal(base, n, listing, f);
      SameOrdinalSameFile(base, n, listing, f, id);
    }
    Placement.PlaceDetermined(listing, files);
  }

  /** A listed file of a fine run has an ordinal. */
  lemma FineOrdinal(base: string, n: nat, listing: seq<string>, f: string) returns (id: int)
    requires multiset(listing) == multiset(FineFiles(base, n))
    requires f in listing
    ensures Ordinal(f) == Some(id)
  {
    var files := FineFiles(base, n);
    assert f in multiset(files);
    var k :| 0 <= k < n && files[k] == f;
    OrdinalOfStoredFile(base, k + 1);
    id := k + 1;
  }

  /** Placement puts the files of a fine run back in id order. */
  lemma FinePlacement(base: string, n: nat, listing: seq<string>)
    requires n >= 1
    requires multiset(listing) == multiset(FineFiles(base, n))
    ensures Placement.Place(listing).Placed?
    ensures forall k :: 0 <= k < |listing| ==> Placement.Place(listing).slots[k].Some?
    ensures Placement.Present(Placement.Place(listing).slots) == FineFiles(base, n)
  {
    FineSlots(base, n, listing);
    assert |listing| == |multiset(listing)| == n;
    var slots := Placement.Place(listing).slots;
    var files := FineFiles(base, n);
    var present := Placement.Present(slots);
    assert forall k :: 0 <= k < n ==> present[k] == files[k];
  }

  /** End to end: for any `n >= 1` and any order of the listing, stitching
      the files of a fine run concatenates their segments in id order. */
  lemma FineRunStitches<T>(base: string, n: nat, listing: seq<string>, load: string -> seq<T>)
    requires n >= 1
    requires multiset(listing) == multiset(FineFiles(base, n))
    ensures Placement.StitchDirectory(listing, load)
      == Placement.Stitched(Stitcher.Flatten(Placement.LoadAll(FineFiles(base, n), load)))
  {
    FinePlacement(base, n, listing);
    Placement.StitchSlotsFull(Placement.Place(listing).slots, load);
  }

  /** Within the files of a fine run, a file is determined by its ordinal. */
  lemma SameOrdinalSameFile(base: string, n: nat, listing: seq<string>, f: string, id: int)
    requires multiset(listing) == multiset(FineFiles(base, n))
    requires f in listing && Ordinal(f) == Some(id)
    ensures 1 <= id <= n && f == FineFiles(base, n)[id - 1]
  {
    var files := FineFiles(base, n);
    assert f in multiset(files);
    var k :| 0 <= k < n && files[k] == f;
    OrdinalOfStoredFile(base, k + 1);
  }
}
