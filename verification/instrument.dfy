/** The command/acknowledge protocol of the `SONA` and `SO_VNA` instrument
    classes. Every method writes SCPI commands to the analyser's session and
    polls `read()` until the analyser answers.

    `read()` is modelled as a script of outcomes: a reply text, or a failure
    (the exception a read raises while the analyser has not answered). Once
    the script is used up, every further read fails, as a silent analyser's
    would. A method returns the commands it wrote, in order, the unread part
    of the script, and a status. The status is `Ok` when the method returns
    normally, `Fatal` when it ends the program (`quit()`, `exit()`,
    `sys.exit()` or an exception nothing catches), and `NoExit` when it polls
    forever. Sleeps and console messages are not modelled. */
module Instrument {
  import opened Basics
  import opened PyText

  datatype ReadOutcome = Fail | Reply(text: string)

  datatype Status = Ok | Fatal | NoExit

  /** What one method call does: how it ends, the commands it wrote, and the
      reads it left unconsumed. */
  datatype Exchange = Exchange(status: Status, writes: seq<string>, rest: seq<ReadOutcome>)

  /** The `k`-th read from now; a used-up script fails. */
  function ReadAt(script: seq<ReadOutcome>, k: nat): ReadOutcome {
    if k < |script| then script[k] else Fail
  }

  /** The script after `k` reads. */
  function After(script: seq<ReadOutcome>, k: nat): (rest: seq<ReadOutcome>)
    ensures |rest| == if k <= |script| then |script| - k else 0
    ensures forall j :: 0 <= j < |rest| ==> rest[j] == script[k + j]
  {
    if k <= |script| then script[k..] else []
  }

  lemma ReadAtAfter(script: seq<ReadOutcome>, k: nat, j: nat)
    ensures ReadAt(After(script, k), j) == ReadAt(script, k + j)
  {
  }

  lemma AfterAfter(script: seq<ReadOutcome>, k: nat, j: nat)
    ensures After(After(script, k), j) == After(script, k + j)
  {
  }

  // The commands, as the classes spell them.
  const SetNaMode := "INST \"NA\";*OPC?"
  const HoldSweeps := "INIT:CONT 0"
  const ShowFourTraces := "CALC:PAR:COUN 4"
  const Trigger := "INIT:IMM;*OPC?"
  const InternalDir := "MMEM:CDIR \"[INTERNAL]:\""
  const UsbDir := "MMEM:CDIR \"[USBDISK]:\""
  const Identify := "*IDN?"

  /** `DISP:WIND:TRAC<n>:Y:AUTO` for traces 1 to 4, in order. */
  const Autoscales: seq<string> := [
    "DISP:WIND:TRAC1:Y:AUTO", "DISP:WIND:TRAC2:Y:AUTO",
    "DISP:WIND:TRAC3:Y:AUTO", "DISP:WIND:TRAC4:Y:AUTO"]

  const LoadPrefix := "MMEMory:LOAD:STATe \"CalState_"
  const LoadSuffix := ".sta\";*OPC?"

  /** Load calibration state `CalState_<id>.sta` and confirm: the text
      between the fixed parts is `str(id)`. */
  function LoadState(id: int): (cmd: string)
    ensures StartsWith(cmd, LoadPrefix) && EndsWith(cmd, LoadSuffix)
    ensures |cmd| == |LoadPrefix| + |IntToString(id)| + |LoadSuffix|
    ensures cmd[|LoadPrefix|..|cmd| - |LoadSuffix|] == IntToString(id)
  {
    var cmd := LoadPrefix + IntToString(id) + LoadSuffix;
    assert cmd[..|LoadPrefix|] == LoadPrefix;
    assert cmd[|cmd| - |LoadSuffix|..] == LoadSuffix;
    assert cmd[|LoadPrefix|..|cmd| - |LoadSuffix|] == IntToString(id);
    cmd
  }

  /** Different states give different load commands. */
  lemma LoadStateInjective(a: int, b: int)
    requires LoadState(a) == LoadState(b)
    ensures a == b
  {
    ParseIntOfIntToString(a);
    ParseIntOfIntToString(b);
  }

  const StorePrefix := "MMEM:STOR:SNP \""
  const StoreSuffix := ".s2p\";*OPC?"

  /** Store the traces as `<name>.s2p` and confirm: the text between the
      fixed parts is the name. */
  function StoreSnp(name: string): (cmd: string)
    ensures StartsWith(cmd, StorePrefix) && EndsWith(cmd, StoreSuffix)
    ensures |cmd| == |StorePrefix| + |name| + |StoreSuffix|
    ensures cmd[|StorePrefix|..|cmd| - |StoreSuffix|] == name
  {
    var cmd := StorePrefix + name + StoreSuffix;
    assert cmd[..|StorePrefix|] == StorePrefix;
    assert cmd[|cmd| - |StoreSuffix|..] == StoreSuffix;
    assert cmd[|StorePrefix|..|cmd| - |StoreSuffix|] == name;
    cmd
  }

  /** Different names give different store commands. */
  lemma StoreSnpInjective(a: string, b: string)
    requires StoreSnp(a) == StoreSnp(b)
    ensures a == b
  {
  }

  /** Reads each bounded poll may spend before the program exits. */
  const Attempts: nat := 10

  /** What ends a poll: any answer at all (the mode switch never looks at the
      value), or an answer other than `"0"` (the loops `while x == '0'`). */
  datatype AckRule = AnyReply | NonZeroReply

  predicate Acks(rule: AckRule, o: ReadOutcome) {
    match o
    case Fail => false
    case Reply(t) => rule == AnyReply || t != "0"
  }

  /** No read among the first `n` acknowledges. */
  predicate NoAckBefore(rule: AckRule, script: seq<ReadOutcome>, n: nat) {
    forall j :: 0 <= j < n ==> !Acks(rule, ReadAt(script, j))
  }

  /** Read `k` is the first that acknowledges. */
  predicate FirstAckAt(rule: AckRule, script: seq<ReadOutcome>, k: nat) {
    Acks(rule, ReadAt(script, k)) && NoAckBefore(rule, script, k)
  }

  datatype Poll = Acked(rest: seq<ReadOutcome>) | Exhausted(rest: seq<ReadOutcome>)

  /** A poll loop with a counter: the counter is checked against the budget
      before every read, and every read that does not acknowledge (a failure,
      or a `"0"` under `NonZeroReply`) adds one. */
  function BoundedPoll(rule: AckRule, script: seq<ReadOutcome>, used: nat): Poll
    requires used <= Attempts
    decreases Attempts - used
  {
    if used == Attempts then Exhausted(script)
    else if Acks(rule, ReadAt(script, 0)) then Acked(After(script, 1))
    else BoundedPoll(rule, After(script, 1), used + 1)
  }

  /** A bounded poll with `budget` reads left stops at the first
      acknowledging read within the budget. With none, it stops after
      exactly `budget` reads, before reading again. */
  lemma BoundedPollSpec(rule: AckRule, script: seq<ReadOutcome>, used: nat)
    requires used <= Attempts
    ensures var p := BoundedPoll(rule, script, used);
      && (p.Acked? ==> exists k :: 0 <= k < Attempts - used && FirstAckAt(rule, script, k) && p.rest == After(script, k + 1))
      && (p.Exhausted? ==> NoAckBefore(rule, script, Attempts - used) && p.rest == After(script, Attempts - used))
  {
    if BoundedPoll(rule, script, used).Acked? {
      var k := PollAckedAt(rule, script, used);
    } else {
      PollExhausted(rule, script, used);
    }
  }

  /** A read that does not acknowledge uses up one attempt. */
  lemma PollSkips(rule: AckRule, script: seq<ReadOutcome>, used: nat)
    requires used < Attempts && !Acks(rule, ReadAt(script, 0))
    ensures BoundedPoll(rule, script, used) == BoundedPoll(rule, After(script, 1), used + 1)
  {
  }

  /** The read an acknowledged poll stopped at. */
  lemma {:induction false} PollAckedAt(rule: AckRule, script: seq<ReadOutcome>, used: nat) returns (k: nat)
    requires used <= Attempts && BoundedPoll(rule, script, used).Acked?
    ensures k < Attempts - used && FirstAckAt(rule, script, k)
    ensures BoundedPoll(rule, script, used).rest == After(script, k + 1)
    decreases Attempts - used
  {
    if Acks(rule, ReadAt(script, 0)) {
      k := 0;
    } else {
      PollSkips(rule, script, used);
      var j := PollAckedAt(rule, After(script, 1), used + 1);
      PollAckedStep(rule, script, used, j);
      k := j + 1;
    }
  }

  /** The facts of `PollAckedAt` carried past a first read that does not
      acknowledge. */
  lemma PollAckedStep(rule: AckRule, script: seq<ReadOutcome>, used: nat, j: nat)
    requires used < Attempts && !Acks(rule, ReadAt(script, 0))
    requires j < Attempts - (used + 1) && FirstAckAt(rule, After(script, 1), j)
    requires BoundedPoll(rule, After(script, 1), used + 1).rest == After(After(script, 1), j + 1)
    ensures j + 1 < Attempts - used && FirstAckAt(rule, script, j + 1)
    ensures BoundedPoll(rule, After(script, 1), used + 1).rest == After(script, j + 1 + 1)
  {
    FirstAckShift(rule, script, j);
    AfterAfter(script, 1, j + 1);
  }

  /** An exhausted poll read its whole budget without an acknowledgement. */
  lemma {:induction false} PollExhausted(rule: AckRule, script: seq<ReadOutcome>, used: nat)
    requires used <= Attempts && BoundedPoll(rule, script, used).Exhausted?
    ensures NoAckBefore(rule, script, Attempts - used)
    ensures BoundedPoll(rule, script, used).rest == After(script, Attempts - used)
    decreases Attempts - used
  {
    if used == Attempts {
      assert After(script, 0) == script;
    } else {
      PollSkips(rule, script, used);
      PollExhausted(rule, After(script, 1), used + 1);
      NoAckShift(rule, script, Attempts - used - 1);
      AfterAfter(script, 1, Attempts - used - 1);
    }
  }

  /** A read that does not acknowledge moves the first acknowledgement one
      place later. */
  lemma FirstAckShift(rule: AckRule, script: seq<ReadOutcome>, k: nat)
    requires !Acks(rule, ReadAt(script, 0)) && FirstAckAt(rule, After(script, 1), k)
    ensures FirstAckAt(rule, script, k + 1)
  {
    forall j | 0 <= j < k + 1
      ensures !Acks(rule, ReadAt(script, j))
    {
      if j > 0 {
        ReadAtAfter(script, 1, j - 1);
      }
    }
    ReadAtAfter(script, 1, k);
  }

  lemma NoAckShift(rule: AckRule, script: seq<ReadOutcome>, n: nat)
    requires !Acks(rule, ReadAt(script, 0)) && NoAckBefore(rule, After(script, 1), n)
    ensures NoAckBefore(rule, script, n + 1)
  {
    forall j | 0 <= j < n + 1
      ensures !Acks(rule, ReadAt(script, j))
    {
      if j > 0 {
        ReadAtAfter(script, 1, j - 1);
      }
    }
  }

  /** The poll is acknowledged exactly when some read within the budget
      acknowledges. */
  lemma BoundedPollAcked(rule: AckRule, script: seq<ReadOutcome>)
    ensures BoundedPoll(rule, script, 0).Acked? <==>
      exists k :: 0 <= k < Attempts && Acks(rule, ReadAt(script, k))
  {
    BoundedPollSpec(rule, script, 0);
  }

  /** `set_vna_to_network_analyzer_mode` / `set_VNA_to_NA`, the same in both
      classes. The mode command is written once. The first read that
      returns at all, whatever its value, is followed by the hold and
      trace-count commands and a normal return. Ten failed reads end the
      program before an eleventh read. */
  function SetMode(script: seq<ReadOutcome>): (r: Exchange)
    ensures r.status == Ok <==> exists k :: 0 <= k < Attempts && ReadAt(script, k).Reply?
    ensures r.status == Ok ==> r.writes == [SetNaMode, HoldSweeps, ShowFourTraces]
    ensures r.status == Ok ==>
      exists k :: 0 <= k < Attempts && FirstAckAt(AnyReply, script, k) && r.rest == After(script, k + 1)
    ensures r.status != Ok ==> r.status == Fatal && r.writes == [SetNaMode] && r.rest == After(script, Attempts)
  {
    BoundedPollSpec(AnyReply, script, 0);
    BoundedPollAcked(AnyReply, script);
    match BoundedPoll(AnyReply, script, 0)
    case Acked(rest) => Exchange(Ok, [SetNaMode, HoldSweeps, ShowFourTraces], rest)
    case Exhausted(rest) => Exchange(Fatal, [SetNaMode], rest)
  }

  /** Writes two commands, then polls while the answer is `"0"`, with ten
      reads at most: the shape of both `change_calstate` and `save_s2p_data`. */
  function CommandThenPoll(first: string, second: string, script: seq<ReadOutcome>): (r: Exchange)
    ensures r.writes == [first, second]
    ensures r.status == Ok <==> exists k :: 0 <= k < Attempts && Acks(NonZeroReply, ReadAt(script, k))
    ensures r.status == Ok ==>
      exists k :: 0 <= k < Attempts && FirstAckAt(NonZeroReply, script, k) && r.rest == After(script, k + 1)
    ensures r.status != Ok ==> r.status == Fatal && r.rest == After(script, Attempts)
  {
    BoundedPollSpec(NonZeroReply, script, 0);
    BoundedPollAcked(NonZeroReply, script);
    match BoundedPoll(NonZeroReply, script, 0)
    case Acked(rest) => Exchange(Ok, [first, second], rest)
    case Exhausted(rest) => Exchange(Fatal, [first, second], rest)
  }

  /** `change_calstate(id)` / `change_CalState(id)`: select internal memory,
      load `CalState_<id>.sta`, then wait for an answer other than `"0"`.
      A `"0"` and a failed read each use up one of the ten attempts. */
  function ChangeCalState(id: int, script: seq<ReadOutcome>): (r: Exchange)
    ensures r.writes == [InternalDir, LoadState(id)]
    ensures r.status == Ok <==> exists k :: 0 <= k < Attempts && ReadAt(script, k).Reply? && ReadAt(script, k).text != "0"
    ensures r.status != Ok ==> r.status == Fatal && r.rest == After(script, Attempts)
  {
    CommandThenPoll(InternalDir, LoadState(id), script)
  }

  /** `save_s2p_data(name)`: select the USB disk, store `<name>.s2p`, then
      wait. After a successful read, the body calls `time.wait`, which does
      not exist. The `AttributeError` is caught by the loop's own `except`,
      so the early `return` is never reached. The loop instead ends through
      its condition once the answer is not `"0"`, exactly like a calibration
      change. Ten attempts are allowed before `sys.exit()`. */
  function SaveS2p(name: string, script: seq<ReadOutcome>): (r: Exchange)
    ensures r.writes == [UsbDir, StoreSnp(name)]
    ensures r.status == Ok <==> exists k :: 0 <= k < Attempts && ReadAt(script, k).Reply? && ReadAt(script, k).text != "0"
    ensures r.status != Ok ==> r.status == Fatal && r.rest == After(script, Attempts)
  {
    CommandThenPoll(UsbDir, StoreSnp(name), script)
  }

  /** Number of answers other than `"0"` in a script. */
  function CountAcks(script: seq<ReadOutcome>): nat {
    if |script| == 0 then 0
    else (if Acks(NonZeroReply, script[0]) then 1 else 0) + CountAcks(script[1..])
  }

  /** How often `cmd` occurs in a write trace. */
  function Occurrences(writes: seq<string>, cmd: string): nat {
    if |writes| == 0 then 0
    else (if writes[0] == cmd then 1 else 0) + Occurrences(writes[1..], cmd)
  }

  lemma {:induction false} OccurrencesAppend(a: seq<string>, b: seq<string>, cmd: string)
    ensures Occurrences(a + b, cmd) == Occurrences(a, cmd) + Occurrences(b, cmd)
    decreases |a|
  {
    if |a| == 0 {
      assert a + b == b;
    } else {
      assert (a + b)[1..] == a[1..] + b;
      OccurrencesAppend(a[1..], b, cmd);
    }
  }

  lemma {:induction false} OccurrencesAbsent(a: seq<string>, cmd: string)
    requires cmd !in a
    ensures Occurrences(a, cmd) == 0
    decreases |a|
  {
    if |a| > 0 {
      OccurrencesAbsent(a[1..], cmd);
    }
  }

  datatype Sweep = Swept(writes: seq<string>, rest: seq<ReadOutcome>) | Stalled(writes: seq<string>)

  /** The poll after a sweep trigger. The counter only prints when it
      reaches ten, so the loop reads until an answer other than `"0"`, with
      no bound. Every successful read, `"0"` or not, is followed by the
      writes `scale`. A used-up script never answers, so the loop stalls. */
  function SweepPoll(scale: seq<string>, script: seq<ReadOutcome>): (r: Sweep)
    ensures r.Stalled? <==> CountAcks(script) == 0
    ensures r.Swept? ==> CountAcks(script) == CountAcks(r.rest) + 1 && |r.rest| < |script|
    ensures r.Swept? ==> |r.writes| >= |scale| && r.writes[|r.writes| - |scale|..] == scale
    decreases |script|
  {
    if |script| == 0 then Stalled([])
    else match script[0]
      case Fail => SweepPoll(scale, script[1..])
      case Reply(t) =>
        if t != "0" then Swept(scale, script[1..])
        else
          match SweepPoll(scale, script[1..])
          case Stalled(ws) => Stalled(scale + ws)
          case Swept(ws, rest) => Swept(scale + ws, rest)
  }

  /** How many reads of `script` returned a reply, `"0"` or not. */
  function Replies(script: seq<ReadOutcome>): nat {
    if |script| == 0 then 0
    else (if script[0].Reply? then 1 else 0) + Replies(script[1..])
  }

  /** `n` copies of `block`, one after another. */
  function Repeat(block: seq<string>, n: nat): (w: seq<string>)
    ensures |w| == n * |block|
  {
    if n == 0 then [] else block + Repeat(block, n - 1)
  }

  /** The replies among a first read and the reads after it. */
  lemma RepliesCons(x: ReadOutcome, s: seq<ReadOutcome>)
    ensures Replies([x] + s) == (if x.Reply? then 1 else 0) + Replies(s)
  {
    assert ([x] + s)[1..] == s;
  }

  /** A first read that does not end the poll: a `"0"` reply adds one
      `scale` block, a failure adds nothing. */
  lemma SweepPollSkip(scale: seq<string>, script: seq<ReadOutcome>)
    requires |script| > 0 && !Acks(NonZeroReply, script[0]) && SweepPoll(scale, script[1..]).Swept?
    ensures var t := SweepPoll(scale, script[1..]);
      SweepPoll(scale, script) == Swept((if script[0].Reply? then scale else []) + t.writes, t.rest)
  {
    if script[0].Reply? {
      assert script[0].text == "0";
    } else {
      assert [] + SweepPoll(scale, script[1..]).writes == SweepPoll(scale, script[1..]).writes;
    }
  }

  /** The step of `SweepPollSwept` past a first read that does not end the
      poll: the writes gain one block exactly when that read was a reply. */
  lemma SweepPollLaterWrites(scale: seq<string>, script: seq<ReadOutcome>, j: nat)
    requires |script| > 0 && !Acks(NonZeroReply, script[0])
    requires SweepPoll(scale, script[1..]).Swept?
    requires j < |script| - 1
    requires SweepPoll(scale, script[1..]).writes == Repeat(scale, Replies(script[1..][..j + 1]))
    ensures SweepPoll(scale, script).writes == Repeat(scale, Replies(script[..j + 2]))
  {
    var tail := script[1..];
    SweepPollSkip(scale, script);
    assert script[..j + 2] == [script[0]] + tail[..j + 1];
    RepliesCons(script[0], tail[..j + 1]);
    if !script[0].Reply? {
      assert [] + SweepPoll(scale, tail).writes == SweepPoll(scale, tail).writes;
    }
  }

  /** The same step for the first acknowledging read and the reads left. */
  lemma SweepPollLaterAck(scale: seq<string>, script: seq<ReadOutcome>, j: nat)
    requires |script| > 0 && !Acks(NonZeroReply, script[0])
    requires SweepPoll(scale, script[1..]).Swept?
    requires j < |script| - 1 && FirstAckAt(NonZeroReply, script[1..], j)
    requires SweepPoll(scale, script[1..]).rest == script[1..][j + 1..]
    ensures FirstAckAt(NonZeroReply, script, j + 1)
    ensures SweepPoll(scale, script).rest == script[j + 2..]
  {
    assert script[1..] == After(script, 1);
    FirstAckShift(NonZeroReply, script, j);
    SweepPollSkip(scale, script);
    assert script[1..][j + 1..] == script[j + 2..];
  }

  /** A first read that does not end the poll leaves the poll's ending to
      the reads after it. */
  lemma SweepPollTail(scale: seq<string>, script: seq<ReadOutcome>)
    requires |script| > 0 && !Acks(NonZeroReply, script[0])
    ensures SweepPoll(scale, script).Swept? <==> SweepPoll(scale, script[1..]).Swept?
  {
  }

  /** A first read that ends the poll: one block, and the rest unread. */
  lemma SweepPollFirst(scale: seq<string>, script: seq<ReadOutcome>)
    requires |script| > 0 && Acks(NonZeroReply, script[0])
    ensures SweepPoll(scale, script).Swept? && FirstAckAt(NonZeroReply, script, 0)
    ensures SweepPoll(scale, script).rest == script[1..]
    ensures SweepPoll(scale, script).writes == Repeat(scale, Replies(script[..1]))
  {
    assert script[..1] == [script[0]] + [];
    RepliesCons(script[0], []);
    assert Repeat(scale, 1) == scale + [];
  }

  /** The facts of `SweepPollSwept` carried past a first read that does not
      end the poll. */
  lemma SweepPollStep(scale: seq<string>, script: seq<ReadOutcome>, j: nat)
    requires |script| > 0 && !Acks(NonZeroReply, script[0])
    requires SweepPoll(scale, script[1..]).Swept?
    requires j < |script[1..]| && FirstAckAt(NonZeroReply, script[1..], j)
    requires SweepPoll(scale, script[1..]).rest == script[1..][j + 1..]
    requires SweepPoll(scale, script[1..]).writes == Repeat(scale, Replies(script[1..][..j + 1]))
    ensures j + 1 < |script| && FirstAckAt(NonZeroReply, script, j + 1)
    ensures SweepPoll(scale, script).rest == script[j + 1 + 1..]
    ensures SweepPoll(scale, script).writes == Repeat(scale, Replies(script[..j + 1 + 1]))
  {
    SweepPollLaterAck(scale, script, j);
    SweepPollLaterWrites(scale, script, j);
  }

  /** Where a sweep poll that ends stops and what it writes. It ends at the
      first reply other than `"0"`, leaving the reads after it, and writes
      one `scale` block for every reply read up to there, `"0"` replies
      included. */
  lemma {:induction false} SweepPollSwept(scale: seq<string>, script: seq<ReadOutcome>) returns (k: nat)
    requires SweepPoll(scale, script).Swept?
    ensures k < |script| && FirstAckAt(NonZeroReply, script, k)
    ensures SweepPoll(scale, script).rest == script[k + 1..]
    ensures SweepPoll(scale, script).writes == Repeat(scale, Replies(script[..k + 1]))
    decreases |script|
  {
    if Acks(NonZeroReply, script[0]) {
      SweepPollFirst(scale, script);
      k := 0;
    } else {
      SweepPollTail(scale, script);
      var j := SweepPollSwept(scale, script[1..]);
      SweepPollStep(scale, script, j);
      k := j + 1;
    }
  }

  /** A sweep poll that never ends read the whole script and wrote one
      `scale` block for every reply in it. */
  lemma {:induction false} SweepPollStalled(scale: seq<string>, script: seq<ReadOutcome>)
    requires SweepPoll(scale, script).Stalled?
    ensures SweepPoll(scale, script).writes == Repeat(scale, Replies(script))
    decreases |script|
  {
    if |script| > 0 {
      SweepPollStalled(scale, script[1..]);
    }
  }

  /** A sweep poll writes nothing but `scale`, over and over. */
  lemma {:induction false} SweepWrites(scale: seq<string>, script: seq<ReadOutcome>)
    ensures forall x :: x in SweepPoll(scale, script).writes ==> x in scale
    decreases |script|
  {
    if |script| > 0 {
      SweepWrites(scale, script[1..]);
    }
  }

  /** A sweep poll whose scale commands are not the trigger writes no
      trigger. */
  lemma {:induction false} SweepNoTrigger(scale: seq<string>, script: seq<ReadOutcome>)
    requires Trigger !in scale
    ensures Occurrences(SweepPoll(scale, script).writes, Trigger) == 0
    decreases |script|
  {
    if |script| > 0 {
      SweepNoTrigger(scale, script[1..]);
      OccurrencesAbsent(scale, Trigger);
      OccurrencesAppend(scale, SweepPoll(scale, script[1..]).writes, Trigger);
    }
  }

  /** The autoscale writes after a successful read in measurement `m`. The
      `SONA` class autoscales in measurements 1 and 2 only; the `SO_VNA`
      class autoscales in all three. */
  function ScaleWrites(v: Variant, m: nat): (w: seq<string>)
    ensures w == Autoscales || w == []
    ensures w == [] <==> v == Sona && m == 3
  {
    assert |Autoscales| == 4;
    if v == Sona && m == 3 then [] else Autoscales
  }

  /** Measurements `m..3` of `take_measurements`, each a trigger and an
      unbounded poll. */
  function Measurements(v: Variant, m: nat, script: seq<ReadOutcome>): (r: Exchange)
    requires 1 <= m <= 4
    ensures r.status != Fatal
    ensures r.status == Ok <==> CountAcks(script) >= 4 - m
    ensures r.status == Ok ==> CountAcks(r.rest) == CountAcks(script) - (4 - m)
    ensures r.status == NoExit ==> r.rest == []
    ensures m < 4 ==> |r.writes| > 0 && r.writes[0] == Trigger
    decreases 4 - m
  {
    if m == 4 then Exchange(Ok, [], script)
    else
      match SweepPoll(ScaleWrites(v, m), script)
      case Stalled(ws) => Exchange(NoExit, [Trigger] + ws, [])
      case Swept(ws, rest) =>
        var e := Measurements(v, m + 1, rest);
        Exchange(e.status, [Trigger] + ws + e.writes, e.rest)
  }

  /** One trigger per measurement started: all of them when the run
      completes, and one more than the answers given when it stalls. */
  lemma MeasurementsTriggers(v: Variant, m: nat, script: seq<ReadOutcome>)
    requires 1 <= m <= 4
    ensures var r := Measurements(v, m, script);
      Occurrences(r.writes, Trigger) == if r.status == Ok then 4 - m else CountAcks(script) + 1
  {
    if Measurements(v, m, script).status == Ok {
      CompletedTriggers(v, m, script);
    } else {
      StalledTriggers(v, m, script);
    }
  }

  /** A completed run of measurements `m..3` writes `4 - m` triggers. */
  lemma {:induction false} CompletedTriggers(v: Variant, m: nat, script: seq<ReadOutcome>)
    requires 1 <= m <= 4
    requires Measurements(v, m, script).status == Ok
    ensures Occurrences(Measurements(v, m, script).writes, Trigger) == 4 - m
    decreases 4 - m
  {
    if m < 4 {
      var sweep := MeasurementsOkStep(v, m, script);
      TriggerOnce(v, m, script);
      CompletedTriggers(v, m + 1, sweep.rest);
      OccurrencesAppend([Trigger] + sweep.writes, Measurements(v, m + 1, sweep.rest).writes, Trigger);
    }
  }

  /** A run that stalls writes one trigger per answer plus the trigger of
      the measurement it stalls in. */
  lemma {:induction false} StalledTriggers(v: Variant, m: nat, script: seq<ReadOutcome>)
    requires 1 <= m <= 4
    requires Measurements(v, m, script).status != Ok
    ensures Occurrences(Measurements(v, m, script).writes, Trigger) == CountAcks(script) + 1
    decreases 4 - m
  {
    assert m < 4;
    var sweep := MeasurementsStep(v, m, script);
    TriggerOnce(v, m, script);
    if sweep.Swept? {
      StalledTriggers(v, m + 1, sweep.rest);
      OccurrencesAppend([Trigger] + sweep.writes, Measurements(v, m + 1, sweep.rest).writes, Trigger);
    }
  }

  /** The trigger is not an autoscale command: they differ in their first
      character. */
  lemma TriggerNotScale()
    ensures Trigger !in Autoscales
  {
    forall x | x in Autoscales
      ensures x[0] == 'D'
    {
    }
  }

  /** The poll of measurement `m` writes no trigger, so the measurement
      writes exactly one. */
  lemma TriggerOnce(v: Variant, m: nat, script: seq<ReadOutcome>)
    ensures Occurrences([Trigger] + SweepPoll(ScaleWrites(v, m), script).writes, Trigger) == 1
  {
    var ws := SweepPoll(ScaleWrites(v, m), script).writes;
    TriggerNotScale();
    SweepNoTrigger(ScaleWrites(v, m), script);
    OccurrencesAppend([Trigger], ws, Trigger);
  }

  /** A command a measurement may write. */
  predicate IsMeasureWrite(x: string) {
    x == Trigger || x in Autoscales
  }

  /** Every command of `ws` is one a measurement may write. */
  function AllMeasureWrites(ws: seq<string>): bool {
    |ws| == 0 || (IsMeasureWrite(ws[0]) && AllMeasureWrites(ws[1..]))
  }

  lemma {:induction false} AllMeasureWritesAppend(a: seq<string>, b: seq<string>)
    requires AllMeasureWrites(a) && AllMeasureWrites(b)
    ensures AllMeasureWrites(a + b)
    decreases |a|
  {
    if |a| == 0 {
      assert a + b == b;
    } else {
      assert (a + b)[1..] == a[1..] + b;
      AllMeasureWritesAppend(a[1..], b);
    }
  }

  lemma {:induction false} AllMeasureWritesMembers(ws: seq<string>)
    requires AllMeasureWrites(ws)
    ensures forall x :: x in ws ==> IsMeasureWrite(x)
    decreases |ws|
  {
    if |ws| > 0 {
      AllMeasureWritesMembers(ws[1..]);
      assert forall x :: x in ws ==> x == ws[0] || x in ws[1..];
    }
  }

  lemma {:induction false} AllMeasureWritesOf(ws: seq<string>)
    requires forall x :: x in ws ==> IsMeasureWrite(x)
    ensures AllMeasureWrites(ws)
    decreases |ws|
  {
    if |ws| > 0 {
      assert ws[0] in ws;
      AllMeasureWritesOf(ws[1..]);
    }
  }

  /** The writes of measurement `m` alone: its trigger and its poll. */
  lemma SweepMeasureWrites(v: Variant, m: nat, script: seq<ReadOutcome>)
    ensures AllMeasureWrites([Trigger] + SweepPoll(ScaleWrites(v, m), script).writes)
  {
    var ws := SweepPoll(ScaleWrites(v, m), script).writes;
    SweepWrites(ScaleWrites(v, m), script);
    AllMeasureWritesOf(ws);
    assert AllMeasureWrites([Trigger]);
    AllMeasureWritesAppend([Trigger], ws);
  }

  /** Measurements write triggers and autoscale commands only. */
  lemma {:induction false} MeasurementsWrites(v: Variant, m: nat, script: seq<ReadOutcome>)
    requires 1 <= m <= 4
    ensures AllMeasureWrites(Measurements(v, m, script).writes)
    decreases 4 - m
  {
    if m < 4 {
      var sweep := MeasurementsStep(v, m, script);
      SweepMeasureWrites(v, m, script);
      if sweep.Swept? {
        MeasurementsWrites(v, m + 1, sweep.rest);
        AllMeasureWritesAppend([Trigger] + sweep.writes, Measurements(v, m + 1, sweep.rest).writes);
      }
    } else {
      assert Measurements(v, m, script).writes == [];
    }
  }

  /** Measurement `m` is a trigger and a sweep poll, followed by the later
      measurements when the poll returns. */
  lemma MeasurementsStep(v: Variant, m: nat, script: seq<ReadOutcome>) returns (sweep: Sweep)
    requires 1 <= m <= 3
    ensures sweep == SweepPoll(ScaleWrites(v, m), script)
    ensures sweep.Swept? ==> Measurements(v, m, script).writes == [Trigger] + sweep.writes + Measurements(v, m + 1, sweep.rest).writes
    ensures sweep.Swept? ==> Measurements(v, m, script).status == Measurements(v, m + 1, sweep.rest).status
    ensures sweep.Stalled? ==> Measurements(v, m, script).writes == [Trigger] + sweep.writes
  {
    sweep := SweepPoll(ScaleWrites(v, m), script);
  }

  /** A completed run of measurements `m..3` in the `SONA` class ends its
      write trace with the last trigger: nothing is autoscaled after the
      third measurement. */
  lemma {:induction false} SonaLastWrite(m: nat, script: seq<ReadOutcome>)
    requires 1 <= m <= 3
    requires Measurements(Sona, m, script).status == Ok
    ensures var w := Measurements(Sona, m, script).writes; w[|w| - 1] == Trigger
    decreases 4 - m
  {
    var sweep := MeasurementsOkStep(Sona, m, script);
    var head := [Trigger] + sweep.writes;
    var later := Measurements(Sona, m + 1, sweep.rest).writes;
    if m < 3 {
      SonaLastWrite(m + 1, sweep.rest);
      SuffixOfAppend(head, later, 1);
    } else {
      LastMeasurementWrites(Sona, sweep.rest);
      NoScaleNoWrites(Sona, script);
      assert head + later == [Trigger];
    }
  }

  /** `w` ends with the commands `t`. */
  predicate HasTail(w: seq<string>, t: seq<string>) {
    |w| >= |t| && w[|w| - |t|..] == t
  }

  lemma KeepsTail(a: seq<string>, b: seq<string>, t: seq<string>)
    requires HasTail(b, t)
    ensures HasTail(a + b, t)
  {
    assert (a + b)[|a + b| - |t|..] == b[|b| - |t|..];
  }

  /** A completed run of measurements `m..3` in the `SO_VNA` class ends its
      write trace with the four autoscale commands. */
  lemma {:induction false} SoVnaLastWrites(m: nat, script: seq<ReadOutcome>)
    requires 1 <= m <= 3
    requires Measurements(SoVna, m, script).status == Ok
    ensures HasTail(Measurements(SoVna, m, script).writes, Autoscales)
    decreases 4 - m
  {
    var sweep := MeasurementsOkStep(SoVna, m, script);
    var later := Measurements(SoVna, m + 1, sweep.rest).writes;
    if m < 3 {
      SoVnaLastWrites(m + 1, sweep.rest);
      KeepsTail([Trigger] + sweep.writes, later, Autoscales);
    } else {
      LastMeasurementWrites(SoVna, sweep.rest);
      assert ScaleWrites(SoVna, 3) == Autoscales;
      KeepsTail([Trigger], sweep.writes, Autoscales);
      assert [Trigger] + sweep.writes + later == [Trigger] + sweep.writes;
    }
  }

  /** A completed measurement `m` is one completed sweep poll followed by
      the completed later measurements. */
  lemma MeasurementsOkStep(v: Variant, m: nat, script: seq<ReadOutcome>) returns (sweep: Sweep)
    requires 1 <= m <= 3
    requires Measurements(v, m, script).status == Ok
    ensures sweep == SweepPoll(ScaleWrites(v, m), script) && sweep.Swept?
    ensures Measurements(v, m + 1, sweep.rest).status == Ok
    ensures Measurements(v, m, script).writes == [Trigger] + sweep.writes + Measurements(v, m + 1, sweep.rest).writes
  {
    sweep := SweepPoll(ScaleWrites(v, m), script);
  }

  lemma SuffixOfAppend(a: seq<string>, b: seq<string>, n: nat)
    requires n <= |b|
    ensures (a + b)[|a + b| - n..] == b[|b| - n..]
  {
  }

  /** After the third measurement nothing is left to write. */
  lemma LastMeasurementWrites(v: Variant, script: seq<ReadOutcome>)
    ensures Measurements(v, 4, script).writes == []
  {
  }

  /** The `SONA` class writes nothing while polling the third measurement. */
  lemma NoScaleNoWrites(v: Variant, script: seq<ReadOutcome>)
    requires v == Sona
    ensures SweepPoll(ScaleWrites(v, 3), script).writes == []
  {
  }

  /** `take_measurements`: three triggered sweeps. It never ends the
      program. It returns exactly when the analyser gives three answers
      other than `"0"`; otherwise it polls forever. It writes triggers and
      autoscale commands only. */
  function TakeMeasurements(v: Variant, script: seq<ReadOutcome>): (r: Exchange)
    ensures r.status != Fatal
    ensures r.status == Ok <==> CountAcks(script) >= 3
    ensures forall x :: x in r.writes ==> IsMeasureWrite(x)
  {
    MeasurementsWrites(v, 1, script);
    AllMeasureWritesMembers(Measurements(v, 1, script).writes);
    Measurements(v, 1, script)
  }

  /** The write trace of `take_measurements`: one trigger per measurement
      started. A completed `SONA` run ends on the third trigger, because
      the third measurement does not autoscale; a completed `SO_VNA` run
      ends on the four autoscale commands. */
  lemma MeasurementTrace(v: Variant, script: seq<ReadOutcome>)
    ensures var r := TakeMeasurements(v, script);
      Occurrences(r.writes, Trigger) == if r.status == Ok then 3 else CountAcks(script) + 1
    ensures var r := TakeMeasurements(v, script);
      r.status == Ok && v == Sona ==> r.writes[|r.writes| - 1] == Trigger
    ensures var r := TakeMeasurements(v, script);
      r.status == Ok && v == SoVna ==> |r.writes| >= 4 && r.writes[|r.writes| - 4..] == Autoscales
  {
    MeasurementsTriggers(v, 1, script);
    if TakeMeasurements(v, script).status == Ok {
      if v == Sona {
        SonaLastWrite(1, script);
      } else {
        SoVnaLastWrites(1, script);
      }
    }
  }

  /** An open session and the read termination set on it. */
  datatype Session = Session(resourceName: string, readTermination: Option<string>)

  /** An instrument object: the session it holds, if any. */
  datatype Analyzer = Analyzer(session: Option<Session>)

  /** A new `SONA` holds no session. */
  function NewSona(): (a: Analyzer)
    ensures a.session.None?
  {
    Analyzer(None)
  }

  /** A new `SO_VNA` holds no session; the address argument is ignored. */
  function NewSoVna(address: string): (a: Analyzer)
    ensures a.session.None?
  {
    Analyzer(None)
  }

  /** Serial (`ASRL...`) and raw-socket (`...SOCKET`) resources get `\n` as
      read termination; other resources keep the library's default. */
  function ReadTermination(resourceName: string): (t: Option<string>)
    ensures t.Some? <==> StartsWith(resourceName, "ASRL") || EndsWith(resourceName, "SOCKET")
    ensures t.Some? ==> t.value == "\n"
  {
    if StartsWith(resourceName, "ASRL") || EndsWith(resourceName, "SOCKET") then Some("\n") else None
  }

  /** What the VISA library's `open_resource` did with the address: raised,
      or opened a session reporting this resource name. */
  datatype OpenOutcome = OpenFailed | Opened(resourceName: string)

  datatype Connection = Connection(status: Status, connected: bool, analyzer: Analyzer, writes: seq<string>, rest: seq<ReadOutcome>)

  /** `connect_to_vna` / `connect_to_VNA`. A failed open returns False and
      keeps the old session. On success the `SONA` class stores the session
      and returns True at once. The `SO_VNA` class first writes `*IDN?`,
      reads the answer and asks the session for its TCP/IP address and port,
      all outside any `try`. A failed read is an uncaught exception, and so
      is the address query on a resource that is not `TCPIP...`; either way
      the session is not stored. */
  function Connect(v: Variant, a: Analyzer, open: OpenOutcome, script: seq<ReadOutcome>): (r: Connection)
    ensures open.OpenFailed? ==> r == Connection(Ok, false, a, [], script)
    ensures r.connected <==> r.status == Ok && open.Opened?
    ensures r.connected ==> r.analyzer.session == Some(Session(open.resourceName, ReadTermination(open.resourceName)))
    ensures !r.connected ==> r.analyzer == a
    ensures v == Sona ==> r.writes == [] && r.rest == script && r.status == Ok
    ensures v == SoVna && open.Opened? ==> r.writes == [Identify] && r.rest == After(script, 1)
    ensures v == SoVna && open.Opened? ==>
      (r.status == Ok <==> ReadAt(script, 0).Reply? && StartsWith(open.resourceName, "TCPIP"))
  {
    match open
    case OpenFailed => Connection(Ok, false, a, [], script)
    case Opened(name) =>
      var session := Session(name, ReadTermination(name));
      if v == Sona then Connection(Ok, true, Analyzer(Some(session)), [], script)
      else if ReadAt(script, 0).Reply? && StartsWith(name, "TCPIP") then
        Connection(Ok, true, Analyzer(Some(session)), [Identify], After(script, 1))
      else Connection(Fatal, false, a, [Identify], After(script, 1))
  }

  /** `session_test` of the `SO_VNA` class: ask for the identity and read
      the answer; a failed read is not caught. */
  function SessionTest(script: seq<ReadOutcome>): (r: Exchange)
    ensures r.writes == [Identify] && r.rest == After(script, 1)
    ensures r.status == Ok <==> ReadAt(script, 0).Reply?
    ensures r.status != NoExit
  {
    if ReadAt(script, 0).Reply? then Exchange(Ok, [Identify], After(script, 1))
    else Exchange(Fatal, [Identify], After(script, 1))
  }

  /** The calls `disconnect` makes on the session. */
  datatype Teardown = Clear | Close

  /** `disconnect`: clear the session, then close it. The object keeps the
      closed session. With no session the first call raises. */
  function Disconnect(a: Analyzer): (r: (Status, seq<Teardown>))
    ensures a.session.Some? <==> r.0 == Ok
    ensures a.session.Some? ==> r.1 == [Clear, Close]
    ensures a.session.None? ==> r.0 == Fatal && r.1 == []
  {
    if a.session.Some? then (Ok, [Clear, Close]) else (Fatal, [])
  }

  /** From a fresh object, `disconnect` succeeds exactly when the
      connection was made: it then clears and closes the session the
      connection stored. After a failed open or, in the `SO_VNA` class, a
      failed identity read or address query, no session is held and `disconnect` raises. */
  lemma ConnectThenDisconnect(v: Variant, a: Analyzer, open: OpenOutcome, script: seq<ReadOutcome>)
    requires a.session.None?
    ensures var c := Connect(v, a, open, script);
      && (Disconnect(c.analyzer).0 == Ok <==> c.connected)
      && (c.connected ==> Disconnect(c.analyzer).1 == [Clear, Close])
  {
  }
}
