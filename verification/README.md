# SONA measurement assistant — a Dafny model of its core

The SONA assistant drives a vector network analyser over VISA. It records
S-parameter sweeps, and a few other programs consume those files. This project
models the core of that work and proves its properties:

- the command/acknowledge protocol of the two instrument classes (`SONA` and
  `SO_VNA`): connecting, switching to network-analyser mode, loading a
  calibration state, taking three sweeps and storing the result as a `.s2p`
  file;
- the measurement run that repeats this for every calibration state of a
  coarse or a fine run, and the file names it stores under;
- stitching a directory of per-state files back into one network: reading the
  state number out of each file name, placing the files into slots, and the
  pairwise recursive stitch;
- ordering measurements by the number in their file name (a selection sort
  over two parallel lists);
- the console menus that read the stitched file's name, the VISA address and
  the alert recipients (add an e-mail address, add a phone number with its
  carrier gateway, remove a recipient).

Both programs (`SONA_Assistant.py` with `SONA.py`, and
`SO_VNA_Assistant.py` with `SO_VNA.py`) are covered by one model. The
`Variant` parameter (`Sona` or `SoVna`) selects the places where they differ:
- the autoscale writes after the third sweep;
- the `*IDN?` exchange when connecting;
- the number of calibration states in a fine run (30 or 20).

Modules, one per file:

| module | file | models |
|---|---|---|
| `Basics` | basics.dfy | `Option`, and the `Variant` of the program |
| `PyText` | pytext.dfy | Python's `str()`, `int()`, `str.find`, `str.rfind` and slicing, as the core uses them |
| `Naming` | naming.dfy | save names `<base>_<state>`, the state number read back from a file name, the coarse and fine state ranges |
| `Stitcher` | stitcher.dfy | `stitch_s2p_list`; a network is a sequence of samples, so stitching two is concatenation |
| `Placement` | placement.dfy | the slot list built from a directory listing in `stitch_s_parameter_measurements` |
| `MeasurementSort` | sorting.dfy | `sort_measurements_list` |
| `Instrument` | instrument.dfy | the methods of the `SONA` and `SO_VNA` classes |
| `Sequencer` | sequencer.dfy | `take_s_parameters_measurements` |
| `Menus` | menus.dfy | the input loops of the address, name and recipient menus |

The instrument is modelled as follows:
- A read from the instrument is one step of a script of outcomes: a reply
  text, or a failure (the exception a read raises before the instrument
  answers). A used-up script fails forever.
- An operation returns how it ended, the SCPI commands it wrote (in order),
  and the unread part of the script.
- How it ended is `Ok`, `Fatal` (`quit()`, `exit()`, `sys.exit()` or an
  uncaught exception), or `NoExit` (the poll in `take_measurements` never
  ends).

Console input is a sequence of lines. Each menu returns what it produced and
the lines it did not read, or runs out of input.

Notes on how the code behaves:
- **Unbounded sweep poll.** In `take_measurements` the counter only prints
  when it reaches ten. The loop therefore polls without bound until a reply
  other than `"0"` arrives.
- **Autoscale on `"0"`.** The autoscale writes follow every reply the sweep
  poll reads, `"0"` replies included, because they sit in the `try` right
  after the read. Only a failed read writes nothing.
- **Reads that end the wait.** A `"0"` reply is treated differently by each
  loop:
  - The set-mode loop ends on any reply.
  - The calibration-state loop and the save loop only end on a reply other
    than `"0"`. In the save loop, `time.wait` does not exist and raises after
    every reply. The loop then ends only because the reply it stored was not
    `"0"`.
- **Negative slot numbers.** Placement writes to `s2p_list[n - 1]`. A state
  number from `1 - len` to `0` therefore lands in a slot counted from the end
  of the list, as Python's negative indexing does. Only numbers outside that
  range raise `IndexError`.
- **Unstable sort.** The sort picks the first smallest number, so it is not
  stable.
- **Empty stitch.** `stitch_s2p_list([])` never returns (Python stops it with
  `RecursionError`), because the pass of an empty list is empty again. The
  model proves that one step and requires a non-empty list.
- **Address query.** After `*IDN?`, the SO_VNA class asks the session for its
  TCP/IP address and port outside any `try`. On a resource that is not
  TCP/IP the library raises, so the connect ends the program there.

## Model

| member | source | states |
|---|---|---|
| PyText.ParseIntOfIntToString | SONA_Assistant.py:361 | `int()` applied to `str(n)` gives back `n` for every integer, negative ones included |
| PyText.ParseIntOfDigits | SONA_Assistant.py:361 | a non-empty run of ASCII digits parses to its decimal value |
| PyText.ParseInt | SONA_Assistant.py:361 | the empty text, which a file name without a number slices out, is a `ValueError` |
| PyText.RFind | SONA_Assistant.py:361 | `rfind` is -1 exactly when the character is absent; otherwise it is the index of its last occurrence |
| PyText.Find | SONA_Assistant.py:333 | `find` is -1 exactly when the character is absent; otherwise it is the index of its first occurrence |
| Naming.SaveName | SONA_Assistant.py:286-297 | state 0 saves under the bare base name; any other state saves under the base name followed by `_` and its number |
| Naming.StoredFileMarkers | SONA_Assistant.py:361 | in a stored fine-run file name, the last `_` is the one the naming inserted and the last `.` is the extension's, even when the base name contains `_` or `.` |
| Naming.OrdinalOfStoredFile | SONA_Assistant.py:361 | reading the number back out of `<base>_<state>.s2p` gives the state it was saved under (round trip of the naming) |
| Naming.CoarseFileIsBase | SONA_Assistant.py:286-288 | the coarse run's file is the base name with the `.s2p` extension |
| Naming.CalibrationRange | SONA_Assistant.py:100-111 | a coarse run covers state 0 only; a fine run covers states 1 to 30 (1 to 20 in SO_VNA_Assistant.py:109-113) |
| Stitcher.PassShape | SONA_Assistant.py:382-401 | one pass turns n networks into ceil(n/2): entry k stitches inputs 2k and 2k+1, and an odd last input is carried over unchanged |
| Stitcher.PassFromShape | SONA_Assistant.py:382-401 | the same shape for the remainder of the pass from any even index |
| Stitcher.PassKeepsSamples | SONA_Assistant.py:382-401 | a pass keeps every sample, in order |
| Stitcher.Stitch | SONA_Assistant.py:372-404 | for every non-empty list the result is one network holding all inputs' samples in list order (the same code is at SO_VNA_Assistant.py:235-251) |
| Stitcher.StitchSingleton | SONA_Assistant.py:377-379 | a single network is returned as it is |
| Stitcher.PassOfEmpty | SONA_Assistant.py:372-404 | the pass of an empty list is empty again, so the recursion on it makes no progress |
| Stitcher.StitchSampleCount | SONA_Assistant.py:372-404 | the stitched network has as many samples as all inputs together |
| Placement.SlotIndex | SONA_Assistant.py:362 | a state number addresses a slot exactly when it lies in `1 - n .. n`; positive numbers address slot `k - 1` and the others wrap from the end |
| Placement.FillSucceeds | SONA_Assistant.py:360-362 | placement raises no error exactly when every file's number parses and addresses a slot |
| Placement.FillSound | SONA_Assistant.py:360-362 | a slot that placement changed holds a listed file whose number addresses that slot |
| Placement.FillCovers | SONA_Assistant.py:360-362 | every slot some file addresses is filled afterwards |
| Placement.FillKeepsFilled | SONA_Assistant.py:360-362 | a filled slot is never emptied again |
| Placement.FillDense | SONA_Assistant.py:355-362 | when the n files carry the numbers 1..n, every slot k holds a listed file numbered k+1 |
| Placement.PlaceDense | SONA_Assistant.py:355-362 | the same for the directory listing, read with `int()` on the file names |
| Placement.PlaceDetermined | SONA_Assistant.py:355-362 | when the listing is a reordering of a reference list whose entry k is numbered k+1, placement rebuilds exactly that reference list, whatever the listing order |
| Placement.Present | SONA_Assistant.py:365 | a list without `None` slots stands for the networks in those slots, in slot order |
| Placement.StitchSlotsFull | SONA_Assistant.py:365 | stitching the slots succeeds exactly when no slot is still `None`, and then yields the files' samples in slot order |
| Placement.StitchDirectory | SONA_Assistant.py:355-365 | an empty directory fails; a stitched result means placement succeeded |
| Placement.StitchDirectoryDense | SONA_Assistant.py:355-365 | a directory whose files carry the numbers 1..n stitches into the samples of files 1..n in number order |
| MeasurementSort.Ordinals | SONA_Assistant.py:555-558 | the numbers are read in list order; any unparsable one raises before anything moves |
| MeasurementSort.Swap | SONA_Assistant.py:577-584 | the three-assignment swap exchanges two entries and keeps every other entry |
| MeasurementSort.SmallestFrom | SONA_Assistant.py:565-575 | the inner loop finds the first index of the smallest number at or after i |
| MeasurementSort.SortParallel | SONA_Assistant.py:562-584 | the two lists stay paired (the same file-number pairs, as a multiset), and the numbers end up non-decreasing |
| MeasurementSort.SortBy | SONA_Assistant.py:549-587 | for any number reader: fails exactly when some number is unreadable; otherwise returns a permutation of the files ordered by their numbers |
| MeasurementSort.SortMeasurements | SONA_Assistant.py:549-587 | the same, with `int()` reading the number between the last `_` and the last `.` (also SO_VNA_Assistant.py:328-351) |
| Instrument.NewSona | SONA.py:18-19 | a new object holds no session |
| Instrument.NewSoVna | SO_VNA.py:8-9 | a new object holds no session, whatever address it is given |
| Instrument.ReadTermination | SONA.py:36-37 | serial and raw-socket resources, and only those, get `\n` as read termination |
| Instrument.Connect | SONA.py:22-46 | a failed open changes nothing; success stores a session on the resource that was opened; the SO_VNA class (SO_VNA.py:12-42) first exchanges `*IDN?`, and succeeds exactly when that read returns and the resource is a TCP/IP one, ending the program otherwise |
| Instrument.SessionTest | SO_VNA.py:177-179 | writes `*IDN?` and reads once; a failed read is fatal |
| Instrument.Disconnect | SONA.py:216-221 | clears and closes the session exactly when one is held; without one the call raises |
| Instrument.ConnectThenDisconnect | SONA.py:216-221 | after connecting a new object, disconnecting succeeds exactly when the connection did |
| Instrument.BoundedPollSpec | SONA.py:55-89 | a poll with a budget of ten acknowledges at the first acknowledging read, within the budget, or uses up all ten reads without one |
| Instrument.PollAckedAt | SONA.py:55-89 | an acknowledged poll names the first acknowledging read and consumes exactly the reads up to it |
| Instrument.PollExhausted | SONA.py:55-89 | an exhausted poll consumed exactly ten reads, none of which acknowledged |
| Instrument.BoundedPollAcked | SONA.py:55-89 | the poll succeeds exactly when one of the first ten reads acknowledges |
| Instrument.SetMode | SONA.py:49-89 | succeeds exactly when one of the first ten reads returns a reply, and then writes NA mode, hold and four traces; otherwise it quits after ten reads (same as SO_VNA.py:45-73) |
| Instrument.CommandThenPoll | SONA.py:145-177 | the shape shared by state loading and saving: two writes, then success exactly when one of ten reads is a reply other than `"0"` |
| Instrument.ChangeCalState | SONA.py:145-177 | enters internal memory and loads `CalState_<n>.sta`; succeeds exactly when one of ten reads is a reply other than `"0"`, and exits otherwise |
| Instrument.LoadState | SONA.py:154 | the load command is the `MMEMory:LOAD:STATe "CalState_` prefix, then `str(n)`, then the `.sta";*OPC?` suffix |
| Instrument.LoadStateInjective | SONA.py:154 | different states give different load commands: the state number can be read back from the command |
| Instrument.SaveS2p | SONA.py:180-213 | enters the USB disk and stores `<name>.s2p`; succeeds exactly when one of ten reads is a reply other than `"0"`, and exits otherwise |
| Instrument.StoreSnp | SONA.py:189 | the store command is the `MMEM:STOR:SNP "` prefix, then the name, then the `.s2p";*OPC?` suffix |
| Instrument.StoreSnpInjective | SONA.py:189 | different names give different store commands |
| Instrument.SweepPoll | SONA.py:102-137 | the unbounded sweep poll stalls exactly when no reply other than `"0"` remains, and otherwise consumes exactly one such reply |
| Instrument.SweepPollSwept | SONA.py:105-137 | a sweep poll that ends stops at the first reply other than `"0"`, leaves exactly the reads after it, and has written one block of four autoscales per reply read up to there, `"0"` replies included |
| Instrument.SweepPollStalled | SONA.py:105-137 | a sweep poll that never ends has written one block of autoscales per reply in the whole script |
| Instrument.SweepWrites | SONA.py:112-130 | the sweep poll writes nothing but autoscale commands |
| Instrument.ScaleWrites | SONA.py:118-130 | the four autoscale writes follow every sweep except the SONA class's third one (SO_VNA.py:103-105 scales after all three) |
| Instrument.Measurements | SONA.py:95-139 | the remaining sweeps never end the program; they complete exactly when enough replies other than `"0"` remain, and each starts with a trigger |
| Instrument.MeasurementsTriggers | SONA.py:95-100 | the trigger count: one per remaining sweep when all complete, else one more than the replies that were available |
| Instrument.MeasurementsWrites | SONA.py:100-130 | every write of the sweeps is a trigger or an autoscale command |
| Instrument.SonaLastWrite | SONA.py:118-130 | in the SONA class a completed run ends with the third trigger, with no autoscale after it |
| Instrument.SoVnaLastWrites | SO_VNA.py:96-105 | in the SO_VNA class a completed run ends with the four autoscale commands |
| Instrument.TakeMeasurements | SONA.py:92-141 | three sweeps: never fatal, complete exactly when three replies other than `"0"` arrive, and write only triggers and autoscales |
| Instrument.MeasurementTrace | SONA.py:92-141 | a completed run triggered exactly three sweeps, and its final writes are as each class orders them; a stalled run triggered one more sweep than it got replies for |
| Sequencer.Plan | SONA_Assistant.py:276-297 | one round per state from start to end inclusive, each saved under that state's name |
| Sequencer.RunRound | SONA_Assistant.py:278-297 | every round begins by loading its calibration state, and a failed load ends the run there |
| Sequencer.Execute | SONA_Assistant.py:276-299 | no rounds leave everything untouched; otherwise the first writes load the first state |
| Sequencer.ExecuteAppend | SONA_Assistant.py:276-299 | running two plans one after the other is running their concatenation; a failure in the first skips the second |
| Sequencer.TakeSParameters | SONA_Assistant.py:255-301 | the run first sets NA mode, and a failure there ends it |
| Sequencer.Stored | SONA.py:189 | the store commands of a write trace, in order, are writes of that trace |
| Sequencer.OnlyStoresStore | SONA.py:49-213 | no command other than the store command stores a file |
| Sequencer.RoundStores | SONA_Assistant.py:278-297 | a round stores at most one file, under its own save name, and exactly that file when it succeeds |
| Sequencer.ExecuteStores | SONA_Assistant.py:276-299 | the files stored so far are the plan's names in plan order; a run that succeeds stores every one of them |
| Sequencer.RunStores | SONA_Assistant.py:255-299 | a successful measurement run stores one file per state of its range, in order |
| Sequencer.CompletedRunStores | SONA_Assistant.py:100-111 | a successful coarse run stores the base name; a successful fine run stores `<base>_1` to `<base>_30` in order (to `<base>_20` in the SO_VNA program) |
| Sequencer.Loaded | SONA.py:154 | the load commands of a write trace, in order, are writes of that trace |
| Sequencer.OnlyLoadsLoad | SONA.py:49-213 | the load command is the only command that loads a calibration state |
| Sequencer.RoundLoads | SONA_Assistant.py:278-279 | every iteration, however far it gets, loads its own state exactly once |
| Sequencer.RoundShape | SONA_Assistant.py:278-297 | a completed iteration writes the load of its state, then the sweeps with exactly three triggers, then the store of its own name |
| Sequencer.ExecuteLoads | SONA_Assistant.py:276-299 | the states loaded so far are the plan's states in plan order, at least one once the plan is non-empty, and all of them when the run completes |
| Sequencer.RunLoads | SONA_Assistant.py:255-299 | a completed run loads the states `start` to `end`, each once, in ascending order |
| Sequencer.FineFiles | SONA_Assistant.py:286-297 | the files a fine run leaves are `<base>_k.s2p` for k from 1 to n |
| Sequencer.FineFilesDense | SONA_Assistant.py:355-362 | in any listing order, those files carry exactly the numbers 1..n |
| Sequencer.FinePlacement | SONA_Assistant.py:355-362 | placing a fine run's files in any listing order puts file k in slot k-1 and fills every slot |
| Sequencer.FineRunStitches | SONA_Assistant.py:355-365 | stitching a fine run's directory, in any listing order, joins the states' samples in state order |
| Sequencer.SameOrdinalSameFile | SONA_Assistant.py:361 | within a fine run's files a file's number determines the file |
| Menus.FirstAccepted | SONA_Assistant.py:330-337 | a re-prompt loop returns the first acceptable answer, having consumed exactly the lines up to it |
| Menus.FirstAcceptedAfter | SONA_Assistant.py:942-949 | rejected answers followed by an accepted one return that one and leave the later lines unread |
| Menus.ReadNetworkName | SONA_Assistant.py:328-337 | the stitched file's name is the first answer without a `.` (same as SO_VNA_Assistant.py:203-211) |
| Menus.ReadPhoneNumber | SONA_Assistant.py:942-949 | the number is the first answer with neither a space nor a `-`; every answer before it had one of them, and the lines after it are left unread |
| Menus.AddEmailAddress | SONA_Assistant.py:885-889 | appends the next line, unchecked, to the recipients |
| Menus.CarrierChoiceOf | SONA_Assistant.py:893-938 | answer 1 picks `@txt.att.net`, 2 `@tmomail.net`, 3 `@vmobl.com`, 4 `@messaging.sprintpcs.com`, 5 `@vtext.com`; 0 cancels; anything else is rejected |
| Menus.ReadCarrier | SONA_Assistant.py:911-938 | the carrier menu returns the choice of the first answer it accepts, after only rejected answers, leaving the lines after it unread |
| Menus.AddPhoneNumber | SONA_Assistant.py:892-954 | a cancel returns the recipients unchanged after the carrier answer; otherwise the entry appended is the number read after the carrier answer followed by that carrier's gateway |
| Menus.AddPhoneAnswers | SONA_Assistant.py:892-954 | rejected carrier answers, a gateway answer, rejected numbers and a bare number append exactly `<number><gateway>` and read nothing further |
| Menus.AddPhoneCancelled | SONA_Assistant.py:934-935 | rejected carrier answers and then 0 return the list unchanged without asking for a number |
| Menus.RemoveStep | SONA_Assistant.py:974-988 | 0 ends the menu; a valid position k removes entry k and keeps the order of the others; any other answer changes nothing |
| Menus.RemoveRecipient | SONA_Assistant.py:957-988 | the result only ever removes recipients; an empty list returns at once without reading |
| Menus.RemoveThenStop | SONA_Assistant.py:957-988 | choosing position k and then 0 returns the list without entry k and leaves the later lines unread |
| Menus.RemoveTypedThenStop | SONA_Assistant.py:972-978 | the same for the typed answers `str(k)` and `"0"` |
| Menus.RemoveOnlyRecipient | SONA_Assistant.py:960-982 | with one recipient, choosing 1 empties the list and the menu returns without reading again |
| Menus.AppendThenRemove | SONA_Assistant.py:957-988 | removing a newly appended last entry by its number, then 0, gives back the list as it was before the append |
| Menus.AddEmailThenRemove | SONA_Assistant.py:885-889 | `add_email_address` followed by removing the new entry restores the list |
| Menus.AddPhoneThenRemove | SONA_Assistant.py:892-954 | `add_phone_number` with a gateway and a bare number, followed by removing the new entry, restores the list |
| Menus.VisaAddress | SONA_Assistant.py:226 | the address is a TCPIP raw-socket resource string |
| Menus.DefaultAddress | SONA_Assistant.py:190-191 | the default address is `TCPIP::10.10.10.155::5025::SOCKET` |
| Menus.AddressMenu | SONA_Assistant.py:185-231 | `Y`/`y` gives the default address, `N`/`n` builds one from the next two lines |
| Menus.AddressMenuAnswered | SONA_Assistant.py:185-231 | a menu that returns was decided by its first `Y`, `y`, `N` or `n` answer, whatever came before it |
| Menus.AddressMenuSkips | SONA_Assistant.py:185-231 | answers other than `Y`, `y`, `N` and `n` are asked again and change nothing |
| Menus.MenuAddressTerminated | SONA_Assistant.py:226 | any address the menu returns gets `\n` as read termination when connected |

## Left out

- Sleeps, console messages and plotting are not modelled. They have no
  effect on the writes, the reads or the results.
- The Tk dialogs that pick directories and files are left out. The listing
  they yield is a parameter (`listing`), and the order of `os.listdir` is
  arbitrary: every placement result holds for all orders.
- Loading and writing networks (`rf.Network`, `rf.stitch`, `.write`) are
  left out. A network is a sequence of samples, loading is the `load`
  parameter, and stitching two networks is their concatenation. Frequency
  checks inside the network library are not modelled.
- TDR measurement, the plot settings, the main menus and the `configure_*`
  menus are left out. They are interactive dispatch or floating-point
  plotting over the operations modelled here.
- `send_email_alert` is left out: it is SMTP network I/O.
- The VISA transport is left out. `open_resource` returns a session or
  raises (`OpenOutcome`), and reads come from a script. `open_resource`
  never returns `None`, so the unreachable `None` branch is left out.
- The output of `get_visa_attribute` and `session_test` is left out: printing
  the identification string, address and port is I/O. The model keeps the
  exchange, and that `get_visa_attribute` raises on a resource that is not
  TCP/IP.
- The SO_VNA assistant's connect wiring is left out. It calls its address
  menu without the arguments it needs, and its check of the connect result
  is inverted, so those lines fail before reaching the instrument.
- `swap` in SO_VNA_Assistant.py is left out. It only rebinds its local names
  and is never called.
- `get_save_file_name` and `get_file_name` are left out. They return one
  unchecked line of input.
- Instrument calls on an object with no session are left out, except
  `disconnect`. Each raises at the first write; the menus only reach them
  after a connection.
- PyText.ParseInt: accepts ASCII digits, a sign, single `_` separators and
  the white space characters below 128 that `str.isspace` accepts (tab, line
  feed, vertical tab, form feed, carriage return, `\x1c` to `\x1f` and
  space) only. Python's `int()` also accepts other Unicode digits and
  spaces, which no file name the program writes contains.
- Stitcher.Stitch: requires a non-empty list. On an empty list the Python
  recursion never returns; `Stitcher.PassOfEmpty` states that step.
- Instrument.MeasurementTrace: states the trigger count and the final writes
  of a run rather than its whole write trace.
