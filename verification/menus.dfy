/** The decisions the assistants' console menus make. Each `input()` call
    takes the next line of a script of user answers. When the script is used
    up, `input()` raises and nothing catches it, shown as `OutOfInput`. A
    menu that loops until a valid answer is modelled by recursion on the
    remaining answers. */
module Menus {
  import opened Basics
  import opened PyText
  import opened Naming
  import Instrument

  /** What a prompting helper did: returned a value, leaving the answers it
      did not read, or ran out of answers. */
  datatype Interaction<T> = Returned(value: T, rest: seq<string>) | OutOfInput

  // ---------------------------------------------------------------------
  // Prompts repeated until the answer is acceptable

  /** The first answer `accept` takes; every earlier one is rejected and
      re-prompted. */
  function FirstAccepted(inputs: seq<string>, accept: string -> bool): (r: Interaction<string>)
    ensures r.OutOfInput? <==> forall j :: 0 <= j < |inputs| ==> !accept(inputs[j])
    ensures r.Returned? ==>
      exists k :: 0 <= k < |inputs| && inputs[k] == r.value && r.rest == inputs[k + 1..] && (forall j :: 0 <= j < k ==> !accept(inputs[j]))
    ensures r.Returned? ==> accept(r.value)
    decreases |inputs|
  {
    if |inputs| == 0 then OutOfInput
    else if accept(inputs[0]) then Returned(inputs[0], inputs[1..])
    else
      var r := FirstAccepted(inputs[1..], accept);
      if r.Returned? then
        assert forall j :: 1 <= j < |inputs| ==> inputs[j] == inputs[1..][j - 1];
        r
      else r
  }

  /** Rejected answers, then an accepted one: that one is returned and the
      answers after it are left unread. */
  lemma {:induction false} FirstAcceptedAfter(rejected: seq<string>, answer: string, rest: seq<string>, accept: string -> bool)
    requires forall j :: 0 <= j < |rejected| ==> !accept(rejected[j])
    requires accept(answer)
    ensures FirstAccepted(rejected + [answer] + rest, accept) == Returned(answer, rest)
    decreases |rejected|
  {
    var inputs := rejected + [answer] + rest;
    if |rejected| == 0 {
      assert inputs == [answer] + rest;
    } else {
      assert inputs[0] == rejected[0];
      assert inputs[1..] == rejected[1..] + [answer] + rest;
      FirstAcceptedAfter(rejected[1..], answer, rest, accept);
    }
  }

  /** A file name is accepted when `find(".")` reports no `.`. */
  predicate HasNoDot(name: string) {
    Find(name, '.') == -1
  }

  /** The prompt for the stitched file's name: repeated until the answer
      contains no `.`. */
  function ReadNetworkName(inputs: seq<string>): (r: Interaction<string>)
    ensures r.Returned? ==> '.' !in r.value
    ensures r.OutOfInput? <==> forall j :: 0 <= j < |inputs| ==> '.' in inputs[j]
    ensures r.Returned? ==>
      exists k :: 0 <= k < |inputs| && inputs[k] == r.value && r.rest == inputs[k + 1..] && (forall j :: 0 <= j < k ==> '.' in inputs[j])
  {
    FirstAccepted(inputs, HasNoDot)
  }

  /** A phone number is accepted when it contains neither a space nor `-`. */
  predicate IsBarePhoneNumber(number: string) {
    Find(number, ' ') == -1 && Find(number, '-') == -1
  }

  /** The phone number prompt: repeated until the answer contains neither a
      space nor `-`. */
  function ReadPhoneNumber(inputs: seq<string>): (r: Interaction<string>)
    ensures r.Returned? ==> ' ' !in r.value && '-' !in r.value
    ensures r.OutOfInput? <==> forall j :: 0 <= j < |inputs| ==> ' ' in inputs[j] || '-' in inputs[j]
    ensures r.Returned? ==>
      exists k :: 0 <= k < |inputs| && inputs[k] == r.value && r.rest == inputs[k + 1..]
        && (forall j :: 0 <= j < k ==> ' ' in inputs[j] || '-' in inputs[j])
  {
    FirstAccepted(inputs, IsBarePhoneNumber)
  }

  // ---------------------------------------------------------------------
  // Alert recipients

  /** `add_email_address`: the answer is appended as it is. */
  function AddEmailAddress(recipients: seq<string>, inputs: seq<string>): (r: Interaction<seq<string>>)
    ensures |inputs| == 0 <==> r.OutOfInput?
    ensures r.Returned? ==> r.value == recipients + [inputs[0]] && r.rest == inputs[1..]
  {
    if |inputs| == 0 then OutOfInput else Returned(recipients + [inputs[0]], inputs[1..])
  }

  const Carriers: seq<string> := ["@txt.att.net", "@tmomail.net", "@vmobl.com", "@messaging.sprintpcs.com", "@vtext.com"]

  /** The carrier menu's answers: `"1"`..`"5"` pick a carrier's e-mail
      gateway, `"0"` cancels, anything else is asked again. */
  datatype CarrierChoice = Gateway(suffix: string) | Cancel | Invalid

  function CarrierChoiceOf(answer: string): (c: CarrierChoice)
    ensures c.Gateway? ==> c.suffix in Carriers
    ensures c == Cancel <==> answer == "0"
    ensures c.Invalid? <==> answer !in ["0", "1", "2", "3", "4", "5"]
    ensures answer == "1" <==> c == Gateway("@txt.att.net")
    ensures answer == "2" <==> c == Gateway("@tmomail.net")
    ensures answer == "3" <==> c == Gateway("@vmobl.com")
    ensures answer == "4" <==> c == Gateway("@messaging.sprintpcs.com")
    ensures answer == "5" <==> c == Gateway("@vtext.com")
  {
    if answer == "1" then Gateway(Carriers[0])
    else if answer == "2" then Gateway(Carriers[1])
    else if answer == "3" then Gateway(Carriers[2])
    else if answer == "4" then Gateway(Carriers[3])
    else if answer == "5" then Gateway(Carriers[4])
    else if answer == "0" then Cancel
    else Invalid
  }

  /** An answer the carrier menu does not ask again for. */
  predicate IsCarrierAnswer(answer: string) {
    !CarrierChoiceOf(answer).Invalid?
  }

  /** The carrier loop: the first valid answer decides. */
  function ReadCarrier(inputs: seq<string>): (r: Interaction<CarrierChoice>)
    ensures r.Returned? ==> !r.value.Invalid?
    ensures r.Returned? && r.value.Gateway? ==> r.value.suffix in Carriers
    ensures r.OutOfInput? <==> forall j :: 0 <= j < |inputs| ==> CarrierChoiceOf(inputs[j]).Invalid?
    ensures r.Returned? ==>
      exists k :: 0 <= k < |inputs| && r.value == CarrierChoiceOf(inputs[k]) && r.rest == inputs[k + 1..]
        && (forall j :: 0 <= j < k ==> CarrierChoiceOf(inputs[j]).Invalid?)
  {
    match FirstAccepted(inputs, IsCarrierAnswer)
    case OutOfInput => OutOfInput
    case Returned(answer, rest) => Returned(CarrierChoiceOf(answer), rest)
  }

  /** `add_phone_number`: a cancelled carrier menu leaves the list as it
      was. Otherwise the first bare phone number, joined with the carrier's
      gateway, is appended. */
  function AddPhoneNumber(recipients: seq<string>, inputs: seq<string>): (r: Interaction<seq<string>>)
    ensures r.Returned? && r.value != recipients ==> |r.value| == |recipients| + 1 && r.value[..|recipients|] == recipients
    ensures r.Returned? && r.value != recipients ==>
      exists number, suffix :: suffix in Carriers && ' ' !in number && '-' !in number && r.value[|recipients|] == number + suffix
    ensures ReadCarrier(inputs) == OutOfInput ==> r == OutOfInput
    ensures var c := ReadCarrier(inputs);
      c.Returned? && c.value == Cancel ==> r == Returned(recipients, c.rest)
    ensures var c := ReadCarrier(inputs);
      c.Returned? && c.value.Gateway? && ReadPhoneNumber(c.rest).Returned? ==>
        var n := ReadPhoneNumber(c.rest);
        r == Returned(recipients + [n.value + c.value.suffix], n.rest)
  {
    match ReadCarrier(inputs)
    case OutOfInput => OutOfInput
    case Returned(choice, rest) =>
      if choice == Cancel then Returned(recipients, rest)
      else
        match ReadPhoneNumber(rest)
        case OutOfInput => OutOfInput
        case Returned(number, rest2) =>
          var added := recipients + [number + choice.suffix];
          assert added[..|recipients|] == recipients;
          assert choice.suffix in Carriers && ' ' !in number && '-' !in number && added[|recipients|] == number + choice.suffix;
          Returned(added, rest2)
  }

  /** Invalid carrier answers, a valid one, bad phone numbers and a bare
      one: the number with the chosen gateway is appended, and nothing after
      the number is read. */
  lemma AddPhoneAnswers(recipients: seq<string>, badCarriers: seq<string>, carrier: string,
                        badNumbers: seq<string>, number: string, rest: seq<string>)
    requires forall j :: 0 <= j < |badCarriers| ==> CarrierChoiceOf(badCarriers[j]).Invalid?
    requires CarrierChoiceOf(carrier).Gateway?
    requires forall j :: 0 <= j < |badNumbers| ==> ' ' in badNumbers[j] || '-' in badNumbers[j]
    requires ' ' !in number && '-' !in number
    ensures AddPhoneNumber(recipients, badCarriers + [carrier] + badNumbers + [number] + rest)
      == Returned(recipients + [number + CarrierChoiceOf(carrier).suffix], rest)
  {
    var later := badNumbers + [number] + rest;
    assert badCarriers + [carrier] + badNumbers + [number] + rest == badCarriers + [carrier] + later;
    FirstAcceptedAfter(badCarriers, carrier, later, IsCarrierAnswer);
    FirstAcceptedAfter(badNumbers, number, rest, IsBarePhoneNumber);
  }

  /** Invalid carrier answers and then `0`: the list comes back unchanged
      and no phone number is asked for. */
  lemma AddPhoneCancelled(recipients: seq<string>, badCarriers: seq<string>, rest: seq<string>)
    requires forall j :: 0 <= j < |badCarriers| ==> CarrierChoiceOf(badCarriers[j]).Invalid?
    ensures AddPhoneNumber(recipients, badCarriers + ["0"] + rest) == Returned(recipients, rest)
  {
    FirstAcceptedAfter(badCarriers, "0", rest, IsCarrierAnswer);
  }

  /** What one answer to the removal prompt does. */
  datatype Removal = Stop | Continue(recipients: seq<string>)

  /** One answer to `remove_recipient`'s prompt, as `int()` read it (None
      is the `ValueError`). `0` stops. `k` in `1..n` pops entry `k-1` and
      asks again. Any other number, or text `int()` rejects, asks again with
      the list unchanged. */
  function RemoveStep(recipients: seq<string>, answer: Option<int>): (r: Removal)
    ensures r == Stop <==> answer == Some(0)
    ensures r.Continue? && answer.Some? && 1 <= answer.value <= |recipients| ==>
      var k := answer.value;
      && |r.recipients| == |recipients| - 1
      && (forall i :: 0 <= i < k - 1 ==> r.recipients[i] == recipients[i])
      && (forall i :: k - 1 <= i < |r.recipients| ==> r.recipients[i] == recipients[i + 1])
    ensures r.Continue? && !(answer.Some? && 1 <= answer.value <= |recipients|) ==> r.recipients == recipients
    ensures r.Continue? ==> multiset(r.recipients) <= multiset(recipients)
  {
    match answer
    case None => Continue(recipients)
    case Some(k) =>
      if k == 0 then Stop
      else if 0 < k <= |recipients| then
        assert recipients == recipients[..k - 1] + [recipients[k - 1]] + recipients[k..];
        Continue(recipients[..k - 1] + recipients[k..])
      else Continue(recipients)
  }

  /** The removal loop, for any way `read` of turning an answer into a
      number. */
  function RemoveRecipientBy(read: Reader, recipients: seq<string>, inputs: seq<string>): (r: Interaction<seq<string>>)
    ensures r.Returned? ==> multiset(r.value) <= multiset(recipients)
    ensures |recipients| == 0 ==> r == Returned(recipients, inputs)
    decreases |inputs|
  {
    if |recipients| == 0 then Returned(recipients, inputs)
    else if |inputs| == 0 then OutOfInput
    else
      match RemoveStep(recipients, read(inputs[0]))
      case Stop => Returned(recipients, inputs[1..])
      case Continue(next) => RemoveRecipientBy(read, next, inputs[1..])
  }

  /** `remove_recipient`: answers are read with `int()` until one is `0` or
      the list is empty; the list is returned. */
  function RemoveRecipient(recipients: seq<string>, inputs: seq<string>): (r: Interaction<seq<string>>)
    ensures r.Returned? ==> multiset(r.value) <= multiset(recipients)
    ensures |recipients| == 0 ==> r == Returned(recipients, inputs)
  {
    RemoveRecipientBy(ParseInt, recipients, inputs)
  }

  /** An answer that pops or is ignored leads to the prompt again. */
  lemma RemoveContinues(read: Reader, recipients: seq<string>, next: seq<string>, answer: string, later: seq<string>)
    requires |recipients| > 0
    requires RemoveStep(recipients, read(answer)) == Continue(next)
    ensures RemoveRecipientBy(read, recipients, [answer] + later) == RemoveRecipientBy(read, next, later)
  {
    assert ([answer] + later)[0] == answer && ([answer] + later)[1..] == later;
  }

  /** An answer read as `0` returns the list as it stands. */
  lemma RemoveStops(read: Reader, recipients: seq<string>, answer: string, later: seq<string>)
    requires |recipients| > 0 && read(answer) == Some(0)
    ensures RemoveRecipientBy(read, recipients, [answer] + later) == Returned(recipients, later)
  {
    assert ([answer] + later)[0] == answer && ([answer] + later)[1..] == later;
  }

  /** Answer `k` pops entry `k - 1`. */
  lemma RemovePick(recipients: seq<string>, k: nat)
    requires 1 <= k <= |recipients|
    ensures RemoveStep(recipients, Some(k)) == Continue(recipients[..k - 1] + recipients[k..])
  {
  }

  /** An answer that leaves a non-empty list `next`, then an answer read as
      `0`, return `next`. */
  lemma ContinueThenStop(read: Reader, recipients: seq<string>, next: seq<string>, pick: string, stop: string, rest: seq<string>)
    requires |recipients| > 0 && |next| > 0
    requires RemoveStep(recipients, read(pick)) == Continue(next) && read(stop) == Some(0)
    ensures RemoveRecipientBy(read, recipients, [pick, stop] + rest) == Returned(next, rest)
  {
    assert [pick, stop] + rest == [pick] + ([stop] + rest);
    RemoveContinues(read, recipients, next, pick, [stop] + rest);
    RemoveStops(read, next, stop, rest);
  }

  /** An answer read as `k`, for `1 <= k <= n`, followed by an answer read
      as `0`, removes exactly entry `k-1` and returns. */
  lemma RemoveThenStopBy(read: Reader, recipients: seq<string>, k: nat, pick: string, stop: string, rest: seq<string>)
    requires 1 <= k <= |recipients| && |recipients| >= 2
    requires read(pick) == Some(k) && read(stop) == Some(0)
    ensures RemoveRecipientBy(read, recipients, [pick, stop] + rest)
      == Returned(recipients[..k - 1] + recipients[k..], rest)
  {
    var next := recipients[..k - 1] + recipients[k..];
    RemovePick(recipients, k);
    assert |next| == |recipients| - 1;
    ContinueThenStop(read, recipients, next, pick, stop, rest);
  }

  /** The same for `int()`: an answer it reads as `k` and then one it reads
      as `0`. */
  lemma RemoveThenStop(recipients: seq<string>, k: nat, pick: string, stop: string, rest: seq<string>)
    requires 1 <= k <= |recipients| && |recipients| >= 2
    requires ParseInt(pick) == Some(k) && ParseInt(stop) == Some(0)
    ensures RemoveRecipient(recipients, [pick, stop] + rest)
      == Returned(recipients[..k - 1] + recipients[k..], rest)
  {
    RemoveThenStopBy(ParseInt, recipients, k, pick, stop, rest);
  }

  /** The same for the answers typed as `str(k)` and `"0"`. */
  lemma RemoveTypedThenStop(recipients: seq<string>, k: nat, rest: seq<string>)
    requires 1 <= k <= |recipients| && |recipients| >= 2
    ensures RemoveRecipient(recipients, [IntToString(k), "0"] + rest)
      == Returned(recipients[..k - 1] + recipients[k..], rest)
  {
    ParseIntOfIntToString(k);
    ParseIntOfDigits("0");
    RemoveThenStop(recipients, k, IntToString(k), "0", rest);
  }

  /** With one recipient, an answer read as `1` empties the list, and the
      loop returns without reading again. */
  lemma RemoveOnlyRecipient(x: string, pick: string, rest: seq<string>)
    requires ParseInt(pick) == Some(1)
    ensures RemoveRecipient([x], [pick] + rest) == Returned([], rest)
  {
    RemoveContinues(ParseInt, [x], [], pick, rest);
  }

  /** Appending an entry and then removing it by its number, followed by
      `0`, gives back the list as it was. With an empty list the appended
      entry was the only one, so its removal ends the loop and `0` is left
      unread. */
  lemma AppendThenRemove(recipients: seq<string>, x: string, rest: seq<string>)
    ensures RemoveRecipient(recipients + [x], [IntToString(|recipients| + 1), "0"] + rest)
      == Returned(recipients, if |recipients| == 0 then ["0"] + rest else rest)
  {
    if |recipients| == 0 {
      ParseIntOfIntToString(1);
      assert recipients + [x] == [x];
      AppendToEmptyThenRemove(x, IntToString(1), rest);
    } else {
      var added := recipients + [x];
      RemoveTypedThenStop(added, |added|, rest);
      assert added[..|added| - 1] + added[|added|..] == recipients;
    }
  }

  /** The case of an empty list. */
  lemma AppendToEmptyThenRemove(x: string, pick: string, rest: seq<string>)
    requires ParseInt(pick) == Some(1)
    ensures RemoveRecipient([x], [pick, "0"] + rest) == Returned([], ["0"] + rest)
  {
    assert [pick, "0"] + rest == [pick] + (["0"] + rest);
    RemoveOnlyRecipient(x, pick, ["0"] + rest);
  }

  /** `add_email_address` and then removing the new entry by its number
      restore the list. */
  lemma AddEmailThenRemove(recipients: seq<string>, address: string, later: seq<string>, rest: seq<string>)
    ensures AddEmailAddress(recipients, [address] + later) == Returned(recipients + [address], later)
    ensures RemoveRecipient(recipients + [address], [IntToString(|recipients| + 1), "0"] + rest)
      == Returned(recipients, if |recipients| == 0 then ["0"] + rest else rest)
  {
    AppendThenRemove(recipients, address, rest);
  }

  /** `add_phone_number` with a valid carrier and a bare number, and then
      removing the new entry by its number, restore the list. */
  lemma AddPhoneThenRemove(recipients: seq<string>, carrier: string, number: string, later: seq<string>, rest: seq<string>)
    requires CarrierChoiceOf(carrier).Gateway?
    requires ' ' !in number && '-' !in number
    ensures var entry := number + CarrierChoiceOf(carrier).suffix;
      && AddPhoneNumber(recipients, [carrier, number] + later) == Returned(recipients + [entry], later)
      && RemoveRecipient(recipients + [entry], [IntToString(|recipients| + 1), "0"] + rest)
        == Returned(recipients, if |recipients| == 0 then ["0"] + rest else rest)
  {
    assert [carrier, number] + later == [] + [carrier] + [] + [number] + later;
    AddPhoneAnswers(recipients, [], carrier, [], number, later);
    AppendThenRemove(recipients, number + CarrierChoiceOf(carrier).suffix, rest);
  }

  // ---------------------------------------------------------------------
  // The analyser's address

  const DefaultHost := "10.10.10.155"
  const DefaultPort := "5025"

  /** The VISA resource string of a raw socket to `host` on `port`. */
  function VisaAddress(host: string, port: string): (address: string)
    ensures StartsWith(address, "TCPIP::")
    ensures EndsWith(address, "::SOCKET")
  {
    "TCPIP::" + host + "::" + port + "::SOCKET"
  }

  /** The address the default host and port give. */
  lemma DefaultAddress()
    ensures VisaAddress(DefaultHost, DefaultPort) == "TCPIP::10.10.10.155::5025::SOCKET"
  {
  }

  /** The answers the address menu acts on. */
  predicate IsYesNo(answer: string) {
    answer == "Y" || answer == "y" || answer == "N" || answer == "n"
  }

  /** `vna_address_menu`: `Y`/`y` takes the default host and port, `N`/`n`
      reads a host and then a port, and anything else is asked again. */
  function AddressMenu(inputs: seq<string>): (r: Interaction<string>)
    ensures r.Returned? ==> EndsWith(r.value, "::SOCKET") && StartsWith(r.value, "TCPIP::")
    ensures |inputs| > 0 && (inputs[0] == "Y" || inputs[0] == "y") ==>
      r == Returned("TCPIP::10.10.10.155::5025::SOCKET", inputs[1..])
    ensures |inputs| > 2 && (inputs[0] == "N" || inputs[0] == "n") ==>
      r == Returned(VisaAddress(inputs[1], inputs[2]), inputs[3..])
    decreases |inputs|
  {
    if |inputs| == 0 then OutOfInput
    else if inputs[0] == "Y" || inputs[0] == "y" then
      DefaultAddress();
      Returned(VisaAddress(DefaultHost, DefaultPort), inputs[1..])
    else if inputs[0] == "N" || inputs[0] == "n" then
      if |inputs| < 3 then OutOfInput else Returned(VisaAddress(inputs[1], inputs[2]), inputs[3..])
    else AddressMenu(inputs[1..])
  }

  /** A menu that returns was decided by the first `Y`, `y`, `N` or `n`
      answer; the answers before it changed nothing. */
  lemma {:induction false} AddressMenuAnswered(inputs: seq<string>) returns (k: nat)
    requires AddressMenu(inputs).Returned?
    ensures k < |inputs| && IsYesNo(inputs[k]) && forall j :: 0 <= j < k ==> !IsYesNo(inputs[j])
    ensures AddressMenu(inputs) == AddressMenu(inputs[k..])
    decreases |inputs|
  {
    if IsYesNo(inputs[0]) {
      k := 0;
    } else {
      var j := AddressMenuAnswered(inputs[1..]);
      k := j + 1;
      assert inputs[1..][j..] == inputs[k..];
    }
  }

  /** Answers other than `Y`, `y`, `N` and `n` are asked again: skipping
      them changes nothing. */
  lemma {:induction false} AddressMenuSkips(skipped: seq<string>, rest: seq<string>)
    requires forall j :: 0 <= j < |skipped| ==> !IsYesNo(skipped[j])
    ensures AddressMenu(skipped + rest) == AddressMenu(rest)
    decreases |skipped|
  {
    if |skipped| > 0 {
      var inputs := skipped + rest;
      assert inputs[0] == skipped[0];
      assert inputs[1..] == skipped[1..] + rest;
      AddressMenuSkips(skipped[1..], rest);
    } else {
      assert skipped + rest == rest;
    }
  }

  /** A session opened on an address the menu built gets `\n` as read
      termination, when the library reports the address as its name. */
  lemma MenuAddressTerminated(inputs: seq<string>)
    requires AddressMenu(inputs).Returned?
    ensures Instrument.ReadTermination(AddressMenu(inputs).value) == Some("\n")
  {
    var a := AddressMenu(inputs).value;
    assert a[|a| - 6..] == a[|a| - 8..][2..];
  }
}
