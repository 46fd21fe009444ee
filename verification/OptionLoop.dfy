/** The option loop of the loader: what the buffer holds while settings are cut out of it and passed on. */
module OptionLoop {
  import opened Basics
  import opened CStrings
  import opened ConfigGrammar
  import opened Loader

  // ----- what the VM was told -----

  ghost predicate AcceptedUpTo(vm: Vm, settings: seq<Setting>, n: nat) {
    n <= |settings| && forall i :: 0 <= i < n ==> Answer(vm, settings, i) == OptionSuccess
  }

  lemma NextAnswer(vm: Vm, settings: seq<Setting>, passed: seq<Setting>)
    requires passed <= settings && passed != [] && AcceptedUpTo(vm, settings, |passed| - 1)
    ensures vm.setOption(passed) == Answer(vm, settings, |passed| - 1)
    ensures vm.setOption(passed) == OptionSuccess ==> AcceptedUpTo(vm, settings, |passed|)
  {
    assert passed == settings[..|passed|];
  }

  datatype LoopEnd = AllPassed | NotSupported | Refused(setting: Setting, answer: SetOptionResult)

  /** What the VM has accepted at the head of the option loop. */
  ghost predicate Accepted(vm: Vm, settings: seq<Setting>, passed: seq<Setting>, rest: string) {
    && settings == passed + SettingsIn(rest)
    && AcceptedUpTo(vm, settings, |passed|)
    && (passed != [] ==> vm.hasSetOption)
  }

  ghost predicate Ended(vm: Vm, settings: seq<Setting>, passed: seq<Setting>, end: LoopEnd) {
    && passed <= settings
    && match end
       case AllPassed => passed == settings && AcceptedUpTo(vm, settings, |settings|) && (passed != [] ==> vm.hasSetOption)
       case NotSupported => !vm.hasSetOption && passed == [] != settings
       case Refused(setting, answer) =>
         && vm.hasSetOption && passed != [] && setting == passed[|passed| - 1]
         && AcceptedUpTo(vm, settings, |passed| - 1)
         && answer == Answer(vm, settings, |passed| - 1) != OptionSuccess
  }

  function EndCode(end: LoopEnd): ErrorCode {
    match end
    case AllPassed => LoaderSuccess
    case NotSupported => InvalidOptionName
    case Refused(_, answer) => if answer == OptionInvalidName then InvalidOptionName else InvalidOptionValue
  }

  function EndComplaint(vm: Vm, path: string, end: LoopEnd): Option<Complaint> {
    match end
    case AllPassed => None
    case NotSupported => Some(Formatted(OptionsNotSupported(vm.name, path)))
    case Refused(setting, answer) => Some(Formatted(RefusalOf(vm, path, setting, answer)))
  }

  /** The way the loop ended decides what was passed, what is reported and what is said. */
  lemma EndDecidesCode(vm: Vm, path: string, settings: seq<Setting>, passed: seq<Setting>, end: LoopEnd)
    requires Ended(vm, settings, passed, end)
    ensures Passed(vm, settings) == passed
    ensures ConfigureCode(vm, settings) == EndCode(end)
    ensures ConfigureComplaint(vm, path, settings) == EndComplaint(vm, path, end)
    ensures end.Refused? ==> end.answer != OptionSuccess
  {
    if end.Refused? {
      var k := |passed| - 1;
      assert FirstRefused(vm, settings, 0) == k;
      assert settings[..k + 1] == passed && settings[k] == end.setting;
    }
  }

  lemma Reassociate(passed: seq<Setting>, setting: Setting, tail: seq<Setting>)
    ensures passed + ([setting] + tail) == passed + [setting] + tail
    ensures passed + [setting] <= passed + ([setting] + tail)
  {
  }

  lemma AfterAnswer(vm: Vm, settings: seq<Setting>, passed: seq<Setting>, setting: Setting, rest: string)
    requires vm.hasSetOption && settings == passed + ([setting] + SettingsIn(rest)) && AcceptedUpTo(vm, settings, |passed|)
    ensures var r := vm.setOption(passed + [setting]);
            if r == OptionSuccess then Accepted(vm, settings, passed + [setting], rest)
            else Ended(vm, settings, passed + [setting], Refused(setting, r))
  {
    var now := passed + [setting];
    Reassociate(passed, setting, SettingsIn(rest));
    NextAnswer(vm, settings, now);
    assert now[|now| - 1] == setting && |now| - 1 == |passed|;
  }

  // ----- where it lies in the buffer -----

  /** The options taken so far, and where in the buffer the name and the value of each start. */
  datatype Places = Nowhere | After(earlier: Places, setting: Setting, name: nat, value: nat)

  function InOrder(places: Places): seq<Setting> {
    match places
    case Nowhere => []
    case After(earlier, setting, _, _) => InOrder(earlier) + [setting]
  }

  /**
   * Every option's name and value are still C strings where the VM was told they are, each option after the one before
   * it and all below `limit`.
   */
  ghost predicate Intact(buf: seq<char>, places: Places, limit: nat) {
    match places
    case Nowhere => true
    case After(earlier, setting, name, value) =>
      && StringAt(buf, name, setting.0) && StringAt(buf, value, setting.1)
      && name + |setting.0| <= value + |setting.1| < limit
      && Intact(buf, earlier, name)
  }

  lemma {:induction false} IntactFrame(buf: seq<char>, buf': seq<char>, places: Places, limit: nat)
    requires limit <= |buf| == |buf'| && Intact(buf, places, limit)
    requires forall j :: 0 <= j < limit ==> buf'[j] == buf[j]
    ensures Intact(buf', places, limit)
  {
    if places.Nowhere? {
    } else {
      StringAtFrame(buf, buf', places.name, places.setting.0);
      StringAtFrame(buf, buf', places.value, places.setting.1);
      IntactFrame(buf, buf', places.earlier, places.name);
    }
  }

  /** What the buffer holds at the head of the option loop. */
  ghost predicate AtHead(buf: seq<char>, path: string, options: nat, rest: string, places: Places) {
    && StringAt(buf, 0, path) && StringAt(buf, options, rest)
    && (rest != "" ==> |path| < options)
    && Intact(buf, places, if rest != "" then options else |buf|)
  }

  /** Cuts the path off the copied configuration and reads it. */
  method TakePath(buf: array<char>, ghost config: string) returns (options: nat, path: string)
    requires StringAt(buf[..], 0, config)
    modifies buf
    ensures path == PathOf(config) && NUL !in path && StringAt(buf[..], 0, path)
    ensures StringAt(buf[..], options, Beyond(config, ',')) && (Beyond(config, ',') != "" ==> |path| < options)
  {
    options := GetToken(buf, 0, ',', config);
    path := CString(buf, 0, PathOf(config));
  }

  /** Takes one token off the text at `option` and cuts it into a name, left at `option`, and a value. */
  method TakeOption(buf: array<char>, option: nat, ghost rest: string) returns (next: nat, value: nat)
    requires StringAt(buf[..], option, rest) && rest != ""
    modifies buf
    ensures var setting := SettingOf(Before(rest, ','));
            && StringAt(buf[..], option, setting.0) && StringAt(buf[..], value, setting.1)
            && StringAt(buf[..], next, Beyond(rest, ','))
            && option + |setting.0| <= value + |setting.1| < buf.Length
            && (Beyond(rest, ',') != "" ==> value + |setting.1| < next)
    ensures next > option
    ensures forall j :: 0 <= j < option ==> buf[j] == old(buf[j])
  {
    next := GetToken(buf, option, ',', rest);
    ghost var mid := buf[..];
    value := GetToken(buf, option, '=', Before(rest, ','));
    StringAtFrame(mid, buf[..], next, Beyond(rest, ','));
  }

  /** Takes the next option off the text and reads its name and value; what was taken before stays in place. */
  method NextOption(buf: array<char>, option: nat, ghost path: string, ghost places: Places, ghost rest: string)
    returns (next: nat, setting: Setting, ghost places': Places, ghost left: string)
    requires AtHead(buf[..], path, option, rest, places) && rest != ""
    modifies buf
    ensures AtHead(buf[..], path, next, left, places')
    ensures SettingsIn(rest) == [setting] + SettingsIn(left) && |left| < |rest|
    ensures InOrder(places') == InOrder(places) + [setting]
  {
    ghost var was := buf[..];
    var value;
    next, value := TakeOption(buf, option, rest);
    StringAtFrame(was, buf[..], 0, path);
    IntactFrame(was, buf[..], places, option);
    ghost var token := Before(rest, ',');
    var name := CString(buf, option, Before(token, '='));
    var text := CString(buf, value, Beyond(token, '='));
    setting := (name, text);
    places', left := After(places, setting, option, value), Beyond(rest, ',');
  }

  /** Takes the next option and hands it to the VM: it goes on, or it ends with the refusal. */
  method PassNext(vm: Vm, buf: array<char>, option: nat, ghost path: string, ghost places: Places,
                  ghost settings: seq<Setting>, passed: seq<Setting>, ghost rest: string)
    returns (next: nat, setting: Setting, r: SetOptionResult, ghost places': Places, ghost left: string)
    requires AtHead(buf[..], path, option, rest, places) && rest != "" && vm.hasSetOption
    requires Accepted(vm, settings, passed, rest)
    modifies buf
    ensures AtHead(buf[..], path, next, left, places') && InOrder(places') == InOrder(places) + [setting]
    ensures |left| < |rest|
    ensures if r == OptionSuccess then Accepted(vm, settings, passed + [setting], left)
            else Ended(vm, settings, passed + [setting], Refused(setting, r))
  {
    next, setting, places', left := NextOption(buf, option, path, places, rest);
    r := vm.setOption(passed + [setting]);
    AfterAnswer(vm, settings, passed, setting, left);
  }
}
