/**
 * What the loader's calls come to: opening a library, finding its create function, creating a VM and configuring it.
 * The operating system, the loaded library and the message formatter are a Platform; nothing is assumed of it.
 */
module Loader {
  import opened Basics
  import opened CStrings
  import opened ConfigGrammar
  import opened SymbolName

  datatype ErrorCode =
    | LoaderSuccess | CannotOpen | SymbolNotFound | InvalidArgument | VmCreationFailure | AbiVersionMismatch
    | InvalidOptionName | InvalidOptionValue

  datatype SetOptionResult = OptionSuccess | OptionInvalidName | OptionInvalidValue | OptionUnknown

  /** A created VM; its answer to an option may depend on all options set before. */
  datatype Vm = Vm(name: string, abi: int, hasSetOption: bool, setOption: seq<Setting> -> SetOptionResult)

  /** Calling it gives a VM or the null pointer. */
  datatype CreateFn = CreateFn(result: Option<Vm>)

  /** The messages the loader formats. */
  datatype Message =
    | NullFileName | EmptyFileName | FileNameTooLong(length: nat) | CannotOpenFile(file: string)
    | CreateFunctionNotFound(file: string) | CreationFailed(file: string) | AbiMismatch(abi: int, file: string)
    | ConfigTooLong | OptionsNotSupported(vm: string, path: string) | UnknownOption(vm: string, path: string, name: string)
    | UnsupportedValue(vm: string, path: string, value: string, name: string)
    | UnknownFailure(vm: string, path: string, value: string, name: string)

  datatype OpenResult = NotOpened(osError: Option<string>) | Opened(symbols: map<string, CreateFn>)

  /** `fits` tells whether a formatted message fits the 511-character buffer. */
  datatype Platform = Platform(open: string -> OpenResult, fits: Message -> bool)

  const ABI_VERSION: int := 1

  // ----- error messages -----

  /** What a failing call has to say: a message of the loader, or the operating system's own text. */
  datatype Complaint = Formatted(m: Message) | FromSystem(text: string)

  /** A text a reader can find: a message, one cut off at the end of the buffer, or the operating system's. */
  datatype Text = Blank | Whole(m: Message) | CutOff(m: Message) | SystemText(text: string)

  /** Where the last error message is, if there is one. */
  datatype LastError = NoError | InBuffer | InSystem(text: string)

  /** The buffer is shared by all messages, and is written before it is known whether the message fits. */
  datatype Errors = Errors(last: LastError, buffer: Text)

  function Format(p: Platform, e: Errors, m: Message): Errors {
    if p.fits(m) then Errors(InBuffer, Whole(m)) else e.(buffer := CutOff(m))
  }

  function Complain(p: Platform, e: Errors, c: Option<Complaint>): Errors {
    match c
    case None => e
    case Some(Formatted(m)) => Format(p, e, m)
    case Some(FromSystem(text)) => e.(last := InSystem(text))
  }

  /** What a reader of the last error message finds. */
  function Pending(e: Errors): Option<Text> {
    match e.last
    case NoError => None
    case InBuffer => Some(e.buffer)
    case InSystem(text) => Some(SystemText(text))
  }

  // ----- loading -----

  const FALLBACK_NAME := "qrvmc_create"

  /** The create function found, or the reason there is none. */
  datatype Loading = Loading(code: ErrorCode, fn: Option<CreateFn>, complaint: Option<Complaint>)

  function LoadFailure(code: ErrorCode, m: Message): Loading {
    Loading(code, None, Some(Formatted(m)))
  }

  function SymbolOutcome(symbols: map<string, CreateFn>, file: string): Loading {
    var name := DerivedName(file);
    if name in symbols then Loading(LoaderSuccess, Some(symbols[name]), None)
    else if FALLBACK_NAME in symbols then Loading(LoaderSuccess, Some(symbols[FALLBACK_NAME]), None)
    else LoadFailure(SymbolNotFound, CreateFunctionNotFound(file))
  }

  function LoadOutcome(p: Platform, filename: Option<string>): Loading {
    if filename.None? then LoadFailure(InvalidArgument, NullFileName)
    else
      var file := filename.value;
      if |file| == 0 then LoadFailure(InvalidArgument, EmptyFileName)
      else if |file| > PATH_MAX_LENGTH then LoadFailure(InvalidArgument, FileNameTooLong(|file|))
      else
        match p.open(file)
        case NotOpened(None) => LoadFailure(CannotOpen, CannotOpenFile(file))
        case NotOpened(Some(text)) => Loading(CannotOpen, None, Some(FromSystem(text)))
        case Opened(symbols) => SymbolOutcome(symbols, file)
  }

  /** A file name the loader passes on to the operating system. */
  predicate AcceptedName(filename: Option<string>) {
    filename.Some? && 1 <= |filename.value| <= 4096
  }

  /** Each code has its one cause, and every failure says something. */
  lemma LoadCodes(p: Platform, filename: Option<string>)
    ensures var l := LoadOutcome(p, filename);
            && (l.code == InvalidArgument <==> !AcceptedName(filename))
            && (l.code == CannotOpen <==> AcceptedName(filename) && p.open(filename.value).NotOpened?)
            && (l.code == LoaderSuccess <==> l.fn.Some?)
            && (l.code == LoaderSuccess <==> l.complaint.None?)
            && l.code in {InvalidArgument, CannotOpen, SymbolNotFound, LoaderSuccess}
    ensures AcceptedName(filename) && p.open(filename.value).NotOpened? && p.open(filename.value).osError.Some?
            ==> LoadOutcome(p, filename).complaint == Some(FromSystem(p.open(filename.value).osError.value))
  {
  }

  /** What is found in an opened library: the function with the derived name, else the one with the common name. */
  lemma SymbolsOfOpened(p: Platform, file: string)
    requires AcceptedName(Some(file)) && p.open(file).Opened?
    ensures var symbols, l := p.open(file).symbols, LoadOutcome(p, Some(file));
            && (DerivedName(file) in symbols ==> l.fn == Some(symbols[DerivedName(file)]))
            && (DerivedName(file) !in symbols && "qrvmc_create" in symbols ==> l.fn == Some(symbols["qrvmc_create"]))
            && (l.code == SymbolNotFound <==> DerivedName(file) !in symbols && "qrvmc_create" !in symbols)
  {
  }

  /** Loading dir/libname.ext looks for qrvmc_create_name, with '_' for '-', and for qrvmc_create only if that is missing. */
  lemma LibraryIsSearched(p: Platform, dir: string, name: string, extensions: string)
    requires '/' !in name && '.' !in name && '/' !in extensions
    requires var file := dir + "/" + ("lib" + (name + "." + extensions)); |file| <= 4096 && p.open(file).Opened?
    ensures var file := dir + "/" + ("lib" + (name + "." + extensions));
            var symbols, symbol := p.open(file).symbols, "qrvmc_create_" + Underscored(name);
            LoadOutcome(p, Some(file)).fn
            == if symbol in symbols then Some(symbols[symbol])
               else if "qrvmc_create" in symbols then Some(symbols["qrvmc_create"])
               else None
  {
    var file := dir + "/" + ("lib" + (name + "." + extensions));
    LibraryName(dir, name, extensions);
    SymbolsOfOpened(p, file);
    LoadCodes(p, Some(file));
  }

  // ----- creating -----

  /** The VM handed on, if any, and whether one was created on the way, to be kept or destroyed. */
  datatype Creation = Creation(code: ErrorCode, vm: Option<Vm>, created: bool, complaint: Option<Complaint>)

  function CreatedBy(fn: CreateFn, file: string): Creation {
    match fn.result
    case None => Creation(VmCreationFailure, None, false, Some(Formatted(CreationFailed(file))))
    case Some(vm) =>
      if vm.abi != ABI_VERSION then Creation(AbiVersionMismatch, None, true, Some(Formatted(AbiMismatch(vm.abi, file))))
      else Creation(LoaderSuccess, Some(vm), true, None)
  }

  function CreateOutcome(p: Platform, filename: Option<string>): Creation {
    var loading := LoadOutcome(p, filename);
    if loading.fn.None? || filename.None? then Creation(loading.code, None, false, loading.complaint)
    else CreatedBy(loading.fn.value, filename.value)
  }

  /** The VM handed on is the one the create function gave, if that has ABI version 1; any other is not kept. */
  lemma OnlyCompatibleVms(p: Platform, filename: Option<string>)
    ensures var l, c := LoadOutcome(p, filename), CreateOutcome(p, filename);
            && (l.fn.None? ==> c.vm == None && !c.created && c.code == l.code && c.complaint == l.complaint)
            && (l.fn.Some? ==>
                  var r := l.fn.value.result;
                  && c.vm == (if r.Some? && r.value.abi == 1 then r else None)
                  && c.created == r.Some?
                  && (c.code == VmCreationFailure <==> r.None?))
            && (c.code == AbiVersionMismatch <==> c.created && c.vm.None?)
            && (c.code == LoaderSuccess <==> c.vm.Some?)
            && (c.code == LoaderSuccess <==> c.complaint.None?)
            && (c.vm.Some? ==> c.vm.value.abi == 1)
  {
    LoadCodes(p, filename);
  }

  // ----- configuring -----

  /** The VM's answer to the option at `i`, after those before it. */
  function Answer(vm: Vm, settings: seq<Setting>, i: nat): SetOptionResult
    requires i < |settings|
  {
    vm.setOption(settings[..i + 1])
  }

  /** The index of the first option, from `k` on, that the VM does not accept, or the number of options. */
  function FirstRefused(vm: Vm, settings: seq<Setting>, k: nat): (f: nat)
    requires k <= |settings|
    ensures k <= f <= |settings|
    ensures forall i :: k <= i < f ==> Answer(vm, settings, i) == OptionSuccess
    ensures f < |settings| ==> Answer(vm, settings, f) != OptionSuccess
    decreases |settings| - k
  {
    if k == |settings| || Answer(vm, settings, k) != OptionSuccess then k
    else FirstRefused(vm, settings, k + 1)
  }

  /** The options the VM is given: all of them up to and including the first it refuses. */
  function Passed(vm: Vm, settings: seq<Setting>): seq<Setting> {
    if vm.hasSetOption then settings[..Min(FirstRefused(vm, settings, 0) + 1, |settings|)] else []
  }

  function ConfigureCode(vm: Vm, settings: seq<Setting>): ErrorCode {
    if settings == [] then LoaderSuccess
    else if !vm.hasSetOption then InvalidOptionName
    else
      var f := FirstRefused(vm, settings, 0);
      if f == |settings| then LoaderSuccess
      else if Answer(vm, settings, f) == OptionInvalidName then InvalidOptionName
      else InvalidOptionValue
  }

  /** What is said of the first option refused. */
  function RefusalOf(vm: Vm, path: string, setting: Setting, answer: SetOptionResult): Message {
    match answer
    case OptionInvalidName => UnknownOption(vm.name, path, setting.0)
    case OptionInvalidValue => UnsupportedValue(vm.name, path, setting.1, setting.0)
    case _ => UnknownFailure(vm.name, path, setting.1, setting.0)
  }

  function ConfigureComplaint(vm: Vm, path: string, settings: seq<Setting>): Option<Complaint> {
    if settings == [] then None
    else if !vm.hasSetOption then Some(Formatted(OptionsNotSupported(vm.name, path)))
    else
      var f := FirstRefused(vm, settings, 0);
      if f == |settings| then None else Some(Formatted(RefusalOf(vm, path, settings[f], Answer(vm, settings, f))))
  }

  /** The first option refused decides the code, by the kind of refusal, and the message, and ends the passing. */
  lemma FirstRefusalDecides(vm: Vm, path: string, settings: seq<Setting>, f: nat)
    requires vm.hasSetOption && f < |settings| && Answer(vm, settings, f) != OptionSuccess
    requires forall i :: 0 <= i < f ==> Answer(vm, settings, i) == OptionSuccess
    ensures Passed(vm, settings) == settings[..f + 1]
    ensures ConfigureCode(vm, settings) in {InvalidOptionName, InvalidOptionValue}
    ensures ConfigureCode(vm, settings) == InvalidOptionName <==> Answer(vm, settings, f) == OptionInvalidName
    ensures var (name, value) := settings[f];
            ConfigureComplaint(vm, path, settings)
            == Some(Formatted(
                 if Answer(vm, settings, f) == OptionInvalidName then UnknownOption(vm.name, path, name)
                 else if Answer(vm, settings, f) == OptionInvalidValue then UnsupportedValue(vm.name, path, value, name)
                 else UnknownFailure(vm.name, path, value, name)))
  {
    assert FirstRefused(vm, settings, 0) == f;
  }

  /** If none is refused, all are passed and the configuration succeeds; a VM without options accepts only none. */
  lemma NoRefusalSucceeds(vm: Vm, path: string, settings: seq<Setting>)
    ensures vm.hasSetOption && (forall i :: 0 <= i < |settings| ==> Answer(vm, settings, i) == OptionSuccess)
            ==> ConfigureCode(vm, settings) == LoaderSuccess && Passed(vm, settings) == settings
    ensures !vm.hasSetOption && settings != []
            ==> && ConfigureCode(vm, settings) == InvalidOptionName && Passed(vm, settings) == []
                && ConfigureComplaint(vm, path, settings) == Some(Formatted(OptionsNotSupported(vm.name, path)))
    ensures settings == [] ==> ConfigureCode(vm, settings) == LoaderSuccess && Passed(vm, settings) == []
    ensures ConfigureCode(vm, settings) == LoaderSuccess <==> ConfigureComplaint(vm, path, settings) == None
  {
    var f := FirstRefused(vm, settings, 0);
    assert f == |settings| ==> settings[..f] == settings;
  }

  datatype Outcome = Outcome(
    code: ErrorCode, returned: Option<Vm>, created: nat, destroyed: nat, passed: seq<Setting>, complaint: Option<Complaint>
  )

  /** What becomes of a created VM when it is given its settings. */
  function Configured(c: Creation, path: string, settings: seq<Setting>): Outcome {
    match c.vm
    case None => Outcome(c.code, None, if c.created then 1 else 0, if c.created then 1 else 0, [], c.complaint)
    case Some(vm) =>
      var code := ConfigureCode(vm, settings);
      var kept := code == LoaderSuccess;
      Outcome(code, if kept then Some(vm) else None, 1, if kept then 0 else 1, Passed(vm, settings),
              ConfigureComplaint(vm, path, settings))
  }

  /** The whole of `qrvmc_load_and_configure`. */
  function ConfiguredOutcome(p: Platform, config: string): Outcome {
    if |config| >= PATH_MAX_LENGTH then Outcome(InvalidArgument, None, 0, 0, [], Some(Formatted(ConfigTooLong)))
    else Configured(CreateOutcome(p, Some(PathOf(config))), PathOf(config), SettingsOf(config))
  }

  /** Every VM created is either returned or destroyed, and success is reported exactly when one is returned. */
  lemma CallIsBalanced(p: Platform, config: string)
    ensures var o := ConfiguredOutcome(p, config);
            && o.created - o.destroyed == (if o.returned.Some? then 1 else 0)
            && (o.code == LoaderSuccess <==> o.returned.Some?)
            && (o.code == LoaderSuccess <==> o.complaint == None)
  {
  }

  /** What is returned is the VM created, of ABI version 1; a configuration of 4096 characters or more creates none. */
  lemma ReturnedIsCreated(p: Platform, config: string)
    ensures var o := ConfiguredOutcome(p, config);
            && (o.returned.Some? ==> o.returned.value.abi == 1 && o.returned == CreateOutcome(p, Some(PathOf(config))).vm)
            && (|config| >= 4096 ==> o == Outcome(InvalidArgument, None, 0, 0, [], Some(Formatted(ConfigTooLong))))
            && (|config| < 4096 && CreateOutcome(p, Some(PathOf(config))).vm.None?
                ==> && o.code == CreateOutcome(p, Some(PathOf(config))).code && o.passed == []
                    && o.complaint == CreateOutcome(p, Some(PathOf(config))).complaint)
  {
    OnlyCompatibleVms(p, Some(PathOf(config)));
  }

  /** A rendered configuration hands the VM its settings in order, up to the first one refused. */
  lemma RenderedConfigIsPassed(p: Platform, path: string, settings: seq<Setting>)
    requires Renderable(path, settings) && |Render(path, settings)| < PATH_MAX_LENGTH
    requires CreateOutcome(p, Some(path)).vm.Some? && CreateOutcome(p, Some(path)).vm.value.hasSetOption
    ensures var vm := CreateOutcome(p, Some(path)).vm.value;
            var o := ConfiguredOutcome(p, Render(path, settings));
            && o.passed <= settings
            && (forall i :: 0 <= i < |o.passed| - 1 ==> Answer(vm, settings, i) == OptionSuccess)
            && (o.passed != settings ==> o.passed != [] && Answer(vm, settings, |o.passed| - 1) != OptionSuccess)
            && (o.returned.Some? <==> forall i :: 0 <= i < |settings| ==> Answer(vm, settings, i) == OptionSuccess)
  {
    ParseRendered(path, settings);
  }

  // ----- histories of calls on one library -----

  /** The static error message, and the VMs created, destroyed and configured so far. */
  datatype LoaderState = LoaderState(errors: Errors, created: nat, destroyed: nat, optionCalls: seq<Setting>)

  const FRESH := LoaderState(Errors(NoError, Blank), 0, 0, [])

  datatype LoaderCall =
    | Load(p: Platform, filename: Option<string>)
    | LoadAndCreate(p: Platform, filename: Option<string>)
    | LoadAndConfigure(p: Platform, config: string)
    | LastErrorMsg

  function AfterLoad(s: LoaderState, p: Platform, complaint: Option<Complaint>): LoaderState {
    s.(errors := Complain(p, s.errors.(last := NoError), complaint))
  }

  /** Only a configuration that is too long is reported without forgetting the message before. */
  function Apply(s: LoaderState, call: LoaderCall): LoaderState {
    match call
    case Load(p, filename) => AfterLoad(s, p, LoadOutcome(p, filename).complaint)
    case LoadAndCreate(p, filename) =>
      var c := CreateOutcome(p, filename);
      AfterLoad(s, p, c.complaint).(
        created := s.created + if c.created then 1 else 0,
        destroyed := s.destroyed + if c.created && c.vm.None? then 1 else 0)
    case LoadAndConfigure(p, config) =>
      var o := ConfiguredOutcome(p, config);
      var errors := if |config| >= PATH_MAX_LENGTH then s.errors else s.errors.(last := NoError);
      LoaderState(Complain(p, errors, o.complaint), s.created + o.created, s.destroyed + o.destroyed,
                  s.optionCalls + o.passed)
    case LastErrorMsg => s.(errors := s.errors.(last := NoError))
  }

  function History(s: LoaderState, calls: seq<LoaderCall>): LoaderState {
    if calls == [] then s else Apply(History(s, calls[..|calls| - 1]), calls[|calls| - 1])
  }

  /** The VM a call hands to its caller. */
  function VmOf(call: LoaderCall): Option<Vm> {
    match call
    case LoadAndCreate(p, filename) => CreateOutcome(p, filename).vm
    case LoadAndConfigure(p, config) => ConfiguredOutcome(p, config).returned
    case _ => None
  }

  function VmsOf(calls: seq<LoaderCall>): seq<Vm> {
    if calls == [] then []
    else
      var vm := VmOf(calls[|calls| - 1]);
      VmsOf(calls[..|calls| - 1]) + if vm.Some? then [vm.value] else []
  }

  /** The code a loading call reports; reading the message reports none. */
  function CodeOf(call: LoaderCall): Option<ErrorCode> {
    match call
    case Load(p, filename) => Some(LoadOutcome(p, filename).code)
    case LoadAndCreate(p, filename) => Some(CreateOutcome(p, filename).code)
    case LoadAndConfigure(p, config) => Some(ConfiguredOutcome(p, config).code)
    case LastErrorMsg => None
  }

  lemma OneCallBalances(s: LoaderState, call: LoaderCall)
    ensures var s' := Apply(s, call);
            s'.created - s'.destroyed == s.created - s.destroyed + if VmOf(call).Some? then 1 else 0
  {
    if call.LoadAndConfigure? {
      CallIsBalanced(call.p, call.config);
    }
  }

  /** Over any mixed history, the VMs created and not destroyed are exactly as many as the callers were given. */
  lemma {:induction false} HistoryIsBalanced(s: LoaderState, calls: seq<LoaderCall>)
    ensures var s' := History(s, calls);
            s'.created - s'.destroyed == s.created - s.destroyed + |VmsOf(calls)|
  {
    if calls == [] {
    } else {
      HistoryIsBalanced(s, calls[..|calls| - 1]);
      OneCallBalances(History(s, calls[..|calls| - 1]), calls[|calls| - 1]);
    }
  }

  /** Whatever happened before, no message is left after a call that reports success, or after one that reads it. */
  lemma SuccessLeavesNoMessage(s: LoaderState, call: LoaderCall)
    requires CodeOf(call) in {Some(LoaderSuccess), None}
    ensures Pending(Apply(s, call).errors) == None
  {
    if call.LoadAndConfigure? {
      CallIsBalanced(call.p, call.config);
    }
  }

  function ComplaintOf(call: LoaderCall): Option<Complaint> {
    match call
    case Load(p, filename) => LoadOutcome(p, filename).complaint
    case LoadAndCreate(p, filename) => CreateOutcome(p, filename).complaint
    case LoadAndConfigure(p, config) => ConfiguredOutcome(p, config).complaint
    case LastErrorMsg => None
  }

  /** A failing call leaves its own message, if that fits; if not, it leaves none, unless it forgot to reset the last. */
  lemma FailureLeavesItsMessage(s: LoaderState, call: LoaderCall)
    requires ComplaintOf(call).Some?
    ensures var left := Pending(Apply(s, call).errors);
            match ComplaintOf(call).value
            case FromSystem(text) => left == Some(SystemText(text))
            case Formatted(m) =>
              if call.p.fits(m) then left == Some(Whole(m))
              else if call.LoadAndConfigure? && |call.config| >= 4096 && s.errors.last != NoError then
                left == if s.errors.last.InBuffer? then Some(CutOff(m)) else Pending(s.errors)
              else left == None
  {
  }

  /** The calls whose platform can hold the one message that is reported over an older one. */
  predicate HoldsConfigTooLong(call: LoaderCall) {
    call.LoadAndConfigure? ==> call.p.fits(ConfigTooLong)
  }

  lemma CallKeepsWhole(s: LoaderState, call: LoaderCall)
    requires HoldsConfigTooLong(call) && (s.errors.last.InBuffer? ==> s.errors.buffer.Whole?)
    ensures var e := Apply(s, call).errors; e.last.InBuffer? ==> e.buffer.Whole?
  {
  }

  /**
   * A message that does not fit overwrites the buffer of an older one; but over any history, that older one is no
   * longer pending: whoever reads a message of the loader reads a whole one.
   */
  lemma {:induction false} PendingIsWhole(calls: seq<LoaderCall>)
    requires forall i :: 0 <= i < |calls| ==> HoldsConfigTooLong(calls[i])
    ensures var e := History(FRESH, calls).errors; e.last.InBuffer? ==> e.buffer.Whole?
  {
    if calls == [] {
    } else {
      var init := calls[..|calls| - 1];
      assert forall i :: 0 <= i < |init| ==> init[i] == calls[i];
      PendingIsWhole(init);
      CallKeepsWhole(History(FRESH, init), calls[|calls| - 1]);
    }
  }

  /** The condition is needed: a report that fits nowhere destroys the message it does not replace. */
  lemma UnfitReportOverwrites(p: Platform, config: string)
    requires |config| >= PATH_MAX_LENGTH && p.fits(NullFileName) && !p.fits(ConfigTooLong)
    ensures var calls := [Load(p, None), LoadAndConfigure(p, config)];
            Pending(History(FRESH, calls).errors) == Some(CutOff(ConfigTooLong))
  {
    var calls := [Load(p, None), LoadAndConfigure(p, config)];
    assert calls[..1] == [Load(p, None)] && calls[..1][..0] == [];
    assert History(FRESH, calls[..1]) == Apply(FRESH, Load(p, None));
  }
}
