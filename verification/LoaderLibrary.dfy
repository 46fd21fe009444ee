/** The loader's functions as the source has them, on its static error message and its in-place buffers. */
module LoaderLibrary {
  import opened Basics
  import opened CStrings
  import opened ConfigGrammar
  import opened SymbolName
  import opened Loader
  import opened OptionLoop

  class ErrorCell {
    var code: ErrorCode

    constructor (code: ErrorCode)
      ensures this.code == code
    {
      this.code := code;
    }
  }

  /** What a C caller can pass: strings without an inner NUL. */
  predicate Callable(call: LoaderCall) {
    match call
    case Load(_, filename) => filename.Some? ==> NUL !in filename.value
    case LoadAndCreate(_, filename) => filename.Some? ==> NUL !in filename.value
    case LoadAndConfigure(_, config) => NUL !in config
    case LastErrorMsg => true
  }

  class Library {
    var lastErrorMsg: LastError
    var buffer: Text                 // what the static buffer holds
    var created: nat                 // VMs created and destroyed so far, and the options passed
    var destroyed: nat
    var optionCalls: seq<Setting>

    ghost function Errors(): Loader.Errors
      reads this
    {
      Loader.Errors(lastErrorMsg, buffer)
    }

    ghost function State(): LoaderState
      reads this
    {
      LoaderState(Errors(), created, destroyed, optionCalls)
    }

    constructor ()
      ensures State() == FRESH
    {
      lastErrorMsg, buffer := NoError, Blank;
      created, destroyed, optionCalls := 0, 0, [];
    }

    /** The buffer is written first; the message becomes the last error only if it fits. */
    method SetError(p: Platform, code: ErrorCode, m: Message) returns (ec: ErrorCode)
      modifies this`lastErrorMsg, this`buffer
      ensures ec == code && Errors() == Format(p, old(Errors()), m)
    {
      if p.fits(m) {
        buffer := Whole(m);
        lastErrorMsg := InBuffer;
      } else {
        buffer := CutOff(m);
      }
      ec := code;
    }

    /** Reading the message consumes it. */
    method LastErrorMsg() returns (m: Option<Text>)
      modifies this`lastErrorMsg
      ensures m == Pending(old(Errors())) && State() == Apply(old(State()), LoaderCall.LastErrorMsg)
    {
      match lastErrorMsg {
        case NoError => m := None;
        case InBuffer => m := Some(buffer);
        case InSystem(text) => m := Some(SystemText(text));
      }
      lastErrorMsg := NoError;
    }

    /** The part of loading that asks the operating system. */
    method Open(p: Platform, file: string) returns (ec: ErrorCode, fn: Option<CreateFn>)
      requires NUL !in file && 0 < |file| <= PATH_MAX_LENGTH
      modifies this`lastErrorMsg, this`buffer
      ensures var loading := LoadOutcome(p, Some(file));
              && ec == loading.code && fn == loading.fn
              && Errors() == Complain(p, old(Errors()), loading.complaint)
    {
      ec, fn := LoaderSuccess, None;
      match p.open(file) {
        case NotOpened(None) => ec := SetError(p, CannotOpen, CannotOpenFile(file));
        case NotOpened(Some(text)) =>
          lastErrorMsg := InSystem(text);
          ec := CannotOpen;
        case Opened(symbols) =>
          var buf := DeriveName(file);
          var name := CString(buf, 0, DerivedName(file));
          if name in symbols {
            fn := Some(symbols[name]);
          } else if FALLBACK_NAME in symbols {
            fn := Some(symbols[FALLBACK_NAME]);
          } else {
            ec := SetError(p, SymbolNotFound, CreateFunctionNotFound(file));
          }
      }
    }

    method Load(p: Platform, filename: Option<string>, errorCode: ErrorCell?) returns (fn: Option<CreateFn>)
      requires filename.Some? ==> NUL !in filename.value
      modifies this`lastErrorMsg, this`buffer, errorCode
      ensures fn == LoadOutcome(p, filename).fn
      ensures errorCode != null ==> errorCode.code == LoadOutcome(p, filename).code
      ensures State() == Apply(old(State()), LoaderCall.Load(p, filename))
    {
      lastErrorMsg := NoError;
      var ec := LoaderSuccess;
      fn := None;
      if filename.None? {
        ec := SetError(p, InvalidArgument, NullFileName);
      } else if |filename.value| == 0 {
        ec := SetError(p, InvalidArgument, EmptyFileName);
      } else if |filename.value| > PATH_MAX_LENGTH {
        ec := SetError(p, InvalidArgument, FileNameTooLong(|filename.value|));
      } else {
        ec, fn := Open(p, filename.value);
      }
      if errorCode != null {
        errorCode.code := ec;
      }
    }

    method LoadAndCreate(p: Platform, filename: Option<string>, errorCode: ErrorCell?) returns (vm: Option<Vm>)
      requires filename.Some? ==> NUL !in filename.value
      modifies this`lastErrorMsg, this`buffer, this`created, this`destroyed, errorCode
      ensures vm == CreateOutcome(p, filename).vm
      ensures errorCode != null ==> errorCode.code == CreateOutcome(p, filename).code
      ensures State() == Apply(old(State()), LoaderCall.LoadAndCreate(p, filename))
      ensures created - destroyed == old(created) - old(destroyed) + if vm.Some? then 1 else 0
    {
      var fn := Load(p, filename, errorCode);
      if fn.None? {
        return None;
      }
      var ec := LoaderSuccess;
      vm := fn.value.result;
      if vm.None? {
        ec := SetError(p, VmCreationFailure, CreationFailed(filename.value));
      } else {
        created := created + 1;
        if vm.value.abi != ABI_VERSION {
          ec := SetError(p, AbiVersionMismatch, AbiMismatch(vm.value.abi, filename.value));
          destroyed := destroyed + 1;
          vm := None;
        }
      }
      if errorCode != null {
        errorCode.code := ec;
      }
    }

    method ReportRefusal(p: Platform, vm: Vm, path: string, name: string, value: string, r: SetOptionResult)
      returns (ec: ErrorCode)
      modifies this`lastErrorMsg, this`buffer
      ensures ec == if r == OptionInvalidName then InvalidOptionName else InvalidOptionValue
      ensures Errors() == Format(p, old(Errors()), RefusalOf(vm, path, (name, value), r))
    {
      if r == OptionInvalidName {
        ec := SetError(p, InvalidOptionName, UnknownOption(vm.name, path, name));
      } else if r == OptionInvalidValue {
        ec := SetError(p, InvalidOptionValue, UnsupportedValue(vm.name, path, value, name));
      } else {
        ec := SetError(p, InvalidOptionValue, UnknownFailure(vm.name, path, value, name));
      }
    }

    /**
     * The option loop over the copied configuration: `start` is where the text after the path begins.
     * It passes settings in order until none is left or one is refused; the path and every string passed to the VM are
     * still in the buffer, untouched, when it stops.
     */
    method PassOptions(vm: Vm, buf: array<char>, start: nat, ghost path: string, ghost text: string)
      returns (passed: seq<Setting>, end: LoopEnd, ghost places: Places)
      requires StringAt(buf[..], 0, path) && StringAt(buf[..], start, text) && (text != "" ==> |path| < start)
      modifies this`optionCalls, buf
      ensures Ended(vm, SettingsIn(text), passed, end)
      ensures optionCalls == old(optionCalls) + passed
      ensures StringAt(buf[..], 0, path) && passed == InOrder(places) && Intact(buf[..], places, buf.Length)
    {
      ghost var settings, rest := SettingsIn(text), text;
      var options: nat := start;
      var before := optionCalls;
      passed, places := [], Nowhere;
      var left := StrLen(buf, options, rest);
      while left != 0
        invariant left == |rest| && AtHead(buf[..], path, options, rest, places)
        invariant Accepted(vm, settings, passed, rest) && passed == InOrder(places)
        invariant before == old(optionCalls) && optionCalls == before + passed
        decreases |rest|
      {
        if !vm.hasSetOption {
          end := NotSupported;
          return;
        }
        var setting, r;
        options, setting, r, places, rest := PassNext(vm, buf, options, path, places, settings, passed, rest);
        passed := passed + [setting];
        optionCalls := before + passed;
        if r != OptionSuccess {
          end := Refused(setting, r);
          return;
        }
        left := StrLen(buf, options, rest);
      }
      end := AllPassed;
    }

    /** The option loop and its error reports. */
    method Configure(p: Platform, vm: Vm, buf: array<char>, start: nat, ghost path: string, ghost text: string)
      returns (ec: ErrorCode)
      requires StringAt(buf[..], 0, path) && StringAt(buf[..], start, text) && (text != "" ==> |path| < start)
      modifies this`lastErrorMsg, this`buffer, this`optionCalls, buf
      ensures ec == ConfigureCode(vm, SettingsIn(text))
      ensures optionCalls == old(optionCalls) + Passed(vm, SettingsIn(text))
      ensures Errors() == Complain(p, old(Errors()), ConfigureComplaint(vm, path, SettingsIn(text)))
    {
      var passed, end, places := PassOptions(vm, buf, start, path, text);
      EndDecidesCode(vm, path, SettingsIn(text), passed, end);
      var path' := CString(buf, 0, path);
      match end {
        case AllPassed => ec := LoaderSuccess;
        case NotSupported => ec := SetError(p, InvalidOptionName, OptionsNotSupported(vm.name, path'));
        case Refused(setting, answer) => ec := ReportRefusal(p, vm, path', setting.0, setting.1, answer);
      }
    }

    /** Configures a created VM; one that refuses an option is destroyed. */
    method ConfigureOrDestroy(p: Platform, ghost c: Creation, created: Vm, buf: array<char>, start: nat,
                              ghost path: string, ghost text: string)
      returns (ec: ErrorCode, vm: Option<Vm>)
      requires c.vm == Some(created)
      requires StringAt(buf[..], 0, path) && StringAt(buf[..], start, text) && (text != "" ==> |path| < start)
      modifies this`lastErrorMsg, this`buffer, this`optionCalls, this`destroyed, buf
      ensures var o := Configured(c, path, SettingsIn(text));
              && ec == o.code && vm == o.returned
              && destroyed == old(destroyed) + o.destroyed && o.created == 1
              && optionCalls == old(optionCalls) + o.passed
              && Errors() == Complain(p, old(Errors()), o.complaint)
    {
      ec := Configure(p, created, buf, start, path, text);
      vm := Some(created);
      if ec != LoaderSuccess {
        destroyed := destroyed + 1;
        vm := None;
      }
    }

    /** Creates and configures, on the copy cut into the path and the text of the options. */
    method LoadCopied(p: Platform, copy: array<char>, options: nat, path: string, ghost text: string, errorCode: ErrorCell?)
      returns (vm: Option<Vm>)
      requires StringAt(copy[..], 0, path) && StringAt(copy[..], options, text) && (text != "" ==> |path| < options)
      modifies this, errorCode, copy
      ensures var o := Configured(CreateOutcome(p, Some(path)), path, SettingsIn(text));
              && vm == o.returned
              && created == old(created) + o.created && destroyed == old(destroyed) + o.destroyed
              && optionCalls == old(optionCalls) + o.passed
              && (errorCode != null ==> errorCode.code == o.code)
              && Errors() == Complain(p, old(Errors()).(last := NoError), o.complaint)
    {
      ghost var c := CreateOutcome(p, Some(path));
      vm := LoadAndCreate(p, Some(path), errorCode);
      if vm.None? {
        return;
      }
      assert c.complaint == None && c.created;
      var ec;
      ec, vm := ConfigureOrDestroy(p, c, vm.value, copy, options, path, text);
      if errorCode != null {
        errorCode.code := ec;
      }
    }

    /** The call on a configuration that fits its copy. */
    method ConfigureCopied(p: Platform, copy: array<char>, config: string, errorCode: ErrorCell?) returns (vm: Option<Vm>)
      requires |config| < PATH_MAX_LENGTH && StringAt(copy[..], 0, config)
      modifies this, errorCode, copy
      ensures vm == ConfiguredOutcome(p, config).returned
      ensures errorCode != null ==> errorCode.code == ConfiguredOutcome(p, config).code
      ensures State() == Apply(old(State()), LoaderCall.LoadAndConfigure(p, config))
    {
      var options, path := TakePath(copy, config);
      vm := LoadCopied(p, copy, options, path, Beyond(config, ','), errorCode);
    }

    /** The call on one that does not. */
    method RejectConfig(p: Platform, ghost config: string, errorCode: ErrorCell?)
      requires |config| >= PATH_MAX_LENGTH
      modifies this, errorCode
      ensures errorCode != null ==> errorCode.code == ConfiguredOutcome(p, config).code
      ensures State() == Apply(old(State()), LoaderCall.LoadAndConfigure(p, config))
    {
      var ec := SetError(p, InvalidArgument, ConfigTooLong);
      if errorCode != null {
        errorCode.code := ec;
      }
    }

    /** `qrvmc_load_and_configure`: every VM it creates is returned or destroyed. */
    method LoadAndConfigure(p: Platform, config: string, errorCode: ErrorCell?) returns (vm: Option<Vm>)
      requires NUL !in config
      modifies this, errorCode
      ensures vm == ConfiguredOutcome(p, config).returned
      ensures errorCode != null ==> errorCode.code == ConfiguredOutcome(p, config).code
      ensures State() == Apply(old(State()), LoaderCall.LoadAndConfigure(p, config))
      ensures created - destroyed == old(created) - old(destroyed) + if vm.Some? then 1 else 0
    {
      OneCallBalances(State(), LoaderCall.LoadAndConfigure(p, config));
      var copy := new char[PATH_MAX_LENGTH](_ => NUL);
      var failed := StrCpy(copy, 0, PATH_MAX_LENGTH, config);
      if failed {
        RejectConfig(p, config, errorCode);
        vm := None;
      } else {
        vm := ConfigureCopied(p, copy, config, errorCode);
      }
    }

    /** One call, and the VM it hands over. */
    method Perform(call: LoaderCall) returns (vm: Option<Vm>)
      requires Callable(call)
      modifies this
      ensures State() == Apply(old(State()), call) && vm == VmOf(call)
    {
      match call {
        case Load(p, filename) =>
          var fn := Load(p, filename, null);
          vm := None;
        case LoadAndCreate(p, filename) => vm := LoadAndCreate(p, filename, null);
        case LoadAndConfigure(p, config) => vm := LoadAndConfigure(p, config, null);
        case LastErrorMsg =>
          var m := LastErrorMsg();
          vm := None;
      }
    }
  }

  /** Any mixed history of calls on one library: the VMs alive are those handed over, and no more. */
  method PerformAll(library: Library, calls: seq<LoaderCall>) returns (vms: seq<Vm>)
    requires forall call :: call in calls ==> Callable(call)
    modifies library
    ensures library.State() == History(old(library.State()), calls) && vms == VmsOf(calls)
    ensures library.created - library.destroyed == old(library.created) - old(library.destroyed) + |vms|
  {
    vms := [];
    for i := 0 to |calls|
      invariant library.State() == History(old(library.State()), calls[..i]) && vms == VmsOf(calls[..i])
    {
      assert calls[..i + 1][..i] == calls[..i];
      var vm := library.Perform(calls[i]);
      if vm.Some? {
        vms := vms + [vm.value];
      }
    }
    assert calls[..|calls|] == calls;
    HistoryIsBalanced(old(library.State()), calls);
  }
}
