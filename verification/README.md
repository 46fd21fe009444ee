# Verified model of QRVMC

QRVMC connects virtual machines to clients. This project models the parts of it that compute something and
proves what they promise: the example interpreter with the stack columns of the instruction metrics table, the
mocked host with its storage-status clause tree and logs, the loader's in-place string work and VM life cycle,
the hex codec with its single-pass iterator, the word-wise value types with their hash, and the move-only owners
`Result` and `VM`.

Code that works step by step is a class or a method with loops, proved against functions on values; theorems
about whole runs and histories are lemmas about those functions.

## The parts

* **Interpreter** (`ExampleVm`, `VmExecute` and the other `Vm*` files). `ExampleVm.Step` is one iteration of the
  loop of `execute`, `Run` a whole run, and the host is any deterministic state machine. The source checks neither
  the stack bounds nor cut-off push data, and computes its memory bound modulo 2^32; leaving those limits is an
  explicit fault of the model, so the theorems hold for all code. Each run keeps a record of its host calls and
  memory uses. `VmExecute.Execute` is the imperative interpreter: a stack pointer, a memory buffer and a loop that
  return what `Run` says. `VmInstructions` says what each opcode does to the numbers on the stack and the bytes in
  memory. About runs: a scan over the metrics table makes them stack-safe, more gas changes nothing but the gas left,
  concatenated code composes, memory is a high-water mark, the record replays on the host.
* **Mocked host** (`StorageStatus`, `MockedHost`, `HostGas`, `HostLogs`, `VmOnMockedHost`). The class
  `MockedHost.Host` performs transitions of `HostState`; histories of host calls, over any accounts and keys and
  for any cost schedule, meter net gas that telescopes to a potential of the slots, never drive the refund
  counter below what the cleared slots are worth, and keep logs that are exact up to their caps.
* **Loader** (`CStrings`, `ConfigGrammar`, `SymbolName`, `Loader`, `OptionLoop`, `LoaderLibrary`). NUL-terminated
  strings live in arrays and pointers are indices. Cutting the configuration in place passes the settings of a pure
  grammar, and rendering inverts that grammar; the symbol name follows its documented rule; over any mixed history of
  calls every created VM is returned or destroyed, and a pending error message is whole.
* **Hex** (`FilterIterators`, `Hex`, `HexProofs`). The parser's loop computes `Hex.Parse`, printing and parsing
  undo each other, and fixed-size decoding is positional.
* **Values** (`ByteStrings`, `WordCompare`, `FnvHash`). Word-wise comparison is the order of the big-endian number,
  and the hash separates keys that differ in one loaded word.
* **Ownership** (`Ownership`, `OwningWrappers`). Over any legal program on wrappers and raw results, each resource
  has one owner until it is released, once; maps of real `Result` and `VM` objects run such programs.

## Where the code and its documentation part

* `access_account` answers from a log of 200 entries and forgets later accesses: `HostLogs.AccessAccountAnswers`
  says when it answers as EIP-2929 asks, `HostLogs.FullLogForgets` is an instance where it does not.
* A file name of 4096 characters whose last part does not fit its half of the buffer gives the bare prefix as
  symbol name: `SymbolName.DerivedNameIsDocumented` and `SymbolName.TooLongStem` say when,
  `SymbolName.LongestNameIsDropped` is an instance.
* `from_hex<T>` and `from_prefixed_hex<T>` skip a second "0x" and shift the value one byte:
  `HexProofs.FixedValueIsExact` says when they decode the number written, `HexProofs.SecondPrefixShifts` is an
  instance of each where they do not.
* Self-move-assignment of a `Result` is documented as never happening; the model allows it, for `Result` and `VM`,
  and the resource is still released exactly once.

## Model

| member | source | states |
|---|---|---|
| ExampleVm.Step | examples/example_vm/example_vm.cpp:179-184 | An iteration that goes on advances the pc and stays inside the code, so every run ends |
| ExampleVm.RunHasLastStep | examples/example_vm/example_vm.cpp:179-371 | Every run has a last loop head, and its ending is the step taken there |
| ExampleVm.AfterLast | examples/example_vm/example_vm.cpp:179-371 | Each loop head but the first is one step after the one before it, which makes invariants of the body invariants of runs |
| InstructionMetrics.StackMetrics | lib/instructions/instruction_metrics.c:36-293 | The stack columns of all 256 entries; no entry lets a met requirement end below zero or grows the stack by more than one |
| InstructionMetrics.Families | lib/instructions/instruction_metrics.c:132-201 | PUSHn takes nothing and leaves one item, DUPn needs n and leaves n + 1, SWAPn needs n + 1, LOGn takes n + 2 |
| InstructionMetrics.Computations | lib/instructions/instruction_metrics.c:37-69 | The entries of arithmetic, comparison, logic and hashing by operands and results |
| InstructionMetrics.Queries | lib/instructions/instruction_metrics.c:85-127 | The entries of the questions about the environment by operands and results |
| InstructionMetrics.Effects | lib/instructions/instruction_metrics.c:92-292 | The entries of copies, stores, jumps, endings, calls and creations by operands and results |
| InstructionMetrics.Inert | lib/instructions/instruction_metrics.c:37-292 | Which entries leave the stack alone, and which are undefined |
| VmStackSafety.TableIsExact | include/qrvmc/instructions.h:188-197 | For every implemented opcode: underflow exactly below the required height, overflow exactly above the limit after the change, and otherwise the height moves by the change |
| VmStackSafety.ContinuingStep | examples/example_vm/example_vm.cpp:179-371 | A step that goes on moves to the next opcode, changes the height by the table and was not refused |
| VmStackSafety.BreakingStep | examples/example_vm/example_vm.cpp:75-85 | A step pops an empty stack, pushes past 1024 or reads past the code exactly where there is gas and the local check refuses |
| VmStackSafety.StepIsSafe | examples/example_vm/example_vm.cpp:75-85 | From a loop head the scan accepts, a step goes on to one it accepts or ends without a stack fault or overread |
| VmStackSafety.HeightIsScanned | examples/example_vm/example_vm.cpp:179-371 | At every loop head of every run of any code, whatever gas, input and host, the stack height is the one the table scan computes for that pc |
| VmStackSafety.RefusalIsExact | examples/example_vm/example_vm.cpp:75-85 | For all code: a run leaves the stack or the code if and only if it arrives, with gas, at push data cut off or at an implemented opcode whose table entry the height does not meet |
| VmStackSafety.CheckedCodeIsStackSafe | examples/example_vm/example_vm.cpp:75-85 | No run of scanned code pops an empty stack, pushes past 1024 or reads past the code |
| VmStackSafety.ScanIsExact | lib/instructions/instruction_metrics.c:36-293 | On straight-line code with gas to run it, the scan passes if and only if the run does not fault |
| VmGas.StepGas | examples/example_vm/example_vm.cpp:181-184 | One step with more gas is the same step with more gas left, unless the gas ran out |
| VmGas.GasIsMonotone | examples/example_vm/example_vm.cpp:175-184 | A run that does not run out of gas is the same with k more, output, host and record included, with k more gas left; one that runs out did a prefix of the longer run |
| VmGas.GasAtHead | examples/example_vm/example_vm.cpp:181-182 | At the n-th loop head n gas has been spent and at least n code bytes consumed |
| VmGas.GasLeftCountsInstructions | examples/example_vm/example_vm.cpp:179-371 | Gas left is gas supplied minus instructions executed, the halting one included, on success and revert, and 0 on failure |
| VmGas.EnoughGasNeverRunsOut | examples/example_vm/example_vm.cpp:179-184 | Gas of at least the code size never runs out |
| VmGas.RecordDeterminesHost | examples/example_vm/example_vm.cpp:225-256 | Replaying the recorded host calls of any run gives the same answers and the final host state |
| VmComposition.RunInSuffix | examples/example_vm/example_vm.cpp:179-371 | Code behind a prefix runs as it does alone: no instruction reads the pc or the code before it |
| VmComposition.RunComposes | examples/example_vm/example_vm.cpp:179-371 | Running a well-formed a ++ b is running a, then b from the resulting gas, stack, memory and host if a fell off its end; if a halted, b changes nothing |
| VmComposition.WellFormedNeverOverreads | examples/example_vm/example_vm.cpp:296-304 | Code without a cut-off PUSH is never read past its end |
| VmComposition.TruncatedPushDoesNotCompose | examples/example_vm/example_vm.cpp:301-301 | A cut-off PUSH alone reads past the code, and before other code takes that code as data, so well-formedness is needed |
| VmMemory.MemoryIsHighWaterMark | examples/example_vm/example_vm.cpp:88-122 | At every loop head the size is the highest end of any region expanded, zero-size ones included, and at most 1024; bytes above are 0, and every byte is the one last stored |
| VmMemory.MemoryNeverShrinks | examples/example_vm/example_vm.cpp:103-104 | From any loop head to any later one the size does not shrink |
| VmMemory.CallKeepsMemory | examples/example_vm/example_vm.cpp:315-346 | A completed CALL keeps the high-water mark and does not shrink the memory |
| VmMemory.CallShape | examples/example_vm/example_vm.cpp:323-341 | A completed CALL expands two regions, calls the host once and stores the cut-off output inside the second region, in this order |
| VmValues.ToUint32IsModulo | examples/example_vm/example_vm.cpp:145-149 | `to_uint32` is the 256-bit number modulo 2^32 |
| VmValues.ToWordKeepsValue | examples/example_vm/example_vm.cpp:125-133 | `to_uint256` keeps the number, and `to_uint32` undoes it |
| VmValues.AddressConversions | examples/example_vm/example_vm.cpp:136-158 | Widening an address keeps its number, `to_address` undoes it and is reduction modulo 2^160 |
| VmValues.AddIsSumModulo32Bits | examples/example_vm/example_vm.cpp:194-201 | ADD pushes the sum of its 256-bit operands modulo 2^32 |
| VmValues.PushKeepsValue | examples/example_vm/example_vm.cpp:296-305 | PUSH1 to PUSH32 push the big-endian number of their data |
| VmValues.CallDataBytes | examples/example_vm/example_vm.cpp:210-223 | CALLDATALOAD reads the input continued with zeros |
| VmInstructions.PushDataLength | examples/example_vm/example_vm.cpp:265-303 | PUSH1 is 0x60 with one byte of data, PUSH32 is 0x7f with 32, and no other opcode has data |
| VmInstructions.OthersAreUndefined | examples/example_vm/example_vm.cpp:188-189 | Every opcode but the thirteen listed and the pushes stops as undefined and touches nothing |
| VmInstructions.AddAddsNumbers | examples/example_vm/example_vm.cpp:194-201 | 0x01 replaces two items by the sum of their numbers modulo 2^32 and changes nothing else |
| VmInstructions.AddressIsRecipient | examples/example_vm/example_vm.cpp:203-208 | 0x30 pushes the number of the recipient |
| VmInstructions.CallDataLoadReads | examples/example_vm/example_vm.cpp:210-223 | 0x35 replaces an offset by the 32 bytes of zero-extended input from there on |
| VmInstructions.NumberIsAsked | examples/example_vm/example_vm.cpp:225-231 | 0x43 asks the host once and pushes its answer modulo 2^32 |
| VmInstructions.SLoadAsksHost | examples/example_vm/example_vm.cpp:242-248 | 0x54 replaces a key by what the host holds under it for the recipient |
| VmInstructions.SStoreTellsHost | examples/example_vm/example_vm.cpp:250-256 | 0x55 tells the host the key on the top and the value below it |
| VmInstructions.MSizeIsSize | examples/example_vm/example_vm.cpp:258-263 | 0x59 pushes the size of the memory |
| VmInstructions.PushPushesData | examples/example_vm/example_vm.cpp:296-305 | A push adds the big-endian number of its data and changes nothing else |
| VmInstructions.DupDoubles | examples/example_vm/example_vm.cpp:307-313 | 0x80 pushes the top once more |
| VmInstructions.RegionOutcome | examples/example_vm/example_vm.cpp:98-108 | For all offsets and lengths: granted up to 1024 bytes with the size raised to the end, a wild pointer exactly where the 32-bit sum wraps to at most 1024, refused otherwise |
| VmInstructions.MStoreStores | examples/example_vm/example_vm.cpp:233-240 | 0x52 writes the second item at the offset on the top, byte by byte, raises the size, and fails past 1024 bytes |
| VmInstructions.ReturnReturnsRegion | examples/example_vm/example_vm.cpp:348-368 | 0xf3 succeeds and 0xfd reverts with exactly the bytes of the region, and both fail past 1024 bytes |
| VmInstructions.CallIsRefused | examples/example_vm/example_vm.cpp:323-333 | 0xf1 fails without calling exactly if a region ends past 1024 bytes |
| VmInstructions.CallAnswers | examples/example_vm/example_vm.cpp:315-346 | 0xf1 sends the host gas, recipient, value and input region of its operands, replaces them by 1 on success and 0 otherwise, and writes the output, cut off where it or its region ends, at the output offset |
| VmExecute.Stack.Pop | examples/example_vm/example_vm.cpp:80-81 | Takes the last item and leaves the buffer alone |
| VmExecute.Stack.Push | examples/example_vm/example_vm.cpp:83-84 | Appends the item |
| VmExecute.Memory.Expand | examples/example_vm/example_vm.cpp:98-108 | The region granted, or refused above 1024, and the new size |
| VmExecute.Memory.Store | examples/example_vm/example_vm.cpp:113-121 | Expands and then overwrites exactly the region, or refuses and changes nothing |
| VmExecute.Instruction | examples/example_vm/example_vm.cpp:186-369 | The imperative switch on a stack pointer and a memory buffer has the effect of the transition system, instruction by instruction |
| VmExecute.CallInstruction | examples/example_vm/example_vm.cpp:315-346 | CALL on the imperative machine: pops, two expansions, host call, flag and copied output refine the transition, whose meaning `VmInstructions.CallAnswers` states |
| VmExecute.Iteration | examples/example_vm/example_vm.cpp:179-371 | The loop body on the imperative machine is one step of the transition system: a result, or the next loop variables |
| VmExecute.Execute | examples/example_vm/example_vm.cpp:162-372 | The imperative interpreter returns the status, gas and output of the run, success and no output if the run fell off the end, leaves the same host, and made the same host calls and memory uses in the same order |
| VmPrograms.RunReturnTop | examples/example_vm/example_vm.cpp:233-240 | A program that stores the top of the stack in memory and returns it returns that word, for five gas |
| VmPrograms.StoreThenLoadReturns | examples/example_vm/example_vm.cpp:242-256 | On any host, SSTORE then SLOAD returns what the host gives back for the second key, for ten gas |
| VmPrograms.StoredIsLoaded | examples/example_vm/example_vm.cpp:242-256 | SSTORE then SLOAD on the mocked host returns the stored value for the same key and the old one for any other, for ten gas |
| StorageStatus.StatusTellsTheClauses | docs/QRVM_Storage_Change_Status.md:12-37 | Cost and refund of the returned status are the deductions and refunds of the clauses that apply to the write |
| StorageStatus.ClauseTreeIsFourChecks | docs/QRVM_Storage_Change_Status.md:190-321 | The clause tree selects the same status as the four-check form, and four checksums never occur |
| StorageStatus.PublishedCosts | docs/QRVM_Storage_Change_Status.md:39-187 | The nine statuses in numbers, cost and refund, under the published schedules |
| StorageStatus.WritePaysPotential | docs/QRVM_Storage_Change_Status.md:58-187 | Cost minus refund of one write is a warm access plus its change of potential, for any schedule |
| StorageStatus.WriteRefundsClearing | docs/QRVM_Storage_Change_Status.md:142-186 | One write refunds at least Rsclear for a newly cleared slot and takes back at most that for one refilled |
| HostGas.TotalAfter | include/qrvmc/mocked_host.hpp:168-310 | A host call moves a total over all slots of all accounts only by the slot it writes |
| HostGas.NetGasTelescopes | include/qrvmc/mocked_host.hpp:168-310 | For any history over any accounts and keys, the sum of cost minus refund is the number of writes times Gwarm plus the change of total potential |
| HostGas.RefundCoversClearing | include/qrvmc/mocked_host.hpp:178-309 | Over any history from any state, the refunds cover Rsclear times the change of the number of cleared slots |
| HostGas.RefundNeverNegative | docs/QRVM_Storage_Change_Status.md:142-186 | From a state with current equal to original everywhere, the refund counter is at least Rsclear times the cleared slots, hence never negative, under any schedule whose warm access costs no more than setting or resetting |
| HostGas.PublishedRefundsNonNegative | docs/QRVM_Storage_Change_Status.md:39-46 | The same for the two published schedules, with no further condition |
| MockedHost.ReadOverWrite | include/qrvmc/mocked_host.hpp:153-177 | A store to one slot is read back there and changes no other slot of any account |
| MockedHost.PrecompilesAreOneToNine | include/qrvmc/mocked_host.hpp:436-439 | The two comparisons accept exactly the addresses with numbers 1 to 9 |
| MockedHost.Host.RecordAccountAccess | include/qrvmc/mocked_host.hpp:135-142 | The log gets the address if it has fewer than 200 |
| MockedHost.Host.AccountExists | include/qrvmc/mocked_host.hpp:145-150 | Answers whether the account is present, and logs the access |
| MockedHost.Host.GetStorage | include/qrvmc/mocked_host.hpp:153-165 | The current value, zero for what is missing; creates nothing |
| MockedHost.Host.SetStorage | include/qrvmc/mocked_host.hpp:168-310 | The status of the slot as it was, the new current value there, everything else unchanged |
| MockedHost.Host.Call | include/qrvmc/mocked_host.hpp:367-389 | One more call record, all fields as passed and the input copied, while there are fewer than 100; the configured result |
| MockedHost.Host.AccessAccount | include/qrvmc/mocked_host.hpp:427-442 | Warm for precompiles and logged addresses, judged before this access is logged |
| MockedHost.Host.AccessStorage | include/qrvmc/mocked_host.hpp:459-465 | The old access status; the slot is warm afterwards |
| HostLogs.AccountLogIsPrefix | include/qrvmc/mocked_host.hpp:135-142 | After any history on a fresh host the log is exactly the first 200 recorded addresses |
| HostLogs.AccessAccountAnswers | include/qrvmc/mocked_host.hpp:427-442 | Warm exactly for precompiles and the first 200 touches; this is what EIP-2929 asks if and only if the address is a precompile, untouched or among them |
| HostLogs.FullLogForgets | include/qrvmc/mocked_host.hpp:135-142 | An instance where a touched account is reported cold |
| HostLogs.SlotAfterCall | include/qrvmc/mocked_host.hpp:153-310 | What one host method does to any one slot |
| HostLogs.SlotAfterHistory | include/qrvmc/mocked_host.hpp:153-310 | After any history a slot holds the last value written to it and its old original value, and is warm exactly if it was or was accessed |
| HostLogs.FreshSlotAfterHistory | include/qrvmc/mocked_host.hpp:19-45 | On a fresh host a slot is zero and cold until written or accessed, and its original value stays zero |
| HostLogs.AccountsAfterHistory | include/qrvmc/mocked_host.hpp:145-310 | A history creates exactly the accounts whose storage it writes or accesses, empty ones, and changes nothing but storage of any account |
| HostLogs.CallRecordsKeepInputs | include/qrvmc/mocked_host.hpp:367-389 | After any history the first 100 call records agree with the messages and their input pointers still lead to the bytes passed |
| HostLogs.CallAddsRecord | include/qrvmc/mocked_host.hpp:378-387 | While the log has room, a call adds one record of its message |
| VmOnMockedHost.ReplayIsHistory | include/qrvmc/mocked_host.hpp:153-389 | Replaying a recorded run on the mocked host is the history of host methods it names |
| VmOnMockedHost.ExecutionMetersItsWrites | examples/example_vm/example_vm.cpp:242-256 | Running any code on the mocked host leaves in each slot the last SSTORE to it, and the net gas of its writes telescopes |
| VmOnMockedHost.CallLeavesRecord | include/qrvmc/mocked_host.hpp:367-389 | A CALL whose regions lie in memory, on the mocked host with room in the log, adds one record with the operands, whose input reads back the memory region, leaves the accounts alone and pushes whether the configured result is a success |
| CStrings.StrCpy | lib/loader/loader.c:48-67 | The string, or the empty string and an error if it does not fit; nothing outside the window changes |
| CStrings.GetToken | lib/loader/loader.c:236-253 | Cuts the string in place into its part before and its part beyond the delimiter, overwriting at most that one character |
| ConfigGrammar.SettingIsNameAndValue | lib/loader/loader.c:286-287 | A token is its name, the first equals sign and its value; a token without one is a name with the empty value |
| ConfigGrammar.OptionWithoutValue | include/qrvmc/loader.h:129-135 | `path,option` and `path,option,` both give the path and the option with the empty value |
| ConfigGrammar.TokensArePieces | lib/loader/loader.c:277-283 | The tokens the loop takes are the comma pieces, one trailing empty piece dropped |
| ConfigGrammar.SettingsInTokens | lib/loader/loader.c:277-287 | The settings are the tokens, each cut at its first equals sign |
| ConfigGrammar.JoinSplit | include/qrvmc/loader.h:129-135 | Splitting leaves no delimiter in a piece, and joining the pieces gives the text back |
| ConfigGrammar.SplitJoin | include/qrvmc/loader.h:129-135 | Splitting joined delimiter-free pieces gives the pieces back |
| ConfigGrammar.ConfigIsPieces | include/qrvmc/loader.h:129-135 | The path is the first comma piece, the settings are the others |
| ConfigGrammar.ParseRendered | include/qrvmc/loader.h:129-141 | Parsing `path,name=value,...` gives the path and the settings back, in order |
| SymbolName.BaseNameIsLastPart | lib/loader/loader.c:142-149 | The base name is the end of the path that has no separator and follows one |
| SymbolName.DerivedNameIsDocumented | include/qrvmc/loader.h:67-79 | The derived name is the documented one if and only if the part fits its buffer or starts with its extension |
| SymbolName.TooLongStem | lib/loader/loader.c:156-157 | Among accepted file names, only one of 4096 characters without separator and "lib" is too long |
| SymbolName.LibraryName | include/qrvmc/loader.h:67-79 | For dir/libname.extensions the derived name is "qrvmc_create_" and the name with underscores for dashes |
| SymbolName.PlainName | include/qrvmc/loader.h:67-79 | The same without directory and "lib" |
| SymbolName.ReplaceFound | lib/loader/loader.c:165-167 | One round of the loop replaces the dash found and leaves the rest of the string to search |
| SymbolName.LongestNameIsDropped | lib/loader/loader.c:156-157 | An accepted file name, 4096 times the letter a, whose symbol is the bare prefix and not the documented name |
| SymbolName.ReplaceDashes | lib/loader/loader.c:164-167 | The in-place loop replaces exactly the dashes of the string by underscores |
| SymbolName.BuildName | lib/loader/loader.c:136-167 | The buffer holds the prefix and the name cut at its first dot, underscored |
| SymbolName.DeriveName | lib/loader/loader.c:136-167 | The buffer handed to symbol lookup holds the derived name |
| Loader.FirstRefused | lib/loader/loader.c:289-312 | The first option not accepted, all before it accepted |
| Loader.LoadCodes | lib/loader/loader.c:97-133 | Each code of loading has its one cause; a failure always has a message, the operating system's own where there is one |
| Loader.SymbolsOfOpened | lib/loader/loader.c:169-181 | The derived name is looked up first, the common name only if it is missing, and the error is reported only if both are |
| Loader.LibraryIsSearched | include/qrvmc/loader.h:67-79 | Loading dir/libname.extensions gives the function under qrvmc_create_name, else under qrvmc_create, else none |
| Loader.OnlyCompatibleVms | lib/loader/loader.c:196-230 | The VM handed on is the one the create function gave if that has ABI version 1, and none otherwise; the mismatch is reported exactly when a VM was created and not handed on |
| Loader.FirstRefusalDecides | lib/loader/loader.c:289-312 | The first refused option ends the passing, and its kind decides code and message |
| Loader.NoRefusalSucceeds | lib/loader/loader.c:277-313 | Without a refusal all settings are passed and the configuration succeeds; a VM without options accepts only none |
| Loader.ReturnedIsCreated | lib/loader/loader.c:255-325 | A returned VM is the one created from the path, of ABI version 1; a configuration of 4096 characters or more creates none |
| OptionLoop.EndDecidesCode | lib/loader/loader.c:277-313 | Where the option loop stopped determines what was passed, the code reported and the message |
| Loader.CallIsBalanced | lib/loader/loader.c:255-325 | VMs created minus destroyed is 1 if one is returned and 0 otherwise, and success is reported exactly then |
| Loader.HistoryIsBalanced | lib/loader/loader.c:97-325 | Over any mixed history of calls on one library, VMs created minus destroyed grow by exactly the VMs handed over |
| Loader.SuccessLeavesNoMessage | include/qrvmc/loader.h:158-169 | After a call that reports success, or that read the message, no message is left, whatever happened before |
| Loader.FailureLeavesItsMessage | include/qrvmc/loader.h:158-169 | A failing call leaves its own message where it fits, and says exactly what is left where it does not |
| Loader.PendingIsWhole | lib/loader/loader.c:81-95 | Over any history in which the report of a too long configuration fits the buffer, the message a reader finds there is never a cut-off one, although messages that do not fit overwrite it |
| Loader.UnfitReportOverwrites | lib/loader/loader.c:81-95 | The condition is needed: an instance where an older message is overwritten by one that does not fit |
| Loader.RenderedConfigIsPassed | include/qrvmc/loader.h:129-141 | Of a rendered configuration the VM is given a prefix of the settings ending with the first it refuses, and is returned exactly if it refuses none |
| LoaderLibrary.Library.SetError | lib/loader/loader.c:81-95 | The code given; the buffer holds the message, or its beginning if it does not fit, and only a message that fits becomes the last error |
| LoaderLibrary.Library.LastErrorMsg | include/qrvmc/loader.h:158-169 | Returns the text a reader finds, cut off or not, and forgets it |
| LoaderLibrary.Library.Load | lib/loader/loader.c:97-187 | The create function or the reason there is none; the error state is exactly that of the call, with no message after success |
| LoaderLibrary.Library.LoadAndCreate | lib/loader/loader.c:196-230 | The VM created, or destroyed again on an ABI mismatch, with the code and the exact error state; created minus destroyed grows by the VM returned |
| OptionLoop.TakeOption | lib/loader/loader.c:283-287 | One option cut in place into name and value, the rest of the text behind them intact |
| OptionLoop.IntactFrame | lib/loader/loader.c:277-287 | Changes beyond the options taken so far leave every earlier name and value in place |
| OptionLoop.PassNext | lib/loader/loader.c:283-291 | One option is cut out, passed to the VM, and either accepted after those before it or the refusal that ends the loop |
| LoaderLibrary.Library.PassOptions | lib/loader/loader.c:277-312 | The options passed are the settings of the text in order up to the first refused, and each is still in the buffer when the loop ends |
| LoaderLibrary.Library.Configure | lib/loader/loader.c:277-313 | The reported code, the message and the options passed are those of the settings of the text |
| LoaderLibrary.Library.LoadAndConfigure | lib/loader/loader.c:255-325 | Return value, code, options passed, VMs created and destroyed and error state are the outcome of the configuration; created minus destroyed grows by 1 if a VM is returned and else by 0 |
| LoaderLibrary.PerformAll | lib/loader/loader.c:97-325 | A mixed history of calls on one real library follows the history of states; the VMs alive grow by exactly those handed over |
| Hex.HexOfBytes | include/qrvmc/hex.hpp:29-36 | The loop prints two digits a byte in order |
| Hex.ReadCharacter | include/qrvmc/hex.hpp:70-82 | One character read keeps the bytes put out and the nibble waiting equal to the digits so far, or no continuation parses |
| Hex.FromHex | include/qrvmc/hex.hpp:64-86 | Succeeds exactly on an even number of digits after one optional "0x", with the bytes they denote |
| HexProofs.DigitsAreHex | include/qrvmc/hex.hpp:42-52 | A character is a digit exactly if it is one of 0 to 9, a to f and A to F |
| HexProofs.AcceptedTexts | include/qrvmc/hex.hpp:64-86 | A text is accepted exactly if, after at most one "0x", it is an even number of such characters; two make a byte |
| HexProofs.CaseIsIgnored | include/qrvmc/hex.hpp:42-52 | Lowering the case of the digits does not change what is parsed |
| HexProofs.FixedAccepts | include/qrvmc/hex.hpp:150-164 | A fixed-size value is decoded exactly from accepted texts that need no more bytes than it has |
| Hex.FromHexInto | include/qrvmc/hex.hpp:64-86 | Writes at most half the input length through the pointer, accepted or not, and the parsed bytes on success |
| Hex.FromSpacedHex | include/qrvmc/hex.hpp:172-179 | Equals parsing the text without its whitespace |
| Hex.FromHexFixed | include/qrvmc/hex.hpp:150-164 | Strips one prefix and decodes right-aligned inside the array |
| Hex.FromPrefixedHex | include/qrvmc/hex.hpp:109-128 | Demands the prefix of a non-empty text and decodes right-aligned inside the array |
| HexProofs.ParsePrinted | include/qrvmc/hex.hpp:29-36 | Parsing the printed bytes gives them back, with and without "0x" |
| HexProofs.PrintParsed | include/qrvmc/hex.hpp:135-142 | Printing the parsed bytes gives the stripped text in lower case |
| HexProofs.FixedValue | include/qrvmc/hex.hpp:103-128 | The number of an accepted text, shifted one byte if a second "0x" was left |
| HexProofs.FixedValueIsExact | include/qrvmc/hex.hpp:144-164 | The decoded number is the one written if and only if no second "0x" is left or all digits are zero |
| HexProofs.SecondPrefixShifts | include/qrvmc/hex.hpp:74-75 | Instances of the shift, behind "0x" and behind "Q" |
| HexProofs.FixedRoundTrip | include/qrvmc/hex.hpp:109-128 | Decoding printed bytes of the full size, bare, behind "Q" or behind "0x", gives them back |
| FilterIterators.SpacesAreTheSixOfC | include/qrvmc/filter_iterator.hpp:11-15 | The unsigned range test accepts exactly the six white-space characters of C |
| FilterIterators.FilterIterator.ForwardToNextValue | include/qrvmc/filter_iterator.hpp:56-64 | Stops at the next satisfying element or the end, reading each position once, in order |
| FilterIterators.FilterIterator.Increment | include/qrvmc/filter_iterator.hpp:82-86 | Drops the first of what the walk will still yield |
| FilterIterators.FilterIterator.Deref | include/qrvmc/filter_iterator.hpp:74-79 | The first of what the walk will still yield, from the cache |
| FilterIterators.Walk | include/qrvmc/filter_iterator.hpp:56-92 | Walking to the end yields the filtered sequence and reads each position exactly once, in order |
| FilterIterators.FilterKeepsExactly | include/qrvmc/filter_iterator.hpp:23-29 | The filtered sequence has the satisfying elements with their multiplicity and no other |
| WordCompare.Load64beIsValue | include/qrvmc/qrvmc.hpp:131-137 | The load is the big-endian number of eight bytes |
| WordCompare.Load64leInjective | include/qrvmc/qrvmc.hpp:139-145 | Equal little-endian loads have equal bytes |
| WordCompare.LoadsAreLittleEndian | include/qrvmc/qrvmc.hpp:139-158 | The little-endian loads are the little-endian numbers of their bytes |
| WordCompare.LexIsNumeric | include/qrvmc/qrvmc.hpp:230-240 | Byte-lexicographic order is numeric order |
| WordCompare.AddressCompareCorrect | include/qrvmc/qrvmc.hpp:173-195 | `==` on addresses is byte equality, `<` is byte-lexicographic and numeric order |
| WordCompare.WordCompareCorrect | include/qrvmc/qrvmc.hpp:215-240 | `==` on 32-byte values is byte equality, `<` is byte-lexicographic and numeric order |
| WordCompare.AddressOrderIsTotal | include/qrvmc/qrvmc.hpp:173-213 | Exactly one of `<`, `==`, `>` holds, and `<` is transitive |
| WordCompare.WordOrderIsTotal | include/qrvmc/qrvmc.hpp:215-258 | The same for 32-byte values |
| FnvHash.PrimeIsInvertible | include/qrvmc/qrvmc.hpp:160-170 | Multiplication by the FNV prime is undone by multiplication by its inverse modulo 2^64 |
| FnvHash.Fnv1aInjective | include/qrvmc/qrvmc.hpp:166-170 | `fnv1a_by64` is injective in each argument |
| FnvHash.XorBits | include/qrvmc/qrvmc.hpp:166-169 | The modelled exclusive or sets a bit exactly where the bits differ |
| FnvHash.LoadsInOrder | include/qrvmc/qrvmc.hpp:887-915 | The hashes fold the little-endian words from the first byte to the last |
| FnvHash.HashesOfZero | test/unittests/cpp_test.cpp:128-132 | The hashes of the zero address and the zero key are the published ones |
| FnvHash.FoldSeparates | include/qrvmc/qrvmc.hpp:891-914 | Any such chain of any number of words changes if exactly one word changes |
| FnvHash.AddressHashSeparates | include/qrvmc/qrvmc.hpp:887-898 | Addresses that differ in exactly one loaded word hash differently |
| FnvHash.WordHashSeparates | include/qrvmc/qrvmc.hpp:902-915 | 32-byte keys that differ in exactly one loaded word hash differently |
| OwningWrappers.Result.constructor | include/qrvmc/qrvmc.hpp:399-399 | Takes over the resource of a raw result |
| OwningWrappers.Result.Move | include/qrvmc/qrvmc.hpp:409-412 | Moves the resource and disarms the source |
| OwningWrappers.Result.Destroy | include/qrvmc/qrvmc.hpp:402-406 | Releases the resource, if there is one |
| OwningWrappers.Result.Assign | include/qrvmc/qrvmc.hpp:420-426 | Releases the old resource, takes over the other and disarms it, also when both are one object |
| OwningWrappers.Result.ReleaseRaw | include/qrvmc/qrvmc.hpp:442-447 | Hands the resource to the caller |
| OwningWrappers.Vm.Move | include/qrvmc/qrvmc.hpp:659-659 | Moves the instance and disarms the source |
| OwningWrappers.Vm.Destroy | include/qrvmc/qrvmc.hpp:649-653 | Destroys the instance, if there is one |
| OwningWrappers.Vm.Assign | include/qrvmc/qrvmc.hpp:662-668 | Destroys the old instance, takes over the other and disarms it, also when both are one object |
| OwningWrappers.ResultPool.Perform | include/qrvmc/qrvmc.hpp:399-447 | An operation on a map of real `Result` objects is the operation on pools, with every other object untouched |
| OwningWrappers.VmPool.Perform | include/qrvmc/qrvmc.hpp:640-668 | The same for `VM` objects |
| OwningWrappers.RunResults | include/qrvmc/qrvmc.hpp:399-447 | Any legal program run on real `Result` objects ends in the pool of the program, with no resource released twice |
| OwningWrappers.RunVms | include/qrvmc/qrvmc.hpp:640-668 | The same for `VM` objects |
| Ownership.StepConserves | include/qrvmc/qrvmc.hpp:399-447 | Owners plus releases of a resource are conserved by every operation but its issue |
| Ownership.ExactlyOnce | include/qrvmc/qrvmc.hpp:399-447 | Over every legal program each issued resource has exactly one owner until it is released, and at most one release |
| Ownership.LastOwnerReleases | include/qrvmc/qrvmc.hpp:402-426 | Destroying or assigning over the wrapper that holds a resource releases it at that step and leaves it no owner |
| Ownership.NothingLeaks | include/qrvmc/qrvmc.hpp:640-668 | A program that ends with no wrapper and no raw result has released everything once |

## Left out

- LoaderLibrary.Library.Load: opening libraries, symbol lookup, the operating system's error text, the Windows path branch and closing the library are outcomes of an arbitrary Platform; a formatted message is a value, and whether it fits the buffer is the Platform's choice; the one message `Loader.PendingIsWhole` asks to fit is a constant text of the source shorter than the buffer.
- LoaderLibrary.Library.LoadAndConfigure: `set_option` answers depend on the options set so far and on nothing else; the memory of a VM is not modelled.
- VmExecute.Execute: demands a run that leaves none of the limits the source relies on (stack bounds, complete push data, no 32-bit wrap of a region); what those runs do is an explicit fault of the transition system, also where a wrapped region comes with a refused one and the source would only form a pointer it does not use.
- ExampleVm.Step: gas is an unbounded integer, so a message with the smallest 64-bit gas, whose decrement wraps, is not modelled; the `verbose` output and the options of the example VM are left out.
- WordCompare.Load64beIsValue: bytes joined by `|` after disjoint shifts are written as their sum.
- FnvHash.WordHashSeparates: for a 64-bit `size_t`; a narrower one truncates the hash.
- Ownership.ExactlyOnce: a result is its release token; a `MockedHost::call_result` with a release function, which every call would copy, is excluded.
- MockedHost.Host.GetStorage: of the other methods, the balance, code size, code hash and code copy getters are one reading operation, and `emit_log`, `get_block_hash` and `get_tx_context`, which touch neither the accounts nor these two logs, are one operation without effect.
- StorageStatus.StatusOf: the gas-stipend clause of EIP-2200, which the host does not check, is left out.
- InstructionMetrics.StackMetrics: the gas column and the choice of a table by revision are left out.
- Allocation is assumed to succeed; the optional storage and the layout of the C structures are left out.
- The command line tools, the tester, the printing of values and `validate_hex` are left out.
- `HostContext`, the interface trampolines and the name tables are forwarding and lookups, and the example host and precompiles are weaker copies or single formulas.
