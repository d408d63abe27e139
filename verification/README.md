# Boost.Process: the protocols and codecs, modelled and proved

Boost.Process starts child processes, waits for them and talks to them. Most of it is glue around system
calls, but some of its parts are algorithms and protocols of their own. This project models those parts in
Dafny and proves what they are for: over every run of a protocol, for every input of a codec, and, where a
promise fails, exactly when it holds. `dafny verify dfyconfig.toml` checks everything.

System calls are small steps that may have any outcome the system allows; what happens between two steps of
the library (a child exits, a signal arrives, a pipe takes part of a write) is a step or a parameter of its
own.

| file | what it holds |
|---|---|
| `Utf8Spec`, `Utf8Laws`, `Utf8`, `Utf8Errors` | the UTF-8 codec for a signed 4-byte `wchar_t`: functions, laws, the conversion loops over bounded buffers, and which input ends in which error |
| `SigchldProtocol`, `SigchldAnswers`, `SigchldService` | `sigchld_service`: exiting children, coalescing SIGCHLD, the queueing signal set, the receiver list; the protocol, what the handlers are told, and the methods |
| `ProcessProtocol`, `ProcessAnswers`, `BasicProcess` | `basic_process` over the descriptor and the signal handle: one cached status under interleaved calls; what callers and handlers are told |
| `LaunchProtocol`, `LaunchAnswers`, `Launcher`, `LaunchScripts`, `CloseAll` | fork, exec and the error pipe as two interleaved programs; which errno is told and which descriptors are inherited; the parent's code and the answers it hears; closing descriptors by intervals |
| `PipeBuf` | `basic_pipebuf<char>`: in-place buffers, partial writes, reads of any size |
| `QuoteText`, `PosixCommand`, `PosixWords`, `WindowsCommand` | command line printers and parsers |
| `CStrings`, `EnvironmentV1`, `ValueLists`, `BasicEnvironment` | C strings, the vector-backed environment as a map, list values, and the objects |
| `KeyValuePair`, `EnvironmentBlock` | key/value texts and the Windows environment block |

In each area a pure layer says what the code computes, and classes and methods in the form of the C++ code
are proved to compute it. The laws are proved of the pure layer.

## What the code does where its promise fails

These are stated as lemmas; the model follows the code.

- The codec round-trips exactly the texts without negative values (`Utf8Laws.RoundTripIff`). The range check
  `*from > max_wchar` can never be true, so a negative value is written as one truncated octet.
- `size_as_wide` counts octets, not characters: enough for every valid text, and exact for ASCII alone
  (`Utf8.StridePrefixExactIff`). A failing `convert_to_utf8` returns 0 when the buffer ended inside a character and
  the full buffer size when it ended between two.
- The launcher's answer is meant to be no error if and only if `execve` succeeded. With a read that does not fail,
  a child that is not killed and an errno set by a failing `execve`, that holds for exactly the hooks
  `LaunchProtocol.Reports` admits (`LaunchProtocol.TruthfulHooksIff`). Binding another file to the number that `pipe`
  picked for the error pipe is not among them, unless a later hook puts the pipe back; the number is picked after
  the user has chosen the descriptors to bind.
- The launcher assigns `child_error` over the error of a failed `read`, so a read failure is reported as success, also when
  the child has told its errno and waits to be reaped (`LaunchProtocol.FailedReadUnnoticed`). A child killed before
  its report goes unnoticed too. `LaunchProtocol.TruthfulIff` says of each run whether its answer is true.
- The write end of the pipe stays on the parent's whitelist after the launch (`Launcher.DefaultLauncher.Launch`).
- The walking form of `close_all` takes its error code from errno even when nothing failed, so a stale errno keeps
  the child from starting the program (`CloseAll.CloseAllWalking`).
- A successful `waitpid` does not reset `errno`, so the reaping loop may go round once more and end with
  `ECHILD`; it still ends, and reaps once (`Launcher.DefaultLauncher.Reap`).
- `basic_pipebuf::close` is documented to flush, but makes one write: what the pipe does not take at once is
  lost (`PipeBuf.PipeBuffer.Close`). Only a single pending character is safe (`PipeBuf.CloseLoses`).
- `build_cmd_shell` neither quotes nor escapes the command, drops empty arguments into bare spaces, and escapes
  quotes in a way under which `build_args` still toggles on them. `PosixCommand.RoundTripIff` gives the exact
  set of commands and arguments that survive.
- The Windows printer wraps an argument without doubling a final backslash, and leaves the quotes of an
  argument without spaces alone (`WindowsCommand.RecoversIff`).
- `set` of a name with an equal sign may write beside the variable it means (`EnvironmentV1.ApplyRefinesIff`).
- `find` and `count` of the v1 environment do not see empty values, which `set`, `reset` and `erase` do
  (`EnvironmentV1.FindAgrees`); `emplace` therefore overwrites them.
- `to_vector` after `assign({""})` is empty (`ValueLists.AssignIff`).
- The list constructor of `key_value_pair` decides about the delimiter by looking at the last character written,
  so an element that ends in `=` runs into the next one; the value iterator loses an empty last element
  (`KeyValuePair.ListIff`). Texts are written with their size and read as C strings, so a NUL cuts a key, a value
  and a list short, and makes `end()` of an owning `value` throw (`KeyValuePair.PairIff`, `KeyValuePair.IterateOwned`).
- An empty environment on Windows is written as a single NUL, and `find_end` reads past it
  (`EnvironmentBlock.BlockIff`).

## Model

| member | source | states |
|---|---|---|
| `Utf8Laws.RoundTripIff` | src/detail/utf8.cpp:203-374 | over all 32-bit values, decoding an encoding gives the text back if and only if no value is negative |
| `Utf8Laws.DecodeInvertsEncode` | src/detail/utf8.cpp:229-374 | every text of values 0 to 2^31 - 1 survives encoding and decoding |
| `Utf8Laws.NormalForm` | src/detail/utf8.cpp:242-373 | re-encoding accepted input is never longer, and equals it if and only if no group is overlong by the octet patterns of RFC 3629 section 3, extended to five and six octets |
| `Utf8Laws.AcceptsIffGrammar` | src/detail/utf8.cpp:315-373 | the decoder accepts exactly the concatenations of complete lead-plus-continuation groups, a grammar stated without the decoder |
| `Utf8Laws.GroupNormalForm` | src/detail/utf8.cpp:122-159 | one group re-encodes to itself, or to something shorter when overlong |
| `Utf8Laws.OverlongValue` | src/detail/utf8.cpp:122-159 | the octet patterns are right: a group is overlong if and only if its value lies below the threshold of a shorter form |
| `Utf8Laws.ReadOneBounds` | src/detail/utf8.cpp:170-183 | a value read from k octets is not negative and lies below the encoder's threshold for k octets |
| `Utf8Laws.DecodeBounds` | src/detail/utf8.cpp:331-365 | every decoded value is below 2^31, so the accumulation does not overflow |
| `Utf8Laws.LeadOctetShape` | src/detail/utf8.cpp:252-259 | a written lead octet is valid, announces exactly the continuation octets that follow and carries the top bits |
| `Utf8Laws.ReadOneInvertsEncodeOne` | src/detail/utf8.cpp:257-271 | one encoded character is read back, whatever follows it |
| `Utf8.SizeAsUtf8` | src/detail/utf8.cpp:203-210 | the announced size is the length of the encoding |
| `Utf8.ConvertToUtf8` | src/detail/utf8.cpp:229-289 | for every capacity the buffer receives exactly the part of the encoding that fits and is otherwise untouched; success if and only if all fits; the count returned in each failing case |
| `Utf8.AtBoundaryMeaning` | src/detail/utf8.cpp:273-288 | what tells the two failing cases apart: the capacity is the length of the encoding of some prefix |
| `Utf8.PutCharacter` | src/detail/utf8.cpp:252-278 | one character of the encoding loop, complete or cut at the end of the buffer |
| `Utf8.PutContinuation` | src/detail/utf8.cpp:266-271 | the continuation loop writes as many octets as fit |
| `Utf8.SizeAsWide` | src/detail/utf8.cpp:212-227 | the length of the whole lead-octet strides |
| `Utf8.StridePrefixSuffices` | src/detail/utf8.cpp:212-227 | for accepted input that is its length in octets, never less than the characters in it |
| `Utf8.StridePrefixExactIff` | src/detail/utf8.cpp:212-227 | and it is their number if and only if all octets are ASCII |
| `Utf8.ConvertToWide` | src/detail/utf8.cpp:296-374 | for every input and capacity: what is stored, the error, the count; nothing else in the buffer changes and every stored value fits a `wchar_t` |
| `Utf8.DecodeIntoSucceedsIff` | src/detail/utf8.cpp:315-373 | bounded decoding succeeds if and only if the input is well formed and fits, and then gives the whole decoding |
| `Utf8Errors.DecodeEnds` | src/detail/utf8.cpp:296-374 | by the grammar alone, for every input and capacity: the complete characters that fit are stored; a full buffer with input left is an insufficient buffer; else an input that ends there is decoded, a bad lead or continuation octet is an invalid character and a character cut off an insufficient buffer, both with count 0 |
| `Utf8Errors.EveryInputSplits` | src/detail/utf8.cpp:315-373 | every input is of that shape: complete characters, then nothing, a bad start or a cut one |
| `Utf8Errors.ReadErrors` | src/detail/utf8.cpp:317-362 | one character is malformed if and only if its lead octet, or an octet it announces and that is there, is bad, and truncated if and only if it is right so far and the input ends |
| `Utf8Errors.StridePrefixLongest` | src/detail/utf8.cpp:212-227 | `size_as_wide` is the length of the longest prefix made of whole lead-octet strides, for any octets |
| `Utf8Errors.NegativeOctet` | src/detail/utf8.cpp:257-258 | a negative value is written as its lowest octet alone |
| `Utf8.GetCharacter` | src/detail/utf8.cpp:317-364 | one character of the decoding loop: value, malformed or truncated |
| `Utf8.GetContinuation` | src/detail/utf8.cpp:338-355 | the continuation loop of the decoder |
| `Utf8.ConvToNarrow` | include/boost/process/v2/detail/utf8.hpp:38-56 | `conv_string` to narrow text never throws and yields the encoding |
| `Utf8.ConvToWide` | include/boost/process/v2/detail/utf8.hpp:61-79 | `conv_string` to wide text yields the decoding, or throws when there is none |
| `Utf8.ConvToWideSucceedsIff` | include/boost/process/v2/detail/utf8.hpp:61-79 | it does not throw if and only if the text is a concatenation of complete groups |
| `Utf8.ConvRoundTrip` | include/boost/process/v2/detail/utf8.hpp:38-79 | narrowing and widening through both calls gives back exactly the non-negative texts |
| `SigchldProtocol.Notification` | include/boost/process/v1/detail/posix/sigchld_service.hpp:37-141 | over every run: armed or handler pending but never both, exactly while receivers wait between scans; every receiver whose child is gone is about to be polled; each handler gets one result and leaves the list; each exit goes to one handler with its real status |
| `SigchldProtocol.NobodyWaitsInVain` | include/boost/process/v1/detail/posix/sigchld_service.hpp:101-141 | when nothing more happens by itself, every handler has run except those of children still running, also when children had exited before the service was made |
| `SigchldProtocol.EverybodyAnswered` | include/boost/process/v1/detail/posix/sigchld_service.hpp:37-141 | after any run, the service's own steps alone lead to a state where every handler has run, or waits for a child still running |
| `SigchldProtocol.ReachedStepWorks` | include/boost/process/v1/detail/posix/sigchld_service.hpp:101-141 | and from every reached state each of them goes down in a well-founded order, so no schedule puts it off for ever |
| `SigchldProtocol.ReachesQuiescence` | include/boost/process/v1/detail/posix/sigchld_service.hpp:101-141 | whenever the scan index is in range, which every reached state keeps, own steps lead to rest |
| `SigchldProtocol.InternalStepWorks` | include/boost/process/v1/detail/posix/sigchld_service.hpp:101-141 | each such step goes down in a well-founded order, so no schedule of them is endless |
| `SigchldProtocol.OutcomesStay` | include/boost/process/v1/detail/posix/sigchld_service.hpp:112-124 | a decided result never changes and a handler that has run is not run again |
| `SigchldAnswers.ExitsHandedOver` | include/boost/process/v1/detail/posix/sigchld_service.hpp:37-141 | over every run: each status the service collects is told, as an exit with that status, to exactly one handler, and every handler is told about the process it was registered for |
| `SigchldAnswers.DecidedWhen` | include/boost/process/v1/detail/posix/sigchld_service.hpp:39-124 | every result of a run has one moment: its handler was asking, its child was not running, and it is told the exit that was waiting to be collected, or else that there is no child, when the process was unknown or collected before |
| `SigchldAnswers.SpawnedIsTold` | include/boost/process/v1/detail/posix/sigchld_service.hpp:37-141 | from any reached state: a process is started, asked about and exits with any status; then the service's own steps alone tell a handler asking for it that very status |
| `SigchldAnswers.ExitIsTold` | include/boost/process/v1/detail/posix/sigchld_service.hpp:101-141 | the same for any child that exits while a handler waits for it |
| `SigchldAnswers.CollectedElsewhere` | include/boost/process/v1/detail/posix/sigchld_service.hpp:112-124 | when another part of the program collects the child first, the waiting handler itself is told that there is none |
| `SigchldAnswers.OneScanEach` | include/boost/process/v1/detail/posix/sigchld_service.hpp:55-141 | over every run: the scans begun, and those still owed, are exactly the signals received |
| `SigchldAnswers.StepDecides` | include/boost/process/v1/detail/posix/sigchld_service.hpp:39-124 | each step decides at most one result, and one for certain when the process asked about is not running; a scan calls the handler, a registration posts it |
| `SigchldProtocol.StepInv` | include/boost/process/v1/detail/posix/sigchld_service.hpp:37-141 | every single step, of the system or of the service, keeps the invariant |
| `SigchldProtocol.StepPlaces` | include/boost/process/v1/detail/posix/sigchld_service.hpp:37-66 | a handler enters when it is registered and from then on only changes place: initiating, waiting or decided |
| `SigchldService.ScanIsRun` | include/boost/process/v1/detail/posix/sigchld_service.hpp:112-140 | a scan with any system events before each `waitpid` is a run of the protocol |
| `SigchldService.SignalService.AsyncWait` | include/boost/process/v1/detail/posix/sigchld_service.hpp:37-66 | the registration, with system events between its `waitpid` and the list, does the protocol's steps |
| `SigchldService.SignalService.BeginWait` | include/boost/process/v1/detail/posix/sigchld_service.hpp:39-53 | an error or an exit found at once is posted, else the child is running |
| `SigchldService.SignalService.EnterList` | include/boost/process/v1/detail/posix/sigchld_service.hpp:55-64 | the first receiver arms the signal set, then the list grows |
| `SigchldService.SignalService.HandleSignal` | include/boost/process/v1/detail/posix/sigchld_service.hpp:101-141 | the signal handler performs exactly such a scan |
| `SigchldService.SignalService.PollReceiver` | include/boost/process/v1/detail/posix/sigchld_service.hpp:112-124 | one turn of its loop |
| `SigchldService.SignalService.WaitForSignal` | include/boost/process/v1/detail/posix/sigchld_service.hpp:133-140 | waiting on the signal set takes a queued signal or arms |
| `SigchldService.Session` | include/boost/process/v1/detail/posix/sigchld_service.hpp:37-141 | any sequence of calls on a service object, with any system events meanwhile, is a run of the protocol and keeps its invariant |
| `SigchldService.NewSession` | include/boost/process/v1/detail/posix/sigchld_service.hpp:37-141 | on the object: armed or pending exactly while receivers wait, no exit lost, one result per handler, real statuses, and every collected status told as an exit |
| `ProcessProtocol.ReapedOnce` | include/boost/process/v2/process.hpp:250-395 | over every interleaving of calls, asynchronous waits, cancellations and the exit: at most one successful `waitpid`, never one for a child that is gone, the cached status is the real one, each handler runs at most once and without an error gets the real exit code |
| `ProcessProtocol.StatusIsFinal` | include/boost/process/v2/process.hpp:319-382 | a status once collected is the child's, and whatever happens later the object keeps that one |
| `ProcessProtocol.NoWaitForgotten` | include/boost/process/v2/detail/process_handle_signal.hpp:305-367 | after the exit, when nothing more happens by itself, every asynchronous wait has been answered, over both handles, also when the child had exited before the object and its signal set existed |
| `ProcessProtocol.EveryWaitAnswered` | include/boost/process/v2/detail/process_handle_signal.hpp:305-367 | after any run in which the child has exited, the object's own steps alone answer every asynchronous wait |
| `ProcessProtocol.ReachedRunsEnd` | include/boost/process/v2/detail/process_handle_signal.hpp:322-349 | and no schedule of them puts it off for ever |
| `ProcessProtocol.InternalRunsEnd` | include/boost/process/v2/detail/process_handle_signal.hpp:322-349 | the poll and re-arm loop and the other own steps run out |
| `ProcessAnswers.WaitsSucceed` | include/boost/process/v2/process.hpp:349-382 | over every run: an asynchronous wait completes without an error unless it was cancelled itself or a signal interrupted its `waitpid`, and then with that error; without one its code is the one the child passed to `exit`, or the signal that killed it |
| `ProcessAnswers.EndingRecovered` | include/boost/process/v2/exit_code.hpp:82-95 | from the system's encoding of a status, stated on its own: the exit code is recovered for every code, signal and core flag, and exits and signals are told apart |
| `ProcessAnswers.HighBitsIgnored` | include/boost/process/v2/exit_code.hpp:82-95 | only the lowest sixteen bits of the status count |
| `ProcessAnswers.ExitCodeArrives` | include/boost/process/v2/detail/process_handle_signal.hpp:305-367 | after any run, a child that ends in any way: own steps answer every asynchronous wait, and each that succeeds, all of them when nothing was cancelled or interrupted, tells the code of that ending |
| `ProcessAnswers.EndCollected` | include/boost/process/v2/process.hpp:256-271 | a blocking wait or a termination of a child that then ends collects that ending, once and without an error |
| `ProcessAnswers.ErrorCodes` | include/boost/process/v2/process.hpp:250-328 | what `running`, `wait` and `terminate` do to the caller's error code in each state: cleared when the status is collected without waiting, `ESRCH` from `kill` on a collected child, kept otherwise |
| `ProcessAnswers.SignalsQueued` | include/boost/process/v2/detail/process_handle_signal.hpp:314-345 | conservation: a signal that finds no wait suspended is queued, a wait that suspends takes one, and nothing else changes the queue |
| `ProcessAnswers.DestroyCollects` | include/boost/process/v2/detail/process_handle_fd.hpp:106-126 | the destructor collects the child whatever state it is in |
| `ProcessAnswers.CancelAborts` | include/boost/process/v2/detail/process_handle_signal.hpp:322-349 | a wait that is cancelled while it is suspended, or rescheduled by the start of another one, ends in its next own steps with the abort |
| `ProcessAnswers.StartThenCancel` | include/boost/process/v2/detail/process_handle_signal.hpp:314-349 | so does a wait cancelled as soon as it, or another one, has been started, over both handles |
| `ProcessAnswers.DeliveredFirst` | include/boost/process/v2/detail/process_handle_signal.hpp:322-349 | a signal delivered before the cancel is followed up: the wait succeeds with the code |
| `ProcessAnswers.QueuedFirst` | include/boost/process/v2/detail/process_handle_signal.hpp:322-349 | and so is one that was kept because no wait was suspended |
| `ProcessAnswers.InterruptTells` | include/boost/process/v2/detail/process_handle_fd.hpp:326-333 | an interrupted `waitpid` of a readable descriptor ends the wait with that error |
| `ProcessAnswers.SuspendsAgain` | include/boost/process/v2/detail/process_handle_signal.hpp:336-345 | a wait woken by the signal of another child suspends again as it was |
| `ProcessAnswers.WithoutProcess` | include/boost/process/v2/detail/process_handle_fd.hpp:110-305 | over every run of an object without a process: it never asks the system or kills, `running` is false, `wait` and `terminate` return at once, and asynchronous waits end with a bad descriptor, or 0 once the status is known to be that |
| `ProcessProtocol.StepInv` | include/boost/process/v2/process.hpp:250-382 | every step keeps the invariant tying cached status, kernel, suspended operations and handler log |
| `ProcessProtocol.CompleteInv` | include/boost/process/v2/process.hpp:372-381 | a completed wait always ends the operation: the retry in its completion is never taken |
| `ProcessProtocol.SignalWaitInv` | include/boost/process/v2/detail/process_handle_signal.hpp:314-320 | arming and cancelling at once reschedules every suspended wait and loses none |
| `ProcessProtocol.PollOpInv` | include/boost/process/v2/detail/process_handle_fd.hpp:291-323 | polling for one operation keeps the invariant for all of them |
| `BasicProcess.ProcessObject.constructor` | include/boost/process/v2/process.hpp:138-143 | a new object starts the protocol, also for a child that has exited already |
| `BasicProcess.ProcessObject.CheckRunning` | include/boost/process/v2/process.hpp:319-328 | `running(ec)` does the protocol's step, and tells whether the child was alive |
| `BasicProcess.ProcessObject.WaitForExit` | include/boost/process/v2/process.hpp:266-271 | `wait(ec)` does, and on a live object returns without an error the code the child passed to `exit`, or the signal that killed it |
| `BasicProcess.ProcessObject.TerminateChild` | include/boost/process/v2/detail/process_handle_fd.hpp:223-231 | `terminate(ec)` does; afterwards the status is the real one, with an error exactly when the child was gone before |
| `BasicProcess.ProcessObject.HandleRunning` | include/boost/process/v2/detail/process_handle_fd.hpp:243-259 | the handle's `running`: the four outcomes |
| `BasicProcess.ProcessObject.BlockingWait` | include/boost/process/v2/detail/process_handle_fd.hpp:128-140 | the blocking `waitpid`, retried through any finite number of interruptions |
| `BasicProcess.ProcessObject.PollOperation` | include/boost/process/v2/detail/process_handle_fd.hpp:291-323 | the asynchronous poll: suspend or finish |
| `BasicProcess.ProcessObject.SuspendOnSignals` | include/boost/process/v2/detail/process_handle_signal.hpp:341-345 | suspension on the signal set takes a queued signal or waits |
| `BasicProcess.ProcessObject.HandleWaitAsync` | include/boost/process/v2/detail/process_handle_signal.hpp:314-320 | the start of a handle's asynchronous wait |
| `BasicProcess.ProcessObject.StartWait` | include/boost/process/v2/process.hpp:349-370 | `async_wait`: a known status is captured, else the handle waits |
| `BasicProcess.ProcessObject.FinishWait` | include/boost/process/v2/process.hpp:372-381 | the completion |
| `BasicProcess.ProcessObject.TerminateIfRunning` | include/boost/process/v2/detail/process_handle_fd.hpp:117-126 | the destructor leaves neither a running child nor a zombie |
| `BasicProcess.ProcessObject.BecomeReady` | include/boost/process/v2/detail/process_handle_fd.hpp:326-333 | the pidfd is readable: a blocking `waitpid` unless the status is known by now |
| `BasicProcess.ProcessObject.ResumeWait` | include/boost/process/v2/detail/process_handle_signal.hpp:322-349 | an abort ends the wait only if the wait itself was cancelled; a signal that came first is followed up |
| `BasicProcess.Session` | include/boost/process/v2/process.hpp:250-395 | whatever is called on an object and happens around it, in any order: its methods make a run of the protocol; one reap at most, none for a child that is gone, the cached status real and final, and each completion without an error tells how the child ended |
| `BasicProcess.Lifetime` | include/boost/process/v2/process.hpp:250-395 | from the launch to the destructor an object reaps its child exactly once, and without a cancellation or an interrupted `waitpid` every asynchronous wait succeeds |
| `LaunchProtocol.TruthfulHooksIff` | include/boost/process/v2/posix/default_launcher.hpp:347-417 | the promise of the launcher, no error if and only if `execve` succeeded, holds over all interleavings in which nobody kills the child, the read does not fail and a failing `execve` sets errno, if and only if the hooks leave the error pipe in place when they end and fail only with an errno |
| `LaunchAnswers.ErrnoIsTheCause` | include/boost/process/v2/posix/default_launcher.hpp:378-417 | over every run: the errno the child reports, and so any error of the launcher, is that of the first hook that fails, `EBADF` for a failing `dup2`, or that of the run's failing `execve` when none does; and the program starts only when none does |
| `LaunchAnswers.OrdinaryLaunch` | include/boost/process/v2/posix/default_launcher.hpp:347-373 | every `fork` starts a run, whatever descriptors the process has, and hooks that do not touch the number of the error pipe are admitted if they fail only with an errno |
| `LaunchAnswers.ProgramInherits` | include/boost/process/v2/posix/default_launcher.hpp:373-391 | the program starts with exactly the descriptors the hooks have set up that are on the whitelist, without the error pipe in its own place |
| `LaunchProtocol.TruthfulIff` | include/boost/process/v2/posix/default_launcher.hpp:395-417 | for each single run without any assumption: the answer is true if and only if the program was started, or the child wrote a non-zero errno and the read did not fail |
| `LaunchProtocol.NoErrorIffExecuted` | include/boost/process/v2/posix/default_launcher.hpp:347-417 | with such hooks, over every interleaving: the answer is true, and an error is the child's errno and the child was reaped once |
| `LaunchProtocol.ChildGivesUp` | include/boost/process/v2/posix/default_launcher.hpp:378-389 | a child that never starts the program tells a non-zero errno if and only if its hooks are such |
| `LaunchProtocol.HarmlessHooks` | include/boost/process/v2/posix/bind_fd.hpp:101-106 | hooks that copy the pipe onto itself, or replace it and put it back, are admitted |
| `LaunchProtocol.AnswerExact` | include/boost/process/v2/posix/default_launcher.hpp:395-417 | with no assumption on hooks, errno values, signals or reads: an error is exactly a non-zero value the child wrote, the program was then not started and the child is reaped once; without an error nothing is reaped |
| `LaunchProtocol.CloseAllKeepsSink` | include/boost/process/v2/posix/default_launcher.hpp:426-431 | closing all descriptors by the sorted whitelist keeps exactly the whitelist, so the error pipe survives |
| `LaunchProtocol.RegularStep` | include/boost/process/v2/posix/default_launcher.hpp:373-391 | under these conditions every step keeps the child able to report until it has reported or started the program |
| `LaunchProtocol.StepInv` | include/boost/process/v2/posix/default_launcher.hpp:360-417 | what every step keeps without conditions |
| `LaunchProtocol.RunsEnd` | include/boost/process/v2/posix/default_launcher.hpp:399-414 | no run is endless with finitely many interruptions, not even through a stale errno |
| `LaunchProtocol.NoDeadlock` | include/boost/process/v2/posix/default_launcher.hpp:395-414 | until the launcher has returned, parent or child can go on |
| `LaunchProtocol.FailedReadUnnoticed` | include/boost/process/v2/posix/default_launcher.hpp:397-411 | a run in which the child has failed, has told its errno and is gone, the read fails, and the launcher reports success and reaps nothing |
| `LaunchProtocol.KilledChildUnnoticed` | include/boost/process/v2/posix/default_launcher.hpp:386-411 | for any hooks, a run in which a child killed before its report goes unnoticed |
| `LaunchProtocol.ZeroErrnoUnnoticed` | include/boost/process/v2/posix/default_launcher.hpp:378-411 | a run in which a hook that fails with errno 0 does |
| `LaunchProtocol.SinkOverwrittenUnnoticed` | include/boost/process/v2/posix/bind_fd.hpp:101-106 | a run in which a hook that replaced the error pipe by another file does |
| `Launcher.DefaultLauncher.Launch` | include/boost/process/v2/posix/default_launcher.hpp:334-421 | the parent for every outcome of every call: the error, whether a process is returned, the whitelist afterwards with what the initializers put on it, and no end of the pipe left open |
| `Launcher.LaunchAgrees` | include/boost/process/v2/posix/default_launcher.hpp:395-421 | this answer is the one the protocol's parent gives in every run in which it hears the same, whatever the child does in between; so with hooks and runs as above a process is returned if and only if `execve` succeeded |
| `LaunchScripts.ScriptHappens` | include/boost/process/v2/posix/default_launcher.hpp:395-421 | and for every script of answers there is such a run, so the statement is never empty |
| `LaunchScripts.ReadsSettle` | include/boost/process/v2/posix/default_launcher.hpp:397-409 | the read goes on through `EINTR` and `EAGAIN`, in any number, and through nothing else |
| `LaunchProtocol.TranscriptDecides` | include/boost/process/v2/posix/default_launcher.hpp:395-421 | the parent's state is decided by what it does and hears |
| `Launcher.DefaultLauncher.Reap` | include/boost/process/v2/posix/default_launcher.hpp:414 | the loop on a possibly stale errno reaps once and how many rounds it takes |
| `Launcher.DefaultLauncher.CloseAllFds` | include/boost/process/v2/posix/default_launcher.hpp:426-431 | exactly the whitelisted descriptors stay open, and the whitelist is reset |
| `Launcher.OnSetupIsFirstError` | include/boost/process/v2/posix/default_launcher.hpp:74-91 | the setup dispatcher asks the initializers up to the first that fails, gives its error, and leaves on the whitelist exactly what those asked have added |
| `Launcher.DefaultLauncher.RunSetup` | include/boost/process/v2/posix/default_launcher.hpp:81-91 | its recursion over the launcher's whitelist |
| `CloseAll.GapsCoverComplement` | src/posix/close_handles.cpp:149-174 | the ranges issued cover exactly the descriptors not on the whitelist |
| `CloseAll.GapsAscend` | src/posix/close_handles.cpp:149-174 | they are well formed, ascending and disjoint |
| `CloseAll.CloseGapsIsFilter` | src/posix/close_handles.cpp:149-174 | closing them is filtering the table by the whitelist |
| `CloseAll.CloseAllRanges` | src/posix/close_handles.cpp:149-174 | the loop issues exactly those ranges and leaves exactly the whitelisted descriptors |
| `CloseAll.CloseAllWalking` | src/posix/close_handles.cpp:103-114 | the walking form leaves the same when no close fails, visiting the table in any order; a close that fails stops it; the error code is what errno holds in the end, stale or not |
| `CloseAll.SortedIsOrdered` | include/boost/process/v2/posix/default_launcher.hpp:428 | the sorted whitelist is ordered, as the interval form demands |
| `CloseAll.SortedMembers` | include/boost/process/v2/posix/default_launcher.hpp:428 | and has the same members |
| `PipeBuf.WriteSession` | include/boost/process/v1/pipe.hpp:169-197 | for every sequence of calls and every split into partial writes: taken followed by pending is all that was accepted, in order; without exceptions everything is accepted |
| `PipeBuf.ReadSession` | include/boost/process/v1/pipe.hpp:200-220 | for every chunking, what a reader consumes is what was delivered, in order |
| `PipeBuf.PipeBuffer.WriteImpl` | include/boost/process/v1/pipe.hpp:277-300 | one write: conservation, the shift to the front, the results in each case |
| `PipeBuf.PipeBuffer.ShiftDown` | include/boost/process/v1/pipe.hpp:292-293 | the overlapping move to the front keeps the characters |
| `PipeBuf.PipeBuffer.Overflow` | include/boost/process/v1/pipe.hpp:169-195 | the character joins the pending ones exactly when it is returned, or there was room and the write threw; how much stays pending: `eof` flushes, a stored character is written with the rest, and a full put area is written first |
| `PipeBuf.PipeBuffer.Sync` | include/boost/process/v1/pipe.hpp:197 | nothing is lost, how much stays pending, and 0 or -1 |
| `PipeBuf.PipeBuffer.Close` | include/boost/process/v1/pipe.hpp:256-271 | nothing stays behind if and only if the one write took everything |
| `PipeBuf.CloseLoses` | include/boost/process/v1/pipe.hpp:256-300 | what `close` may leave behind is any number from none to all but one of the pending characters, so it surely flushes if and only if at most one is pending |
| `PipeBuf.PipeBuffer.Underflow` | include/boost/process/v1/pipe.hpp:200-220 | with an empty get area a read asks for all that is left behind it, or behind the first ten cells when it is at the end, and never for nothing; pointers stay ordered and before the last cell, and what is available is what was read |
| `PipeBuf.PipeBuffer.constructor` | include/boost/process/v1/pipe.hpp:113-117 | both areas start empty inside their buffers |
| `PosixCommand.RoundTripIff` | include/boost/process/v1/detail/posix/basic_cmd.hpp:31-100 | for every command and all arguments: parsing the printed line gives them back if and only if the command and each argument meet a condition on spaces and quotes |
| `PosixCommand.TextRecovered` | include/boost/process/v1/detail/posix/basic_cmd.hpp:34-50 | the same for the arguments alone |
| `PosixCommand.BuildCmdShell` | include/boost/process/v1/detail/posix/basic_cmd.hpp:31-53 | the printing loop |
| `PosixCommand.BuildArgs` | include/boost/process/v1/detail/posix/basic_cmd.hpp:55-100 | the parsing loop with its iterator, part and quote state; a lone quote has no entry |
| `PosixWords.EnclosedRecovered` | include/boost/process/v1/detail/posix/basic_cmd.hpp:55-100 | any texts, escaped, enclosed in quotes and joined by spaces, with or without spaces inside and empty ones included, are parsed back if and only if each has an even number of quotes before its spaces, and in all unless it is the last |
| `PosixWords.QuotelessRecovered` | include/boost/process/v1/detail/posix/basic_cmd.hpp:55-100 | so texts without quotes always come back |
| `PosixWords.CutAtSpaces` | include/boost/process/v1/detail/posix/basic_cmd.hpp:80-97 | a line is cut at exactly the spaces outside quotes, and its entries are those of the pieces that are not empty |
| `PosixWords.EveryLineIsCut` | include/boost/process/v1/detail/posix/basic_cmd.hpp:80-97 | every line consists of such pieces |
| `PosixWords.EnclosedEntry` | include/boost/process/v1/detail/posix/basic_cmd.hpp:62-73 | whatever quotes enclose loses them and its escapes; any text escaped and enclosed is given back |
| `PosixWords.EntryShapes` | include/boost/process/v1/detail/posix/basic_cmd.hpp:62-73 | other pieces only lose their escapes, and the lone quote alone has no entry |
| `PosixWords.UnescapeBetween` | include/boost/process/v1/detail/posix/basic_cmd.hpp:70 | of pieces without escapes joined by escaped quotes, exactly the backslashes of those quotes go |
| `PosixWords.EveryTextSplits` | include/boost/process/v1/detail/posix/basic_cmd.hpp:70 | every text consists of such pieces |
| `PosixCommand.ScanSpaces` | include/boost/process/v1/detail/posix/basic_cmd.hpp:80-97 | conservation: the parser loses only the spaces at which it cuts, and each cut adds at most one entry |
| `PosixCommand.Advance` | include/boost/process/v1/detail/posix/basic_cmd.hpp:80-95 | a text in which every space is quoted is collected whole |
| `QuoteText.UnescapeEscape` | include/boost/process/v1/detail/posix/basic_cmd.hpp:36-70 | removing the escapes undoes inserting them |
| `QuoteText.EscapeIff` | include/boost/process/v1/detail/posix/basic_cmd.hpp:36 | the escaped text is the one text in which every quote follows a backslash and which gives the original when those are removed |
| `PosixCommand.FirstWord` | include/boost/process/v1/detail/posix/basic_cmd.hpp:80-97 | the first entry is the first word only if the parser cuts exactly behind it; a word cut inside, or one that leaves a quote open, never comes back |
| `PosixCommand.SpaceFirst` | include/boost/process/v1/detail/posix/basic_cmd.hpp:85-93 | a line that starts with a space yields too few entries, so empty arguments never come back |
| `PosixCommand.EntryWhole` | include/boost/process/v1/detail/posix/basic_cmd.hpp:62-73 | when an entry is the part itself |
| `WindowsCommand.RecoversIff` | include/boost/process/v2/windows/default_launcher.hpp:360-383 | a splitter on unquoted spaces recovers executable and arguments if and only if no wrapped one ends in a backslash and no other one holds a quote |
| `WindowsCommand.BuildCommandLine` | include/boost/process/v2/windows/default_launcher.hpp:360-414 | the buffer sized by the fold is filled exactly with the space-joined escaped elements; no call runs short |
| `WindowsCommand.CopiedAsIs` | src/windows/default_launcher.cpp:46-61 | an element without spaces, unless empty, and one that is enclosed in quotes already are copied |
| `WindowsCommand.WrappedIff` | src/windows/default_launcher.cpp:63-75 | any other is wrapped: between the outer quotes stands the one text in which every quote follows a backslash and which gives the element when those are removed |
| `WindowsCommand.RequiredSize` | include/boost/process/v2/windows/default_launcher.hpp:365-370 | the fold gives the length of that text |
| `WindowsCommand.EscapeArgvString` | src/windows/default_launcher.cpp:41-76 | writes exactly the escaped text at the pointer when it fits, and else nothing |
| `WindowsCommand.LengthExact` | src/windows/default_launcher.cpp:22-38 | the announced length is the length of the escaped text |
| `WindowsCommand.PutEscaped` | src/windows/default_launcher.cpp:67-72 | the character loop |
| `WindowsCommand.SplitWeight` | src/windows/default_launcher.cpp:65-74 | every quote of a command line costs the splitter one character |
| `WindowsCommand.LineWeight` | include/boost/process/v2/windows/default_launcher.hpp:365-382 | the printer pays for all quotes except those of elements it does not wrap |
| `WindowsCommand.BackslashLost` | src/windows/default_launcher.cpp:65-74 | a wrapped element ending in a backslash never comes back |
| `WindowsCommand.SplitOne` | src/windows/default_launcher.cpp:46-74 | a recoverable element is read back whole |
| `EnvironmentV1.RunRefines` | include/boost/process/v1/environment.hpp:304-320 | for any names, values and entries: a run of set, erase and emplace keeps one entry per name if and only if it starts so and no operation writes beside a variable of its name, and then it acts on the variables as on a map |
| `EnvironmentV1.PlainNamesAllowed` | include/boost/process/v1/environment.hpp:304-320 | operations with names without an equal sign never do |
| `EnvironmentV1.ApplyRefinesIff` | include/boost/process/v1/detail/posix/environment.hpp:251-289 | the same for one operation, which else does not act as on the map either |
| `EnvironmentV1.FindAgrees` | include/boost/process/v1/environment.hpp:260-303 | for any key: a variable the map has with a value a C string shows is found, as its own entry; and when no other entry carries the name, find and count see nothing else |
| `EnvironmentV1.SetIsUpdate` | include/boost/process/v1/detail/posix/environment.hpp:251-268 | for any name and any entries `set` is map update, except that a name with an equal sign does not change a variable it does not match |
| `EnvironmentV1.ResetIsRemovalIff` | include/boost/process/v1/detail/posix/environment.hpp:271-289 | for any name `reset` is map removal if and only if the map does not see the name or one entry carries it |
| `EnvironmentV1.ClearLeaves` | include/boost/process/v1/environment.hpp:334-344 | `clear` leaves exactly the entries that show no equal sign, in order, also with duplicate names |
| `EnvironmentV1.ClearEmptiesIff` | include/boost/process/v1/environment.hpp:334-344 | so it empties the environment if and only if every entry shows one |
| `EnvironmentV1.ShowsMeans` | include/boost/process/v1/environment.hpp:262-272 | how the search of `find` differs from that of `set` |
| `EnvironmentV1.NamesBase` | include/boost/process/v1/detail/posix/environment.hpp:253-260 | the search of `set` and `reset` compares the text before the first equal sign, and the beginning of the value when the name holds one itself |
| `BasicEnvironment.Environment.constructor` | include/boost/process/v1/detail/posix/environment.hpp:217-227 | copies the native strings and loads the pointers |
| `BasicEnvironment.LoadVar` | include/boost/process/v1/detail/posix/environment.hpp:292-306 | the pointer array ends in null and follows the strings; an empty string gets a NUL |
| `BasicEnvironment.Environment.Reload` | include/boost/process/v1/detail/posix/environment.hpp:155-159 | afterwards the pointers are in step with the strings |
| `BasicEnvironment.Environment.Set` | include/boost/process/v1/detail/posix/environment.hpp:251-268 | replaces the first entry of the name or appends, pointers in step |
| `BasicEnvironment.Environment.Reset` | include/boost/process/v1/detail/posix/environment.hpp:271-289 | removes the first entry of the name, pointers in step |
| `BasicEnvironment.Environment.Find` | include/boost/process/v1/environment.hpp:260-273 | the walk along the pointers |
| `BasicEnvironment.Environment.Count` | include/boost/process/v1/environment.hpp:289-303 | one or zero |
| `BasicEnvironment.Environment.At` | include/boost/process/v1/environment.hpp:346-352 | the entry's value, or the exception |
| `BasicEnvironment.Environment.Erase` | include/boost/process/v1/environment.hpp:304-308 | a step of the run |
| `BasicEnvironment.Environment.Emplace` | include/boost/process/v1/environment.hpp:309-320 | a step of the run; inserted if and only if not found before |
| `BasicEnvironment.Environment.Clear` | include/boost/process/v1/environment.hpp:334-344 | collects the names, then resets each |
| `BasicEnvironment.Session` | include/boost/process/v1/environment.hpp:260-320 | any operations on the object, then a lookup: pointers in step, and for one entry per name and allowed operations `at` and `count` answer as the map does after the same operations |
| `BasicEnvironment.ReloadedValue` | include/boost/process/v1/environment.hpp:65-75 | what `at` and an entry's `reload` give is the map's value as far as a C string shows it |
| `BasicEnvironment.ReloadedAfterSet` | include/boost/process/v1/environment.hpp:103-107 | an entry assigned a text holds it, or nothing when it is empty |
| `BasicEnvironment.Entry.AssignList` | include/boost/process/v1/environment.hpp:108-120 | sets the joined list |
| `BasicEnvironment.Entry.Append` | include/boost/process/v1/environment.hpp:134-147 | sets the old text, a colon and the new one, or just the new one |
| `BasicEnvironment.Entry.Clear` | include/boost/process/v1/environment.hpp:148-153 | removes the variable |
| `BasicEnvironment.ListSession` | include/boost/process/v1/environment.hpp:108-147 | on the objects: assigning a list and appending elements reads back as the list and the elements |
| `ValueLists.AssignIff` | include/boost/process/v1/environment.hpp:35-48 | `to_vector` after `assign` gives the list back if and only if it is empty, or is not one empty text and holds no separator or NUL |
| `ValueLists.AppendExtends` | include/boost/process/v1/environment.hpp:134-147 | `append` adds the parts of what a C string shows of its text at the end, and nothing when an absent value gets a text that shows nothing |
| `ValueLists.AppendRun` | include/boost/process/v1/environment.hpp:134-147 | any sequence of appends extends the vector at its end |
| `ValueLists.AssignAppend` | include/boost/process/v1/environment.hpp:108-147 | a clean list followed by clean elements is their concatenation |
| `ValueLists.SplitJoin` | include/boost/process/v1/environment.hpp:35-48 | splitting undoes joining if and only if no element holds a colon |
| `ValueLists.JoinSplit` | include/boost/process/v1/environment.hpp:35-48 | joining undoes splitting, always |
| `KeyValuePair.PairIff` | include/boost/process/v2/environment.hpp:956-1133 | a pair built from a key and a list, written with their sizes and read as C strings, gives both back if and only if the key and the list meet conditions a caller can check; holding no NUL is among them |
| `KeyValuePair.KeyIff` | include/boost/process/v2/environment.hpp:1110-1133 | the key comes back if and only if it holds no NUL and no equal sign after its first character, or is empty with no equal sign in the value; then the value comes back up to its first NUL |
| `KeyValuePair.ListIff` | include/boost/process/v2/environment.hpp:79-101 | iterating the value of a list, with its size, gives the list if and only if it is empty, or holds no delimiter, starts and ends with non-empty elements, and only the last ends in an equal sign |
| `KeyValuePair.CutListIff` | include/boost/process/v2/environment.hpp:290-291 | iterating it as a C string does so if and only if no element holds a NUL besides |
| `KeyValuePair.ElementsAreParts` | include/boost/process/v2/environment.hpp:79-101 | the iterator visits the parts between delimiters except an empty last one |
| `KeyValuePair.ListedAfterKey` | include/boost/process/v2/environment.hpp:961-969 | the constructor's text is the key, an equal sign and a value text that does not depend on the key |
| `KeyValuePair.CollectedLength` | include/boost/process/v2/environment.hpp:964-969 | that value text is the joined list exactly when every delimiter goes in, and shorter otherwise |
| `KeyValuePair.PushBackIff` | include/boost/process/v2/environment.hpp:790-793 | `push_back` adds one element to the list a value gives if and only if neither text holds a NUL, and the element holds no delimiter and is empty just when the value was empty or ended in one |
| `KeyValuePair.PushBackViewIff` | include/boost/process/v2/environment.hpp:290-291 | the same when the value is walked through a view of it |
| `KeyValuePair.Pair.FromList` | include/boost/process/v2/environment.hpp:956-970 | the constructor's loop |
| `KeyValuePair.Pair.ReadKey` | include/boost/process/v2/environment.hpp:1110-1122 | `key()`: found in the whole text, taken from the C string |
| `KeyValuePair.Pair.ReadValue` | include/boost/process/v2/environment.hpp:1123-1133 | `value()`: the C string behind the equal sign |
| `KeyValuePair.ValueIterator.Advance` | include/boost/process/v2/environment.hpp:79-87 | `operator++` |
| `KeyValuePair.ValueIterator.Deref` | include/boost/process/v2/environment.hpp:95-102 | `operator*` |
| `KeyValuePair.Iterate` | include/boost/process/v2/environment.hpp:290-291 | the walk over a value view, from `begin()` to `end()`, collects the elements of the C string |
| `KeyValuePair.IterateOwned` | include/boost/process/v2/environment.hpp:860-861 | the walk over a value that owns its text does, or throws when the text holds a NUL |
| `EnvironmentBlock.BlockIff` | src/detail/environment_win.cpp:113-126 | walking a written block gives the entries back if and only if there is one, none holds a NUL, and none but the first is empty |
| `EnvironmentBlock.WalkSees` | src/detail/environment_win.cpp:113-126 | otherwise the walk sees the entries before the first empty one |
| `EnvironmentBlock.WriteBack` | src/detail/environment_win.cpp:113-126 | any block is read if and only if it has two neighbouring NULs, and writing what was read gives it back up to the first two |
| `EnvironmentBlock.EndFound` | include/boost/process/v2/environment.hpp:1720-1738 | `find_end` points at the last character of a written block if and only if none but the first entry is empty, and else at that of the block up to the first empty one |
| `EnvironmentBlock.BlockContents` | include/boost/process/v2/environment.hpp:1720-1738 | every entry lies at its offset with a NUL behind it, and one NUL behind the last of these ends the block |
| `EnvironmentBlock.FindEndIsFirst` | src/detail/environment_win.cpp:121-126 | `find_end` finds the first two neighbouring NULs, and nothing if and only if there are none |
| `EnvironmentBlock.BuildEnv` | include/boost/process/v2/environment.hpp:1720-1738 | the block is every entry with its terminator and one more terminator |
| `EnvironmentBlock.NextEntry` | src/detail/environment_win.cpp:113-118 | `next`: behind the next NUL |
| `EnvironmentBlock.FindBlockEnd` | src/detail/environment_win.cpp:121-126 | `find_end`: the second of the first two neighbouring NULs |
| `EnvironmentBlock.ReadEntries` | include/boost/process/v2/environment.hpp:1351-1378 | the loop over an environment view |

## Left out

- The Windows API branch of the UTF-8 code, and a `wchar_t` of two bytes: what the API does is not part of this model.
- The FreeBSD form of `close_all`, which differs from the Linux form only in `closefrom`, and the form that reads the descriptor directory; descriptor `INT_MAX`, after which the code computes `INT_MAX + 1`.
- Errors of `close_range`, which the code ignores; the model closes what is asked.
- `on_error`, `on_fork_error`, `on_success` hooks, `notify_fork`, the `argv` vectors and the search for the executable; `on_setup` hooks are reduced to what they put on the whitelist and their error code, `on_exec_setup` hooks to their effect on descriptors and their errno.
- The other launchers: vfork, pdfork, fork-and-forget, and the Windows launchers with user, token or logon.
- Launcher.DefaultLauncher.Launch: the errno a failed `fork` left is one value of the script, although hooks run before it is read.
- Threads: the methods of one process object and of one signal service are interleaved at their system calls, under one strand for the scans; data races on the objects are not part of this model.
- Reuse of process ids, and another reaper of the child of a `basic_process`; other reapers of the children of `sigchld_service` are modelled.
- SigchldService.Session: calls come between scans; a handler that registers again during a scan is part of `SigchldProtocol` only.
- `sigchld_service` after an error of its signal set, a cancel or a shutdown, and stopped children.
- BasicProcess.Session: objects that have a process; the steps of one without are `ProcessAnswers.WithoutProcess`.
- `detach`, moves between objects, `interrupt`, `suspend`, `resume`, and the throwing overloads, which wrap the modelled ones.
- Timed waits and `group`.
- `basic_pipebuf<wchar_t>`: the pipe counts bytes there and the buffer counts characters.
- `basic_pipebuf`: opening, assigning another pipe and the seek and put-back calls of the library; the branch for a write of 0 characters, which a write of at least one character never gives.
- Parsing by `wordexp` and `CommandLineToArgvW`: their code is not part of the repository. The splitter of `WindowsCommand` is the plain reading of the printed form.
- WindowsCommand.BuildCommandLine: one method stands for the branch without arguments and the general one, whose results agree; conversion of narrow arguments is the codec's matter.
- BasicEnvironment.Entry.Append: an entry's pointer is its text at the last `reload`; a pointer left dangling by a change made through another entry is not modelled.
- `basic_environment_impl::get` and `native_environment_impl`: the former reads the text after the name differently from `find`, the latter is the system's own environment.
- Locale conversions, and comparison of keys without regard to case on Windows.
- KeyValuePair.PairIff: the POSIX delimiter; on Windows it is a semicolon.
- `key_value_pair_view`, whose searches stop at a NUL as well, and comparing and hashing pairs.
- The `reserve` sizes, which only affect allocation.
- Process queries (`ext`, `pid`), popen, error message tables and the template plumbing of v1.
