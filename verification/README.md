# Signal-state shim and Go demo functions, modelled in Dafny

The repository lets the Go runtime run inside the iOS sandbox. To do that it
replaces four POSIX signal calls with in-process stand-ins:
`sigaltstack`, `pthread_sigmask`, `sigprocmask` and `sigaction`. None of them
reaches the kernel. Each reads and writes process-wide tables:

- the saved alternate signal stack, which only exists once one has been stored;
- the blocked-signal mask, initialised to empty on first use;
- a 32-slot action table, zero-filled on first use;
- the flags that record those lazy initialisations.

The one OS effect of the four stand-ins is `signal(sig, SIG_IGN)`, made when an
action is stored for one of a listed set of crash signals. Load-time hooks
elsewhere in the program make the same call for crash signals too.

Two C files define the same four symbols, so a build links one or the other:

- `go/darwin_stubs.c`, the variant called `DarwinStubs` here;
- `go/ios_adapter_complete.c`, the variant called `IosAdapter` here.

They differ in four ways:

- the signal numbers `sigaction` accepts: 1..31 against 0..31, so only `IosAdapter` accepts signal 0 (go/ios_adapter_complete.c:133);
- whether the table is initialised before or after the range check;
- whether an unknown `how` is accepted silently or rejected with EINVAL: in `DarwinStubs` a `switch` without a `default` case lets it through with result 0 (go/darwin_stubs.c:68-92);
- which signals are ignored at the OS level when an action is stored (seven against three).

`IosAdapter` also has its own load-time constructor that ignores seven crash
signals at the OS level (go/ios_adapter_complete.c:21-24). `DarwinStubs` has
none.

The model keeps one `State` and takes the variant as a parameter.

The Go side (`go/main.go`) exports pure demo functions across the bridge. They
are an addition, a greeting, a recursive factorial and the total that
`TestGoroutines` aggregates from its workers. Go's `int` is 64 bits wide on the
build's targets (arm64, amd64), so the model makes the wrap-around of `+` and
`*` explicit.

Files:

- `int64.dfy` (module `Int64`): Go's 64-bit integers and the congruence laws of wrap-around.
- `signal_state.dfy` (module `SignalState`): the Darwin constants, the records, the `State`, and the two variants.
- `signal_shim.dfy` (module `SignalShim`): the four calls as pure transitions returning the new state, the out-buffer contents and the C return value; `Run` applies a sequence of calls.
- `signal_laws.dfy` (module `SignalLaws`): round trips, mask algebra, and invariants of every sequence of calls.
- `go_demo.dfy` (module `GoDemo`): `Simple`, `Hello`, the factorial and `TestGoroutines`.

Modelling choices:

- An out-pointer is an `Option`: `None` for NULL, `Some(v)` for a buffer that holds `v` before the call. The reply gives what the buffer holds afterwards, so "left untouched" means the reply equals the argument.
- `errno` is a field of the state, so a call that succeeds provably leaves it alone.
- `sigset_t` on Darwin is a 32-bit word and signal n is bit n - 1. A `SigSet` is therefore a set of numbers in 1..32. The block and unblock loops visit only 1..NSIG-1 = 1..31, but `SIG_SETMASK` copies the whole word. `SetMaskCopiesWholeWord` records that difference.
- `stack_t` and `struct sigaction` are opaque records that are copied whole.
- The OS disposition is the set `osIgnored` of signals set to SIG_IGN.

## Model

| member | source | states |
|---|---|---|
| SignalState.Deliverable | go/darwin_stubs.c:71 | The block and unblock loops visit exactly the signal numbers 1 <= i < NSIG. |
| SignalShim.SigAltStack | go/darwin_stubs.c:34-51 | Always returns 0. With `ss == NULL` the state is unchanged; otherwise only the stored stack changes, to `ss`. `oss` receives the previously stored stack, not the new one; before any store it is left untouched, and NULL stays NULL. |
| SignalLaws.AltStackStoreThenQuery | go/darwin_stubs.c:36-47 | After storing `s`, a query-only call writes exactly `s` into `oss`, returns 0 and changes nothing. |
| SignalLaws.StoredStackSurvives | go/darwin_stubs.c:41-47 | No call other than `sigaltstack` with a non-NULL `ss` changes the stored stack, in any sequence of calls of either variant. |
| SignalLaws.AltStackLaterQuery | go/ios_adapter_complete.c:62-78 | After storing `s` and any number of calls that store no stack, a query returns `s` (both variants share this behaviour). |
| SignalShim.BlockFrom | go/darwin_stubs.c:69-76 | The SIG_BLOCK loop from index i on adds exactly the members of `set` in [i, NSIG) to the mask and keeps everything else. |
| SignalShim.UnblockFrom | go/darwin_stubs.c:77-84 | The SIG_UNBLOCK loop from index i on removes exactly the members of `set` in [i, NSIG) from the mask and keeps everything else. |
| SignalShim.PthreadSigmask | go/darwin_stubs.c:54-93 | The mask is initialised to empty on first use, and `oset` receives the mask as it was before this call's update. With `set == NULL` the call is a pure query returning 0. Otherwise SIG_BLOCK gives mask ∪ (set ∩ [1,NSIG)), SIG_UNBLOCK gives mask \ (set ∩ [1,NSIG)) and SIG_SETMASK gives exactly `set`. An unknown `how` keeps the mask and returns 0 in DarwinStubs, or -1 with errno EINVAL in IosAdapter. The stack, the table and the dispositions are never touched. |
| SignalShim.Sigprocmask | go/darwin_stubs.c:130-132 | `sigprocmask(h, s, o)` has exactly the effect and result of `pthread_sigmask(h, s, o)`, in both variants. |
| SignalLaws.SetMaskThenQuery | go/darwin_stubs.c:61-88 | SIG_SETMASK with S followed by a query-only call hands back exactly S; both calls return 0 and the query changes nothing. |
| SignalLaws.BlockIsUnion | go/darwin_stubs.c:69-76 | For S within [1, NSIG), SIG_BLOCK gives mask ∪ S and leaves every signal outside S as it was. |
| SignalLaws.UnblockIsDifference | go/darwin_stubs.c:77-84 | For S within [1, NSIG), SIG_UNBLOCK gives mask \ S and leaves every signal outside S as it was. |
| SignalLaws.BlockThenUnblock | go/ios_adapter_complete.c:99-116 | Blocking then unblocking S gives mask \ S, which is the original mask when S was disjoint from it. |
| SignalLaws.SetMaskCopiesWholeWord | go/darwin_stubs.c:69-88 | For every state and every set, bit 32 of the word ends up set after SIG_SETMASK exactly when the set has it. After SIG_BLOCK or SIG_UNBLOCK it is set exactly when it was set before, because their loops stop below NSIG. |
| SignalLaws.MaskEmptyOnFirstUse | go/darwin_stubs.c:55-64 | Before the mask is initialised, any call with an `oset` buffer writes the empty set into it, whatever `how` and `set` are. |
| SignalLaws.UnknownHowByVariant | go/ios_adapter_complete.c:89-126 | With an unknown `how` and a non-NULL set, DarwinStubs returns 0 and IosAdapter returns -1 with EINVAL. In both the mask is unchanged and `oset` has already received it. |
| SignalShim.SigAction | go/darwin_stubs.c:95-127 | Outside the variant's range the call returns -1, sets errno to EINVAL, leaves every slot and `oact` unchanged, and in DarwinStubs still marks the table initialised. IosAdapter checks first, so there the only change is errno. Inside the range the call returns 0 and `oact` receives the previous slot. A non-NULL `act` replaces exactly that slot, and the OS-level ignore set grows by `sig` exactly when `sig` is one of the variant's listed signals. A NULL `act` leaves the table as initialised. |
| SignalLaws.TableZeroOnFirstUse | go/ios_adapter_complete.c:131-147 | Before the table is initialised, a call with an accepted signal number writes a zero-filled action into `oact`, whether or not it also stores one. |
| SignalLaws.ActionStoreThenQuery | go/darwin_stubs.c:108-116 | A stored action comes back unchanged from the next query-only call, and every other slot reads as before the store. |
| SignalLaws.SigActionVariantsDiffer | go/ios_adapter_complete.c:133-142 | Signal 0 is rejected by DarwinStubs and accepted by IosAdapter. From any state, every out-of-range number marks the table initialised in DarwinStubs. From any state whose table is not yet initialised, it leaves it uninitialised in IosAdapter, which checks before initialising. |
| SignalLaws.UnwrittenSlotKept | go/darwin_stubs.c:113-116 | A slot that no call in a sequence stores into keeps its contents. |
| SignalLaws.UnwrittenSlotReadsZero | go/darwin_stubs.c:97-100 | From loading, a slot never written reads as the zero action, after any sequence of calls. |
| SignalLaws.StoreIgnoresListedSignal | go/ios_adapter_complete.c:154-162 | Storing an action makes `sig` ignored at the OS level if and only if it was ignored before or is one of the variant's listed signals. No other signal's disposition changes. |
| SignalLaws.CallsOnlyAddListedSignals | go/darwin_stubs.c:117-123 | From any starting state, including one where a constructor has already ignored signals, a sequence of calls never removes an OS-level ignore and only ever adds the variant's listed signals. |
| SignalLaws.StepKeepsConsistent | go/ios_adapter_complete.c:138-142 | Each call keeps three facts: a table that is not yet initialised is still all zero, a mask that is not yet initialised is empty, and only the constructor's signals and the variant's listed signals are ignored at the OS level. |
| SignalLaws.RunKeepsConsistent | go/darwin_stubs.c:97-123 | The same three facts hold after any sequence of calls. |
| SignalLaws.IgnoresStayAmongCrashSignals | go/ios_init.h:10-11 | Whatever the other load-time hooks have ignored, as long as it is among the seven crash signals, no sequence of calls ignores anything beyond them, in either variant. |
| SignalLaws.ReachableIsConsistent | go/ios_adapter_complete.c:21-24 | The three facts hold in `Loaded(v)` and after any sequence of calls from there. `Loaded(v)` is the process-start state after the variant file's own constructor (`IgnoredAtLoad`): in IosAdapter, `disableIOSSignals` has ignored the seven crash signals (go/ios_adapter_complete.h:19-27); in DarwinStubs there is no constructor, so nothing is ignored. |
| SignalLaws.OnlyListedSignalsIgnored | go/ios_adapter_complete.h:19-27 | After loading and any sequence of calls, the constructor's ignores are still in place and nothing else is ignored except the variant's listed signals. DarwinStubs has no constructor, so at most its seven listed signals are ignored. In IosAdapter the three listed signals are among the constructor's seven, so exactly those seven are ignored. |
| GoDemo.Simple | go/main.go:15-17 | The result is `a + b` whenever that fits in 64 bits, and otherwise agrees with it modulo 2^64. |
| GoDemo.SimpleCommutes | go/main.go:15-17 | `Simple(a, b) == Simple(b, a)`. |
| GoDemo.Hello | go/main.go:20-22 | The result starts with "Hello, ", continues with `name`, ends with " from Go!", and has length `|name| + 16`. |
| GoDemo.HelloInjective | go/main.go:20-22 | Two names that give the same greeting are equal, because the name can be read back from the greeting. |
| GoDemo.Factorial | go/main.go:24-30 | The intended factorial, with 1 for every n <= 0, is always at least 1. |
| GoDemo.CalculateFactorialBase | go/main.go:26-27 | The factorial of every n <= 0 is 1. |
| GoDemo.FactorialStep | go/main.go:29 | For n > 0 the factorial is n times the factorial of n - 1. |
| GoDemo.CalculateFactorial | go/main.go:25-30 | The function as written, with 64-bit wrapping products, returns n! reduced modulo 2^64. |
| GoDemo.CalculateFactorialExactUpTo20 | go/main.go:25-30 | For n <= 20 the function as written equals n! and is at least 1. |
| GoDemo.CalculateFactorial21IsNegative | go/main.go:29 | At n = 21 the function as written returns -4249290049419214848, below 1, while 21! is positive. |
| GoDemo.Worker | go/main.go:62-70 | One worker's loop returns the sum of `j * id` over 0 <= j < workload, reduced to 64 bits. |
| GoDemo.TestGoroutines | go/main.go:56-80 | Whatever order the results arrive in, the total is the sum over id in 1..count of that worker's sum, reduced to 64 bits. A negative count panics in `make` before any worker starts, and only then. The result is 0 when count == 0, or when count >= 0 and workload <= 1. |
| GoDemo.SumOfWorkersPermutation | go/main.go:73-77 | Any two arrival orders of the same results give the same total. |
| GoDemo.SumOfWorkerIds | go/main.go:61-71 | Adding the results in launch order 1..count gives the intended aggregate. |
| GoDemo.WorkerSumClosedForm | go/main.go:64-67 | For workload >= 0, twice a worker's sum is id * workload * (workload - 1). |
| GoDemo.GoroutineTotalClosedForm | go/main.go:56-79 | For count, workload >= 0, four times the total is count * (count + 1) * workload * (workload - 1). |
| GoDemo.GoroutineTotalZero | go/main.go:61-79 | The intended aggregate is 0 when count == 0 or workload <= 1. It is also 0 for a negative count, which launches no workers; the function itself panics before reaching that point. |

## Left out

- `abort` (go/darwin_stubs.c:135-141, go/ios_adapter_complete.c:172-178) is a deliberate infinite loop. It has no state and no result to state anything about.
- `darwin_arm_init_mach_exception_handler` and `darwin_arm_init_thread_exception_port` have empty bodies.
- Of the load-time hooks, only the effect of `IosAdapter`'s own constructor `initialize_ios_bridge` on OS-level ignores is modelled, as the starting state `Loaded`. `setupIOSThreads` destroys its thread attribute without using it, so it has no lasting effect.
- The other load-time hooks are not run by the model, and their order relative to `initialize_ios_bridge` is not fixed. `configureiOSApp` (go/ios_init.h:10-11, run by the constructor in go/start_ios.go) ignores SIGPIPE and SIGBUS. `disableSignals` in go/signal_ios.go and `C.disableIOSSignals()` in go/ios_adapter.go ignore all seven crash signals, and so do the `signal.Ignore` calls in go/signal_ios.go and go/ios_adapter.go, which name exactly those seven. These are all within `CrashSignals`, which contains both `IgnoredOnStore(DarwinStubs)` and `IgnoredAtLoad(IosAdapter)`. That is why `CallsOnlyAddListedSignals` is stated for any starting state and why `IgnoresStayAmongCrashSignals` covers whatever these hooks leave behind. The constructor in go/rtconfig.go has an empty body.
- Apart from those OS-level ignores, the Go `init` functions are runtime configuration and file-descriptor I/O: redirecting stderr and stdout with `Dup2`, `SetGCPercent` and `GOMAXPROCS`.
- GoDemo.CalculateFactorial: the recursion depth is not modelled. Each call takes a Go stack frame, and the Go stack is capped at 1 GB on 64-bit targets, so an n in the tens of millions ends in a fatal stack overflow rather than a wrapped result.
- GoDemo.TestGoroutines: a `count` too large for the channel buffer to be allocated also makes `make` panic or run out of memory; the model treats every non-negative count as allocatable.
- GoDemo.TestGoroutines: goroutines and the channel are not modelled. The order in which the channel delivers results is a parameter, constrained only to deliver each launched worker's result exactly once.
- The cgo wrappers `*_GoIOS`, their truncation to the 32-bit `C.int`, the `C.CString` allocation and the pass-through C wrappers in go/goios_bridge.c are foreign calls and memory ownership.
- The Swift UI and bridge, and the headers, hold declarations only.
- The tables are unsynchronised globals. Calls are modelled one at a time, with no data races.
- Pointer aliasing is not modelled. The input record (`ss`, `set`, `act`) is read as the value it holds on entry. In C, a call whose in and out pointers are the same buffer reads that buffer after the out-copy has overwritten it.
- The byte layouts that `memcpy` copies are not modelled. Stacks and actions are opaque records, and a mask is the set of its bit numbers.
- GoDemo.Hello: Go strings are byte strings, and the model treats them as sequences of characters. The length law therefore counts code units, which equals Go's `len` for ASCII names.

## Findings

| source | as written | input that shows it | evidently intended | confidence | as-written member | corrected member |
|---|---|---|---|---|---|---|
| go/main.go:25-30 | `n * CalculateFactorial(n-1)` in 64-bit `int`, which wraps silently | n = 21 returns -4249290049419214848 | n!, which is always at least 1 (the comment promises "the factorial of a non-negative integer"), or an overflow error | medium; not executed | GoDemo.CalculateFactorial, exhibited by GoDemo.CalculateFactorial21IsNegative | GoDemo.Factorial |
