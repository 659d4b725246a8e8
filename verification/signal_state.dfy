/** The process-wide tables the signal stand-ins keep in place of the kernel's
    signal state (go/darwin_stubs.c:10-21, go/ios_adapter_complete.c:38-49),
    with the Darwin constants they are compiled against. */
module SignalState {

  datatype Option<T> = None | Some(value: T)

  // ------------------------------------------------------ Darwin constants

  /** `NSIG` on Darwin: signal numbers run from 1 to NSIG - 1. */
  const NSIG: int := 32
  /** `MAX_SIGNALS`: the number of slots in the action table. */
  const MaxSignals: int := 32
  /** `sigset_t` on Darwin is a 32-bit word; signal n is bit n - 1. */
  const SigsetBits: int := 32

  const SIGILL: int := 4
  const SIGTRAP: int := 5
  const SIGABRT: int := 6
  const SIGFPE: int := 8
  const SIGBUS: int := 10
  const SIGSEGV: int := 11
  const SIGPIPE: int := 13

  const SIG_BLOCK: int := 1
  const SIG_UNBLOCK: int := 2
  const SIG_SETMASK: int := 3

  const EINVAL: int := 22

  // ----------------------------------------------------------- the records

  /** A `sigset_t`: the signal numbers whose bits are set. The word has room
      for bit numbers 1..32, one more than there are signals. */
  type SigSet = s: set<int> | forall x | x in s :: 1 <= x <= SigsetBits

  /** The numbers lo, lo + 1, ..., hi - 1. */
  function Range(lo: int, hi: int): (r: set<int>)
    ensures forall x :: x in r <==> lo <= x < hi
    decreases hi - lo
  {
    if lo >= hi then {} else {lo} + Range(lo + 1, hi)
  }

  /** The signal numbers the block and unblock loops visit: 1 <= i < NSIG. */
  function Deliverable(): (d: SigSet)
    ensures forall x :: x in d <==> 1 <= x < NSIG
  {
    Range(1, NSIG)
  }

  /** A `stack_t`, copied as an opaque value: base address, size and flags. */
  datatype Stack = Stack(sp: int, size: int, flags: int)

  /** A `struct sigaction`, copied as an opaque value: the handler address
      (0 is SIG_DFL), the mask blocked while it runs, and its flags. */
  datatype Action = Action(handler: int, mask: SigSet, flags: int)

  /** What a zero-filled `struct sigaction` reads as. */
  const ZeroAction: Action := Action(0, {}, 0)

  /** The action table `global_sigactions[MAX_SIGNALS]`. */
  type Table = t: seq<Action> | |t| == MaxSignals witness seq(32, _ => Action(0, {}, 0))

  /** The table as `memset(…, 0, …)` leaves it. */
  function ZeroTable(): (t: Table)
    ensures forall i :: 0 <= i < MaxSignals ==> t[i] == ZeroAction
  {
    seq(MaxSignals, _ => ZeroAction)
  }

  /** Everything the stand-ins read and write.
      - `altStack`: `global_sigstack`, present exactly when `sigstack_set` is 1;
      - `mask`, `maskReady`: `global_sigmask` and `sigmask_initialized`;
      - `actions`, `actionsReady`: `global_sigactions` and `sigactions_initialized`;
      - `osIgnored`: the signals whose real, OS-level disposition has been set to
        SIG_IGN through `signal(sig, SIG_IGN)`;
      - `errno`: the calling thread's `errno`. */
  datatype State = State(
    altStack: Option<Stack>,
    mask: SigSet,
    maskReady: bool,
    actions: Table,
    actionsReady: bool,
    osIgnored: set<int>,
    errno: int)

  /** The state at process start: every static is zero, nothing is set or initialised. */
  const Boot: State := State(None, {}, false, ZeroTable(), false, {}, 0)

  /** The seven crash signals. Every load-time hook in the program that sets
      an OS-level ignore sets it for some of these. */
  const CrashSignals: set<int> := {SIGPIPE, SIGBUS, SIGSEGV, SIGABRT, SIGILL, SIGFPE, SIGTRAP}

  /** The signals the variant file's own constructor ignores at the OS level:
      IosAdapter's `initialize_ios_bridge` ignores all seven crash signals,
      DarwinStubs has no constructor. */
  function IgnoredAtLoad(v: Variant): set<int> {
    match v
    case DarwinStubs => {}
    case IosAdapter => CrashSignals
  }

  /** The state after this variant file's own constructor has run, before any
      other load-time hook or call. */
  function Loaded(v: Variant): State {
    Boot.(osIgnored := IgnoredAtLoad(v))
  }

  /** The mask a call sees once `pthread_sigmask` has run its lazy initialisation. */
  function MaskAfterInit(st: State): (m: SigSet)
    ensures st.maskReady ==> m == st.mask
    ensures !st.maskReady ==> m == {}
  {
    if st.maskReady then st.mask else {}
  }

  /** The table a call sees once `sigaction` has run its lazy initialisation. */
  function TableAfterInit(st: State): (t: Table)
    ensures st.actionsReady ==> t == st.actions
    ensures !st.actionsReady ==> forall i :: 0 <= i < MaxSignals ==> t[i] == ZeroAction
  {
    if st.actionsReady then st.actions else ZeroTable()
  }

  // ------------------------------------------------- the two source variants

  /** The two files define the same symbols with small differences, so a
      process links one of them: `DarwinStubs` is go/darwin_stubs.c and
      `IosAdapter` is go/ios_adapter_complete.c. */
  datatype Variant = DarwinStubs | IosAdapter

  /** The smallest signal number `sigaction` accepts (the largest is MAX_SIGNALS - 1). */
  function LowestSignal(v: Variant): int {
    match v
    case DarwinStubs => 1
    case IosAdapter => 0
  }

  predicate ValidSignal(v: Variant, sig: int) {
    LowestSignal(v) <= sig < MaxSignals
  }

  /** The signals that storing an action for also ignores at the OS level. */
  function IgnoredOnStore(v: Variant): set<int> {
    match v
    case DarwinStubs => {SIGPIPE, SIGILL, SIGTRAP, SIGABRT, SIGFPE, SIGBUS, SIGSEGV}
    case IosAdapter => {SIGPIPE, SIGBUS, SIGSEGV}
  }
}
