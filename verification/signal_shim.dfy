/** The four intercepted POSIX calls, `sigaltstack`, `pthread_sigmask`,
    `sigprocmask` and `sigaction`, as pure transitions of the shim's State.
    An out-pointer is an `Option`: `None` for NULL, `Some(v)` for a buffer that
    currently holds `v`; each reply carries the new state, what the out-buffer
    holds after the call and the C return value. */
module SignalShim {
  import opened SignalState

  datatype StackReply = StackReply(st: State, oss: Option<Stack>, ret: int)
  datatype MaskReply = MaskReply(st: State, oset: Option<SigSet>, ret: int)
  datatype ActionReply = ActionReply(st: State, oact: Option<Action>, ret: int)

  // ------------------------------------------------------------ sigaltstack

  /** `sigaltstack(ss, oss)`, identical in both variants: hand back the stored
      stack if one was ever stored, then store `ss` if given. Never fails, and
      no stack is registered with the OS. */
  function SigAltStack(st: State, ss: Option<Stack>, oss: Option<Stack>): (r: StackReply)
    ensures r.ret == 0
    ensures ss.None? ==> r.st == st
    ensures ss.Some? ==> r.st == st.(altStack := ss)
    ensures st.altStack.None? ==> r.oss == oss
    ensures oss.None? ==> r.oss.None?
    ensures oss.Some? && st.altStack.Some? ==> r.oss == st.altStack
  {
    var out := if oss.Some? && st.altStack.Some? then st.altStack else oss;
    if ss.None? then StackReply(st, out, 0)
    else StackReply(st.(altStack := ss), out, 0)
  }

  // -------------------------------------------------------- pthread_sigmask

  /** The SIG_BLOCK loop from index `i` on: each signal number k with
      i <= k < NSIG that is in `sigs` is added to `mask`. */
  function BlockFrom(mask: SigSet, sigs: SigSet, i: int): (r: SigSet)
    requires 1 <= i <= NSIG
    ensures forall x :: x in r <==> x in mask || (x in sigs && i <= x < NSIG)
    decreases NSIG - i
  {
    if i == NSIG then mask
    else BlockFrom(if i in sigs then mask + {i} else mask, sigs, i + 1)
  }

  /** The SIG_UNBLOCK loop from index `i` on: each signal number k with
      i <= k < NSIG that is in `sigs` is removed from `mask`. */
  function UnblockFrom(mask: SigSet, sigs: SigSet, i: int): (r: SigSet)
    requires 1 <= i <= NSIG
    ensures forall x :: x in r <==> x in mask && !(x in sigs && i <= x < NSIG)
    decreases NSIG - i
  {
    if i == NSIG then mask
    else UnblockFrom(if i in sigs then mask - {i} else mask, sigs, i + 1)
  }

  predicate KnownHow(how: int) {
    how == SIG_BLOCK || how == SIG_UNBLOCK || how == SIG_SETMASK
  }

  /** `pthread_sigmask(how, set, oset)`: initialise the mask to empty on first
      use, hand the current mask to `oset`, then apply `set` according to `how`.
      An unknown `how` is silently accepted by DarwinStubs and rejected with
      EINVAL by IosAdapter; either way the mask stays as it was. */
  function PthreadSigmask(v: Variant, st: State, how: int, sigs: Option<SigSet>, oset: Option<SigSet>): (r: MaskReply)
    ensures r.st.maskReady
    ensures oset.Some? ==> r.oset == Some(MaskAfterInit(st))
    ensures oset.None? ==> r.oset.None?
    ensures r.st.altStack == st.altStack && r.st.actions == st.actions
    ensures r.st.actionsReady == st.actionsReady && r.st.osIgnored == st.osIgnored
    ensures sigs.None? ==> r.ret == 0 && r.st.mask == MaskAfterInit(st)
    ensures sigs.Some? && how == SIG_BLOCK ==>
              r.ret == 0 && r.st.mask == MaskAfterInit(st) + sigs.value * Deliverable()
    ensures sigs.Some? && how == SIG_UNBLOCK ==>
              r.ret == 0 && r.st.mask == MaskAfterInit(st) - sigs.value * Deliverable()
    ensures sigs.Some? && how == SIG_SETMASK ==> r.ret == 0 && r.st.mask == sigs.value
    ensures sigs.Some? && !KnownHow(how) ==> r.st.mask == MaskAfterInit(st)
    ensures sigs.Some? && !KnownHow(how) && v.DarwinStubs? ==> r.ret == 0
    ensures sigs.Some? && !KnownHow(how) && v.IosAdapter? ==> r.ret == -1 && r.st.errno == EINVAL
    ensures r.ret == 0 || r.ret == -1
    ensures r.ret == 0 ==> r.st.errno == st.errno
  {
    var st1 := st.(mask := MaskAfterInit(st), maskReady := true);
    var out := if oset.Some? then Some(st1.mask) else None;
    if sigs.None? then MaskReply(st1, out, 0)
    else if how == SIG_BLOCK then MaskReply(st1.(mask := BlockFrom(st1.mask, sigs.value, 1)), out, 0)
    else if how == SIG_UNBLOCK then MaskReply(st1.(mask := UnblockFrom(st1.mask, sigs.value, 1)), out, 0)
    else if how == SIG_SETMASK then MaskReply(st1.(mask := sigs.value), out, 0)
    else
      match v
      case DarwinStubs => MaskReply(st1, out, 0)
      case IosAdapter => MaskReply(st1.(errno := EINVAL), out, -1)
  }

  /** `sigprocmask(how, set, oldset)` delegates to `pthread_sigmask` in both variants. */
  function Sigprocmask(v: Variant, st: State, how: int, sigs: Option<SigSet>, oldset: Option<SigSet>): (r: MaskReply)
    ensures r == PthreadSigmask(v, st, how, sigs, oldset)
  {
    PthreadSigmask(v, st, how, sigs, oldset)
  }

  // -------------------------------------------------------------- sigaction

  /** The part of `sigaction` after the range check and the lazy
      initialisation: hand back the slot, then store `act` in it, ignoring
      the signal at the OS level if it is one of the variant's listed ones. */
  function StoreAction(v: Variant, st: State, sig: int, act: Option<Action>, oact: Option<Action>): ActionReply
    requires 0 <= sig < MaxSignals
  {
    var out := if oact.Some? then Some(st.actions[sig]) else None;
    if act.None? then ActionReply(st, out, 0)
    else
      var ignored := if sig in IgnoredOnStore(v) then st.osIgnored + {sig} else st.osIgnored;
      ActionReply(st.(actions := st.actions[sig := act.value], osIgnored := ignored), out, 0)
  }

  /** `sigaction(sig, act, oact)`. DarwinStubs zero-fills the table on first
      use before checking `sig`, IosAdapter only after the check passes; the
      accepted range is also the variant's. */
  function SigAction(v: Variant, st: State, sig: int, act: Option<Action>, oact: Option<Action>): (r: ActionReply)
    ensures r.st.altStack == st.altStack && r.st.mask == st.mask && r.st.maskReady == st.maskReady
    // out of range: EINVAL, nothing handed back, every slot as it was
    ensures !ValidSignal(v, sig) ==>
              r.ret == -1 && r.st.errno == EINVAL && r.oact == oact
              && TableAfterInit(r.st) == TableAfterInit(st) && r.st.osIgnored == st.osIgnored
    ensures !ValidSignal(v, sig) && v.DarwinStubs? ==> r.st.actionsReady
    ensures !ValidSignal(v, sig) && v.IosAdapter? ==> r.st == st.(errno := EINVAL)
    // in range: success, the old slot handed back, the new one stored
    ensures ValidSignal(v, sig) ==> r.ret == 0 && r.st.errno == st.errno && r.st.actionsReady
    ensures ValidSignal(v, sig) && oact.Some? ==> r.oact == Some(TableAfterInit(st)[sig])
    ensures oact.None? ==> r.oact.None?
    ensures ValidSignal(v, sig) && act.None? ==>
              r.st.actions == TableAfterInit(st) && r.st.osIgnored == st.osIgnored
    ensures ValidSignal(v, sig) && act.Some? ==>
              r.st.actions[sig] == act.value
              && (forall i :: 0 <= i < MaxSignals && i != sig ==> r.st.actions[i] == TableAfterInit(st)[i])
              && r.st.osIgnored == st.osIgnored + (if sig in IgnoredOnStore(v) then {sig} else {})
  {
    var ready := st.(actions := TableAfterInit(st), actionsReady := true);
    match v
    case DarwinStubs =>
      if !ValidSignal(v, sig) then ActionReply(ready.(errno := EINVAL), oact, -1)
      else StoreAction(v, ready, sig, act, oact)
    case IosAdapter =>
      if !ValidSignal(v, sig) then ActionReply(st.(errno := EINVAL), oact, -1)
      else StoreAction(v, ready, sig, act, oact)
  }

  // ------------------------------------------------- sequences of calls

  /** One call into the shim, with its arguments. */
  datatype Call =
    | AltStackCall(ss: Option<Stack>, oss: Option<Stack>)
    | SigmaskCall(how: int, sigs: Option<SigSet>, oset: Option<SigSet>)
    | ProcmaskCall(how: int, sigs: Option<SigSet>, oset: Option<SigSet>)
    | ActionCall(sig: int, act: Option<Action>, oact: Option<Action>)

  /** The state after one call. */
  function Step(v: Variant, st: State, c: Call): State {
    match c
    case AltStackCall(ss, oss) => SigAltStack(st, ss, oss).st
    case SigmaskCall(how, sigs, oset) => PthreadSigmask(v, st, how, sigs, oset).st
    case ProcmaskCall(how, sigs, oset) => Sigprocmask(v, st, how, sigs, oset).st
    case ActionCall(sig, act, oact) => SigAction(v, st, sig, act, oact).st
  }

  /** The state after a sequence of calls, made one at a time. */
  function Run(v: Variant, st: State, calls: seq<Call>): State
    decreases |calls|
  {
    if |calls| == 0 then st else Run(v, Step(v, st, calls[0]), calls[1..])
  }
}
