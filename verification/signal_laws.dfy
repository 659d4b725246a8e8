/** Properties of the signal stand-ins across calls: store-then-query round
    trips, the set algebra of the mask operations, and facts that hold after
    any sequence of calls. */
module SignalLaws {
  import opened SignalState
  import opened SignalShim

  // ------------------------------------------------------------ sigaltstack

  /** A stack stored with `sigaltstack(ss, _)` is what the next query-only
      call `sigaltstack(NULL, oss)` writes into `oss`; the query succeeds and
      changes nothing. */
  lemma AltStackStoreThenQuery(st: State, s: Stack, oss: Option<Stack>, buf: Stack)
    ensures var stored := SigAltStack(st, Some(s), oss);
            var query := SigAltStack(stored.st, None, Some(buf));
            query.oss == Some(s) && query.ret == 0 && query.st == stored.st
  {
  }

  /** Calls that do not pass a new stack keep the stored one. */
  predicate StoresStack(c: Call) {
    c.AltStackCall? && c.ss.Some?
  }

  lemma {:induction false} StoredStackSurvives(v: Variant, st: State, calls: seq<Call>)
    requires forall k :: 0 <= k < |calls| ==> !StoresStack(calls[k])
    ensures Run(v, st, calls).altStack == st.altStack
    decreases |calls|
  {
    if |calls| > 0 {
      StoredStackSurvives(v, Step(v, st, calls[0]), calls[1..]);
    }
  }

  /** However many other calls come in between, a query returns the stack
      stored last. */
  lemma AltStackLaterQuery(v: Variant, st: State, s: Stack, oss: Option<Stack>, calls: seq<Call>, buf: Stack)
    requires forall k :: 0 <= k < |calls| ==> !StoresStack(calls[k])
    ensures var later := Run(v, SigAltStack(st, Some(s), oss).st, calls);
            SigAltStack(later, None, Some(buf)).oss == Some(s)
  {
    StoredStackSurvives(v, SigAltStack(st, Some(s), oss).st, calls);
  }

  // ---------------------------------------------------------- signal masks

  /** SIG_SETMASK followed by a query hands back exactly the set installed. */
  lemma SetMaskThenQuery(v: Variant, st: State, s: SigSet, oset: Option<SigSet>, how: int, buf: SigSet)
    ensures var installed := PthreadSigmask(v, st, SIG_SETMASK, Some(s), oset);
            var query := PthreadSigmask(v, installed.st, how, None, Some(buf));
            installed.ret == 0 && query.ret == 0 && query.oset == Some(s) && query.st == installed.st
  {
  }

  /** For signal numbers the loops visit, SIG_BLOCK is union and touches
      nothing outside `s`. */
  lemma BlockIsUnion(v: Variant, st: State, s: SigSet, oset: Option<SigSet>)
    requires s <= Deliverable()
    ensures var r := PthreadSigmask(v, st, SIG_BLOCK, Some(s), oset);
            r.ret == 0 && r.st.mask == MaskAfterInit(st) + s
            && forall x :: x !in s ==> (x in r.st.mask <==> x in MaskAfterInit(st))
  {
  }

  /** For signal numbers the loops visit, SIG_UNBLOCK is difference and
      touches nothing outside `s`. */
  lemma UnblockIsDifference(v: Variant, st: State, s: SigSet, oset: Option<SigSet>)
    requires s <= Deliverable()
    ensures var r := PthreadSigmask(v, st, SIG_UNBLOCK, Some(s), oset);
            r.ret == 0 && r.st.mask == MaskAfterInit(st) - s
            && forall x :: x !in s ==> (x in r.st.mask <==> x in MaskAfterInit(st))
  {
  }

  /** Blocking then unblocking the same signals removes them; when none of
      them was blocked before, the mask is restored. */
  lemma BlockThenUnblock(v: Variant, st: State, s: SigSet, o1: Option<SigSet>, o2: Option<SigSet>)
    requires s <= Deliverable()
    ensures var blocked := PthreadSigmask(v, st, SIG_BLOCK, Some(s), o1);
            var unblocked := PthreadSigmask(v, blocked.st, SIG_UNBLOCK, Some(s), o2);
            unblocked.st.mask == MaskAfterInit(st) - s
            && (MaskAfterInit(st) * s == {} ==> unblocked.st.mask == MaskAfterInit(st))
  {
    var m := MaskAfterInit(st);
    var blocked := PthreadSigmask(v, st, SIG_BLOCK, Some(s), o1);
    BlockIsUnion(v, st, s, o1);
    assert MaskAfterInit(blocked.st) == m + s;
    UnblockIsDifference(v, blocked.st, s, o2);
    assert (m + s) - s == m - s;
    if m * s == {} {
      assert m - s == m;
    }
  }

  /** The word can hold bit 32, which is no signal: SIG_SETMASK copies it in
      or out with the rest of the word, while SIG_BLOCK and SIG_UNBLOCK leave
      it as it was, whatever set they are given. */
  lemma SetMaskCopiesWholeWord(v: Variant, st: State, s: SigSet, o: Option<SigSet>)
    ensures 32 in PthreadSigmask(v, st, SIG_SETMASK, Some(s), o).st.mask <==> 32 in s
    ensures 32 in PthreadSigmask(v, st, SIG_BLOCK, Some(s), o).st.mask <==> 32 in MaskAfterInit(st)
    ensures 32 in PthreadSigmask(v, st, SIG_UNBLOCK, Some(s), o).st.mask <==> 32 in MaskAfterInit(st)
  {
  }

  /** The first call hands back an empty mask, whatever it is asked to do. */
  lemma MaskEmptyOnFirstUse(v: Variant, st: State, how: int, sigs: Option<SigSet>, buf: SigSet)
    requires !st.maskReady
    ensures var empty: SigSet := {};
            PthreadSigmask(v, st, how, sigs, Some(buf)).oset == Some(empty)
  {
  }

  /** An unknown `how`: DarwinStubs reports success, IosAdapter EINVAL; in
      both the mask is kept and `oset` still receives it. */
  lemma UnknownHowByVariant(st: State, how: int, s: SigSet, buf: SigSet)
    requires !KnownHow(how)
    ensures var a := PthreadSigmask(DarwinStubs, st, how, Some(s), Some(buf));
            var b := PthreadSigmask(IosAdapter, st, how, Some(s), Some(buf));
            a.ret == 0 && b.ret == -1 && b.st.errno == EINVAL
            && a.st.mask == b.st.mask == MaskAfterInit(st)
            && a.oset == b.oset == Some(MaskAfterInit(st))
  {
  }

  // -------------------------------------------------------------- sigaction

  /** An action stored with `sigaction(sig, act, _)` is what the next
      query-only call hands back; every other slot is as before. */
  lemma ActionStoreThenQuery(v: Variant, st: State, sig: int, a: Action, oact: Option<Action>, buf: Action)
    requires ValidSignal(v, sig)
    ensures var stored := SigAction(v, st, sig, Some(a), oact);
            var query := SigAction(v, stored.st, sig, None, Some(buf));
            stored.ret == 0 && query.ret == 0 && query.oact == Some(a) && query.st == stored.st
            && forall i :: 0 <= i < MaxSignals && i != sig ==>
                 TableAfterInit(query.st)[i] == TableAfterInit(st)[i]
  {
  }

  /** Where the variants part: signal 0 is accepted only by IosAdapter, and
      a rejected number marks the table initialised only in DarwinStubs. */
  lemma SigActionVariantsDiffer(st: State, act: Option<Action>, oact: Option<Action>)
    ensures SigAction(DarwinStubs, st, 0, act, oact).ret == -1
    ensures SigAction(IosAdapter, st, 0, act, oact).ret == 0
    ensures forall sig :: !ValidSignal(DarwinStubs, sig) ==>
              SigAction(DarwinStubs, st, sig, act, oact).st.actionsReady
    ensures forall sig :: !st.actionsReady && !ValidSignal(IosAdapter, sig) ==>
              !SigAction(IosAdapter, st, sig, act, oact).st.actionsReady
  {
  }

  /** Before the table is initialised, every accepted slot reads as a
      zero-filled action. */
  lemma TableZeroOnFirstUse(v: Variant, st: State, sig: int, act: Option<Action>, buf: Action)
    requires !st.actionsReady && ValidSignal(v, sig)
    ensures SigAction(v, st, sig, act, Some(buf)).oact == Some(ZeroAction)
  {
  }

  /** Calls that store an action into slot `sig`. */
  predicate StoresAction(c: Call, sig: int) {
    c.ActionCall? && c.sig == sig && c.act.Some?
  }

  /** A slot no call stores into keeps its contents, as seen through the lazy
      initialisation, across any sequence of calls. */
  lemma {:induction false} UnwrittenSlotKept(v: Variant, st: State, calls: seq<Call>, sig: int)
    requires 0 <= sig < MaxSignals
    requires forall k :: 0 <= k < |calls| ==> !StoresAction(calls[k], sig)
    ensures TableAfterInit(Run(v, st, calls))[sig] == TableAfterInit(st)[sig]
    decreases |calls|
  {
    if |calls| > 0 {
      var c := calls[0];
      assert TableAfterInit(Step(v, st, c))[sig] == TableAfterInit(st)[sig] by {
        if c.ActionCall? && ValidSignal(v, c.sig) && c.act.Some? {
          assert c.sig != sig;
        }
      }
      UnwrittenSlotKept(v, Step(v, st, c), calls[1..], sig);
    }
  }

  /** From loading, a slot no call ever stored into reads as the zero action. */
  lemma UnwrittenSlotReadsZero(v: Variant, calls: seq<Call>, sig: int, buf: Action)
    requires ValidSignal(v, sig)
    requires forall k :: 0 <= k < |calls| ==> !StoresAction(calls[k], sig)
    ensures SigAction(v, Run(v, Loaded(v), calls), sig, None, Some(buf)).oact == Some(ZeroAction)
  {
    UnwrittenSlotKept(v, Loaded(v), calls, sig);
  }

  /** Storing an action ignores, at the OS level, exactly the listed signal
      stored for, and changes no other signal's disposition. */
  lemma StoreIgnoresListedSignal(v: Variant, st: State, sig: int, a: Action, oact: Option<Action>)
    requires ValidSignal(v, sig)
    ensures var r := SigAction(v, st, sig, Some(a), oact);
            (sig in r.st.osIgnored <==> sig in st.osIgnored || sig in IgnoredOnStore(v))
            && forall x :: x != sig ==> (x in r.st.osIgnored <==> x in st.osIgnored)
  {
  }

  // ------------------------------------------------ invariants of any run

  /** Calls never undo an OS-level ignore, and the only ones they add are the
      variant's listed signals, whatever state they start from. */
  lemma {:induction false} CallsOnlyAddListedSignals(v: Variant, st: State, calls: seq<Call>)
    ensures st.osIgnored <= Run(v, st, calls).osIgnored <= st.osIgnored + IgnoredOnStore(v)
    decreases |calls|
  {
    if |calls| > 0 {
      var next := Step(v, st, calls[0]);
      assert st.osIgnored <= next.osIgnored <= st.osIgnored + IgnoredOnStore(v);
      CallsOnlyAddListedSignals(v, next, calls[1..]);
    }
  }

  /** The other load-time hooks (`configureiOSApp`, the Go `init` functions)
      ignore only crash signals. Starting from any such state, calls keep the
      OS-level ignores among the crash signals, in either variant. */
  lemma IgnoresStayAmongCrashSignals(v: Variant, st: State, calls: seq<Call>)
    requires st.osIgnored <= CrashSignals
    ensures Run(v, st, calls).osIgnored <= CrashSignals
  {
    CallsOnlyAddListedSignals(v, st, calls);
  }

  /** What holds of every state reachable from loading: a table or mask not
      yet initialised is still all zero, and only the signals the constructor
      or the variant's store list names are ignored at the OS level. */
  predicate Consistent(v: Variant, st: State) {
    && (!st.actionsReady ==> st.actions == ZeroTable())
    && (!st.maskReady ==> st.mask == {})
    && st.osIgnored <= IgnoredAtLoad(v) + IgnoredOnStore(v)
  }

  lemma StepKeepsConsistent(v: Variant, st: State, c: Call)
    requires Consistent(v, st)
    ensures Consistent(v, Step(v, st, c))
  {
    match c
    case ActionCall(sig, act, oact) =>
      var r := SigAction(v, st, sig, act, oact);
      assert !r.st.actionsReady ==> r.st == st.(errno := EINVAL);
    case _ =>
  }

  lemma {:induction false} RunKeepsConsistent(v: Variant, st: State, calls: seq<Call>)
    requires Consistent(v, st)
    ensures Consistent(v, Run(v, st, calls))
    decreases |calls|
  {
    if |calls| > 0 {
      StepKeepsConsistent(v, st, calls[0]);
      RunKeepsConsistent(v, Step(v, st, calls[0]), calls[1..]);
    }
  }

  /** Every state reachable from loading is consistent. */
  lemma ReachableIsConsistent(v: Variant, calls: seq<Call>)
    ensures Consistent(v, Run(v, Loaded(v), calls))
  {
    assert Consistent(v, Loaded(v));
    RunKeepsConsistent(v, Loaded(v), calls);
  }

  /** After loading and any sequence of calls, the constructor's ignores are
      all still in place and nothing beyond them and the variant's store list
      is ignored. For IosAdapter the two together are the constructor's seven
      signals, so calls change nothing at the OS level. */
  lemma OnlyListedSignalsIgnored(v: Variant, calls: seq<Call>)
    ensures IgnoredAtLoad(v) <= Run(v, Loaded(v), calls).osIgnored <= IgnoredAtLoad(v) + IgnoredOnStore(v)
    ensures v.IosAdapter? ==> Run(v, Loaded(v), calls).osIgnored == IgnoredAtLoad(v)
  {
    CallsOnlyAddListedSignals(v, Loaded(v), calls);
  }
}
