/** Patching the system call table under two locks (A1/interceptor.c:312-353,448-507).

    Any number of threads intercept, release and call system calls in any
    interleaving.  One step is one lock operation or one access to a shared table.
    `my` is my_table_lock, `sys` is sys_call_table_lock. */
module PatchProtocol {
  import opened Options

  /** An entry of the system call table. */
  datatype Handler = Kernel(id: int) | Interceptor

  /** What a thread is about to do for system call `s`.  `Reached` is a call that got
      through to handler `h`. */
  datatype Pc =
    | Idle
    | ILock(s: nat) | ICheck(s: nat) | IBusy(s: nat)
    | ILockSys(s: nat) | ISave(s: nat) | IUnlock(s: nat) | IPatch(s: nat) | IUnlockSys(s: nat)
    | RLock(s: nat) | RCheck(s: nat) | RInvalid(s: nat)
    | RLockSys(s: nat) | RRestore(s: nat) | RUnlock(s: nat) | RUnlockSys(s: nat)
    | CLock(s: nat) | CLook(s: nat) | CCall(s: nat) | Reached(s: nat, h: Handler)

  /** `f` is the saved handler of each system call, `flag` its `intercepted` field. */
  datatype State = State(
    sys: seq<Handler>, f: seq<Option<Handler>>, flag: seq<bool>,
    myOwner: Option<nat>, sysOwner: Option<nat>, threads: seq<Pc>)

  ghost predicate Shaped(st: State) {
    |st.sys| == |st.f| == |st.flag| && forall t | 0 <= t < |st.threads|
      && !st.threads[t].Idle? :: st.threads[t].s < |st.sys|
  }

  function Goto(st: State, t: nat, pc: Pc): State
    requires t < |st.threads|
  {
    st.(threads := st.threads[t := pc])
  }

  /** What a thread that is doing nothing may start with system call `s`.  A call goes
      through the system call table without any lock. */
  ghost predicate Begins(st: State, st': State, t: nat, s: nat)
    requires t < |st.threads| && s < |st.sys|
  {
    || st' == Goto(st, t, ILock(s))
    || st' == Goto(st, t, RLock(s))
    || st' == Goto(st, t, if st.sys[s].Interceptor? then CLock(s) else Reached(s, st.sys[s]))
  }

  /** A spinning thread moves once the lock is free. */
  predicate CanMove(st: State, t: nat)
    requires t < |st.threads|
  {
    match st.threads[t]
    case Idle => false
    case ILock(_) => st.myOwner.None?
    case RLock(_) => st.myOwner.None?
    case CLock(_) => st.myOwner.None?
    case ILockSys(_) => st.sysOwner.None?
    case RLockSys(_) => st.sysOwner.None?
    case CCall(s) => s < |st.f| && st.f[s].Some?
    case _ => true
  }

  function Move(st: State, t: nat): State
    requires Shaped(st) && t < |st.threads| && CanMove(st, t)
  {
    match st.threads[t]
    // intercept
    case ILock(s) => Goto(st, t, ICheck(s)).(myOwner := Some(t))
    case ICheck(s) =>
      if st.flag[s] then Goto(st, t, IBusy(s)) else Goto(st, t, ILockSys(s)).(flag := st.flag[s := true])
    case IBusy(_) => Goto(st, t, Idle).(myOwner := None)
    case ILockSys(s) => Goto(st, t, ISave(s)).(sysOwner := Some(t))
    case ISave(s) => Goto(st, t, IUnlock(s)).(f := st.f[s := Some(st.sys[s])])
    case IUnlock(s) => Goto(st, t, IPatch(s)).(myOwner := None)
    case IPatch(s) => Goto(st, t, IUnlockSys(s)).(sys := st.sys[s := Interceptor])
    case IUnlockSys(_) => Goto(st, t, Idle).(sysOwner := None)
    // release
    case RLock(s) => Goto(st, t, RCheck(s)).(myOwner := Some(t))
    case RCheck(s) =>
      if st.flag[s] then Goto(st, t, RLockSys(s)).(flag := st.flag[s := false]) else Goto(st, t, RInvalid(s))
    case RInvalid(_) => Goto(st, t, Idle).(myOwner := None)
    case RLockSys(s) => Goto(st, t, RRestore(s)).(sysOwner := Some(t))
    case RRestore(s) =>
      Goto(st, t, RUnlock(s)).(sys := st.sys[s := if st.f[s].Some? then st.f[s].value else st.sys[s]])
    case RUnlock(s) => Goto(st, t, RUnlockSys(s)).(myOwner := None)
    case RUnlockSys(_) => Goto(st, t, Idle).(sysOwner := None)
    // an intercepted call
    case CLock(s) => Goto(st, t, CLook(s)).(myOwner := Some(t))
    case CLook(s) => Goto(st, t, CCall(s)).(myOwner := None)
    case CCall(s) => Goto(st, t, Reached(s, st.f[s].value))
    case Reached(_, _) => Goto(st, t, Idle)
  }

  ghost predicate Step(st: State, st': State, t: nat)
    requires Shaped(st)
  {
    && t < |st.threads|
    && ((st.threads[t].Idle? && exists s: nat :: s < |st.sys| && Begins(st, st', t, s))
        || (CanMove(st, t) && st' == Move(st, t)))
  }

  // ----- the invariant

  predicate HoldsMy(pc: Pc) {
    || pc.ICheck? || pc.IBusy? || pc.ILockSys? || pc.ISave? || pc.IUnlock?
    || pc.RCheck? || pc.RInvalid? || pc.RLockSys? || pc.RRestore? || pc.RUnlock?
    || pc.CLook?
  }

  predicate HoldsSys(pc: Pc) {
    || pc.ISave? || pc.IUnlock? || pc.IPatch? || pc.IUnlockSys?
    || pc.RRestore? || pc.RUnlock? || pc.RUnlockSys?
  }

  /** Each lock is held by exactly its owner. */
  ghost predicate LocksOk(st: State) {
    && (forall t: nat | t < |st.threads| :: HoldsMy(st.threads[t]) <==> st.myOwner == Some(t))
    && (forall t: nat | t < |st.threads| :: HoldsSys(st.threads[t]) <==> st.sysOwner == Some(t))
    && (st.myOwner.Some? ==> st.myOwner.value < |st.threads|)
    && (st.sysOwner.Some? ==> st.sysOwner.value < |st.threads|)
  }

  /** Where the owner of `my`, or of `sys`, is. */
  function MyPc(st: State): Option<Pc> {
    if st.myOwner.Some? && st.myOwner.value < |st.threads| then Some(st.threads[st.myOwner.value]) else None
  }

  function SysPc(st: State): Option<Pc> {
    if st.sysOwner.Some? && st.sysOwner.value < |st.threads| then Some(st.threads[st.sysOwner.value]) else None
  }

  predicate MyAt(st: State, pc: Pc) {
    MyPc(st) == Some(pc)
  }

  predicate SysAt(st: State, pc: Pc) {
    SysPc(st) == Some(pc)
  }

  /** What holds of system call `s`, whose handler was `h` before interception.  The
      flag and the table disagree only while a thread is between changing the one
      and the other. */
  ghost predicate CallOk(st: State, s: nat, h: Handler)
    requires Shaped(st) && s < |st.sys|
  {
    var patched, flag, saved := st.sys[s] == Interceptor, st.flag[s], st.f[s] == Some(h);
    && h != Interceptor && (patched || st.sys[s] == h)
    && (st.f[s].Some? ==> saved) && (patched ==> saved)
    && (flag ==> saved || MyAt(st, ILockSys(s)) || SysAt(st, ISave(s)))
    && (flag && !patched ==>
          MyAt(st, ILockSys(s)) || SysAt(st, ISave(s)) || SysAt(st, IUnlock(s)) || SysAt(st, IPatch(s)))
    && (!flag && patched ==> MyAt(st, RLockSys(s)) || SysAt(st, RRestore(s)))
    && (MyAt(st, ILockSys(s)) || SysAt(st, ISave(s)) ==> flag && !patched)
    && (SysAt(st, IUnlock(s)) ==> flag && !patched && saved)
    && (SysAt(st, IPatch(s)) ==> !patched && saved && (flag || MyAt(st, RLockSys(s))) && !MyAt(st, ILockSys(s)))
    && (MyAt(st, RLockSys(s)) || SysAt(st, RRestore(s)) ==> !flag && saved && (patched || SysAt(st, IPatch(s))))
  }

  /** A thread in an intercepted call will find the saved handler. */
  ghost predicate CallerOk(st: State, pc: Pc, orig: seq<Handler>)
    requires Shaped(st) && |orig| == |st.sys| && (!pc.Idle? ==> pc.s < |st.sys|)
  {
    && (pc.CLock? || pc.CLook? || pc.CCall? ==> st.f[pc.s] == Some(orig[pc.s]))
    && (pc.Reached? ==> pc.h == orig[pc.s])
  }

  /** `orig` is the table before the module intercepted anything. */
  ghost predicate Inv(st: State, orig: seq<Handler>) {
    && Shaped(st) && |orig| == |st.sys|
    && LocksOk(st)
    && (forall s: nat | s < |st.sys| :: CallOk(st, s, orig[s]))
    && (forall t: nat | t < |st.threads| :: CallerOk(st, st.threads[t], orig))
  }

  ghost predicate Start(st: State, orig: seq<Handler>) {
    && |st.sys| == |st.f| == |st.flag| == |orig| && st.sys == orig
    && (forall s: nat | s < |orig| :: orig[s] != Interceptor && !st.flag[s] && st.f[s].None?)
    && st.myOwner.None? && st.sysOwner.None?
    && forall t: nat | t < |st.threads| :: st.threads[t].Idle?
  }

  lemma StartInv(st: State, orig: seq<Handler>)
    requires Start(st, orig)
    ensures Inv(st, orig)
  {
  }

  // ----- what a step does to the locks

  /** From `st` to `st'` thread `t` alone went on, and took or gave up the locks as its
      new place says. */
  ghost predicate GoesOn(st: State, st': State, t: nat) {
    && t < |st.threads| == |st'.threads|
    && (forall u: nat | u < |st.threads| && u != t :: st'.threads[u] == st.threads[u])
    && var pc, pc' := st.threads[t], st'.threads[t];
       && (HoldsMy(pc') ==> st'.myOwner == Some(t) && (HoldsMy(pc) || st.myOwner.None?))
       && (!HoldsMy(pc') ==> st'.myOwner == if HoldsMy(pc) then None else st.myOwner)
       && (HoldsSys(pc') ==> st'.sysOwner == Some(t) && (HoldsSys(pc) || st.sysOwner.None?))
       && (!HoldsSys(pc') ==> st'.sysOwner == if HoldsSys(pc) then None else st.sysOwner)
  }

  lemma OwnsHeld(st: State, t: nat)
    requires LocksOk(st) && t < |st.threads|
    ensures HoldsMy(st.threads[t]) <==> st.myOwner == Some(t)
    ensures HoldsSys(st.threads[t]) <==> st.sysOwner == Some(t)
  {
  }

  lemma MoveGoesOn(st: State, t: nat)
    requires Shaped(st) && LocksOk(st) && t < |st.threads| && CanMove(st, t)
    ensures GoesOn(st, Move(st, t), t)
  {
    hide LocksOk;
    OwnsHeld(st, t);
  }

  lemma LocksKept(st: State, st': State, t: nat)
    requires LocksOk(st) && GoesOn(st, st', t)
    ensures LocksOk(st')
  {
  }

  /** Where the owners of the locks are afterwards. */
  lemma OwnersAfter(st: State, st': State, t: nat)
    requires LocksOk(st) && GoesOn(st, st', t)
    ensures var pc, pc' := st.threads[t], st'.threads[t];
            && MyPc(st') == (if HoldsMy(pc') then Some(pc') else if HoldsMy(pc) then None else MyPc(st))
            && SysPc(st') == (if HoldsSys(pc') then Some(pc') else if HoldsSys(pc) then None else SysPc(st))
            && (HoldsMy(pc) ==> MyPc(st) == Some(pc)) && (HoldsSys(pc) ==> SysPc(st) == Some(pc))
            && (HoldsMy(pc') && !HoldsMy(pc) ==> MyPc(st) == None)
            && (HoldsSys(pc') && !HoldsSys(pc) ==> SysPc(st) == None)
  {
    OwnsHeld(st, t);
  }

  /** A thread that holds both locks owns both. */
  lemma OwnersApart(st: State)
    requires LocksOk(st)
    ensures MyPc(st).Some? ==> HoldsMy(MyPc(st).value) && (HoldsSys(MyPc(st).value) ==> SysPc(st) == MyPc(st))
    ensures SysPc(st).Some? ==> HoldsSys(SysPc(st).value) && (HoldsMy(SysPc(st).value) ==> MyPc(st) == SysPc(st))
  {
  }

  lemma MoveShaped(st: State, t: nat)
    requires Shaped(st) && t < |st.threads| && CanMove(st, t)
    ensures Shaped(Move(st, t)) && |Move(st, t).sys| == |st.sys| && |Move(st, t).threads| == |st.threads|
  {
  }

  lemma MoveLocks(st: State, t: nat)
    requires Shaped(st) && LocksOk(st) && t < |st.threads| && CanMove(st, t)
    ensures LocksOk(Move(st, t)) && Shaped(Move(st, t))
    ensures |Move(st, t).sys| == |st.sys| && |Move(st, t).threads| == |st.threads|
  {
    hide LocksOk, Shaped, Move;
    MoveGoesOn(st, t);
    LocksKept(st, Move(st, t), t);
    MoveShaped(st, t);
  }

  // ----- what a step does to a system call

  predicate Intercepting(pc: Pc) {
    pc.ILock? || pc.ICheck? || pc.IBusy? || pc.ILockSys? || pc.ISave? || pc.IUnlock? || pc.IPatch? || pc.IUnlockSys?
  }

  predicate Releasing(pc: Pc) {
    pc.RLock? || pc.RCheck? || pc.RInvalid? || pc.RLockSys? || pc.RRestore? || pc.RUnlock? || pc.RUnlockSys?
  }

  lemma InterceptCall(st: State, t: nat, s: nat, h: Handler)
    requires Shaped(st) && LocksOk(st) && t < |st.threads| && CanMove(st, t)
    requires s < |st.sys| && CallOk(st, s, h)
    requires Intercepting(st.threads[t]) && st.threads[t].s == s
    ensures Shaped(Move(st, t)) && s < |Move(st, t).sys| && CallOk(Move(st, t), s, h)
  {
    MoveShaped(st, t);
    MoveGoesOn(st, t);
    OwnersAfter(st, Move(st, t), t);
    OwnersApart(st);
    hide LocksOk, GoesOn, Shaped, MyPc, SysPc;
  }

  lemma ReleaseCall(st: State, t: nat, s: nat, h: Handler)
    requires Shaped(st) && LocksOk(st) && t < |st.threads| && CanMove(st, t)
    requires s < |st.sys| && CallOk(st, s, h)
    requires Releasing(st.threads[t]) && st.threads[t].s == s
    ensures Shaped(Move(st, t)) && s < |Move(st, t).sys| && CallOk(Move(st, t), s, h)
  {
    MoveShaped(st, t);
    MoveGoesOn(st, t);
    OwnersAfter(st, Move(st, t), t);
    OwnersApart(st);
    hide LocksOk, GoesOn, Shaped, MyPc, SysPc;
  }

  lemma OtherTable(st: State, t: nat, s: nat)
    requires Shaped(st) && t < |st.threads| && CanMove(st, t) && s < |st.sys|
    requires (Intercepting(st.threads[t]) || Releasing(st.threads[t])) ==> st.threads[t].s != s
    ensures |Move(st, t).sys| == |Move(st, t).flag| == |Move(st, t).f| == |st.sys|
    ensures Move(st, t).sys[s] == st.sys[s] && Move(st, t).flag[s] == st.flag[s] && Move(st, t).f[s] == st.f[s]
  {
  }

  /** Places that matter to system call `s`. */
  predicate Concerns(pc: Pc, s: nat) {
    (Intercepting(pc) || Releasing(pc)) && pc.s == s
  }

  lemma StaysElsewhere(st: State, t: nat, s: nat)
    requires Shaped(st) && t < |st.threads| && CanMove(st, t) && !Concerns(st.threads[t], s)
    ensures t < |Move(st, t).threads| && !Concerns(Move(st, t).threads[t], s)
  {
  }

  lemma OwnersElsewhere(st: State, t: nat, s: nat, pc: Pc)
    requires Shaped(st) && LocksOk(st) && t < |st.threads| && CanMove(st, t) && !Concerns(st.threads[t], s)
    requires Concerns(pc, s)
    ensures MyAt(Move(st, t), pc) == MyAt(st, pc) && SysAt(Move(st, t), pc) == SysAt(st, pc)
  {
    MoveGoesOn(st, t);
    OwnersAfter(st, Move(st, t), t);
    StaysElsewhere(st, t, s);
    hide LocksOk, GoesOn, Shaped, Move, MyPc, SysPc, Concerns;
  }

  /** A call changes no table, and a step for another system call not this one's. */
  lemma OtherCall(st: State, t: nat, s: nat, h: Handler)
    requires Shaped(st) && LocksOk(st) && t < |st.threads| && CanMove(st, t) && !Concerns(st.threads[t], s)
    requires s < |st.sys| && CallOk(st, s, h)
    ensures Shaped(Move(st, t)) && s < |Move(st, t).sys| && CallOk(Move(st, t), s, h)
  {
    MoveShaped(st, t);
    OtherTable(st, t, s);
    OwnersElsewhere(st, t, s, ILockSys(s));
    OwnersElsewhere(st, t, s, ISave(s));
    OwnersElsewhere(st, t, s, IUnlock(s));
    OwnersElsewhere(st, t, s, IPatch(s));
    OwnersElsewhere(st, t, s, RLockSys(s));
    OwnersElsewhere(st, t, s, RRestore(s));
    hide LocksOk, Shaped, Move, MyAt, SysAt;
  }

  lemma MoveCall(st: State, t: nat, s: nat, h: Handler)
    requires Shaped(st) && LocksOk(st) && t < |st.threads| && CanMove(st, t)
    requires s < |st.sys| && CallOk(st, s, h)
    ensures Shaped(Move(st, t)) && s < |Move(st, t).sys| && CallOk(Move(st, t), s, h)
  {
    var pc := st.threads[t];
    if Intercepting(pc) && pc.s == s {
      InterceptCall(st, t, s, h);
    } else if Releasing(pc) && pc.s == s {
      ReleaseCall(st, t, s, h);
    } else {
      OtherCall(st, t, s, h);
    }
  }

  /** A saved handler is only ever overwritten with the same one. */
  lemma SavedStays(st: State, t: nat, s: nat, h: Handler)
    requires Shaped(st) && LocksOk(st) && t < |st.threads| && CanMove(st, t)
    requires s < |st.sys| && CallOk(st, s, h) && st.f[s] == Some(h)
    ensures |Move(st, t).f| == |st.f| && Move(st, t).f[s] == Some(h)
  {
  }

  lemma OthersStay(st: State, t: nat, u: nat)
    requires Shaped(st) && t < |st.threads| && CanMove(st, t) && u < |st.threads| && u != t
    ensures |Move(st, t).threads| == |st.threads| && Move(st, t).threads[u] == st.threads[u]
  {
  }

  lemma MoveOther(st: State, t: nat, pc: Pc, orig: seq<Handler>)
    requires Shaped(st) && LocksOk(st) && |orig| == |st.sys| && t < |st.threads| && CanMove(st, t)
    requires !pc.Idle? ==> pc.s < |st.sys| && CallOk(st, pc.s, orig[pc.s])
    requires CallerOk(st, pc, orig) && Shaped(Move(st, t)) && |Move(st, t).sys| == |st.sys|
    ensures CallerOk(Move(st, t), pc, orig)
  {
    if !pc.Idle? && st.f[pc.s] == Some(orig[pc.s]) {
      SavedStays(st, t, pc.s, orig[pc.s]);
    }
  }

  lemma MoveOwn(st: State, t: nat, orig: seq<Handler>)
    requires Shaped(st) && LocksOk(st) && |orig| == |st.sys| && t < |st.threads| && CanMove(st, t)
    requires var pc := st.threads[t]; !pc.Idle? ==> pc.s < |st.sys| && CallOk(st, pc.s, orig[pc.s])
    requires CallerOk(st, st.threads[t], orig) && Shaped(Move(st, t)) && |Move(st, t).sys| == |st.sys|
    requires |Move(st, t).threads| == |st.threads|
    ensures CallerOk(Move(st, t), Move(st, t).threads[t], orig)
  {
    OwnersApart(st);
    OwnsHeld(st, t);
    hide LocksOk;
  }

  lemma MoveCaller(st: State, t: nat, u: nat, orig: seq<Handler>)
    requires Inv(st, orig) && t < |st.threads| && CanMove(st, t) && u < |st.threads|
    requires Shaped(Move(st, t)) && |Move(st, t).sys| == |st.sys| && |Move(st, t).threads| == |st.threads|
    ensures CallerOk(Move(st, t), Move(st, t).threads[u], orig)
  {
    var pc := st.threads[u];
    assert CallerOk(st, pc, orig);
    assert !pc.Idle? ==> CallOk(st, pc.s, orig[pc.s]);
    if u == t {
      MoveOwn(st, t, orig);
    } else {
      OthersStay(st, t, u);
      MoveOther(st, t, pc, orig);
    }
  }

  /** A thread that begins something owns no lock and changes no table. */
  lemma BeginCall(st: State, pc: Pc, t: nat, s: nat, h: Handler)
    requires Shaped(st) && LocksOk(st) && t < |st.threads| && st.threads[t].Idle? && !HoldsMy(pc) && !HoldsSys(pc)
    requires !pc.Idle? ==> pc.s < |st.sys|
    requires s < |st.sys| && CallOk(st, s, h)
    ensures Shaped(Goto(st, t, pc)) && CallOk(Goto(st, t, pc), s, h)
  {
    var st' := Goto(st, t, pc);
    BeginGoesOn(st, pc, t);
    OwnersAfter(st, st', t);
    assert Shaped(st');
    hide LocksOk, GoesOn, MyPc, SysPc;
  }

  lemma BeginGoesOn(st: State, pc: Pc, t: nat)
    requires LocksOk(st) && t < |st.threads| && st.threads[t].Idle? && !HoldsMy(pc) && !HoldsSys(pc)
    ensures GoesOn(st, Goto(st, t, pc), t)
  {
  }

  lemma BeginAt(st: State, pc: Pc, t: nat, orig: seq<Handler>)
    requires Inv(st, orig) && t < |st.threads| && st.threads[t].Idle? && !HoldsMy(pc) && !HoldsSys(pc)
    requires (!pc.Idle? ==> pc.s < |st.sys|) && CallerOk(st, pc, orig)
    ensures Inv(Goto(st, t, pc), orig)
  {
    forall r: nat | r < |st.sys|
      ensures Shaped(Goto(st, t, pc)) && CallOk(Goto(st, t, pc), r, orig[r])
    {
      BeginCall(st, pc, t, r, orig[r]);
    }
  }

  lemma BeginKeeps(st: State, st': State, t: nat, s: nat, orig: seq<Handler>)
    requires Inv(st, orig) && t < |st.threads| && st.threads[t].Idle? && s < |st.sys| && Begins(st, st', t, s)
    ensures Inv(st', orig)
  {
    assert CallOk(st, s, orig[s]);
    BeginAt(st, st'.threads[t], t, orig);
    assert st' == Goto(st, t, st'.threads[t]);
  }

  lemma MoveKeeps(st: State, t: nat, orig: seq<Handler>)
    requires Inv(st, orig) && t < |st.threads| && CanMove(st, t)
    ensures Inv(Move(st, t), orig)
  {
    MoveLocks(st, t);
    forall s: nat | s < |st.sys|
      ensures CallOk(Move(st, t), s, orig[s])
    {
      MoveCall(st, t, s, orig[s]);
    }
    forall u: nat | u < |st.threads|
      ensures CallerOk(Move(st, t), Move(st, t).threads[u], orig)
    {
      MoveCaller(st, t, u, orig);
    }
  }

  /** Every step keeps the invariant. */
  lemma StepKeeps(st: State, st': State, t: nat, orig: seq<Handler>)
    requires Inv(st, orig) && Step(st, st', t)
    ensures Inv(st', orig)
  {
    if CanMove(st, t) && st' == Move(st, t) {
      MoveKeeps(st, t, orig);
    } else {
      var s: nat :| s < |st.sys| && Begins(st, st', t, s);
      BeginKeeps(st, st', t, s, orig);
    }
  }

  ghost predicate Run(states: seq<State>, moves: seq<nat>, orig: seq<Handler>) {
    && |states| == |moves| + 1 && Start(states[0], orig)
    && forall i | 0 <= i < |moves| :: Shaped(states[i]) && Step(states[i], states[i + 1], moves[i])
  }

  /** Every state of every run, of any number of threads, has the invariant. */
  lemma {:induction false} Reachable(states: seq<State>, moves: seq<nat>, orig: seq<Handler>, i: nat)
    requires Run(states, moves, orig) && i < |states|
    ensures Inv(states[i], orig)
  {
    hide Inv, Start, Step;
    if i == 0 {
      StartInv(states[0], orig);
    } else {
      Reachable(states, moves, orig, i - 1);
      StepKeeps(states[i - 1], states[i], moves[i - 1], orig);
    }
  }

  // ----- what it means

  /** Every call reaches the handler that was there before interception. */
  lemma CallsReachOriginal(st: State, orig: seq<Handler>, t: nat)
    requires Inv(st, orig) && t < |st.threads| && st.threads[t].Reached?
    ensures st.threads[t].h == orig[st.threads[t].s]
  {
    assert CallerOk(st, st.threads[t], orig);
  }

  /** The saved handler, once there is one, is the original and so never the
      interceptor itself; there is one whenever the interceptor is installed. */
  lemma SavedIsOriginal(st: State, orig: seq<Handler>, s: nat)
    requires Inv(st, orig) && s < |st.sys|
    ensures st.f[s].Some? ==> st.f[s].value == orig[s] && orig[s] != Interceptor
    ensures st.sys[s] == Interceptor ==> st.f[s].Some?
  {
    assert CallOk(st, s, orig[s]);
  }

  /** With both locks free, an entry is the interceptor exactly when it is marked. */
  lemma QuietMeansAgreed(st: State, orig: seq<Handler>, s: nat)
    requires Inv(st, orig) && s < |st.sys| && st.myOwner.None? && st.sysOwner.None?
    ensures st.sys[s] == (if st.flag[s] then Interceptor else orig[s])
  {
    assert CallOk(st, s, orig[s]);
  }

  /** The locks never deadlock: if some thread is not idle, one of those can move. */
  lemma SomeoneMoves(st: State, orig: seq<Handler>, t: nat) returns (u: nat)
    requires Inv(st, orig) && t < |st.threads| && !st.threads[t].Idle?
    ensures u < |st.threads| && !st.threads[u].Idle? && CanMove(st, u)
  {
    if st.sysOwner.Some? {
      u := st.sysOwner.value;
      assert HoldsSys(st.threads[u]);
    } else if st.myOwner.Some? {
      u := st.myOwner.value;
      assert HoldsMy(st.threads[u]);
    } else {
      u := t;
      assert CallerOk(st, st.threads[t], orig);
    }
  }
}
