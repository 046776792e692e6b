/** What becomes of the requests of PatchProtocol (A1/interceptor.c:312-353,448-507):
    which are granted, what they do to the table, and that every call gets through. */
module PatchRequests {
  import opened Options
  import opened PatchProtocol

  // ----- one step

  /** Checking an intercept request: it is refused exactly when the flag is set, and the
      flag is set afterwards in any case. */
  lemma InterceptCheck(st: State, st': State, t: nat, s: nat)
    requires Shaped(st) && Step(st, st', t) && st.threads[t] == ICheck(s)
    ensures |st'.threads| == |st.threads| && st'.threads[t] == if st.flag[s] then IBusy(s) else ILockSys(s)
    ensures st'.flag == st.flag[s := true] && st'.sys == st.sys && st'.f == st.f
  {
  }

  /** Checking a release request: refused exactly when the flag is clear. */
  lemma ReleaseCheck(st: State, st': State, t: nat, s: nat)
    requires Shaped(st) && Step(st, st', t) && st.threads[t] == RCheck(s)
    ensures |st'.threads| == |st.threads| && st'.threads[t] == if st.flag[s] then RLockSys(s) else RInvalid(s)
    ensures st'.flag == st.flag[s := false] && st'.sys == st.sys && st'.f == st.f
  {
  }

  /** An idle thread can ask to intercept, ask to release, and call; and nothing else. */
  lemma IdleBegins(st: State, t: nat, s: nat)
    requires Shaped(st) && t < |st.threads| && st.threads[t].Idle? && s < |st.sys|
    ensures Step(st, st.(threads := st.threads[t := ILock(s)]), t)
    ensures Step(st, st.(threads := st.threads[t := RLock(s)]), t)
    ensures var call := if st.sys[s] == Interceptor then CLock(s) else Reached(s, st.sys[s]);
            Step(st, st.(threads := st.threads[t := call]), t)
    ensures forall st' | Step(st, st', t) ::
              && |st'.threads| == |st.threads|
              && (st'.threads[t].ILock? || st'.threads[t].RLock? || st'.threads[t].CLock? || st'.threads[t].Reached?)
  {
    assert Begins(st, Goto(st, t, ILock(s)), t, s);
    assert Begins(st, Goto(st, t, RLock(s)), t, s);
    assert Begins(st, Goto(st, t, if st.sys[s].Interceptor? then CLock(s) else Reached(s, st.sys[s])), t, s);
  }

  // ----- the flag and the table, over any run

  /** At this place a thread checks, and changes, the flag of `s`. */
  predicate Checks(pc: Pc, s: nat) {
    pc == ICheck(s) || pc == RCheck(s)
  }

  lemma FlagStep(st: State, st': State, t: nat, s: nat)
    requires Shaped(st) && Step(st, st', t) && s < |st.sys|
    ensures |st'.flag| == |st.flag| && t < |st.threads|
    ensures st'.flag[s] == if st.threads[t] == ICheck(s) then true else st.flag[s] && st.threads[t] != RCheck(s)
  {
  }

  lemma RunShaped(states: seq<State>, moves: seq<nat>, orig: seq<Handler>, i: nat)
    requires Run(states, moves, orig) && i < |states|
    ensures |states| == |moves| + 1
    ensures Shaped(states[i]) && |states[i].sys| == |orig| && |states[i].flag| == |orig| && |states[i].f| == |orig|
    ensures i < |moves| ==> Step(states[i], states[i + 1], moves[i]) && moves[i] < |states[i].threads|
  {
    Reachable(states, moves, orig, i);
  }

  /** Step `i` of the run checks the flag of `s`. */
  ghost predicate CheckAt(states: seq<State>, moves: seq<nat>, i: nat, s: nat)
    requires i < |moves| && i < |states|
  {
    moves[i] < |states[i].threads| && Checks(states[i].threads[moves[i]], s)
  }

  /** `k` is the last of the first `n` steps that checks the flag of `s`, or -1. */
  ghost predicate LastCheck(states: seq<State>, moves: seq<nat>, n: nat, s: nat, k: int)
    requires n <= |moves| < |states|
  {
    && -1 <= k < n && (k >= 0 ==> CheckAt(states, moves, k, s))
    && forall i: nat | k < i < n :: !CheckAt(states, moves, i, s)
  }

  /** The flag is set exactly when the last request checked was one to intercept. */
  lemma {:induction false} FlagHistory(states: seq<State>, moves: seq<nat>, orig: seq<Handler>, n: nat, s: nat, k: int)
    requires Run(states, moves, orig) && n <= |moves| < |states| && s < |orig| && LastCheck(states, moves, n, s, k)
    ensures |states[n].flag| == |orig|
    ensures states[n].flag[s] <==> k >= 0 && states[k].threads[moves[k]] == ICheck(s)
  {
    hide Step, Shaped, Run;
    RunShaped(states, moves, orig, n);
    if n == 0 {
      StartFlags(states, moves, orig, s);
    } else {
      RunShaped(states, moves, orig, n - 1);
      FlagStep(states[n - 1], states[n], moves[n - 1], s);
      assert CheckAt(states, moves, n - 1, s) ==> k == n - 1;
      if k < n - 1 {
        FlagHistory(states, moves, orig, n - 1, s, k);
      }
    }
  }

  lemma StartFlags(states: seq<State>, moves: seq<nat>, orig: seq<Handler>, s: nat)
    requires Run(states, moves, orig) && s < |orig|
    ensures |states[0].flag| == |orig| && !states[0].flag[s]
  {
  }

  /** With both locks free, the table has the interceptor exactly where the last request
      checked was one to intercept, and the original handler everywhere else. */
  lemma TableHistory(states: seq<State>, moves: seq<nat>, orig: seq<Handler>, n: nat, s: nat, k: int)
    requires Run(states, moves, orig) && n <= |moves| && s < |orig| && LastCheck(states, moves, n, s, k)
    requires states[n].myOwner.None? && states[n].sysOwner.None?
    ensures |states[n].sys| == |orig|
    ensures states[n].sys[s]
         == if k >= 0 && states[k].threads[moves[k]] == ICheck(s) then Interceptor else orig[s]
  {
    Reachable(states, moves, orig, n);
    RunShaped(states, moves, orig, n);
    FlagHistory(states, moves, orig, n, s, k);
    QuietMeansAgreed(states[n], orig, s);
  }

  // ----- from the start of a request to its end, whatever other threads do

  ghost predicate SameTables(st: State, st': State) {
    st'.sys == st.sys && st'.f == st.f && st'.flag == st.flag
  }

  /** Thread `t` is not idle in any of the states `i` to `j`. */
  ghost predicate Busy(states: seq<State>, t: nat, i: nat, j: nat) {
    i <= j < |states| && forall k: nat | i <= k <= j :: t < |states[k].threads| && !states[k].threads[t].Idle?
  }

  /** Step `k`, between states `i` and `j`, is the one thread `t` takes from place `pc`. */
  ghost predicate StepFrom(states: seq<State>, moves: seq<nat>, t: nat, i: nat, j: nat, k: nat, pc: Pc)
    requires j <= |moves| < |states|
  {
    i <= k < j && moves[k] == t && t < |states[k].threads| && states[k].threads[t] == pc
  }

  /** Steps of thread `t` between states `i` and `j` change neither table nor flags. */
  ghost predicate Harmless(states: seq<State>, moves: seq<nat>, t: nat, i: nat, j: nat)
    requires j <= |moves| < |states|
  {
    forall k: nat | i <= k < j && moves[k] == t :: SameTables(states[k], states[k + 1])
  }

  lemma HarmlessNext(states: seq<State>, moves: seq<nat>, t: nat, i: nat, j: nat)
    requires 0 < j <= |moves| < |states| && Harmless(states, moves, t, i, j - 1)
    requires moves[j - 1] == t ==> SameTables(states[j - 1], states[j])
    ensures Harmless(states, moves, t, i, j)
  {
  }

  /** The way of an intercept request: what a step of thread `u` does to thread `t`. */
  lemma InterceptWay(st: State, st': State, u: nat, t: nat, s: nat)
    requires Shaped(st) && Step(st, st', u) && t < |st.threads|
    requires Intercepting(st.threads[t]) && st.threads[t].s == s
    ensures |st'.threads| == |st.threads| && s < |st.flag|
    ensures u != t ==> st'.threads[t] == st.threads[t]
    ensures u == t ==> st'.threads[t] == match st.threads[t]
                                         case ILock(_) => ICheck(s)
                                         case ICheck(_) => if st.flag[s] then IBusy(s) else ILockSys(s)
                                         case ILockSys(_) => ISave(s)
                                         case ISave(_) => IUnlock(s)
                                         case IUnlock(_) => IPatch(s)
                                         case IPatch(_) => IUnlockSys(s)
                                         case _ => Idle
    ensures u == t && (st.threads[t].ILock? || st.threads[t].IBusy? || (st.threads[t].ICheck? && st.flag[s])) ==>
              SameTables(st, st')
    ensures u == t && st.threads[t].IPatch? ==> st'.sys == st.sys[s := Interceptor] && st'.f == st.f
  {
  }

  /** When the request passed its check and wrote the table, if it has by state `j`. */
  lemma {:induction false} InterceptTrail(states: seq<State>, moves: seq<nat>, orig: seq<Handler>, t: nat, s: nat,
                                          i: nat, j: nat) returns (check: nat, patch: nat)
    requires Run(states, moves, orig) && Busy(states, t, i, j) && states[i].threads[t] == ILock(s) && s < |orig|
    ensures |states| == |moves| + 1
    ensures Intercepting(states[j].threads[t]) && states[j].threads[t].s == s
    ensures !states[j].threads[t].ILock? && !states[j].threads[t].ICheck? ==>
              && StepFrom(states, moves, t, i, j, check, ICheck(s))
              && s < |states[check].flag| && (states[check].flag[s] <==> states[j].threads[t].IBusy?)
    ensures states[j].threads[t].IUnlockSys? ==>
              StepFrom(states, moves, t, check + 1, j, patch, IPatch(s))
    decreases j
  {
    hide Step, Shaped, Run, SameTables;
    check, patch := 0, 0;
    RunShaped(states, moves, orig, j);
    if i < j {
      check, patch := InterceptTrail(states, moves, orig, t, s, i, j - 1);
      RunShaped(states, moves, orig, j - 1);
      InterceptWay(states[j - 1], states[j], moves[j - 1], t, s);
      if moves[j - 1] == t && states[j - 1].threads[t].ICheck? {
        check := j - 1;
      } else if moves[j - 1] == t && states[j - 1].threads[t].IPatch? {
        patch := j - 1;
      }
    }
  }

  /** Up to its check, and if it is refused, the request changes nothing. */
  lemma {:induction false} InterceptHarmless(states: seq<State>, moves: seq<nat>, orig: seq<Handler>, t: nat, s: nat,
                                             i: nat, j: nat)
    requires Run(states, moves, orig) && Busy(states, t, i, j) && states[i].threads[t] == ILock(s) && s < |orig|
    requires var pc := states[j].threads[t]; pc == ILock(s) || pc == ICheck(s) || pc == IBusy(s)
    ensures |states| == |moves| + 1 && Harmless(states, moves, t, i, j)
    decreases j
  {
    hide Step, Shaped, Run, SameTables;
    RunShaped(states, moves, orig, j);
    if i < j {
      RunShaped(states, moves, orig, j - 1);
      var check, patch := InterceptTrail(states, moves, orig, t, s, i, j - 1);
      InterceptWay(states[j - 1], states[j], moves[j - 1], t, s);
      InterceptHarmless(states, moves, orig, t, s, i, j - 1);
    }
  }

  /** From its start to its end, an intercept request checks the flag once.  If it was set
      the request is refused and changes nothing; if not, the request sets it and later
      writes the interceptor to the table, when the original handler is saved. */
  lemma InterceptDone(states: seq<State>, moves: seq<nat>, orig: seq<Handler>, t: nat, s: nat, i: nat, j: nat)
    returns (check: nat, patch: nat)
    requires Run(states, moves, orig) && i < j < |states| && Busy(states, t, i, j - 1) && s < |orig|
    requires states[i].threads[t] == ILock(s) && t < |states[j].threads| && states[j].threads[t].Idle?
    ensures i <= check < j && moves[check] == t && states[check].threads[t] == ICheck(s)
    ensures s < |states[check].flag| && s < |states[check + 1].flag| && states[check + 1].flag[s]
    ensures states[check].flag[s] ==> Harmless(states, moves, t, i, j)
    ensures !states[check].flag[s] ==>
              && check < patch < j && moves[patch] == t
              && |states[patch + 1].sys| == |states[patch + 1].f| == |orig|
              && states[patch + 1].sys[s] == Interceptor && states[patch + 1].f[s] == Some(orig[s])
  {
    hide Step, Shaped, Run, Inv, Harmless;
    check, patch := InterceptTrail(states, moves, orig, t, s, i, j - 1);
    RunShaped(states, moves, orig, j - 1);
    InterceptWay(states[j - 1], states[j], moves[j - 1], t, s);
    RunShaped(states, moves, orig, check);
    RunShaped(states, moves, orig, check + 1);
    InterceptCheck(states[check], states[check + 1], t, s);
    if states[check].flag[s] {
      InterceptHarmless(states, moves, orig, t, s, i, j - 1);
      HarmlessNext(states, moves, t, i, j);
    } else {
      RunShaped(states, moves, orig, patch);
      RunShaped(states, moves, orig, patch + 1);
      InterceptWay(states[patch], states[patch + 1], t, t, s);
      Reachable(states, moves, orig, patch + 1);
      SavedIsOriginal(states[patch + 1], orig, s);
    }
  }

  /** The way of a release request. */
  lemma ReleaseWay(st: State, st': State, u: nat, t: nat, s: nat)
    requires Shaped(st) && Step(st, st', u) && t < |st.threads|
    requires Releasing(st.threads[t]) && st.threads[t].s == s
    ensures |st'.threads| == |st.threads| && s < |st.flag|
    ensures u != t ==> st'.threads[t] == st.threads[t]
    ensures u == t ==> st'.threads[t] == match st.threads[t]
                                         case RLock(_) => RCheck(s)
                                         case RCheck(_) => if st.flag[s] then RLockSys(s) else RInvalid(s)
                                         case RLockSys(_) => RRestore(s)
                                         case RRestore(_) => RUnlock(s)
                                         case RUnlock(_) => RUnlockSys(s)
                                         case _ => Idle
    ensures u == t && (st.threads[t].RLock? || st.threads[t].RInvalid? || (st.threads[t].RCheck? && !st.flag[s])) ==>
              SameTables(st, st')
    ensures u == t && st.threads[t].RRestore? && st.f[s].Some? ==> st'.sys == st.sys[s := st.f[s].value]
  {
  }

  /** When the request passed its check and wrote the table, if it has by state `j`. */
  lemma {:induction false} ReleaseTrail(states: seq<State>, moves: seq<nat>, orig: seq<Handler>, t: nat, s: nat,
                                        i: nat, j: nat) returns (check: nat, restore: nat)
    requires Run(states, moves, orig) && Busy(states, t, i, j) && states[i].threads[t] == RLock(s) && s < |orig|
    ensures |states| == |moves| + 1
    ensures Releasing(states[j].threads[t]) && states[j].threads[t].s == s
    ensures !states[j].threads[t].RLock? && !states[j].threads[t].RCheck? ==>
              && StepFrom(states, moves, t, i, j, check, RCheck(s))
              && s < |states[check].flag| && (!states[check].flag[s] <==> states[j].threads[t].RInvalid?)
    ensures states[j].threads[t].RUnlock? || states[j].threads[t].RUnlockSys? ==>
              StepFrom(states, moves, t, check + 1, j, restore, RRestore(s))
    decreases j
  {
    hide Step, Shaped, Run, SameTables;
    check, restore := 0, 0;
    RunShaped(states, moves, orig, j);
    if i < j {
      check, restore := ReleaseTrail(states, moves, orig, t, s, i, j - 1);
      RunShaped(states, moves, orig, j - 1);
      ReleaseWay(states[j - 1], states[j], moves[j - 1], t, s);
      if moves[j - 1] == t && states[j - 1].threads[t].RCheck? {
        check := j - 1;
      } else if moves[j - 1] == t && states[j - 1].threads[t].RRestore? {
        restore := j - 1;
      }
    }
  }

  /** Up to its check, and if it is refused, the request changes nothing. */
  lemma {:induction false} ReleaseHarmless(states: seq<State>, moves: seq<nat>, orig: seq<Handler>, t: nat, s: nat,
                                           i: nat, j: nat)
    requires Run(states, moves, orig) && Busy(states, t, i, j) && states[i].threads[t] == RLock(s) && s < |orig|
    requires var pc := states[j].threads[t]; pc == RLock(s) || pc == RCheck(s) || pc == RInvalid(s)
    ensures |states| == |moves| + 1 && Harmless(states, moves, t, i, j)
    decreases j
  {
    hide Step, Shaped, Run, SameTables;
    RunShaped(states, moves, orig, j);
    if i < j {
      RunShaped(states, moves, orig, j - 1);
      var check, restore := ReleaseTrail(states, moves, orig, t, s, i, j - 1);
      ReleaseWay(states[j - 1], states[j], moves[j - 1], t, s);
      ReleaseHarmless(states, moves, orig, t, s, i, j - 1);
    }
  }

  /** A thread that is about to restore an entry has the original handler to restore. */
  lemma RestoresOriginal(st: State, orig: seq<Handler>, t: nat, s: nat)
    requires Inv(st, orig) && t < |st.threads| && st.threads[t] == RRestore(s) && s < |st.sys|
    ensures st.f[s] == Some(orig[s])
  {
    assert CallOk(st, s, orig[s]);
    OwnsHeld(st, t);
  }

  /** From its start to its end, a release request checks the flag once.  If it was clear
      the request is refused and changes nothing; if not, the request clears it and later
      writes the original handler back. */
  lemma ReleaseDone(states: seq<State>, moves: seq<nat>, orig: seq<Handler>, t: nat, s: nat, i: nat, j: nat)
    returns (check: nat, restore: nat)
    requires Run(states, moves, orig) && i < j < |states| && Busy(states, t, i, j - 1) && s < |orig|
    requires states[i].threads[t] == RLock(s) && t < |states[j].threads| && states[j].threads[t].Idle?
    ensures i <= check < j && moves[check] == t && states[check].threads[t] == RCheck(s)
    ensures s < |states[check].flag| && s < |states[check + 1].flag| && !states[check + 1].flag[s]
    ensures !states[check].flag[s] ==> Harmless(states, moves, t, i, j)
    ensures states[check].flag[s] ==>
              check < restore < j && moves[restore] == t
              && |states[restore + 1].sys| == |orig| && states[restore + 1].sys[s] == orig[s]
  {
    hide Step, Shaped, Run, Inv, Harmless;
    check, restore := ReleaseTrail(states, moves, orig, t, s, i, j - 1);
    RunShaped(states, moves, orig, j - 1);
    ReleaseWay(states[j - 1], states[j], moves[j - 1], t, s);
    RunShaped(states, moves, orig, check);
    RunShaped(states, moves, orig, check + 1);
    ReleaseCheck(states[check], states[check + 1], t, s);
    if states[check].flag[s] {
      RunShaped(states, moves, orig, restore);
      RunShaped(states, moves, orig, restore + 1);
      Reachable(states, moves, orig, restore);
      RestoresOriginal(states[restore], orig, t, s);
      ReleaseWay(states[restore], states[restore + 1], t, t, s);
    } else {
      ReleaseHarmless(states, moves, orig, t, s, i, j - 1);
      HarmlessNext(states, moves, t, i, j);
    }
  }

  predicate Calling(pc: Pc) {
    pc.CLock? || pc.CLook? || pc.CCall? || pc.Reached?
  }

  /** The way of a call. */
  lemma CallWay(st: State, st': State, u: nat, t: nat, s: nat)
    requires Shaped(st) && Step(st, st', u) && t < |st.threads| && Calling(st.threads[t]) && st.threads[t].s == s
    ensures |st'.threads| == |st.threads|
    ensures u != t ==> st'.threads[t] == st.threads[t]
    ensures u == t ==>
              match st.threads[t]
              case CLock(_) => st'.threads[t] == CLook(s)
              case CLook(_) => st'.threads[t] == CCall(s)
              case CCall(_) => st'.threads[t].Reached? && st'.threads[t].s == s
              case _ => st'.threads[t].Idle?
    ensures u == t ==> SameTables(st, st')
  {
  }

  /** Every call ends, whatever intercepts and releases go on meanwhile, and it ends by
      reaching the handler that was there before interception. */
  lemma {:induction false} CallDone(states: seq<State>, moves: seq<nat>, orig: seq<Handler>, t: nat, s: nat, i: nat,
                                    j: nat)
    requires Run(states, moves, orig) && i < j <= |moves| < |states| && Busy(states, t, i, j - 1) && s < |orig|
    requires Calling(states[i].threads[t]) && states[i].threads[t].s == s
    requires t < |states[j].threads| && states[j].threads[t].Idle?
    ensures states[j - 1].threads[t] == Reached(s, orig[s])
    ensures Harmless(states, moves, t, i, j)
  {
    hide Step, Shaped, Run, Inv;
    forall k: nat | i <= k < j
      ensures Calling(states[k].threads[t]) && states[k].threads[t].s == s
    {
      CallTrail(states, moves, orig, t, s, i, k);
    }
    forall k: nat | i <= k < j
      ensures |states[k + 1].threads| == |states[k].threads|
      ensures moves[k] == t ==> SameTables(states[k], states[k + 1])
      ensures states[k].threads[t].Reached? || !states[k + 1].threads[t].Idle?
    {
      RunShaped(states, moves, orig, k);
      CallWay(states[k], states[k + 1], moves[k], t, s);
    }
    assert states[j - 1 + 1].threads[t].Idle?;
    Reachable(states, moves, orig, j - 1);
    CallsReachOriginal(states[j - 1], orig, t);
  }

  lemma {:induction false} CallTrail(states: seq<State>, moves: seq<nat>, orig: seq<Handler>, t: nat, s: nat, i: nat,
                                     j: nat)
    requires Run(states, moves, orig) && Busy(states, t, i, j)
    requires Calling(states[i].threads[t]) && states[i].threads[t].s == s
    ensures Calling(states[j].threads[t]) && states[j].threads[t].s == s
    decreases j
  {
    hide Step, Shaped, Run;
    if i < j {
      CallTrail(states, moves, orig, t, s, i, j - 1);
      RunShaped(states, moves, orig, j - 1);
      CallWay(states[j - 1], states[j], moves[j - 1], t, s);
    }
  }

  // ----- a thread alone

  /** One thread goes on alone, from a state with both locks free until it is idle. */
  ghost predicate Alone(states: seq<State>, t: nat) {
    states != [] && states[0].myOwner.None? && states[0].sysOwner.None? && GoesOnAlone(states, t)
  }

  ghost predicate GoesOnAlone(states: seq<State>, t: nat) {
    && states != []
    && (forall i: nat | i < |states| - 1 ::
          Shaped(states[i]) && Step(states[i], states[i + 1], t) && !states[i].threads[t].Idle?)
    && t < |states[|states| - 1].threads| && states[|states| - 1].threads[t].Idle?
  }

  /** The states of an intercept request that runs alone from `st`. */
  ghost predicate OnTheWay(st: State, now: State, t: nat, s: nat)
    requires Shaped(st) && t < |st.threads| && s < |st.sys|
  {
    && |now.threads| == |st.threads|
    && var pc := now.threads[t];
       var here := st.(threads := st.threads[t := pc]);
       var marked := here.(flag := st.flag[s := true]);
       var kept := marked.(f := st.f[s := Some(st.sys[s])]);
       match pc
       case ILock(_) => now == here && pc.s == s
       case ICheck(_) => now == here.(myOwner := Some(t)) && pc.s == s
       case IBusy(_) => st.flag[s] && now == here.(myOwner := Some(t))
       case ILockSys(_) => !st.flag[s] && now == marked.(myOwner := Some(t)) && pc.s == s
       case ISave(_) => !st.flag[s] && now == marked.(myOwner := Some(t), sysOwner := Some(t)) && pc.s == s
       case IUnlock(_) => !st.flag[s] && now == kept.(myOwner := Some(t), sysOwner := Some(t)) && pc.s == s
       case IPatch(_) => !st.flag[s] && now == kept.(sysOwner := Some(t)) && pc.s == s
       case IUnlockSys(_) => !st.flag[s] && now == kept.(sysOwner := Some(t), sys := st.sys[s := Interceptor])
       case Idle => now == if st.flag[s] then here else kept.(sys := st.sys[s := Interceptor])
       case _ => false
  }

  lemma OnTheWayStep(st: State, now: State, next: State, t: nat, s: nat)
    requires Shaped(st) && t < |st.threads| && s < |st.sys| && st.myOwner.None? && st.sysOwner.None?
    requires OnTheWay(st, now, t, s) && !now.threads[t].Idle? && Shaped(now) && Step(now, next, t)
    ensures OnTheWay(st, next, t, s)
  {
    assert st.threads[t := next.threads[t]] == now.threads[t := next.threads[t]];
  }

  lemma {:induction false} AloneOnTheWay(states: seq<State>, t: nat, s: nat, i: nat)
    requires Alone(states, t) && s < |states[0].sys| && i < |states|
    requires t < |states[0].threads| && states[0].threads[t] == ILock(s)
    ensures OnTheWay(states[0], states[i], t, s)
  {
    if i == 0 {
      assert states[0].threads[t := ILock(s)] == states[0].threads;
    } else {
      AloneOnTheWay(states, t, s, i - 1);
      OnTheWayStep(states[0], states[i - 1], states[i], t, s);
    }
  }

  /** An intercept request that runs alone ends with the flag set, the handler saved and
      the interceptor in the table, if the flag was clear; and changes nothing if not. */
  lemma InterceptAlone(states: seq<State>, orig: seq<Handler>, t: nat, s: nat)
    requires Alone(states, t) && Inv(states[0], orig) && s < |orig|
    requires t < |states[0].threads| && states[0].threads[t] == ILock(s)
    ensures var st := states[0];
            var done := st.(threads := st.threads[t := Idle]);
            states[|states| - 1] == if st.flag[s] then done
                                    else done.(flag := st.flag[s := true], sys := st.sys[s := Interceptor],
                                               f := st.f[s := Some(orig[s])])
  {
    AloneOnTheWay(states, t, s, |states| - 1);
    QuietMeansAgreed(states[0], orig, s);
  }

  /** The states of a release request that runs alone from `st`, where `h` is saved. */
  ghost predicate OnTheWayBack(st: State, now: State, t: nat, s: nat, h: Handler)
    requires Shaped(st) && t < |st.threads| && s < |st.sys|
  {
    && |now.threads| == |st.threads|
    && var pc := now.threads[t];
       var here := st.(threads := st.threads[t := pc]);
       var cleared := here.(flag := st.flag[s := false]);
       match pc
       case RLock(_) => now == here && pc.s == s
       case RCheck(_) => now == here.(myOwner := Some(t)) && pc.s == s
       case RInvalid(_) => !st.flag[s] && now == here.(myOwner := Some(t))
       case RLockSys(_) => st.flag[s] && now == cleared.(myOwner := Some(t)) && pc.s == s
       case RRestore(_) => st.flag[s] && now == cleared.(myOwner := Some(t), sysOwner := Some(t)) && pc.s == s
       case RUnlock(_) =>
         st.flag[s] && now == cleared.(sys := st.sys[s := h], myOwner := Some(t), sysOwner := Some(t))
       case RUnlockSys(_) => st.flag[s] && now == cleared.(sys := st.sys[s := h], sysOwner := Some(t))
       case Idle => now == if st.flag[s] then cleared.(sys := st.sys[s := h]) else here
       case _ => false
  }

  lemma OnTheWayBackStep(st: State, now: State, next: State, t: nat, s: nat, h: Handler)
    requires Shaped(st) && t < |st.threads| && s < |st.sys| && st.myOwner.None? && st.sysOwner.None?
    requires st.flag[s] ==> st.f[s] == Some(h)
    requires OnTheWayBack(st, now, t, s, h) && !now.threads[t].Idle? && Shaped(now) && Step(now, next, t)
    ensures OnTheWayBack(st, next, t, s, h)
  {
    assert st.threads[t := next.threads[t]] == now.threads[t := next.threads[t]];
  }

  lemma {:induction false} AloneOnTheWayBack(states: seq<State>, t: nat, s: nat, h: Handler, i: nat)
    requires Alone(states, t) && Shaped(states[0]) && s < |states[0].sys| && i < |states|
    requires states[0].flag[s] ==> states[0].f[s] == Some(h)
    requires t < |states[0].threads| && states[0].threads[t] == RLock(s)
    ensures OnTheWayBack(states[0], states[i], t, s, h)
  {
    if i == 0 {
      assert states[0].threads[t := RLock(s)] == states[0].threads;
    } else {
      AloneOnTheWayBack(states, t, s, h, i - 1);
      OnTheWayBackStep(states[0], states[i - 1], states[i], t, s, h);
    }
  }

  /** A release request that runs alone ends with the flag clear and the original handler
      in the table, if the flag was set; and changes nothing if not. */
  lemma ReleaseAlone(states: seq<State>, orig: seq<Handler>, t: nat, s: nat)
    requires Alone(states, t) && Inv(states[0], orig) && s < |orig|
    requires t < |states[0].threads| && states[0].threads[t] == RLock(s)
    ensures var st := states[0];
            var done := st.(threads := st.threads[t := Idle]);
            states[|states| - 1] == if st.flag[s] then done.(flag := st.flag[s := false], sys := st.sys[s := orig[s]])
                                    else done
  {
    QuietMeansAgreed(states[0], orig, s);
    SavedIsOriginal(states[0], orig, s);
    AloneOnTheWayBack(states, t, s, orig[s], |states| - 1);
  }

  /** How many steps are left of what a thread is doing, at most. */
  function StepsLeft(pc: Pc): nat {
    match pc
    case Idle => 0
    case ILock(_) => 7
    case ICheck(_) => 6
    case ILockSys(_) => 5
    case ISave(_) => 4
    case IUnlock(_) => 3
    case IPatch(_) => 2
    case IUnlockSys(_) => 1
    case IBusy(_) => 1
    case RLock(_) => 6
    case RCheck(_) => 5
    case RLockSys(_) => 4
    case RRestore(_) => 3
    case RUnlock(_) => 2
    case RUnlockSys(_) => 1
    case RInvalid(_) => 1
    case CLock(_) => 4
    case CLook(_) => 3
    case CCall(_) => 2
    case Reached(_, _) => 1
  }

  /** No other thread has a lock. */
  predicate Unhindered(st: State, t: nat) {
    (st.myOwner.None? || st.myOwner == Some(t)) && (st.sysOwner.None? || st.sysOwner == Some(t))
  }

  lemma MovesAlone(st: State, orig: seq<Handler>, t: nat)
    requires Inv(st, orig) && t < |st.threads| && !st.threads[t].Idle? && Unhindered(st, t)
    ensures CanMove(st, t) && Inv(Move(st, t), orig) && t < |Move(st, t).threads| && Unhindered(Move(st, t), t)
    ensures StepsLeft(Move(st, t).threads[t]) < StepsLeft(st.threads[t])
  {
    OwnsHeld(st, t);
    assert CallerOk(st, st.threads[t], orig);
    hide LocksOk, CallOk;
    MoveKeeps(st, t, orig);
  }

  /** Alone, a thread gets to the end of what it is doing, in at most seven steps. */
  lemma {:induction false} AloneEnds(st: State, orig: seq<Handler>, t: nat) returns (states: seq<State>)
    requires Inv(st, orig) && t < |st.threads| && Unhindered(st, t)
    ensures |states| >= 1 && states[0] == st && GoesOnAlone(states, t) && |states| <= 1 + StepsLeft(st.threads[t]) <= 8
    decreases StepsLeft(st.threads[t])
  {
    hide Inv, CanMove, Move;
    InvIsShaped(st, orig);
    states := [st];
    if !st.threads[t].Idle? {
      MovesAlone(st, orig, t);
      var rest := AloneEnds(Move(st, t), orig, t);
      assert Step(st, Move(st, t), t);
      states := [st] + rest;
      forall i: nat | i < |states| - 1
        ensures Shaped(states[i]) && Step(states[i], states[i + 1], t) && !states[i].threads[t].Idle?
      {
        assert i > 0 ==> states[i] == rest[i - 1];
      }
    }
  }

  lemma InvIsShaped(st: State, orig: seq<Handler>)
    requires Inv(st, orig)
    ensures Shaped(st)
  {
  }
}
