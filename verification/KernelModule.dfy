/** The module as a whole, one request at a time (A1/interceptor.c:150-183,262-293,427-753).

    PatchProtocol is about requests that overlap. */
module KernelModule {
  import opened Monitoring
  import opened PatchProtocol

  const MY_CUSTOM_SYSCALL := 0
  const NR_EXIT_GROUP := 252

  class KernelModule {
    const table: seq<Entry>
    const saved: array<Handler>          // the field `f` of each entry
    const sysCallTable: array<Handler>
    const ownCall: Handler               // my_syscall
    const ownExit: Handler               // my_exit_group
    var origCustom: Handler
    var origExit: Handler
    ghost const orig: seq<Handler>       // the table before the module was loaded

    /** The objects are different, and the table is long enough. */
    ghost predicate Wired() {
      && NR_EXIT_GROUP < |table| == saved.Length == sysCallTable.Length == |orig|
      && saved != sysCallTable
      && (forall i, j | 0 <= i < j < |table| :: table[i] != table[j])
      && ownCall != Interceptor && ownExit != Interceptor
      && forall s | 0 <= s < |orig| :: orig[s] != Interceptor
    }

    /** The handler that is to serve system call `s` while the module is loaded. */
    ghost function Serves(s: nat): Handler
      requires s < |orig|
    {
      if s == MY_CUSTOM_SYSCALL then ownCall else if s == NR_EXIT_GROUP then ownExit else orig[s]
    }

    /** The entry of `s` is the interceptor exactly when `s` is marked intercepted, and
        a call gets to the handler that is to serve it, directly or through `f`. */
    ghost predicate EntryOk(s: nat)
      requires Wired() && s < |table|
      reads table[s], saved, sysCallTable
    {
      && table[s].Valid()
      && (if table[s].intercepted then sysCallTable[s] == Interceptor && saved[s] == Serves(s)
          else sysCallTable[s] == Serves(s))
    }

    ghost predicate Valid()
      reads this, table, saved, sysCallTable
    {
      && Wired()
      && (forall s: nat | s < |table| :: EntryOk(s))
      && !table[MY_CUSTOM_SYSCALL].intercepted
      && origCustom == orig[MY_CUSTOM_SYSCALL] && origExit == orig[NR_EXIT_GROUP]
    }

    /** init_function on a table that holds `orig`. */
    constructor (entries: seq<Entry>, saved: array<Handler>, sysCallTable: array<Handler>, ownCall: Handler,
                 ownExit: Handler)
      requires NR_EXIT_GROUP < |entries| == saved.Length == sysCallTable.Length && saved != sysCallTable
      requires forall i, j | 0 <= i < j < |entries| :: entries[i] != entries[j]
      requires forall s | 0 <= s < |entries| :: entries[s].Valid() && !entries[s].intercepted
      requires ownCall != Interceptor && ownExit != Interceptor
               && forall s | 0 <= s < |entries| :: sysCallTable[s] != Interceptor
      modifies sysCallTable
      ensures Valid() && table == entries && this.saved == saved && this.sysCallTable == sysCallTable
      ensures orig == old(sysCallTable[..])
      ensures sysCallTable[..] == old(sysCallTable[..])[0 := ownCall][252 := ownExit]
    {
      table, this.saved, this.sysCallTable := entries, saved, sysCallTable;
      this.ownCall, this.ownExit := ownCall, ownExit;
      orig := sysCallTable[..];
      origCustom := sysCallTable[MY_CUSTOM_SYSCALL];
      origExit := sysCallTable[NR_EXIT_GROUP];
      new;
      sysCallTable[MY_CUSTOM_SYSCALL] := ownCall;
      sysCallTable[NR_EXIT_GROUP] := ownExit;
    }

    predicate ValidSyscall(syscall: int) {
      0 <= syscall < |table| && syscall != MY_CUSTOM_SYSCALL
    }

    /** REQUEST_SYSCALL_INTERCEPT, for root and a valid number. */
    method Intercept(s: nat) returns (rc: Code)
      requires Valid() && ValidSyscall(s)
      modifies table[s], saved, sysCallTable
      ensures Valid()
      ensures rc == if old(table[s].intercepted) then EBusy else Ok
      ensures table[s].View() == if rc == Ok then After(INTERCEPT, old(table[s].View()), 0) else old(table[s].View())
      ensures rc != Ok ==> sysCallTable[..] == old(sysCallTable[..])
      ensures rc == Ok ==> sysCallTable[..] == old(sysCallTable[..])[s := Interceptor]
      ensures rc == Ok ==> saved[s] == old(sysCallTable[s])
    {
      assert EntryOk(s);
      if table[s].intercepted {
        return EBusy;
      }
      table[s].intercepted := true;
      saved[s] := sysCallTable[s];
      sysCallTable[s] := Interceptor;
      OthersKeep(s);
      return Ok;
    }

    /** Only entry `s` was touched since the method began. */
    twostate lemma OthersKeep(s: nat)
      requires old(Valid()) && s < |table| && EntryOk(s)
      requires forall r: nat | r < |table| && r != s ::
                 unchanged(table[r]) && saved[r] == old(saved[r]) && sysCallTable[r] == old(sysCallTable[r])
      requires !table[MY_CUSTOM_SYSCALL].intercepted && unchanged(this)
      ensures Valid()
    {
      forall r: nat | r < |table|
        ensures EntryOk(r)
      {
        assert old(EntryOk(r));
      }
    }

    /** REQUEST_SYSCALL_RELEASE, for root and a valid number. */
    method Release(s: nat) returns (rc: Code)
      requires Valid() && ValidSyscall(s)
      modifies table[s], sysCallTable
      ensures Valid()
      ensures rc == if old(table[s].intercepted) then Ok else EInval
      ensures table[s].View() == if rc == Ok then After(RELEASE, old(table[s].View()), 0) else old(table[s].View())
      ensures rc != Ok ==> sysCallTable[..] == old(sysCallTable[..])
      ensures rc == Ok ==> sysCallTable[..] == old(sysCallTable[..])[s := Serves(s)]
    {
      assert EntryOk(s);
      if !table[s].intercepted {
        return EInval;
      }
      table[s].intercepted := false;
      table[s].DestroyList();
      sysCallTable[s] := saved[s];
      OthersKeep(s);
      assert table[s].View().members == iset{};
      return Ok;
    }

    /** What a request sees of system call `syscall`, if that is a valid number. */
    ghost function WatchOf(syscall: int): Watch
      requires Wired()
      reads if 0 <= syscall < |table| then {table[syscall]} else {}
    {
      if ValidSyscall(syscall) then table[syscall].View() else Watch(false, iset{})
    }

    /** my_syscall: the answer to a request, and what it does, are those of Monitoring;
        a request that fails changes nothing, and no request touches another system call. */
    method MySyscall(cmd: int, syscall: int, pid: int, env: Env) returns (rc: Code)
      requires Valid()
      modifies if ValidSyscall(syscall) then {table[syscall]} else {}
      modifies saved, sysCallTable
      ensures Valid()
      ensures rc != Ok || cmd > 2 || !env.root ==> sysCallTable[..] == old(sysCallTable[..])
      ensures cmd == 1 && rc == Ok ==>
                0 < syscall < |table| && sysCallTable[..] == old(sysCallTable[..])[syscall := Interceptor]
      ensures cmd == 2 && rc == Ok ==>
                0 < syscall < |table| && sysCallTable[..] == old(sysCallTable[..])[syscall := Serves(syscall)]
      ensures rc == Answer(cmd, ValidSyscall(syscall), old(WatchOf(syscall)), pid, env)
      ensures ValidSyscall(syscall) ==>
                WatchOf(syscall) == if rc == Ok then After(cmd, old(WatchOf(syscall)), pid) else old(WatchOf(syscall))
    {
      if cmd > 4 || cmd < 1 {
        return EInval;
      }
      if !ValidSyscall(syscall) {
        return EInval;
      }
      assert EntryOk(syscall);
      if cmd == INTERCEPT {
        if !env.root {
          return EPerm;
        }
        rc := Intercept(syscall);
      } else if cmd == RELEASE {
        if !env.root {
          return EPerm;
        }
        rc := Release(syscall);
      } else {
        if pid < 0 || (!env.exists_ && pid != 0) {
          return EInval;
        }
        if !env.root {
          if pid == 0 || !env.sameOwner {
            return EPerm;
          }
        }
        if cmd == START {
          rc := table[syscall].StartMonitoring(pid, env.memory);
        } else {
          rc := table[syscall].StopMonitoring(pid, env.memory);
        }
        OthersKeep(syscall);
      }
    }

    /** System call `s` by process `pid`: which handler serves it in the end, and whether
        it is logged.  Monitored or not, it is the handler that would serve it anyway. */
    method SystemCall(s: nat, pid: int) returns (h: Handler, logged: bool)
      requires Valid() && s < |table|
      ensures h == (if s == 0 then ownCall else if s == 252 then ownExit else orig[s])
      ensures logged <==> table[s].intercepted && (pid in table[s].View().members || 0 in table[s].View().members)
    {
      assert EntryOk(s);
      h, logged := sysCallTable[s], false;
      if h == Interceptor {
        logged := table[s].Logs(pid);
        h := saved[s];
      }
    }

    /** my_exit_group for a process `pid`: no list mentions it any more. */
    method MyExitGroup(pid: int) returns (ispid: bool)
      requires Valid() && pid != 0
      modifies table
      ensures Valid()
      ensures forall s: nat | 1 <= s < |table| ::
                pid !in table[s].myList && table[s].View() == Exited(old(table[s].View()), pid)
      ensures unchanged(table[0])
      ensures ispid <==> exists s: nat :: 1 <= s < |table| && pid in old(table[s].myList)
    {
      ispid := false;
      forall r: nat | r < |table|
        ensures table[r].Valid()
      {
        assert EntryOk(r);
      }
      for s := 1 to |table|
        invariant forall r: nat | r < |table| :: table[r].Valid() && table[r].intercepted == old(table[r].intercepted)
        invariant forall r: nat | s <= r < |table| || r == 0 :: unchanged(table[r])
        invariant forall r: nat | 1 <= r < s ::
                    pid !in table[r].myList && table[r].View() == Exited(old(table[r].View()), pid)
        invariant ispid <==> exists r: nat :: 1 <= r < s && pid in old(table[r].myList)
      {
        var found := table[s].DelPid(pid);
        ispid := ispid || found;
      }
      forall r: nat | r < |table|
        ensures EntryOk(r)
      {
        assert old(EntryOk(r));
      }
    }

    ghost function Watches(): (ws: seq<Watch>)
      reads table
      ensures |ws| == |table| && forall s: nat | s < |table| :: ws[s] == table[s].View()
    {
      seq(|table|, s requires 0 <= s < |table| reads table => table[s].View())
    }

    /** One request or exit. */
    method ServeRequest(r: Request) returns (rc: Code)
      requires Valid() && (r.Exit? ==> r.pid != 0)
      modifies table, saved, sysCallTable
      ensures Valid() && Watches() == Serve(old(Watches()), r)
      ensures rc == AnswerTo(old(Watches()), r)
    {
      assert forall s: nat | s < |table| :: EntryOk(s);
      match r {
        case Call(cmd, syscall, pid, env) =>
          rc := MySyscall(cmd, syscall, pid, env);
          forall s: nat | s < |table|
            ensures table[s].View() == Serve(old(Watches()), r)[s]
          {
            assert ValidSyscall(syscall) && s != syscall ==> table[s] != table[syscall];
          }
        case Exit(pid) =>
          var ispid := MyExitGroup(pid);
          rc := Ok;
          assert table[0].View() == old(table[0].View());
      }
    }

    /** Any sequence of requests and exits is answered as the sets of Monitoring say. */
    method ServeRequests(rs: seq<Request>) returns (codes: seq<Code>)
      requires Valid() && forall i | 0 <= i < |rs| :: rs[i].Exit? ==> rs[i].pid != 0
      modifies table, saved, sysCallTable
      ensures Valid() && Watches() == ServeAll(old(Watches()), rs)
      ensures codes == Answers(old(Watches()), rs)
    {
      hide Valid, Serve, ServeAll, AnswerTo, Answers;
      ServeNone(Watches());
      codes := [];
      for i := 0 to |rs|
        invariant Valid() && Watches() == ServeAll(old(Watches()), rs[..i])
        invariant codes == Answers(old(Watches()), rs[..i])
      {
        var rc := ServeRequest(rs[i]);
        codes := codes + [rc];
        ServeNext(old(Watches()), rs, i);
      }
      assert rs[..|rs|] == rs;
    }

    /** Puts back every entry that is intercepted and clears its list. */
    method Deinterceptor()
      requires Wired() && forall s: nat | s < |table| :: table[s].Valid()
      modifies table, sysCallTable
      ensures sysCallTable[0] == old(sysCallTable[0])
      ensures forall s: nat | 1 <= s < |table| ::
                sysCallTable[s] == (if old(table[s].intercepted) then saved[s] else old(sysCallTable[s]))
                  && table[s].myList == []
    {
      for i := 1 to |table|
        invariant forall s: nat | i <= s < |table| ::
                    table[s].Valid() && unchanged(table[s]) && sysCallTable[s] == old(sysCallTable[s])
        invariant sysCallTable[0] == old(sysCallTable[0])
        invariant forall s: nat | 1 <= s < i ::
                    sysCallTable[s] == (if old(table[s].intercepted) then saved[s] else old(sysCallTable[s]))
                      && table[s].myList == []
      {
        if table[i].intercepted {
          sysCallTable[i] := saved[i];
          if table[i].monitored > 0 {
            table[i].DestroyList();
          }
        }
      }
    }

    /** exit_function.  It leaves the table as it was before loading, but for one entry:
        if exit_group itself was intercepted, the module's handler stays. */
    method Unload()
      requires Valid()
      modifies table, sysCallTable
      ensures forall s: nat | s < |table| && s != NR_EXIT_GROUP :: sysCallTable[s] == orig[s]
      ensures sysCallTable[NR_EXIT_GROUP]
              == if old(table[NR_EXIT_GROUP].intercepted) then ownExit else orig[NR_EXIT_GROUP]
      ensures ownExit != orig[NR_EXIT_GROUP] ==> (sysCallTable[..] == orig <==> !old(table[NR_EXIT_GROUP].intercepted))
      ensures forall s: nat | 1 <= s < |table| :: table[s].myList == []
    {
      forall s: nat | s < |table|
        ensures table[s].Valid() && (table[s].intercepted ==> saved[s] == Serves(s))
        ensures !table[s].intercepted ==> sysCallTable[s] == Serves(s)
      {
        assert EntryOk(s);
      }
      sysCallTable[MY_CUSTOM_SYSCALL] := origCustom;
      sysCallTable[NR_EXIT_GROUP] := origExit;
      Deinterceptor();
    }

    /** Unloading right after exit_group was intercepted leaves the module's handler there. */
    method UnloadIntercepted(env: Env) returns (rc: Code)
      requires Valid() && env.root && !table[NR_EXIT_GROUP].intercepted && ownExit != orig[NR_EXIT_GROUP]
      modifies table, saved, sysCallTable
      ensures rc == Ok && sysCallTable[NR_EXIT_GROUP] != orig[NR_EXIT_GROUP]
    {
      rc := MySyscall(INTERCEPT, NR_EXIT_GROUP, 0, env);
      Unload();
    }
  }
}
