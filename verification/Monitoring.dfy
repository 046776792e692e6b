/** Who is monitored, as sets of pids (A1/interceptor.c:92-236,427-662).

    The pids monitored for a system call are a finite set or the complement of one.
    The number 0 stands for "all pids": it is a member exactly when monitoring is by
    blacklist. */
module Monitoring {
  import opened Sequences

  datatype Code = Ok | EBusy | EInval | EPerm | ENoMem

  /** What my_syscall learns from the kernel: whether the caller is root, whether the
      pid exists and belongs to the caller's owner, and whether kmalloc succeeds. */
  datatype Env = Env(root: bool, exists_: bool, sameOwner: bool, memory: bool)

  /** One system call: whether it is intercepted, and the pids monitored. */
  datatype Watch = Watch(intercepted: bool, members: iset<int>)

  const INTERCEPT := 1
  const RELEASE := 2
  const START := 3
  const STOP := 4

  predicate PidOk(pid: int, env: Env) {
    pid >= 0 && (env.exists_ || pid == 0)
  }

  predicate MayMonitor(pid: int, env: Env) {
    env.root || (pid != 0 && env.sameOwner)
  }

  /** What a request answers; `valid` says that the system call number is. */
  ghost function Answer(cmd: int, valid: bool, w: Watch, pid: int, env: Env): Code {
    if cmd < INTERCEPT || cmd > STOP || !valid then EInval
    else if cmd == INTERCEPT then
      if !env.root then EPerm else if w.intercepted then EBusy else Ok
    else if cmd == RELEASE then
      if !env.root then EPerm else if !w.intercepted then EInval else Ok
    else if !PidOk(pid, env) then EInval
    else if !MayMonitor(pid, env) then EPerm
    else if cmd == START then StartAnswer(w, pid, env.memory)
    else StopAnswer(w, pid, env.memory)
  }

  /** Busy exactly for members.  A pid is added to a list only while 0 is not a member. */
  ghost function StartAnswer(w: Watch, pid: int, memory: bool): Code {
    if !w.intercepted then EInval
    else if pid in w.members then EBusy
    else if pid != 0 && 0 !in w.members && !memory then ENoMem
    else Ok
  }

  /** Invalid exactly for pids that are not members. */
  ghost function StopAnswer(w: Watch, pid: int, memory: bool): Code {
    if pid !in w.members then EInval
    else if pid != 0 && 0 in w.members && !memory then ENoMem
    else Ok
  }

  predicate Anyone(p: int) {
    true
  }

  /** What a request that answers Ok does. */
  ghost function After(cmd: int, w: Watch, pid: int): Watch {
    if cmd == INTERCEPT then w.(intercepted := true)
    else if cmd == RELEASE then Watch(false, iset{})
    else if cmd == START then w.(members := if pid == 0 then iset p: int | Anyone(p) else w.members + iset{pid})
    else w.(members := if pid == 0 then iset{} else w.members - iset{pid})
  }

  /** When a process exits its pid leaves every list: what remains of it is whether
      all pids are monitored. */
  ghost function Exited(w: Watch, pid: int): Watch {
    w.(members := if 0 in w.members then w.members + iset{pid} else w.members - iset{pid})
  }

  /** Not intercepted means not monitored. */
  ghost predicate WatchOk(w: Watch) {
    w.intercepted || w.members == iset{}
  }

  // ----- sequences of requests

  datatype Request = Call(cmd: int, syscall: int, pid: int, env: Env) | Exit(pid: int)

  predicate ValidNumber(syscall: int, n: nat) {
    0 <= syscall < n && syscall != 0
  }

  ghost function Seen(ws: seq<Watch>, syscall: int): Watch {
    if ValidNumber(syscall, |ws|) then ws[syscall] else Watch(false, iset{})
  }

  /** The answer to one request; an exit has none, which is written Ok. */
  ghost function AnswerTo(ws: seq<Watch>, r: Request): Code {
    match r
    case Call(cmd, syscall, pid, env) => Answer(cmd, ValidNumber(syscall, |ws|), Seen(ws, syscall), pid, env)
    case Exit(_) => Ok
  }

  /** What one request does to one system call. */
  ghost function ServeOne(w: Watch, s: nat, r: Request): Watch {
    match r
    case Call(cmd, syscall, pid, env) =>
      if syscall == s && Answer(cmd, true, w, pid, env) == Ok then After(cmd, w, pid) else w
    case Exit(pid) => Exited(w, pid)
  }

  ghost function Serve(ws: seq<Watch>, r: Request): (ws': seq<Watch>)
    ensures |ws'| == |ws|
    ensures forall s: nat | s < |ws| :: ws'[s] == if s == 0 then ws[s] else ServeOne(ws[s], s, r)
  {
    seq(|ws|, s requires 0 <= s < |ws| => if s == 0 then ws[s] else ServeOne(ws[s], s, r))
  }

  ghost function ServeAll(ws: seq<Watch>, rs: seq<Request>): (ws': seq<Watch>)
    ensures |ws'| == |ws|
  {
    if rs == [] then ws else Serve(ServeAll(ws, rs[..|rs| - 1]), rs[|rs| - 1])
  }

  ghost function Answers(ws: seq<Watch>, rs: seq<Request>): (codes: seq<Code>)
    ensures |codes| == |rs|
  {
    if rs == [] then []
    else Answers(ws, rs[..|rs| - 1]) + [AnswerTo(ServeAll(ws, rs[..|rs| - 1]), rs[|rs| - 1])]
  }

  lemma ServeNext(ws: seq<Watch>, rs: seq<Request>, i: nat)
    requires i < |rs|
    ensures ServeAll(ws, rs[..i + 1]) == Serve(ServeAll(ws, rs[..i]), rs[i])
    ensures Answers(ws, rs[..i + 1]) == Answers(ws, rs[..i]) + [AnswerTo(ServeAll(ws, rs[..i]), rs[i])]
  {
    assert rs[..i + 1][..i] == rs[..i];
  }

  lemma ServeNone(ws: seq<Watch>)
    ensures ServeAll(ws, []) == ws && Answers(ws, []) == []
  {
  }

  /** The requests that name system call `s`, and the exits. */
  function Naming(rs: seq<Request>, s: nat): seq<Request> {
    if rs == [] then []
    else
      var r := rs[|rs| - 1];
      Naming(rs[..|rs| - 1], s) + if r.Exit? || r.syscall == s then [r] else []
  }

  /** System calls do not interfere: what becomes of one depends only on the requests
      that name it. */
  lemma {:induction false} NoInterference(ws: seq<Watch>, rs: seq<Request>, s: nat)
    requires 0 < s < |ws|
    ensures ServeAll(ws, rs)[s] == ServeAll(ws, Naming(rs, s))[s]
  {
    if rs != [] {
      var t, r := rs[..|rs| - 1], rs[|rs| - 1];
      NoInterference(ws, t, s);
      if r.Exit? || r.syscall == s {
        var mine := Naming(rs, s);
        assert mine == Naming(t, s) + [r];
        assert mine[..|mine| - 1] == Naming(t, s) && mine[|mine| - 1] == r;
      } else {
        assert Naming(rs, s) == Naming(t, s);
      }
    }
  }

  /** After any requests, a system call that is not intercepted monitors nobody. */
  lemma {:induction false} ServedOk(ws: seq<Watch>, rs: seq<Request>, s: nat)
    requires 0 < s < |ws| && WatchOk(ws[s])
    ensures WatchOk(ServeAll(ws, rs)[s])
  {
    if rs != [] {
      ServedOk(ws, rs[..|rs| - 1], s);
    }
  }

  /** Stopping undoes starting. */
  lemma StartStop(w: Watch, pid: int, memory: bool)
    requires pid > 0 && StartAnswer(w, pid, memory) == Ok
    ensures var w1 := After(START, w, pid);
            StopAnswer(w1, pid, true) == Ok && After(STOP, w1, pid) == w
  {
    assert w.members + iset{pid} - iset{pid} == w.members;
  }

  // ----- what requests do, by what they say

  /** Requests that are refused whatever is intercepted or monitored: a command or a
      system call out of range, a caller who is not root, a negative or missing pid. */
  lemma Refusals(ws: seq<Watch>, cmd: int, syscall: int, pid: int, env: Env)
    ensures var rc := AnswerTo(ws, Call(cmd, syscall, pid, env));
            && (cmd < 1 || cmd > 4 || syscall <= 0 || syscall >= |ws| ==> rc == EInval)
            && (0 < syscall < |ws| ==>
                  && ((cmd == 1 || cmd == 2) && !env.root ==> rc == EPerm)
                  && ((cmd == 3 || cmd == 4) && (pid < 0 || (pid > 0 && !env.exists_)) ==> rc == EInval)
                  && ((cmd == 3 || cmd == 4) && !env.root && pid == 0 ==> rc == EPerm)
                  && ((cmd == 3 || cmd == 4) && !env.root && pid > 0 && env.exists_ && !env.sameOwner ==> rc == EPerm))
  {
  }

  /** A request that is refused changes nothing. */
  lemma RefusedChangesNothing(ws: seq<Watch>, r: Request)
    requires r.Call? && AnswerTo(ws, r) != Ok
    ensures Serve(ws, r) == ws
  {
  }

  /** A request by root to intercept: refused as busy if that was done, else done. */
  lemma InterceptRequest(ws: seq<Watch>, s: nat, pid: int, env: Env)
    requires 0 < s < |ws| && env.root
    ensures var w, w' := ws[s], Serve(ws, Call(1, s, pid, env))[s];
            && AnswerTo(ws, Call(1, s, pid, env)) == (if w.intercepted then EBusy else Ok)
            && w'.intercepted && w'.members == w.members
  {
  }

  /** A request by root to release: refused unless intercepted; afterwards nobody is
      monitored. */
  lemma ReleaseRequest(ws: seq<Watch>, s: nat, pid: int, env: Env)
    requires 0 < s < |ws| && env.root && WatchOk(ws[s])
    ensures var w, w' := ws[s], Serve(ws, Call(2, s, pid, env))[s];
            && AnswerTo(ws, Call(2, s, pid, env)) == (if w.intercepted then Ok else EInval)
            && !w'.intercepted && forall p :: p !in w'.members
  {
  }

  /** A request to start monitoring from somebody who may ask for it. */
  lemma StartRequest(ws: seq<Watch>, s: nat, pid: nat, env: Env)
    requires 0 < s < |ws| && (env.root || (pid > 0 && env.sameOwner)) && (pid > 0 ==> env.exists_)
    ensures var rc := AnswerTo(ws, Call(3, s, pid, env));
            var w, w' := ws[s], Serve(ws, Call(3, s, pid, env))[s];
            && (!w.intercepted ==> rc == EInval)
            && (w.intercepted && pid in w.members ==> rc == EBusy)
            && (w.intercepted && pid !in w.members && env.memory ==> rc == Ok)
            && (rc == Ok ==> pid in w'.members && w'.intercepted)
            && (rc == Ok && pid == 0 ==> forall p :: p in w'.members)
            && (pid > 0 ==> forall p | p != pid :: p in w'.members <==> p in w.members)
  {
  }

  /** A request to stop monitoring from somebody who may ask for it. */
  lemma StopRequest(ws: seq<Watch>, s: nat, pid: nat, env: Env)
    requires 0 < s < |ws| && (env.root || (pid > 0 && env.sameOwner)) && (pid > 0 ==> env.exists_)
    ensures var rc := AnswerTo(ws, Call(4, s, pid, env));
            var w, w' := ws[s], Serve(ws, Call(4, s, pid, env))[s];
            && (pid !in w.members ==> rc == EInval)
            && (pid in w.members && (env.memory || pid == 0) ==> rc == Ok)
            && (rc == Ok ==> pid !in w'.members && w'.intercepted == w.intercepted)
            && (rc == Ok && pid == 0 ==> forall p :: p !in w'.members)
            && (pid > 0 ==> forall p | p != pid :: p in w'.members <==> p in w.members)
  {
  }

  /** Memory is asked for only to lengthen a list: to add a pid while not everybody is
      monitored, or to exempt one while everybody is. */
  lemma OutOfMemory(ws: seq<Watch>, s: nat, cmd: int, pid: int, env: Env)
    requires 0 < s < |ws|
    ensures AnswerTo(ws, Call(cmd, s, pid, env)) == ENoMem <==>
              && !env.memory && pid > 0 && env.exists_ && (env.root || env.sameOwner)
              && (|| (cmd == 3 && ws[s].intercepted && pid !in ws[s].members && 0 !in ws[s].members)
                  || (cmd == 4 && pid in ws[s].members && 0 in ws[s].members))
  {
  }

  // ----- what requests do in the long run

  /** Without root nothing is ever intercepted or released. */
  lemma {:induction false} OnlyRootIntercepts(ws: seq<Watch>, rs: seq<Request>, s: nat)
    requires 0 < s < |ws| && forall i | 0 <= i < |rs| :: rs[i].Call? ==> !rs[i].env.root
    ensures ServeAll(ws, rs)[s].intercepted == ws[s].intercepted
  {
    if rs != [] {
      OnlyRootIntercepts(ws, rs[..|rs| - 1], s);
    }
  }

  /** Callers who neither are root nor own process `p`, and exits of other processes,
      never change whether `p` is monitored.  Nobody owns 0, which stands for all. */
  lemma {:induction false} OthersCannotMonitor(ws: seq<Watch>, rs: seq<Request>, s: nat, p: int)
    requires 0 < s < |ws|
    requires forall i | 0 <= i < |rs| ::
               match rs[i]
               case Call(_, _, pid, env) => !env.root && (pid == p ==> p == 0 || !env.sameOwner)
               case Exit(pid) => pid != p
    ensures p in ServeAll(ws, rs)[s].members <==> p in ws[s].members
  {
    if rs != [] {
      OthersCannotMonitor(ws, rs[..|rs| - 1], s, p);
    }
  }

  lemma {:induction false} AnswerAt(ws: seq<Watch>, rs: seq<Request>, i: nat)
    requires i < |rs|
    ensures Answers(ws, rs)[i] == AnswerTo(ServeAll(ws, rs[..i]), rs[i])
  {
    if i < |rs| - 1 {
      AnswerAt(ws, rs[..|rs| - 1], i);
      assert rs[..|rs| - 1][..i] == rs[..i];
    }
  }

  /** Request `i` was granted, and has command `cmd` for system call `s`. */
  ghost predicate Granted(ws: seq<Watch>, rs: seq<Request>, i: nat, s: nat, cmd: int)
    requires i < |rs|
  {
    rs[i].Call? && rs[i].syscall == s && rs[i].cmd == cmd && Answers(ws, rs)[i] == Ok
  }

  lemma GrantedPrefix(ws: seq<Watch>, rs: seq<Request>, i: nat, s: nat, cmd: int)
    requires i < |rs| - 1
    ensures Granted(ws, rs[..|rs| - 1], i, s, cmd) == Granted(ws, rs, i, s, cmd)
  {
    AnswerAt(ws, rs, i);
    AnswerAt(ws, rs[..|rs| - 1], i);
    assert rs[..|rs| - 1][..i] == rs[..i];
  }

  /** What one request does, by its answer. */
  lemma StepEffect(ws: seq<Watch>, r: Request, s: nat, p: int)
    requires 0 < s < |ws|
    ensures var mine := r.Call? && r.syscall == s && AnswerTo(ws, r) == Ok;
            var w, w' := ws[s], Serve(ws, r)[s];
            && w'.intercepted == (if mine && r.cmd in {1, 2} then r.cmd == 1 else w.intercepted)
            && (p in w'.members <==>
                  if r == Exit(p) then 0 in w.members
                  else if mine && (r.cmd == 2 || (r.cmd in {3, 4} && r.pid in {p, 0})) then r.cmd == 3
                  else p in w.members)
  {
  }

  /** A system call is intercepted exactly when the last request granted to intercept
      or release it was to intercept it; or, if there was none, when it was before. */
  lemma {:induction false} InterceptedHistory(ws: seq<Watch>, rs: seq<Request>, s: nat, k: int)
    requires 0 < s < |ws| && -1 <= k < |rs|
    requires k >= 0 ==> Granted(ws, rs, k, s, 1) || Granted(ws, rs, k, s, 2)
    requires forall i | k < i < |rs| :: !Granted(ws, rs, i, s, 1) && !Granted(ws, rs, i, s, 2)
    ensures ServeAll(ws, rs)[s].intercepted == if k < 0 then ws[s].intercepted else rs[k].cmd == 1
  {
    if rs != [] {
      var last := |rs| - 1;
      AnswerAt(ws, rs, last);
      StepEffect(ServeAll(ws, rs[..last]), rs[last], s, 0);
      if k < last {
        forall i: nat | i < last
          ensures Granted(ws, rs[..last], i, s, 1) == Granted(ws, rs, i, s, 1)
          ensures Granted(ws, rs[..last], i, s, 2) == Granted(ws, rs, i, s, 2)
        {
          GrantedPrefix(ws, rs, i, s, 1);
          GrantedPrefix(ws, rs, i, s, 2);
        }
        InterceptedHistory(ws, rs[..last], s, k);
        assert !Granted(ws, rs, last, s, 1) && !Granted(ws, rs, last, s, 2);
      }
    }
  }

  /** Request `i` settles whether pid `p` is monitored for `s`: a release, or to start
      or stop monitoring `p` or all pids, granted; or the exit of `p`. */
  ghost predicate Settles(ws: seq<Watch>, rs: seq<Request>, i: nat, s: nat, p: int)
    requires i < |rs|
  {
    || Granted(ws, rs, i, s, 2)
    || ((Granted(ws, rs, i, s, 3) || Granted(ws, rs, i, s, 4)) && (rs[i].pid == p || rs[i].pid == 0))
    || rs[i] == Exit(p)
  }

  lemma SettlesPrefix(ws: seq<Watch>, rs: seq<Request>, i: nat, s: nat, p: int)
    requires i < |rs| - 1
    ensures Settles(ws, rs[..|rs| - 1], i, s, p) == Settles(ws, rs, i, s, p)
  {
    GrantedPrefix(ws, rs, i, s, 2);
    GrantedPrefix(ws, rs, i, s, 3);
    GrantedPrefix(ws, rs, i, s, 4);
  }

  /** Whether a pid is monitored is settled by the last request that concerns it: it is
      after a start and not after a stop or release; after its exit it is exactly when
      all pids are. */
  lemma {:induction false} MemberHistory(ws: seq<Watch>, rs: seq<Request>, s: nat, p: int, k: int)
    requires 0 < s < |ws| && -1 <= k < |rs|
    requires k >= 0 ==> Settles(ws, rs, k, s, p)
    requires forall i | k < i < |rs| :: !Settles(ws, rs, i, s, p)
    ensures p in ServeAll(ws, rs)[s].members <==>
              if k < 0 then p in ws[s].members
              else if rs[k].Exit? then 0 in ServeAll(ws, rs[..k])[s].members
              else rs[k].cmd == 3
  {
    if rs != [] {
      var last := |rs| - 1;
      AnswerAt(ws, rs, last);
      StepEffect(ServeAll(ws, rs[..last]), rs[last], s, p);
      if k < last {
        forall i: nat | i < last
          ensures Settles(ws, rs[..last], i, s, p) == Settles(ws, rs, i, s, p)
        {
          SettlesPrefix(ws, rs, i, s, p);
        }
        MemberHistory(ws, rs[..last], s, p, k);
        assert !Settles(ws, rs, last, s, p);
        assert k >= 0 ==> rs[..last][..k] == rs[..k];
      }
    }
  }

  /** The bookkeeping of one system call (`mytable`). */
  class Entry {
    var intercepted: bool
    var monitored: int
    var listcount: int
    var myList: seq<int>

    ghost predicate Valid()
      reads this
    {
      && Distinct(myList) && 0 !in myList
      && listcount == |myList|
      && (monitored == 0 || monitored == 1 || monitored == 2)
      && (monitored == 0 ==> myList == []) && (monitored == 1 ==> myList != [])
      && (!intercepted ==> monitored == 0)
    }

    ghost function View(): Watch
      reads this
    {
      Watch(intercepted, iset p: int | if monitored == 2 then p !in myList else p in myList)
    }

    constructor ()
      ensures Valid() && View() == Watch(false, iset{})
    {
      intercepted, monitored, listcount, myList := false, 0, 0, [];
    }

    method AddPidSysc(pid: int, memory: bool) returns (rc: Code)
      modifies this`myList, this`listcount
      ensures rc == (if memory then Ok else ENoMem)
      ensures myList == (if memory then [pid] + old(myList) else old(myList))
      ensures listcount == old(listcount) + if memory then 1 else 0
    {
      if !memory {
        return ENoMem;
      }
      myList := [pid] + myList;
      listcount := listcount + 1;
      return Ok;
    }

    /** Takes the first node with the pid off the list. */
    method DelPidSysc(pid: int) returns (rc: Code)
      requires Distinct(myList) && listcount == |myList|
      modifies this`myList, this`listcount, this`monitored
      ensures rc == if pid in old(myList) then Ok else EInval
      ensures myList == Remove(old(myList), pid) && listcount == |myList|
      ensures monitored == if pid in old(myList) && listcount == 0 && old(monitored) == 1 then 0 else old(monitored)
    {
      for i := 0 to |myList|
        invariant myList == old(myList) && listcount == |myList| && monitored == old(monitored)
        invariant pid !in myList[..i]
      {
        if myList[i] == pid {
          RemoveAt(myList, pid, i);
          myList := myList[..i] + myList[i + 1..];
          listcount := listcount - 1;
          if listcount == 0 && monitored == 1 {
            monitored := 0;
          }
          return Ok;
        }
      }
      RemoveAbsent(myList, pid);
      return EInval;
    }

    method DestroyList()
      modifies this`myList, this`listcount, this`monitored
      ensures myList == [] && listcount == 0 && monitored == 0
    {
      while myList != [] {
        myList := myList[1..];
      }
      listcount := 0;
      monitored := 0;
    }

    method CheckPidMonitored(pid: int) returns (found: bool)
      ensures found <==> pid in myList
    {
      for i := 0 to |myList|
        invariant pid !in myList[..i]
      {
        if myList[i] == pid {
          return true;
        }
      }
      return false;
    }

    /** Whether the interceptor logs a call by process `pid`.  It does not look at the
        list when all pids are monitored, so that a process on the blacklist, which is
        not monitored, is logged all the same. */
    method Logs(pid: int) returns (logged: bool)
      requires Valid()
      ensures logged <==> pid in View().members || 0 in View().members
      ensures (logged <==> pid in View().members) <==> !(monitored == 2 && pid in myList)
    {
      if monitored == 0 {
        return false;
      }
      if monitored == 2 {
        return true;
      }
      logged := CheckPidMonitored(pid);
    }

    /** The part of del_pid for one list: takes off every node with the pid.  Should the
        number be used again, its process is monitored exactly where all pids are. */
    method DelPid(pid: int) returns (ispid: bool)
      requires Valid() && pid != 0
      modifies this`myList, this`listcount, this`monitored
      ensures Valid() && View() == Exited(old(View()), pid)
      ensures pid !in myList && (ispid <==> pid in old(myList))
      ensures pid in View().members <==> old(monitored) == 2
      ensures forall q | q != pid :: q in View().members <==> q in old(View()).members
    {
      ghost var was := myList;
      ispid := false;
      RemoveFacts(was, pid);
      var i := 0;
      while i < |myList|
        invariant i <= |myList| && listcount == |myList|
        invariant ispid ==> pid in was && myList == Remove(was, pid)
        invariant !ispid ==> myList == was && pid !in was[..i]
        invariant monitored == if ispid && |myList| == 0 && old(monitored) == 1 then 0 else old(monitored)
        decreases |myList| - i
      {
        if myList[i] == pid {
          assert !ispid;
          RemoveAt(was, pid, i);
          myList := myList[..i] + myList[i + 1..];
          ispid := true;
          listcount := listcount - 1;
          if listcount == 0 && monitored == 1 {
            monitored := 0;
          }
        } else {
          i := i + 1;
        }
      }
      assert !ispid ==> was[..i] == was;
    }

    /** The locked part of REQUEST_START_MONITORING.  "All" is refused as busy whenever
        monitoring is by blacklist, even though the pids on it are not monitored. */
    method StartMonitoring(pid: int, memory: bool) returns (rc: Code)
      requires Valid()
      modifies this`myList, this`listcount, this`monitored
      ensures Valid()
      ensures rc == StartAnswer(old(View()), pid, memory)
      ensures View() == if rc == Ok then After(START, old(View()), pid) else old(View())
      ensures pid == 0 && old(intercepted) ==> rc == if old(monitored) == 2 then EBusy else Ok
      ensures pid == 0 && rc == Ok ==> monitored == 2 && myList == []
      ensures pid != 0 && rc == Ok ==>
                if old(monitored) == 2 then monitored == 2 && pid in old(myList) && pid !in myList
                else monitored == 1 && myList == [pid] + old(myList)
    {
      ghost var was := View();
      if !intercepted {
        return EInval;
      }
      if monitored == 2 {
        var listed := CheckPidMonitored(pid);
        if !listed {
          return EBusy;
        }
        RemoveFacts(myList, pid);
        rc := DelPidSysc(pid);
      } else if monitored == 1 {
        var listed := CheckPidMonitored(pid);
        if listed {
          return EBusy;
        } else if pid == 0 {
          DestroyList();
          monitored := 2;
          rc := Ok;
        } else {
          rc := AddPidSysc(pid, memory);
          if rc != Ok {
            return ENoMem;
          }
        }
      } else {
        if pid == 0 {
          monitored := 2;
          rc := Ok;
        } else {
          rc := AddPidSysc(pid, memory);
          if rc != Ok {
            return ENoMem;
          }
          monitored := 1;
        }
      }
      assert View().members == After(START, was, pid).members;
    }

    /** The locked part of REQUEST_STOP_MONITORING. */
    method StopMonitoring(pid: int, memory: bool) returns (rc: Code)
      requires Valid()
      modifies this`myList, this`listcount, this`monitored
      ensures Valid()
      ensures rc == StopAnswer(old(View()), pid, memory)
      ensures View() == if rc == Ok then After(STOP, old(View()), pid) else old(View())
      ensures pid == 0 ==> rc == if old(monitored) == 2 then Ok else EInval
      ensures pid == 0 && rc == Ok ==> monitored == 0 && myList == []
      ensures pid != 0 && rc == Ok ==>
                if old(monitored) == 2 then monitored == 2 && myList == [pid] + old(myList)
                else pid in old(myList) && pid !in myList && monitored == if myList == [] then 0 else 1
    {
      ghost var was := View();
      if monitored == 0 {
        return EInval;
      } else if monitored == 1 {
        var listed := CheckPidMonitored(pid);
        if !listed {
          return EInval;
        }
        RemoveFacts(myList, pid);
        rc := DelPidSysc(pid);
      } else {
        if pid == 0 {
          DestroyList();
          rc := Ok;
        } else {
          var listed := CheckPidMonitored(pid);
          if listed {
            return EInval;
          }
          rc := AddPidSysc(pid, memory);
          if rc != Ok {
            return ENoMem;
          }
        }
      }
      assert View().members == After(STOP, was, pid).members;
    }
  }
}
