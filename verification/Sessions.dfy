/** Sessions and process groups: setpgid() and setsid() of kernel/sys.c, with fork, clone, exec,
    exit and reparenting as steps of the environment. One pid namespace. */
module Sessions {
  import opened Errno

  /** A live task. Group, session and the session-leader bit belong to the thread group, so they
      are kept with its leader; any other thread only names its thread group. */
  datatype Task =
    | Process(parent: int, pgrp: int, session: int, leads: bool, forkNoExec: bool)
    | Thread(tgid: int)

  type Table = map<int, Task>

  ghost predicate WellFormed(t: Table) {
    forall p <- t :: p > 0 && (t[p].Thread? ==> t[p].tgid in t && t[t[p].tgid].Process?)
  }

  predicate IsProcess(t: Table, p: int) { p in t && t[p].Process? }

  /** All members of a process group are in one session. */
  ghost predicate GroupsWithinSessions(t: Table) {
    forall p, q | IsProcess(t, p) && IsProcess(t, q) :: t[p].pgrp == t[q].pgrp ==> t[p].session == t[q].session
  }

  /** A process in the group numbered after a live process shares that process's session. */
  ghost predicate GroupNumbersReserved(t: Table) {
    forall p, q | IsProcess(t, p) && IsProcess(t, q) :: t[q].pgrp == p ==> t[q].session == t[p].session
  }

  /** A session leader heads the session and the group named after itself. */
  ghost predicate LeadersHeadThemselves(t: Table) {
    forall p | IsProcess(t, p) && t[p].leads :: t[p].session == p && t[p].pgrp == p
  }

  /** A session numbered after a live process is led by that process. */
  ghost predicate SessionsNamedByLeaders(t: Table) {
    forall p, q | IsProcess(t, p) && IsProcess(t, q) :: t[q].session == p ==> t[p].leads
  }

  ghost predicate Inv(t: Table) {
    && WellFormed(t)
    && GroupsWithinSessions(t)
    && GroupNumbersReserved(t)
    && LeadersHeadThemselves(t)
    && SessionsNamedByLeaders(t)
  }

  function GroupLeader(t: Table, cur: int): (p: int)
    requires WellFormed(t) && cur in t
    ensures IsProcess(t, p)
  {
    if t[cur].Thread? then t[cur].tgid else cur
  }

  predicate InGroup(t: Table, p: int, g: int) { p in t && t[p].Process? && t[p].pgrp == g }

  // ---------------------------------------------------------------- setpgid and setsid, declaratively

  /** May `me` put `p` into group `pgid`? */
  ghost predicate MayJoin(t: Table, me: int, p: int, pgid: int)
    requires IsProcess(t, me)
  {
    && IsProcess(t, p)
    && (p == me || t[p].parent == me)
    && t[p].session == t[me].session
    && (t[p].parent == me ==> t[p].forkNoExec)
    && !t[p].leads
    && (pgid == p || exists g :: InGroup(t, g, pgid) && t[g].session == t[me].session)
  }

  /** Why setpgid refuses, in the order of the checks. */
  ghost function SetpgidError(t: Table, me: int, pid: int, pgid: int): int
    requires IsProcess(t, me)
  {
    if pgid < 0 then -EINVAL
    else if pid !in t then -ESRCH
    else if t[pid].Thread? then -EINVAL
    else if t[pid].parent != me && pid != me then -ESRCH
    else if t[pid].parent == me && t[pid].session == t[me].session && !t[pid].forkNoExec then -EACCES
    else -EPERM
  }

  ghost function SetpgidResult(t: Table, cur: int, pid: int, pgid: int, hook: int): (r: (int, Table))
    requires WellFormed(t) && cur in t
  {
    var me := GroupLeader(t, cur);
    var who := if pid == 0 then me else pid;
    var grp := if pgid == 0 then who else pgid;
    if grp < 0 || !MayJoin(t, me, who, grp) then (SetpgidError(t, me, who, grp), t)
    else if hook != 0 then (hook, t)
    else (0, t[who := t[who].(pgrp := grp)])
  }

  ghost function SetsidResult(t: Table, cur: int): (r: (int, Table))
    requires WellFormed(t) && cur in t
  {
    var me := GroupLeader(t, cur);
    if t[me].leads || exists p :: InGroup(t, p, me) then (-EPERM, t)
    else (me, t[me := t[me].(leads := true, session := me, pgrp := me)])
  }

  // ---------------------------------------------------------------- the system calls, in place

  /** Moving a process that leads no session into a group of its own session. */
  lemma MoveKeepsInv(t: Table, who: int, grp: int)
    requires Inv(t) && IsProcess(t, who) && !t[who].leads
    requires forall p | IsProcess(t, p) && (t[p].pgrp == grp || p == grp) :: t[p].session == t[who].session
    ensures Inv(t[who := t[who].(pgrp := grp)])
  {
    var t' := t[who := t[who].(pgrp := grp)];
    assert forall p :: IsProcess(t', p) <==> IsProcess(t, p);
    assert forall p | IsProcess(t, p) ::
      t'[p].session == t[p].session && t'[p].pgrp == if p == who then grp else t[p].pgrp;
  }

  lemma SetpgidKeepsInv(t: Table, cur: int, pid: int, pgid: int, hook: int)
    requires Inv(t) && cur in t
    ensures Inv(SetpgidResult(t, cur, pid, pgid, hook).1)
  {
    var me := GroupLeader(t, cur);
    var who := if pid == 0 then me else pid;
    var grp := if pgid == 0 then who else pgid;
    if SetpgidResult(t, cur, pid, pgid, hook).1 != t {
      if grp != who {
        var g :| InGroup(t, g, grp) && t[g].session == t[me].session;
        assert IsProcess(t, g);
      }
      MoveKeepsInv(t, who, grp);
    }
  }

  lemma SetsidKeepsInv(t: Table, cur: int)
    requires Inv(t) && cur in t
    ensures Inv(SetsidResult(t, cur).1)
  {
    var me := GroupLeader(t, cur);
    var t' := SetsidResult(t, cur).1;
    if t' != t {
      assert forall p :: IsProcess(t', p) <==> IsProcess(t, p);
      assert forall p | IsProcess(t, p) :: InGroup(t, p, t[p].pgrp);
      assert forall p | IsProcess(t, p) && t[p].pgrp == me :: InGroup(t, p, me);
    }
  }

  class ProcessTable {
    var tasks: Table

    ghost predicate Valid() reads this { Inv(tasks) }

    constructor ()
      ensures Valid() && tasks == BootTable
    {
      tasks := BootTable;
    }

    /** The C code looks at one member of the target group, whichever the pid hash yields. */
    method PidTaskPgid(g: int) returns (member: Option<int>)
      ensures member.None? ==> forall p :: !InGroup(tasks, p, g)
      ensures member.Some? ==> InGroup(tasks, member.value, g)
    {
      if m :| m in tasks && InGroup(tasks, m, g) {
        return Some(m);
      }
      return None;
    }

    method Setpgid(cur: int, pid0: int, pgid0: int, hook: int) returns (err: int)
      requires Valid() && cur in tasks
      modifies this
      ensures Valid()
      ensures (err, tasks) == SetpgidResult(old(tasks), cur, pid0, pgid0, hook)
      ensures var who := if pid0 == 0 then GroupLeader(old(tasks), cur) else pid0;
              if err == 0 then
                && IsProcess(old(tasks), who)
                && tasks == old(tasks)[who := old(tasks)[who].(pgrp := if pgid0 == 0 then who else pgid0)]
              else tasks == old(tasks)
    {
      var me := GroupLeader(tasks, cur);
      var pid, pgid := pid0, pgid0;
      if pid == 0 { pid := me; }
      if pgid == 0 { pgid := pid; }
      if pgid < 0 { return -EINVAL; }
      if pid !in tasks { return -ESRCH; }
      var p := tasks[pid];
      if p.Thread? { return -EINVAL; }
      if p.parent == me {
        if p.session != tasks[me].session { return -EPERM; }
        if !p.forkNoExec { return -EACCES; }
      } else {
        if pid != me { return -ESRCH; }
      }
      if p.leads { return -EPERM; }
      if pgid != pid {
        var g := PidTaskPgid(pgid);
        assert g.Some? ==> forall q | InGroup(tasks, q, pgid) ::
            IsProcess(tasks, q) && IsProcess(tasks, g.value) && tasks[q].session == tasks[g.value].session;
        if g.None? || tasks[g.value].session != tasks[me].session { return -EPERM; }
      }
      if hook != 0 { return hook; }
      assert MayJoin(tasks, me, pid, pgid);
      SetpgidKeepsInv(tasks, cur, pid0, pgid0, hook);
      ghost var before := tasks;
      if p.pgrp != pgid {
        tasks := tasks[pid := p.(pgrp := pgid)];
      }
      assert tasks == before[pid := p.(pgrp := pgid)];
      return 0;
    }

    method SetSpecialPids(me: int, sid: int)
      requires IsProcess(tasks, me)
      modifies this
      ensures tasks == old(tasks)[me := old(tasks)[me].(session := sid, pgrp := sid)]
    {
      if tasks[me].session != sid {
        tasks := tasks[me := tasks[me].(session := sid)];
      }
      if tasks[me].pgrp != sid {
        tasks := tasks[me := tasks[me].(pgrp := sid)];
      }
    }

    method KsysSetsid(cur: int) returns (err: int)
      requires Valid() && cur in tasks
      modifies this
      ensures Valid()
      ensures (err, tasks) == SetsidResult(old(tasks), cur)
    {
      var me := GroupLeader(tasks, cur);
      if tasks[me].leads { return -EPERM; }
      var g := PidTaskPgid(me);
      if g.Some? { return -EPERM; }
      SetsidKeepsInv(tasks, cur);
      ghost var before := tasks;
      tasks := tasks[me := tasks[me].(leads := true)];
      SetSpecialPids(me, me);
      assert tasks == before[me := before[me].(leads := true, session := me, pgrp := me)];
      return me;
    }
  }

  // ---------------------------------------------------------------- runs

  datatype Event =
    | Setpgid(cur: int, pid: int, pgid: int, hook: int)
    | Setsid(cur: int)
    | Fork(cur: int, child: int)
    | Clone(cur: int, thread: int)
    | Exec(cur: int)
    | Exit(cur: int)
    | Reparent(cur: int, parent: int)

  /** Pid allocation never hands out a number still in use as a pid, a group or a session. */
  ghost predicate FreshPid(t: Table, n: int) {
    && n > 0 && n !in t
    && forall p | IsProcess(t, p) :: t[p].pgrp != n && t[p].session != n
  }

  ghost predicate Enabled(t: Table, e: Event) {
    && e.cur in t
    && match e
       case Setpgid(_, _, _, _) => true
       case Setsid(_) => true
       case Fork(_, child) => FreshPid(t, child)
       case Clone(_, thread) => FreshPid(t, thread)
       case Exec(cur) => t[cur].Process?
       case Exit(cur) => forall q <- t :: t[q].Thread? ==> t[q].tgid != cur
       case Reparent(cur, _) => t[cur].Process?
  }

  /** One step; an event that is not enabled does nothing. */
  ghost function Step(t: Table, e: Event): Table
    requires WellFormed(t)
  {
    if !Enabled(t, e) then t else
    match e
    case Setpgid(cur, pid, pgid, hook) => SetpgidResult(t, cur, pid, pgid, hook).1
    case Setsid(cur) => SetsidResult(t, cur).1
    case Fork(cur, child) =>
      var me := GroupLeader(t, cur);
      t[child := Process(me, t[me].pgrp, t[me].session, false, true)]
    case Clone(cur, thread) => t[thread := Thread(GroupLeader(t, cur))]
    case Exec(cur) => t[cur := t[cur].(forkNoExec := false)]
    case Exit(cur) => map p | p in t && p != cur :: t[p]
    case Reparent(cur, parent) => t[cur := t[cur].(parent := parent)]
  }

  ghost predicate RunTo(t: Table, events: seq<Event>, end: Table)
    requires WellFormed(t)
    decreases |events|
  {
    if events == [] then t == end
    else WellFormed(Step(t, events[0])) && RunTo(Step(t, events[0]), events[1..], end)
  }

  /** The table at boot: init is in the idle task's group and session 0, and leads nothing. */
  const BootTable: Table := map[1 := Process(0, 0, 0, false, false)]

  lemma StepKeepsInv(t: Table, e: Event)
    requires Inv(t)
    ensures Inv(Step(t, e))
  {
    if Enabled(t, e) {
      match e
      case Setpgid(cur, pid, pgid, hook) => SetpgidKeepsInv(t, cur, pid, pgid, hook);
      case Setsid(cur) => SetsidKeepsInv(t, cur);
      case Fork(cur, child) =>
        var t' := Step(t, e);
        assert forall p :: IsProcess(t', p) <==> IsProcess(t, p) || p == child;
      case Clone(cur, thread) =>
        var t' := Step(t, e);
        assert forall p :: IsProcess(t', p) <==> IsProcess(t, p);
      case Exec(cur) =>
        var t' := Step(t, e);
        assert forall p :: IsProcess(t', p) <==> IsProcess(t, p);
      case Exit(cur) =>
        var t' := Step(t, e);
        assert forall p :: IsProcess(t', p) ==> IsProcess(t, p);
      case Reparent(cur, _) =>
        var t' := Step(t, e);
        assert forall p :: IsProcess(t', p) <==> IsProcess(t, p);
    }
  }

  /** Main result: whatever runs, group, session and leadership stay consistent. */
  lemma {:induction false} EveryRunKeepsSessions(t: Table, events: seq<Event>, end: Table)
    requires Inv(t) && RunTo(t, events, end)
    ensures Inv(end)
    decreases |events|
  {
    if events != [] {
      StepKeepsInv(t, events[0]);
      EveryRunKeepsSessions(Step(t, events[0]), events[1..], end);
    }
  }

  lemma EveryRunFromBootKeepsSessions(events: seq<Event>, end: Table)
    requires RunTo(BootTable, events, end)
    ensures Inv(end)
  {
    EveryRunKeepsSessions(BootTable, events, end);
  }

  /** A successful setsid() leaves the caller alone in a session and a group, both named after it. */
  lemma SetsidIsolates(t: Table, cur: int)
    requires Inv(t) && cur in t && SetsidResult(t, cur).0 > 0
    ensures var me := GroupLeader(t, cur);
            var t' := SetsidResult(t, cur).1;
            && SetsidResult(t, cur).0 == me
            && t'[me].leads
            && forall q | IsProcess(t', q) :: (t'[q].session == me <==> q == me) && (t'[q].pgrp == me <==> q == me)
  {
    var me := GroupLeader(t, cur);
    forall q | IsProcess(t, q) && q != me
      ensures t[q].session != me && t[q].pgrp != me
    {
      assert !InGroup(t, q, me);
      assert IsProcess(t, me) && !t[me].leads;
    }
  }

  /** setsid() is refused exactly to session leaders and to processes whose pid already names a group;
      in particular to every process-group leader. */
  lemma SetsidRefusedToGroupLeaders(t: Table, cur: int)
    requires Inv(t) && cur in t && t[GroupLeader(t, cur)].pgrp == GroupLeader(t, cur)
    ensures SetsidResult(t, cur) == (-EPERM, t)
  {
    assert InGroup(t, GroupLeader(t, cur), GroupLeader(t, cur));
  }

  /** Some process is in group g and session s. */
  ghost predicate GroupIsInSession(t: Table, g: int, s: int) {
    exists p :: p in t && t[p].Process? && t[p].pgrp == g && t[p].session == s
  }

  /** Every return code of setpgid() in terms of the tasks, when the security hook allows the move. */
  lemma SetpgidCodes(t: Table, cur: int, pid: int, pgid: int)
    requires Inv(t) && cur in t
    ensures var me := if t[cur].Thread? then t[cur].tgid else cur;
            var who := if pid == 0 then me else pid;
            var grp := if pgid == 0 then who else pgid;
            var ret := SetpgidResult(t, cur, pid, pgid, 0).0;
            && (ret == -EINVAL <==> grp < 0 || (who in t && t[who].Thread?))
            && (ret == -ESRCH <==> grp >= 0 && (who in t ==> t[who].Process? && who != me && t[who].parent != me))
            && (ret == -EACCES <==> grp >= 0 && who in t && t[who].Process? && t[who].parent == me
                                    && t[who].session == t[me].session && !t[who].forkNoExec)
            && (ret == -EPERM <==> grp >= 0 && who in t && t[who].Process? && (who == me || t[who].parent == me)
                                   && (|| t[who].session != t[me].session
                                       || ((t[who].parent == me ==> t[who].forkNoExec) && t[who].leads)
                                       || ((t[who].parent == me ==> t[who].forkNoExec)
                                           && grp != who && !GroupIsInSession(t, grp, t[me].session))))
            && (ret == 0 <==> grp >= 0 && who in t && t[who].Process? && (who == me || t[who].parent == me)
                              && t[who].session == t[me].session && (t[who].parent == me ==> t[who].forkNoExec)
                              && !t[who].leads && (grp == who || GroupIsInSession(t, grp, t[me].session)))
  {
  }

  /** What a setpgid() that returns 0 does, and that any other return code means that nothing happened; the hook
      has the last word. */
  lemma SetpgidMoves(t: Table, cur: int, pid: int, pgid: int, hook: int)
    requires Inv(t) && cur in t
    ensures var me := if t[cur].Thread? then t[cur].tgid else cur;
            var who := if pid == 0 then me else pid;
            var grp := if pgid == 0 then who else pgid;
            var (ret, t') := SetpgidResult(t, cur, pid, pgid, hook);
            var free := SetpgidResult(t, cur, pid, pgid, 0).0;
            && ret == (if free == 0 then hook else free)
            && (if ret == 0 then IsProcess(t, who) && t' == t[who := t[who].(pgrp := grp)] else t' == t)
  {
  }

  /** A shell's pipeline: of two children that have not executed a program yet, the first can be put into a group
      of its own and the second into that same group. */
  lemma PipelineForms(t: Table, me: int, a: int, b: int)
    requires Inv(t) && IsProcess(t, me) && IsProcess(t, a) && IsProcess(t, b) && a != b
    requires forall c | c == a || c == b ::
               t[c].parent == me && t[c].session == t[me].session && t[c].forkNoExec && !t[c].leads
    ensures var (first, t1) := SetpgidResult(t, me, a, a, 0);
            WellFormed(t1) && me in t1 &&
            var (second, t2) := SetpgidResult(t1, me, b, a, 0);
            && first == 0 && second == 0
            && IsProcess(t2, a) && IsProcess(t2, b) && t2[a].pgrp == a && t2[b].pgrp == a
  {
    SetpgidCodes(t, me, a, a);
    SetpgidMoves(t, me, a, a, 0);
    SetpgidKeepsInv(t, me, a, a, 0);
    var t1 := SetpgidResult(t, me, a, a, 0).1;
    assert t1 == t[a := t[a].(pgrp := a)];
    assert t1[a].pgrp == a && t1[a].session == t1[me].session;
    assert GroupIsInSession(t1, a, t1[me].session);
    SetpgidCodes(t1, me, b, a);
    SetpgidMoves(t1, me, b, a, 0);
  }

  /** Both results of setsid() in terms of the tasks. */
  lemma SetsidExactly(t: Table, cur: int)
    requires Inv(t) && cur in t
    ensures var me := if t[cur].Thread? then t[cur].tgid else cur;
            var (ret, t') := SetsidResult(t, cur);
            && (ret == -EPERM <==> t[me].leads || exists p :: p in t && t[p].Process? && t[p].pgrp == me)
            && (if ret == -EPERM then t' == t
                else ret == me && t' == t[me := t[me].(leads := true, session := me, pgrp := me)])
  {
    var me := GroupLeader(t, cur);
    if p :| p in t && t[p].Process? && t[p].pgrp == me { assert InGroup(t, p, me); }
    if p :| InGroup(t, p, me) { assert p in t && t[p].Process? && t[p].pgrp == me; }
  }

  /** A successful setpgid() never takes a process out of its session, and joins only groups whose
      every member is in the caller's session. */
  lemma SetpgidStaysInSession(t: Table, cur: int, pid: int, pgid: int, hook: int)
    requires Inv(t) && cur in t && SetpgidResult(t, cur, pid, pgid, hook).0 == 0
    ensures var me := GroupLeader(t, cur);
            var who := if pid == 0 then me else pid;
            var t' := SetpgidResult(t, cur, pid, pgid, hook).1;
            && IsProcess(t', who) && t'[who].session == t[who].session == t[me].session
            && (forall q | InGroup(t', q, t'[who].pgrp) :: t'[q].session == t[me].session)
            && forall q <- t :: q != who ==> q in t' && t'[q] == t[q]
  {
    SetpgidKeepsInv(t, cur, pid, pgid, hook);
    var me := GroupLeader(t, cur);
    var who := if pid == 0 then me else pid;
    var grp := if pgid == 0 then who else pgid;
    var t' := SetpgidResult(t, cur, pid, pgid, hook).1;
    assert forall q | InGroup(t', q, t'[who].pgrp) :: IsProcess(t', q) && IsProcess(t', who);
  }

  /** Only the process itself, by setsid(), ever leaves its session. */
  lemma OnlySetsidChangesSessions(t: Table, e: Event, q: int)
    requires WellFormed(t) && IsProcess(t, q) && IsProcess(Step(t, e), q)
    ensures Step(t, e)[q].session != t[q].session ==>
              e.Setsid? && e.cur in t && GroupLeader(t, e.cur) == q && Step(t, e)[q].session == q
  {
  }

  /** "All members of a group are in one session" is not inductive by itself: one setpgid() breaks it
      in a table that satisfies every other clause except GroupNumbersReserved. */
  lemma GroupClauseAloneIsNotInductive()
    ensures var t: Table := map[2 := Process(1, 1, 1, false, true), 3 := Process(1, 2, 9, false, true)];
            && WellFormed(t) && GroupsWithinSessions(t) && LeadersHeadThemselves(t) && SessionsNamedByLeaders(t)
            && !GroupNumbersReserved(t)
            && !GroupsWithinSessions(Step(t, Setpgid(2, 0, 0, 0)))
  {
    var t: Table := map[2 := Process(1, 1, 1, false, true), 3 := Process(1, 2, 9, false, true)];
    assert IsProcess(t, 2) && IsProcess(t, 3);
    var t' := Step(t, Setpgid(2, 0, 0, 0));
    assert MayJoin(t, 2, 2, 2);
    assert IsProcess(t', 2) && IsProcess(t', 3);
  }
}
