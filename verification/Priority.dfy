/** setpriority() and getpriority() of kernel/sys.c over the list of tasks, in the order the kernel
    walks them. */
module Priority {
  import opened Errno
  import opened Ids

  const MIN_NICE := -20
  const MAX_NICE := 19
  const PRIO_PROCESS := 0
  const PRIO_PGRP := 1
  const PRIO_USER := 2

  /** pid is the number the caller sees, 0 for a task outside its namespace. `capable` is CAP_SYS_NICE
      towards its namespace, `limit` its RLIMIT_NICE, `hook` the security hook's answer. */
  datatype Task = Task(pid: int, pgrp: int, uid: int, euid: int, nice: int, capable: bool, limit: int, hook: int)

  datatype Caller = Caller(index: nat, ns: Namespace, capable: bool)

  type Tasks = seq<Task>

  ghost predicate ValidTasks(ts: Tasks) {
    && (forall t <- ts :: MIN_NICE <= t.nice <= MAX_NICE)
    && (forall i, k | 0 <= i < k < |ts| :: ts[i].pid == ts[k].pid ==> ts[i].pid == 0)
  }

  function Clamp(nice: int): (r: int)
    ensures MIN_NICE <= r <= MAX_NICE
    ensures nice < r ==> r == MIN_NICE
    ensures nice > r ==> r == MAX_NICE
  {
    if nice < MIN_NICE then MIN_NICE else if nice > MAX_NICE then MAX_NICE else nice
  }

  /** Does the selector (which, who) name task t? Looks at nothing that setpriority() changes. */
  predicate Selects(me: Task, ns: Namespace, which: int, who: int, t: Task) {
    if which == PRIO_PROCESS then t.pid == (if who == 0 then me.pid else who) && t.pid != 0
    else if which == PRIO_PGRP then t.pgrp == if who == 0 then me.pgrp else who
    else t.uid == (if who == 0 then me.uid else MakeId(ns, who)) && t.pid != 0
  }

  /** The answer for one task: 0 when its niceness may be set, the refusing error otherwise. */
  function Verdict(me: Task, capable: bool, t: Task, nice: int): int {
    if !(t.uid == me.euid || t.euid == me.euid || t.capable) then -EPERM
    else if nice < t.nice && !(20 - nice <= t.limit || capable) then -EACCES
    else t.hook
  }

  predicate Accepted(me: Task, capable: bool, t: Task, nice: int) { Verdict(me, capable, t, nice) == 0 }

  /** The list after the call: exactly the selected and accepted tasks have the new niceness. */
  function After(ts: Tasks, c: Caller, which: int, who: int, nice: int): (r: Tasks)
    requires c.index < |ts|
    ensures |r| == |ts|
  {
    var me := ts[c.index];
    seq(|ts|, i requires 0 <= i < |ts| =>
      if Selects(me, c.ns, which, who, ts[i]) && Accepted(me, c.capable, ts[i], nice) then ts[i].(nice := nice)
      else ts[i])
  }

  // ---------------------------------------------------------------- the error the loop accumulates

  /** The running error after the first k tasks. */
  function Running(ts: Tasks, c: Caller, which: int, who: int, nice: int, k: nat): int
    requires c.index < |ts| && k <= |ts|
  {
    if k == 0 then -ESRCH
    else
      var error := Running(ts, c, which, who, nice, k - 1);
      var me := ts[c.index];
      if !Selects(me, c.ns, which, who, ts[k - 1]) then error
      else if !Accepted(me, c.capable, ts[k - 1], nice) then Verdict(me, c.capable, ts[k - 1], nice)
      else if error == -ESRCH then 0 else error
  }

  ghost predicate Match(ts: Tasks, c: Caller, which: int, who: int, i: int)
    requires c.index < |ts|
  {
    0 <= i < |ts| && Selects(ts[c.index], c.ns, which, who, ts[i])
  }

  ghost predicate Refused(ts: Tasks, c: Caller, which: int, who: int, nice: int, i: int)
    requires c.index < |ts|
  {
    Match(ts, c, which, who, i) && !Accepted(ts[c.index], c.capable, ts[i], nice)
  }

  /** `last` is the last refused match among the first k tasks. */
  ghost predicate LastRefused(ts: Tasks, c: Caller, which: int, who: int, nice: int, k: nat, last: int)
    requires c.index < |ts| && k <= |ts|
  {
    && Refused(ts, c, which, who, nice, last) && last < k
    && forall i | last < i < k :: !Refused(ts, c, which, who, nice, i)
  }

  ghost function AfterRefusal(ts: Tasks, c: Caller, which: int, who: int, nice: int, k: nat, last: int): int
    requires c.index < |ts| && k <= |ts| && Match(ts, c, which, who, last)
  {
    var e := Verdict(ts[c.index], c.capable, ts[last], nice);
    if e == -ESRCH && exists i :: last < i < k && Match(ts, c, which, who, i) then 0 else e
  }

  lemma {:induction false} NoRefusal(ts: Tasks, c: Caller, which: int, who: int, nice: int, k: nat)
    requires c.index < |ts| && k <= |ts| && forall i | 0 <= i < k :: !Refused(ts, c, which, who, nice, i)
    ensures Running(ts, c, which, who, nice, k)
            == if exists i :: i < k && Match(ts, c, which, who, i) then 0 else -ESRCH
  {
    if k > 0 {
      NoRefusal(ts, c, which, who, nice, k - 1);
      assert !Refused(ts, c, which, who, nice, k - 1);
      if Selects(ts[c.index], c.ns, which, who, ts[k - 1]) {
        assert Match(ts, c, which, who, k - 1);
      }
    }
  }

  lemma {:induction false} LastRefusalDecides(ts: Tasks, c: Caller, which: int, who: int, nice: int, k: nat, last: int)
    requires c.index < |ts| && k <= |ts| && LastRefused(ts, c, which, who, nice, k, last)
    ensures Running(ts, c, which, who, nice, k) == AfterRefusal(ts, c, which, who, nice, k, last)
  {
    if last < k - 1 {
      LastRefusalDecides(ts, c, which, who, nice, k - 1, last);
      assert !Refused(ts, c, which, who, nice, k - 1);
      if Selects(ts[c.index], c.ns, which, who, ts[k - 1]) {
        assert Match(ts, c, which, who, k - 1);
      }
    }
  }

  lemma {:induction false} SomeLastRefused(ts: Tasks, c: Caller, which: int, who: int, nice: int, k: nat, i: int)
    returns (last: int)
    requires c.index < |ts| && k <= |ts| && i < k && Refused(ts, c, which, who, nice, i)
    ensures LastRefused(ts, c, which, who, nice, k, last)
  {
    if Refused(ts, c, which, who, nice, k - 1) {
      last := k - 1;
    } else {
      last := SomeLastRefused(ts, c, which, who, nice, k - 1, i);
    }
  }

  /** What the error means, whatever the hooks answer. Without a refusal it is 0 or, without a match,
      -ESRCH. Otherwise it is the error of the last refusal, except that an accepted match after a last
      refusal with -ESRCH turns it into 0. */
  lemma RunningMeaning(ts: Tasks, c: Caller, which: int, who: int, nice: int)
    requires c.index < |ts|
    ensures (forall i :: !Refused(ts, c, which, who, nice, i)) ==>
              Running(ts, c, which, who, nice, |ts|) == if exists i :: Match(ts, c, which, who, i) then 0 else -ESRCH
    ensures forall last | LastRefused(ts, c, which, who, nice, |ts|, last) ::
              Running(ts, c, which, who, nice, |ts|) == AfterRefusal(ts, c, which, who, nice, |ts|, last)
  {
    if forall i :: !Refused(ts, c, which, who, nice, i) { NoRefusal(ts, c, which, who, nice, |ts|); }
    forall last | LastRefused(ts, c, which, who, nice, |ts|, last)
      ensures Running(ts, c, which, who, nice, |ts|) == AfterRefusal(ts, c, which, who, nice, |ts|, last)
    {
      LastRefusalDecides(ts, c, which, who, nice, |ts|, last);
    }
  }

  /** The documented reading of a return code: -ESRCH iff nothing matched, 0 iff something matched and every
      match was accepted, the last refusal's error otherwise. */
  ghost predicate ReadAsDocumented(ts: Tasks, c: Caller, which: int, who: int, nice: int, ret: int)
    requires c.index < |ts|
  {
    && (ret == -ESRCH <==> forall i :: !Match(ts, c, which, who, i))
    && (ret == 0 <==> (exists i :: Match(ts, c, which, who, i)) && forall i :: !Refused(ts, c, which, who, nice, i))
    && forall last | LastRefused(ts, c, which, who, nice, |ts|, last) ::
         ret == Verdict(ts[c.index], c.capable, ts[last], nice)
  }

  /** The last refusal, if there is one, is not a security hook answering "no such task". */
  ghost predicate LastRefusalNotNoSuchTask(ts: Tasks, c: Caller, which: int, who: int, nice: int)
    requires c.index < |ts|
  {
    forall last | LastRefused(ts, c, which, who, nice, |ts|, last) ::
      Verdict(ts[c.index], c.capable, ts[last], nice) != -ESRCH
  }

  /** The code can be read as documented exactly when the last refusal is not one with -ESRCH: other tasks, and
      matches refused earlier, may have such a hook. */
  lemma ReturnCodeIff(ts: Tasks, c: Caller, which: int, who: int, nice: int)
    requires c.index < |ts|
    ensures ReadAsDocumented(ts, c, which, who, nice, Running(ts, c, which, who, nice, |ts|))
            <==> LastRefusalNotNoSuchTask(ts, c, which, who, nice)
  {
    var ret := Running(ts, c, which, who, nice, |ts|);
    RunningMeaning(ts, c, which, who, nice);
    if i :| Refused(ts, c, which, who, nice, i) {
      var last := SomeLastRefused(ts, c, which, who, nice, |ts|, i);
      assert Match(ts, c, which, who, last);
      assert ret == AfterRefusal(ts, c, which, who, nice, |ts|, last);
      forall other | LastRefused(ts, c, which, who, nice, |ts|, other)
        ensures other == last
      {
        assert Refused(ts, c, which, who, nice, other) && Refused(ts, c, which, who, nice, last);
      }
    }
  }

  /** A concrete list where it cannot: a task refused with -ESRCH by its hook, followed by an accepted
      one, gives 0 although not every match was accepted. */
  lemma HookNoSuchTaskIsMasked(me: Task)
    requires me.pid != 0 && me.uid == me.euid && me.hook == 0 && -20 <= me.nice <= 19
    ensures var ts := [me.(pid := me.pid + 1, hook := -ESRCH), me];
            var c := Caller(1, map[], false);
            && Running(ts, c, PRIO_PGRP, 0, 19, 2) == 0
            && Refused(ts, c, PRIO_PGRP, 0, 19, 0)
            && !ReadAsDocumented(ts, c, PRIO_PGRP, 0, 19, 0)
  {
    var ts := [me.(pid := me.pid + 1, hook := -ESRCH), me];
    var c := Caller(1, map[], false);
    assert Running(ts, c, PRIO_PGRP, 0, 19, 0) == -ESRCH;
    assert Running(ts, c, PRIO_PGRP, 0, 19, 1) == -ESRCH;
  }

  // ---------------------------------------------------------------- which tasks change

  /** The answer for one task, in terms of its fields. */
  lemma VerdictExactly(me: Task, capable: bool, t: Task, nice: int)
    ensures var owned := t.capable || t.uid == me.euid || t.euid == me.euid;
            var affordable := t.nice <= nice || 20 - nice <= t.limit || capable;
            && (!owned ==> Verdict(me, capable, t, nice) == -EPERM)
            && (owned && !affordable ==> Verdict(me, capable, t, nice) == -EACCES)
            && (owned && affordable ==> Verdict(me, capable, t, nice) == t.hook)
            && (Accepted(me, capable, t, nice) <==> owned && affordable && t.hook == 0)
  {
  }

  /** Exactly which tasks a call changes, and how, in terms of their fields: those the selector names, that the
      caller owns or may administer, whose niceness is not lowered below what their limit allows (except by a
      capable caller), and whose security hook agrees. */
  lemma {:induction false} AfterExactly(ts: Tasks, c: Caller, which: int, who: int, nice: int, i: nat)
    requires c.index < |ts| && i < |ts| && PRIO_PROCESS <= which <= PRIO_USER
    ensures var me, t, t' := ts[c.index], ts[i], After(ts, c, which, who, nice)[i];
            var key := if who != 0 then who else if which == PRIO_PROCESS then me.pid else me.pgrp;
            var user := if who == 0 then me.uid else if who in c.ns then c.ns[who] else NO_ID;
            var selected := (which == PRIO_PROCESS && t.pid == key && t.pid != 0)
                            || (which == PRIO_PGRP && t.pgrp == key)
                            || (which == PRIO_USER && t.uid == user && t.pid != 0);
            && (Match(ts, c, which, who, i) <==> selected)
            && (t' != t ==> selected && t' == t.(nice := nice) && t.hook == 0)
            && (t' != t ==> t.capable || t.uid == me.euid || t.euid == me.euid)
            && (t'.nice < t.nice ==> c.capable || 20 - t'.nice <= t.limit)
            && (selected && t.hook == 0 ==>
                  (t.capable || t.uid == me.euid || t.euid == me.euid) ==>
                    (t.nice <= nice || 20 - nice <= t.limit || c.capable) ==> t'.nice == nice)
  {
    VerdictExactly(ts[c.index], c.capable, ts[i], nice);
  }

  /** One setpriority() call. */
  datatype Request = Request(c: Caller, which: int, who: int, nice: int)

  ghost predicate UnprivilegedCalls(calls: seq<Request>, n: nat) {
    forall q <- calls :: q.c.index < n && !q.c.capable && PRIO_PROCESS <= q.which <= PRIO_USER
  }

  function RunCalls(ts: Tasks, calls: seq<Request>): (r: Tasks)
    requires forall q <- calls :: q.c.index < |ts|
    ensures |r| == |ts|
    decreases |calls|
  {
    if calls == [] then ts
    else
      assert calls[0] in calls;
      RunCalls(After(ts, calls[0].c, calls[0].which, calls[0].who, calls[0].nice), calls[1..])
  }

  /** Over every run of calls by callers without the capability, whoever owns the tasks, no niceness falls
      below both what it was and what the task's limit allows; and nothing but the niceness changes. */
  lemma {:induction false} UnprivilegedRunsRespectLimits(ts: Tasks, calls: seq<Request>, i: nat)
    requires UnprivilegedCalls(calls, |ts|) && i < |ts|
    ensures var t, t' := ts[i], RunCalls(ts, calls)[i];
            t'.nice >= (if 20 - t.limit < t.nice then 20 - t.limit else t.nice) && t' == t.(nice := t'.nice)
    decreases |calls|
  {
    if calls != [] {
      var q := calls[0];
      assert q in calls && forall p <- calls[1..] :: p in calls;
      AfterExactly(ts, q.c, q.which, q.who, q.nice, i);
      UnprivilegedRunsRespectLimits(After(ts, q.c, q.which, q.who, q.nice), calls[1..], i);
    }
  }

  // ---------------------------------------------------------------- getpriority

  /** ret is 20 minus the lowest selected niceness, or -ESRCH when nothing is selected. */
  ghost predicate IsPriority(ts: Tasks, c: Caller, which: int, who: int, ret: int)
    requires c.index < |ts|
  {
    if forall i :: !Match(ts, c, which, who, i) then ret == -ESRCH
    else && (exists i :: Match(ts, c, which, who, i) && ret == 20 - ts[i].nice)
         && (forall i | Match(ts, c, which, who, i) :: 20 - ts[i].nice <= ret)
  }

  /** A 0 always means that some match was accepted. */
  lemma ZeroMeansSomeAccepted(ts: Tasks, c: Caller, which: int, who: int, nice: int) returns (i: int)
    requires c.index < |ts| && Running(ts, c, which, who, nice, |ts|) == 0
    ensures Match(ts, c, which, who, i) && !Refused(ts, c, which, who, nice, i)
  {
    RunningMeaning(ts, c, which, who, nice);
    if k :| Refused(ts, c, which, who, nice, k) {
      var last := SomeLastRefused(ts, c, which, who, nice, |ts|, k);
      assert AfterRefusal(ts, c, which, who, nice, |ts|, last) == 0;
      i :| last < i < |ts| && Match(ts, c, which, who, i);
    } else {
      i :| Match(ts, c, which, who, i);
    }
  }

  /** After a setpriority() that returns 0 the same selector reads back what was set, exactly when every match
      refused on the way (hidden by the 0) was at least as nice already; so it does whenever the 0 hides no
      refusal. */
  lemma GetAfterSet(ts: Tasks, c: Caller, which: int, who: int, nice: int, ret: int)
    requires c.index < |ts| && Running(ts, c, which, who, nice, |ts|) == 0
    requires IsPriority(After(ts, c, which, who, nice), c, which, who, ret)
    ensures ret == 20 - nice <==> forall i | Refused(ts, c, which, who, nice, i) :: nice <= ts[i].nice
    ensures LastRefusalNotNoSuchTask(ts, c, which, who, nice) ==> ret == 20 - nice
  {
    ReturnCodeIff(ts, c, which, who, nice);
    var ts' := After(ts, c, which, who, nice);
    assert forall i :: Match(ts', c, which, who, i) <==> Match(ts, c, which, who, i);
    assert forall i | Match(ts', c, which, who, i) ::
      ts'[i].nice == if Refused(ts, c, which, who, nice, i) then ts[i].nice else nice;
    var accepted := ZeroMeansSomeAccepted(ts, c, which, who, nice);
    assert Match(ts', c, which, who, accepted);
    if i :| Refused(ts, c, which, who, nice, i) && ts[i].nice < nice {
      assert Match(ts', c, which, who, i);
    }
  }

  // ---------------------------------------------------------------- the system calls, in place

  /** The process group or the user that a group selector names. */
  ghost predicate IsKey(me: Task, ns: Namespace, which: int, who: int, key: int) {
    || (which == PRIO_PGRP && key == if who == 0 then me.pgrp else who)
    || (which == PRIO_USER && key == if who == 0 then me.uid else MakeId(ns, who))
  }

  /** Everything of a task but its niceness. */
  predicate SameIdentity(t: Task, t': Task) { t' == t.(nice := t'.nice) }

  /** The list while the walk is at index i: everything before it is done. */
  ghost predicate Partway(now: Tasks, was: Tasks, c: Caller, which: int, who: int, nice: int, i: nat) {
    && c.index < |was| == |now| && i <= |was|
    && (forall k | 0 <= k < i :: now[k] == After(was, c, which, who, nice)[k])
    && (forall k | i <= k < |was| :: now[k] == was[k])
  }

  lemma PartwayStep(now: Tasks, was: Tasks, c: Caller, which: int, who: int, nice: int, i: nat)
    requires Partway(now, was, c, which, who, nice, i) && i < |was|
    ensures now[i] == was[i] && SameIdentity(was[c.index], now[c.index])
    ensures var me := was[c.index];
            var hit := Selects(me, c.ns, which, who, was[i]) && Accepted(me, c.capable, was[i], nice);
            Partway(if hit then now[i := was[i].(nice := nice)] else now, was, c, which, who, nice, i + 1)
  {
  }

  lemma AfterValid(ts: Tasks, c: Caller, which: int, who: int, nice: int)
    requires c.index < |ts| && ValidTasks(ts) && MIN_NICE <= nice <= MAX_NICE
    ensures ValidTasks(After(ts, c, which, who, nice))
  {
    var ts' := After(ts, c, which, who, nice);
    assert forall i | 0 <= i < |ts| :: ts[i] in ts && ts'[i].pid == ts[i].pid;
  }

  lemma {:induction false} NoMatch(ts: Tasks, c: Caller, which: int, who: int, nice: int, k: nat)
    requires c.index < |ts| && k <= |ts| && forall i | 0 <= i < |ts| :: !Selects(ts[c.index], c.ns, which, who, ts[i])
    ensures Running(ts, c, which, who, nice, k) == -ESRCH
  {
    if k > 0 { NoMatch(ts, c, which, who, nice, k - 1); }
  }

  /** With at most one match the walk over all tasks is one step for that task. */
  lemma {:induction false} OnlyMatch(ts: Tasks, c: Caller, who: int, nice: int, p: Option<nat>, k: nat)
    requires c.index < |ts| && k <= |ts|
    requires p.Some? ==> p.value < |ts| && forall i :: Match(ts, c, PRIO_PROCESS, who, i) <==> i == p.value
    requires p.None? ==> forall i :: !Match(ts, c, PRIO_PROCESS, who, i)
    ensures Running(ts, c, PRIO_PROCESS, who, nice, k) ==
            if p.None? || k <= p.value then -ESRCH
            else if Accepted(ts[c.index], c.capable, ts[p.value], nice) then 0
            else Verdict(ts[c.index], c.capable, ts[p.value], nice)
    ensures forall i | 0 <= i < |ts| :: Selects(ts[c.index], c.ns, PRIO_PROCESS, who, ts[i]) <==> p == Some(i)
  {
    assert forall i | 0 <= i < |ts| ::
      Match(ts, c, PRIO_PROCESS, who, i) <==> Selects(ts[c.index], c.ns, PRIO_PROCESS, who, ts[i]);
    if k > 0 {
      OnlyMatch(ts, c, who, nice, p, k - 1);
      assert Match(ts, c, PRIO_PROCESS, who, k - 1) <==> p == Some(k - 1);
    }
  }

  class TaskList {
    var tasks: Tasks

    method SetOnePrio(c: Caller, i: nat, nice: int, error: int) returns (error': int)
      requires c.index < |tasks| && i < |tasks|
      modifies this
      ensures var me, t := old(tasks)[c.index], old(tasks)[i];
              && tasks == (if Accepted(me, c.capable, t, nice) then old(tasks)[i := t.(nice := nice)] else old(tasks))
              && error' == if !Accepted(me, c.capable, t, nice) then Verdict(me, c.capable, t, nice)
                           else if error == -ESRCH then 0 else error
    {
      var me, t := tasks[c.index], tasks[i];
      if !(t.uid == me.euid || t.euid == me.euid || t.capable) { return -EPERM; }
      if nice < t.nice && !(20 - nice <= t.limit || c.capable) { return -EACCES; }
      if t.hook != 0 { return t.hook; }
      error' := error;
      if error' == -ESRCH { error' := 0; }
      tasks := tasks[i := t.(nice := nice)];
    }

    /** find_task_by_vpid(), with 0 for the caller itself. */
    method FindTask(c: Caller, who: int) returns (p: Option<nat>)
      requires c.index < |tasks| && ValidTasks(tasks) && tasks[c.index].pid != 0
      ensures p.Some? ==> p.value < |tasks| && forall i :: Match(tasks, c, PRIO_PROCESS, who, i) <==> i == p.value
      ensures p.None? ==> forall i :: !Match(tasks, c, PRIO_PROCESS, who, i)
    {
      if who == 0 { return Some(c.index); }
      for i := 0 to |tasks|
        invariant forall k | 0 <= k < i :: tasks[k].pid != who || who == 0
      {
        if tasks[i].pid == who { return Some(i); }
      }
      return None;
    }

    /** The loop over all tasks of a process group, or of a user. */
    method SetEachPrio(c: Caller, which: int, ghost who: int, key: int, nice: int, ghost all: Tasks)
      returns (error: int)
      requires c.index < |tasks| && all == After(tasks, c, which, who, nice)
      requires IsKey(tasks[c.index], c.ns, which, who, key)
      modifies this
      ensures tasks == all
      ensures error == Running(old(tasks), c, which, who, nice, |tasks|)
    {
      error := -ESRCH;
      ghost var was := tasks;
      for i := 0 to |tasks|
        invariant Partway(tasks, was, c, which, who, nice, i)
        invariant error == Running(was, c, which, who, nice, i)
      {
        PartwayStep(tasks, was, c, which, who, nice, i);
        var hit := if which == PRIO_PGRP then tasks[i].pgrp == key else tasks[i].uid == key && tasks[i].pid != 0;
        if hit {
          error := SetOnePrio(c, i, nice, error);
        }
      }
    }

    method Setpriority(c: Caller, which: int, who: int, niceval: int) returns (error: int)
      requires c.index < |tasks| && ValidTasks(tasks) && tasks[c.index].pid != 0
      modifies this
      ensures ValidTasks(tasks)
      ensures which < PRIO_PROCESS || which > PRIO_USER ==> error == -EINVAL && tasks == old(tasks)
      ensures PRIO_PROCESS <= which <= PRIO_USER ==>
                && tasks == After(old(tasks), c, which, who, Clamp(niceval))
                && error == Running(old(tasks), c, which, who, Clamp(niceval), |tasks|)
    {
      if which > PRIO_USER || which < PRIO_PROCESS { return -EINVAL; }
      error := -ESRCH;
      var nice := niceval;
      if nice < MIN_NICE { nice := MIN_NICE; }
      if nice > MAX_NICE { nice := MAX_NICE; }
      ghost var all := After(tasks, c, which, who, nice);
      AfterValid(tasks, c, which, who, nice);
      if which == PRIO_PROCESS {
        var p := FindTask(c, who);
        OnlyMatch(tasks, c, who, nice, p, |tasks|);
        if p.Some? {
          error := SetOnePrio(c, p.value, nice, error);
        }
        assert tasks == all;
      } else if which == PRIO_PGRP {
        var pgrp := if who == 0 then tasks[c.index].pgrp else who;
        error := SetEachPrio(c, which, who, pgrp, nice, all);
      } else {
        var uid := if who == 0 then tasks[c.index].uid else MakeId(c.ns, who);
        if uid != tasks[c.index].uid && !exists i :: 0 <= i < |tasks| && tasks[i].uid == uid {
          NoMatch(tasks, c, which, who, nice, |tasks|);
          assert tasks == all;
          return;
        }
        error := SetEachPrio(c, which, who, uid, nice, all);
      }
    }

    /** The loop of getpriority() over all tasks of a process group, or of a user. */
    method BestPrio(c: Caller, which: int, ghost who: int, key: int) returns (ret: int)
      requires c.index < |tasks| && ValidTasks(tasks) && IsKey(tasks[c.index], c.ns, which, who, key)
      ensures IsPriority(tasks, c, which, who, ret)
    {
      ret := -ESRCH;
      ghost var best := -1;
      for i := 0 to |tasks|
        invariant best < i
        invariant if best < 0 then ret == -ESRCH else Match(tasks, c, which, who, best) && ret == 20 - tasks[best].nice
        invariant forall k | 0 <= k < i && Match(tasks, c, which, who, k) :: best >= 0 && 20 - tasks[k].nice <= ret
      {
        var hit := if which == PRIO_PGRP then tasks[i].pgrp == key else tasks[i].uid == key && tasks[i].pid != 0;
        if hit {
          assert tasks[i] in tasks;
          var niceval := 20 - tasks[i].nice;
          if niceval > ret {
            ret := niceval;
            best := i;
          }
        }
      }
    }

    method Getpriority(c: Caller, which: int, who: int) returns (ret: int)
      requires c.index < |tasks| && ValidTasks(tasks) && tasks[c.index].pid != 0
      ensures which < PRIO_PROCESS || which > PRIO_USER ==> ret == -EINVAL
      ensures PRIO_PROCESS <= which <= PRIO_USER ==> IsPriority(tasks, c, which, who, ret)
    {
      if which > PRIO_USER || which < PRIO_PROCESS { return -EINVAL; }
      ret := -ESRCH;
      if which == PRIO_PROCESS {
        var p := FindTask(c, who);
        if p.Some? {
          assert tasks[p.value] in tasks;
          assert Match(tasks, c, PRIO_PROCESS, who, p.value);
          var niceval := 20 - tasks[p.value].nice;
          if niceval > ret { ret := niceval; }
        }
      } else if which == PRIO_PGRP {
        ret := BestPrio(c, which, who, if who == 0 then tasks[c.index].pgrp else who);
      } else {
        var uid := if who == 0 then tasks[c.index].uid else MakeId(c.ns, who);
        if uid != tasks[c.index].uid && !exists i :: 0 <= i < |tasks| && tasks[i].uid == uid { return; }
        ret := BestPrio(c, which, who, uid);
      }
    }
  }
}
