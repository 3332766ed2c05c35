/** The four ids of a credential and what the set*uid / set*gid calls of kernel/sys.c make of them.
    One specification serves both families: the uid calls and the gid calls are each proved against it. */
module Ids {
  import opened Errno

  /** Real, effective, saved and filesystem id, as kernel-wide ids. */
  datatype Ids = Ids(r: int, e: int, s: int, fs: int)

  /** (uid_t) -1: "leave unchanged" as an argument, "no such id" as a kernel-wide id. */
  const NO_ID := 0xFFFF_FFFF

  /** A user namespace: from ids as the caller writes them to kernel-wide ids. */
  type Namespace = map<int, int>

  ghost predicate ValidNamespace(ns: Namespace) {
    && NO_ID !in ns && (forall id <- ns :: ns[id] != NO_ID)
    && forall a, b | a in ns && b in ns :: ns[a] == ns[b] ==> a == b
  }

  function MakeId(ns: Namespace, id: int): int {
    if id in ns then ns[id] else NO_ID
  }

  /** What the caller gets to see of a kernel-wide id that its namespace does not name. */
  const OVERFLOW_ID := 65534

  /** Some id the caller can write names k. */
  ghost predicate Mapped(ns: Namespace, k: int) { exists id :: id in ns && ns[id] == k }

  /** from_kuid_munged(): back from a kernel-wide id to the id as the caller writes it. */
  ghost function Munged(ns: Namespace, k: int): int {
    if Mapped(ns, k) then
      var id :| id in ns && ns[id] == k;
      id
    else OVERFLOW_ID
  }

  lemma MungedUndoesMakeId(ns: Namespace, id: int)
    requires ValidNamespace(ns) && id in ns
    ensures Munged(ns, MakeId(ns, id)) == id
  {
    var back := Munged(ns, ns[id]);
    assert back in ns && ns[back] == ns[id];
  }

  /** What the rest of the kernel answers during one call. */
  datatype Env = Env(capable: bool, prepares: bool, allocates: bool, hook: int, ucounts: int)

  /** The gid calls allocate no user and charge no ucounts. */
  function GidEnv(env: Env): Env { env.(allocates := true, ucounts := 0) }

  datatype Call =
    | SetRe(r: int, e: int)
    | Set(id: int)
    | SetRes(r: int, e: int, s: int)
    | SetFs(id: int)

  datatype Outcome = Outcome(ret: int, ids: Ids)

  predicate GivenButUnmapped(ns: Namespace, id: int) { id != NO_ID && MakeId(ns, id) == NO_ID }

  /** The new value of an id field. */
  function Pick(ns: Namespace, id: int, cur: int): int { if id == NO_ID then cur else MakeId(ns, id) }

  predicate Among(id: int, ids: Ids) { id == ids.r || id == ids.e || id == ids.s }

  /** How a call ends once permission is granted: charging a new user comes first, then the security
      hook, then the ucounts. */
  function Finish(cur: Ids, next: Ids, env: Env): Outcome {
    if next.r != cur.r && !env.allocates then Outcome(-EAGAIN, cur)
    else if env.hook < 0 then Outcome(env.hook, cur)
    else if env.ucounts < 0 then Outcome(env.ucounts, cur)
    else Outcome(0, next)
  }

  function SetReOutcome(ns: Namespace, cur: Ids, r: int, e: int, env: Env): Outcome {
    if GivenButUnmapped(ns, r) || GivenButUnmapped(ns, e) then Outcome(-EINVAL, cur)
    else if !env.prepares then Outcome(-ENOMEM, cur)
    else
      var newR, newE := Pick(ns, r, cur.r), Pick(ns, e, cur.e);
      if !env.capable && ((r != NO_ID && newR != cur.r && newR != cur.e) || (e != NO_ID && !Among(newE, cur)))
      then Outcome(-EPERM, cur)
      else
        var savedToo := r != NO_ID || (e != NO_ID && newE != cur.r);
        Finish(cur, Ids(newR, newE, if savedToo then newE else cur.s, newE), env)
  }

  function SetOutcome(ns: Namespace, cur: Ids, id: int, env: Env): Outcome {
    var k := MakeId(ns, id);
    if k == NO_ID then Outcome(-EINVAL, cur)
    else if !env.prepares then Outcome(-ENOMEM, cur)
    else if env.capable then Finish(cur, Ids(k, k, k, k), env)
    else if k == cur.r || k == cur.s then Finish(cur, Ids(cur.r, k, cur.s, k), env)
    else Outcome(-EPERM, cur)
  }

  function SetResOutcome(ns: Namespace, cur: Ids, r: int, e: int, s: int, env: Env): Outcome {
    if GivenButUnmapped(ns, r) || GivenButUnmapped(ns, e) || GivenButUnmapped(ns, s) then Outcome(-EINVAL, cur)
    else
      var newR, newE, newS := Pick(ns, r, cur.r), Pick(ns, e, cur.e), Pick(ns, s, cur.s);
      if newR == cur.r && newE == cur.e && newS == cur.s && (e != NO_ID ==> newE == cur.fs) then Outcome(0, cur)
      else if !env.capable && !(Among(newR, cur) && Among(newE, cur) && Among(newS, cur)) then Outcome(-EPERM, cur)
      else if !env.prepares then Outcome(-ENOMEM, cur)
      else Finish(cur, Ids(newR, newE, newS, newE), env)
  }

  /** setfsuid() and setfsgid() report the old id whatever happened. */
  ghost function SetFsOutcome(ns: Namespace, cur: Ids, id: int, env: Env): Outcome {
    var k := MakeId(ns, id);
    if k != NO_ID && env.prepares && (Among(k, cur) || k == cur.fs || env.capable) && k != cur.fs && env.hook == 0
    then Outcome(Munged(ns, cur.fs), cur.(fs := k))
    else Outcome(Munged(ns, cur.fs), cur)
  }

  ghost function Apply(ns: Namespace, cur: Ids, call: Call, env: Env): Outcome {
    match call
    case SetRe(r, e) => SetReOutcome(ns, cur, r, e, env)
    case Set(id) => SetOutcome(ns, cur, id, env)
    case SetRes(r, e, s) => SetResOutcome(ns, cur, r, e, s, env)
    case SetFs(id) => SetFsOutcome(ns, cur, id, env)
  }

  // ---------------------------------------------------------------- what each call sets, in terms of the ids

  /** What is left to fail once a call is permitted and prepared: charging a user for a new real id, the security
      hook, the ucounts. */
  function Late(env: Env, newUser: bool): int {
    if newUser && !env.allocates then -EAGAIN
    else if env.hook < 0 then env.hook
    else if env.ucounts < 0 then env.ucounts
    else 0
  }

  /** setreuid(): which arguments are accepted, with which code the others are refused, and what is set. The saved id
      follows the effective one if the real id was given, or the effective id was set to something else than the
      real id. */
  lemma SetReExactly(ns: Namespace, cur: Ids, r: int, e: int, env: Env)
    requires ValidNamespace(ns)
    ensures var o := Apply(ns, cur, SetRe(r, e), env);
            var named := (r == NO_ID || r in ns) && (e == NO_ID || e in ns);
            && (!named ==> o.ret == -EINVAL)
            && (named && !env.prepares ==> o.ret == -ENOMEM)
            && (named && env.prepares ==>
                  var newR, newE := if r == NO_ID then cur.r else ns[r], if e == NO_ID then cur.e else ns[e];
                  var permitted := env.capable || ((r == NO_ID || newR in {cur.r, cur.e})
                                                   && (e == NO_ID || newE in {cur.r, cur.e, cur.s}));
                  o.ret == if permitted then Late(env, newR != cur.r) else -EPERM)
            && (o.ret != 0 ==> o.ids == cur)
            && (o.ret == 0 ==>
                  && o.ids.r == (if r == NO_ID then cur.r else ns[r])
                  && o.ids.e == (if e == NO_ID then cur.e else ns[e])
                  && o.ids.fs == o.ids.e
                  && o.ids.s == if r != NO_ID || (e != NO_ID && o.ids.e != cur.r) then o.ids.e else cur.s)
  {
  }

  /** setuid(): with the capability all four ids, without it only the effective and the filesystem id, and only to
      the real or the saved one. */
  lemma SetExactly(ns: Namespace, cur: Ids, id: int, env: Env)
    requires ValidNamespace(ns)
    ensures var o := Apply(ns, cur, Set(id), env);
            && (id !in ns ==> o.ret == -EINVAL)
            && (id in ns && !env.prepares ==> o.ret == -ENOMEM)
            && (id in ns && env.prepares ==>
                  o.ret == if env.capable then Late(env, ns[id] != cur.r)
                           else if ns[id] in {cur.r, cur.s} then Late(env, false)
                           else -EPERM)
            && (o.ret != 0 ==> o.ids == cur)
            && (o.ret == 0 ==> id in ns && o.ids == if env.capable then Ids(ns[id], ns[id], ns[id], ns[id])
                                                    else Ids(cur.r, ns[id], cur.s, ns[id]))
  {
  }

  /** setresuid(): each id given must be one of the three held, or the capability is needed; a call that asks for
      nothing new succeeds before anything can fail, and leaves the filesystem id alone. */
  lemma SetResExactly(ns: Namespace, cur: Ids, r: int, e: int, s: int, env: Env)
    requires ValidNamespace(ns)
    ensures var o := Apply(ns, cur, SetRes(r, e, s), env);
            var named := forall id <- [r, e, s] :: id == NO_ID || id in ns;
            && (!named ==> o == Outcome(-EINVAL, cur))
            && (named ==>
                  var newR, newE := if r == NO_ID then cur.r else ns[r], if e == NO_ID then cur.e else ns[e];
                  var newS := if s == NO_ID then cur.s else ns[s];
                  var nothingNew := newR == cur.r && newE == cur.e && newS == cur.s && (e != NO_ID ==> cur.fs == cur.e);
                  var held := {cur.r, cur.e, cur.s};
                  && o.ret == (if nothingNew then 0
                               else if !env.capable && !(newR in held && newE in held && newS in held) then -EPERM
                               else if !env.prepares then -ENOMEM
                               else Late(env, newR != cur.r))
                  && o.ids == if o.ret != 0 || nothingNew then cur else Ids(newR, newE, newS, newE))
  {
    assert r in [r, e, s] && e in [r, e, s] && s in [r, e, s];
  }

  /** setfsuid(): only the filesystem id, and only to an id held in one of the four places unless capable. */
  lemma SetFsExactly(ns: Namespace, cur: Ids, id: int, env: Env)
    requires ValidNamespace(ns)
    ensures var o := Apply(ns, cur, SetFs(id), env);
            && (forall old_ | old_ in ns && ns[old_] == cur.fs :: o.ret == old_)
            && ((forall old_ | old_ in ns :: ns[old_] != cur.fs) ==> o.ret == 65534)
            && o.ids == cur.(fs := o.ids.fs)
            && o.ids.fs == if id in ns && env.prepares && env.hook == 0
                              && (env.capable || ns[id] in {cur.r, cur.e, cur.s}) then ns[id] else cur.fs
  {
  }

  /** setfsuid() reports no failure; but what the next call returns (here one that asks for no id and so leaves
      everything as it is) tells whether the id was taken. */
  lemma SecondSetFsTells(ns: Namespace, ids: Ids, id: int, env: Env, env': Env)
    requires ValidNamespace(ns) && Mapped(ns, ids.fs)
    ensures var o := Apply(ns, ids, SetFs(id), env);
            var again := Apply(ns, o.ids, SetFs(NO_ID), env');
            again.ids == o.ids && (again.ret == id <==> o.ids.fs == MakeId(ns, id))
  {
    var o := Apply(ns, ids, SetFs(id), env);
    if id in ns { MungedUndoesMakeId(ns, id); }
    assert Mapped(ns, o.ids.fs) by {
      if o.ids.fs != ids.fs { assert id in ns && ns[id] == o.ids.fs; }
    }
  }

  // ---------------------------------------------------------------- runs

  datatype Step = Step(call: Call, env: Env)

  ghost function Run(ns: Namespace, ids: Ids, steps: seq<Step>): Ids
    decreases |steps|
  {
    if steps == [] then ids
    else Run(ns, Apply(ns, ids, steps[0].call, steps[0].env).ids, steps[1..])
  }

  ghost function Codes(ns: Namespace, ids: Ids, steps: seq<Step>): seq<int>
    decreases |steps|
  {
    if steps == [] then []
    else
      var o := Apply(ns, ids, steps[0].call, steps[0].env);
      [o.ret] + Codes(ns, o.ids, steps[1..])
  }

  /** The next step of a run, with the codes collected so far in front. */
  lemma RunStep(ns: Namespace, ids: Ids, steps: seq<Step>, i: nat, codes: seq<int>)
    requires i < |steps|
    ensures var o := Apply(ns, ids, steps[i].call, steps[i].env);
            && Run(ns, ids, steps[i..]) == Run(ns, o.ids, steps[i + 1..])
            && codes + Codes(ns, ids, steps[i..]) == (codes + [o.ret]) + Codes(ns, o.ids, steps[i + 1..])
  {
    assert steps[i..][0] == steps[i] && steps[i..][1..] == steps[i + 1..];
  }

  function AsGid(steps: seq<Step>): seq<Step> {
    seq(|steps|, i requires 0 <= i < |steps| => Step(steps[i].call, GidEnv(steps[i].env)))
  }

  /** The uid and the gid family are one machine: from equal ids, the same calls give the same return
      codes and the same four ids, as long as user allocation and ucounts succeed on the uid side. */
  lemma {:induction false} UidAndGidRunsAgree(ns: Namespace, ids: Ids, steps: seq<Step>)
    requires forall st <- steps :: st.env.allocates && st.env.ucounts >= 0
    ensures Run(ns, ids, steps) == Run(ns, ids, AsGid(steps))
    ensures Codes(ns, ids, steps) == Codes(ns, ids, AsGid(steps))
    decreases |steps|
  {
    if steps != [] {
      var o := Apply(ns, ids, steps[0].call, steps[0].env);
      assert o == Apply(ns, ids, steps[0].call, GidEnv(steps[0].env));
      assert AsGid(steps)[1..] == AsGid(steps[1..]);
      UidAndGidRunsAgree(ns, o.ids, steps[1..]);
    }
  }

  function IdSet(ids: Ids): set<int> { {ids.r, ids.e, ids.s} }

  /** Only setfsuid() and setfsgid() return something else than 0 when they succeed. */
  predicate Failed(call: Call, ret: int) { !call.SetFs? && ret != 0 }

  /** A failed call changes nothing; every call without the capability only moves ids around. */
  lemma UnprivilegedCallsDoNotGrow(ns: Namespace, ids: Ids, call: Call, env: Env)
    requires !env.capable && ids.fs in IdSet(ids)
    ensures var o := Apply(ns, ids, call, env);
            && IdSet(o.ids) <= IdSet(ids) && o.ids.fs in IdSet(o.ids)
            && (Failed(call, o.ret) ==> o.ids == ids)
  {
  }

  ghost predicate Unprivileged(steps: seq<Step>) { forall st <- steps :: !st.env.capable }

  /** Without the capability no run ever gains an id. */
  lemma {:induction false} UnprivilegedRunsDoNotGrow(ns: Namespace, ids: Ids, steps: seq<Step>)
    requires Unprivileged(steps) && ids.fs in IdSet(ids)
    ensures IdSet(Run(ns, ids, steps)) <= IdSet(ids) && Run(ns, ids, steps).fs in IdSet(Run(ns, ids, steps))
    decreases |steps|
  {
    if steps != [] {
      UnprivilegedCallsDoNotGrow(ns, ids, steps[0].call, steps[0].env);
      UnprivilegedRunsDoNotGrow(ns, Apply(ns, ids, steps[0].call, steps[0].env).ids, steps[1..]);
    }
  }

  /** Dropping everything is final: once all four ids are equal they stay so. */
  lemma {:induction false} AllEqualIsAbsorbing(ns: Namespace, k: int, steps: seq<Step>)
    requires Unprivileged(steps)
    ensures Run(ns, Ids(k, k, k, k), steps) == Ids(k, k, k, k)
  {
    UnprivilegedRunsDoNotGrow(ns, Ids(k, k, k, k), steps);
    var end := Run(ns, Ids(k, k, k, k), steps);
    assert end.r in IdSet(end) && end.e in IdSet(end) && end.s in IdSet(end);
  }

  /** setuid() by a privileged process followed by any unprivileged run ends where setuid() put it. */
  lemma PrivilegedSetIsPermanent(ns: Namespace, ids: Ids, id: int, env: Env, steps: seq<Step>)
    requires env.capable && Apply(ns, ids, Set(id), env).ret == 0 && Unprivileged(steps)
    ensures var k := MakeId(ns, id);
            Run(ns, ids, [Step(Set(id), env)] + steps) == Ids(k, k, k, k)
  {
    var k := MakeId(ns, id);
    assert ([Step(Set(id), env)] + steps)[1..] == steps;
    AllEqualIsAbsorbing(ns, k, steps);
  }

  /** So does a privileged setreuid() that sets both ids: it takes the saved id along, which is what lets a set-id
      program give up its privileges for good. */
  lemma PrivilegedSetReIsPermanent(ns: Namespace, ids: Ids, id: int, env: Env, steps: seq<Step>)
    requires env.capable && id != NO_ID && Apply(ns, ids, SetRe(id, id), env).ret == 0 && Unprivileged(steps)
    ensures id in ns
    ensures Run(ns, ids, [Step(SetRe(id, id), env)] + steps) == Ids(ns[id], ns[id], ns[id], ns[id])
  {
    assert ([Step(SetRe(id, id), env)] + steps)[1..] == steps;
    AllEqualIsAbsorbing(ns, ns[id], steps);
  }

  ghost predicate Reachable(ns: Namespace, ids: Ids, end: Ids) {
    exists steps: seq<Step> :: Unprivileged(steps) && Run(ns, ids, steps) == end
  }

  const QUIET := Env(false, true, true, 0, 0)

  lemma IdOf(ns: Namespace, k: int) returns (id: int)
    requires ValidNamespace(ns) && Mapped(ns, k)
    ensures id in ns && ns[id] == k && id != NO_ID && k != NO_ID
  {
    id :| id in ns && ns[id] == k;
  }

  /** Exactly what an unprivileged process can make of its ids: any real, effective and saved id it
      already holds in one of the three places, and as filesystem id any of the three it ends with. */
  lemma UnprivilegedReach(ns: Namespace, ids: Ids, end: Ids)
    requires ValidNamespace(ns) && ids.fs in IdSet(ids) && Mapped(ns, ids.r) && Mapped(ns, ids.e) && Mapped(ns, ids.s)
    ensures Reachable(ns, ids, end) <==> IdSet(end) <= IdSet(ids) && end.fs in IdSet(end)
  {
    if Reachable(ns, ids, end) {
      var steps: seq<Step> :| Unprivileged(steps) && Run(ns, ids, steps) == end;
      UnprivilegedRunsDoNotGrow(ns, ids, steps);
    }
    if IdSet(end) <= IdSet(ids) && end.fs in IdSet(end) {
      assert end.r in IdSet(end) && end.e in IdSet(end) && end.s in IdSet(end);
      var r := IdOf(ns, end.r);
      var e := IdOf(ns, end.e);
      var s := IdOf(ns, end.s);
      var fs := IdOf(ns, end.fs);
      var steps := [Step(SetRes(r, e, s), QUIET), Step(SetFs(fs), QUIET)];
      var mid := Apply(ns, ids, SetRes(r, e, s), QUIET).ids;
      assert mid == Ids(end.r, end.e, end.s, end.e);
      assert steps[1..] == [Step(SetFs(fs), QUIET)] && steps[1..][1..] == [];
      assert Run(ns, mid, steps[1..]) == Run(ns, end, []);
      assert Run(ns, ids, steps) == end;
    }
  }
}
