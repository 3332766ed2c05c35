/** The credential system calls of kernel/sys.c in place: set_user and the set*uid / set*gid families
    over a table of credentials and reference-counted user structures. */
module Credentials {
  import opened Errno
  import opened Ids

  /** A task's credential; `user` points at a user structure. */
  datatype Cred = Cred(uids: Ids, gids: Ids, user: int)

  datatype User = User(uid: int, count: int)

  type Creds = map<int, Cred>
  type Users = map<int, User>

  ghost function Holders(creds: Creds, u: int): set<int> {
    set p | p in creds && creds[p].user == u
  }

  /** Structure u is counted once per credential that points at it and once per pending reference
      (a prepared credential, a find_user() not yet undone); uncounted structures are freed. */
  ghost predicate CountOk(users: Users, creds: Creds, pending: multiset<int>, u: int) {
    var refs := |Holders(creds, u)| + pending[u];
    if u in users then users[u].count == refs > 0 else refs == 0
  }

  ghost predicate Balanced(users: Users, creds: Creds, pending: multiset<int>) {
    forall u :: CountOk(users, creds, pending, u)
  }

  /** The uid hash holds one structure per uid. */
  ghost predicate UidsDistinct(users: Users) {
    forall u, v | u in users && v in users :: users[u].uid == users[v].uid ==> u == v
  }

  /** Every committed credential points at the structure of its real uid. */
  ghost predicate UsersMatch(users: Users, creds: Creds) {
    forall p <- creds :: creds[p].user in users && users[creds[p].user].uid == creds[p].uids.r
  }

  lemma HoldersUpdate(creds: Creds, p: int, c: Cred, u: int)
    ensures |Holders(creds[p := c], u)| ==
            |Holders(creds, u)| + (if c.user == u then 1 else 0) - (if p in creds && creds[p].user == u then 1 else 0)
  {
    var before, after := Holders(creds, u), Holders(creds[p := c], u);
    if c.user == u {
      assert after == (before - {p}) + {p};
    } else {
      assert after == before - {p};
    }
  }

  lemma HoldersRemove(creds: Creds, p: int, u: int)
    requires p in creds
    ensures |Holders(creds - {p}, u)| == |Holders(creds, u)| - (if creds[p].user == u then 1 else 0)
  {
    assert Holders(creds - {p}, u) == Holders(creds, u) - {p};
  }

  lemma HolderInUsers(users: Users, creds: Creds, pending: multiset<int>, p: int)
    requires Balanced(users, creds, pending) && p in creds
    ensures creds[p].user in users
  {
    assert CountOk(users, creds, pending, creds[p].user);
    assert p in Holders(creds, creds[p].user);
  }

  lemma SomeHolder(creds: Creds, u: int) returns (p: int)
    requires |Holders(creds, u)| > 0
    ensures p in creds && creds[p].user == u
  {
    assert (forall q <- creds :: creds[q].user != u) ==> Holders(creds, u) == {};
    p :| p in creds && creds[p].user == u;
  }

  /** With no call in progress the credentials alone determine every count: so a call that leaves the
      credentials as they were leaves the counts as they were. */
  lemma CountsDeterminedByCreds(users: Users, users': Users, creds: Creds)
    requires Balanced(users, creds, multiset{}) && UsersMatch(users, creds)
    requires Balanced(users', creds, multiset{}) && UsersMatch(users', creds)
    ensures users == users'
  {
    forall u
      ensures u in users <==> u in users'
      ensures u in users ==> users[u] == users'[u]
    {
      assert CountOk(users, creds, multiset{}, u) && CountOk(users', creds, multiset{}, u);
      if u in users {
        var p := SomeHolder(creds, u);
      }
    }
  }

  datatype Event =
    | Uid(cur: int, ns: Namespace, step: Step)
    | Gid(cur: int, ns: Namespace, step: Step)
    | PriorityOfUser(cur: int, ns: Namespace, who: int)
    | Forks(cur: int, child: int, ok: bool)
    | Exits(cur: int)

  ghost predicate ValidEvent(e: Event) { !e.Forks? && !e.Exits? ==> ValidNamespace(e.ns) }

  ghost predicate ValidEvents(events: seq<Event>) { forall e <- events :: ValidEvent(e) }

  /** The ids of every process, without the bookkeeping. */
  datatype BothIds = BothIds(uids: Ids, gids: Ids)

  type IdTable = map<int, BothIds>

  ghost function IdsOf(creds: Creds): IdTable {
    map p | p in creds :: BothIds(creds[p].uids, creds[p].gids)
  }

  /** What one event makes of the ids: the calls act on their caller alone, a child starts with its
      parent's ids. */
  ghost function EventStep(t: IdTable, e: Event): IdTable {
    if e.cur !in t then t else
    match e
    case Uid(cur, ns, step) => t[cur := t[cur].(uids := Apply(ns, t[cur].uids, step.call, step.env).ids)]
    case Gid(cur, ns, step) => t[cur := t[cur].(gids := Apply(ns, t[cur].gids, step.call, GidEnv(step.env)).ids)]
    case PriorityOfUser(_, _, _) => t
    case Forks(cur, child, ok) => if ok && child !in t then t[child := t[cur]] else t
    case Exits(cur) => t - {cur}
  }

  ghost function SpecRun(t: IdTable, events: seq<Event>): IdTable
    decreases |events|
  {
    if events == [] then t else SpecRun(EventStep(t, events[0]), events[1..])
  }

  /** Only the uids of `cur` (and the structure they are charged to) may differ, and are as `o` says. */
  ghost predicate UidsSet(before: Creds, after: Creds, cur: int, o: Outcome)
    requires cur in before
  {
    cur in after && after == before[cur := Cred(o.ids, before[cur].gids, after[cur].user)]
  }

  /** Only the gids of `cur` may differ, and are as `o` says. */
  ghost predicate GidsSet(before: Creds, after: Creds, cur: int, o: Outcome)
    requires cur in before
  {
    after == before[cur := before[cur].(gids := o.ids)]
  }

  /** A commit that leaves every credential's user in place leaves the counts in place. */
  lemma SameUsers(users: Users, creds: Creds, users': Users, creds': Creds, cur: int)
    requires Balanced(users, creds, multiset{}) && UsersMatch(users, creds)
    requires Balanced(users', creds', multiset{}) && UsersMatch(users', creds')
    requires cur in creds && creds'.Keys == creds.Keys
    requires forall p <- creds :: creds'[p].user == creds[p].user && creds'[p].uids.r == creds[p].uids.r
    ensures users == users'
  {
    forall u ensures CountOk(users', creds, multiset{}, u) {
      assert CountOk(users', creds', multiset{}, u);
      forall p ensures p in Holders(creds, u) <==> p in Holders(creds', u) {
        assert p in creds <==> p in creds';
      }
      assert Holders(creds, u) == Holders(creds', u);
    }
    CountsDeterminedByCreds(users, users', creds);
  }

  class CredentialTable {
    var users: Users
    var creds: Creds
    var nextUser: int

    ghost predicate Holds(pending: multiset<int>)
      reads this
    {
      && Balanced(users, creds, pending) && UidsDistinct(users) && UsersMatch(users, creds)
      && forall u <- users :: u < nextUser
    }

    ghost predicate Valid() reads this { Holds(multiset{}) }

    /** At boot init runs with all ids 0, the only holder of the root user structure. */
    constructor ()
      ensures Valid() && creds == map[1 := Cred(Ids(0, 0, 0, 0), Ids(0, 0, 0, 0), 0)]
    {
      users := map[0 := User(0, 1)];
      creds := map[1 := Cred(Ids(0, 0, 0, 0), Ids(0, 0, 0, 0), 0)];
      nextUser := 1;
      new;
      assert Holders(creds, 0) == {1};
      forall u ensures CountOk(users, creds, multiset{}, u) {
        if u != 0 { assert Holders(creds, u) == {}; }
      }
    }

    /** from_kuid_munged() and from_kgid_munged(). */
    method FromMunged(ns: Namespace, k: int) returns (id: int)
      requires ValidNamespace(ns)
      ensures id == Munged(ns, k)
    {
      if i :| i in ns && ns[i] == k {
        MungedUndoesMakeId(ns, i);
        return i;
      }
      return OVERFLOW_ID;
    }

    // ------------------------------------------------------------ user structures

    method AllocUid(uid: int, ok: bool, ghost pending: multiset<int>) returns (user: Option<int>)
      requires Holds(pending)
      modifies this`users, this`nextUser
      ensures user.Some? <==> ok
      ensures user.None? ==> users == old(users) && nextUser == old(nextUser)
      ensures user.Some? ==> Holds(pending + multiset{user.value}) && user.value in users
                             && users[user.value].uid == uid
    {
      if !ok { return None; }
      var u := nextUser;
      if v :| v in users && users[v].uid == uid {
        u := v;
        users := users[v := users[v].(count := users[v].count + 1)];
      } else {
        assert CountOk(users, creds, pending, u);
        users := users[u := User(uid, 1)];
        nextUser := nextUser + 1;
      }
      forall w ensures CountOk(users, creds, pending + multiset{u}, w) {
        assert CountOk(old(users), creds, pending, w);
      }
      return Some(u);
    }

    method FreeUid(user: int, ghost pending: multiset<int>)
      requires user in pending && Holds(pending)
      modifies this`users
      ensures Holds(pending - multiset{user})
      ensures forall u <- users :: u in old(users) && users[u].uid == old(users)[u].uid
    {
      assert CountOk(users, creds, pending, user);
      if users[user].count == 1 {
        users := users - {user};
      } else {
        users := users[user := users[user].(count := users[user].count - 1)];
      }
      forall w ensures CountOk(users, creds, pending - multiset{user}, w) {
        assert CountOk(old(users), creds, pending, w);
      }
      forall p <- creds ensures creds[p].user in users && users[creds[p].user].uid == creds[p].uids.r {
        assert p in Holders(creds, creds[p].user);
        assert CountOk(users, creds, pending - multiset{user}, creds[p].user);
      }
    }

    // ------------------------------------------------------------ credentials

    method PrepareCreds(cur: int, ok: bool) returns (draft: Option<Cred>)
      requires Valid() && cur in creds
      modifies this`users
      ensures draft.Some? <==> ok
      ensures draft.None? ==> users == old(users)
      ensures draft.Some? ==> draft.value == creds[cur] && Holds(multiset{draft.value.user})
    {
      if !ok { return None; }
      var u := creds[cur].user;
      HolderInUsers(users, creds, multiset{}, cur);
      users := users[u := users[u].(count := users[u].count + 1)];
      forall w ensures CountOk(users, creds, multiset{u}, w) {
        assert CountOk(old(users), creds, multiset{}, w);
      }
      return Some(creds[cur]);
    }

    method AbortCreds(c: Cred)
      requires Holds(multiset{c.user})
      modifies this`users
      ensures Valid()
    {
      FreeUid(c.user, multiset{c.user});
      assert multiset{c.user} - multiset{c.user} == multiset{};
    }

    method CommitCreds(cur: int, c: Cred)
      requires Holds(multiset{c.user}) && cur in creds
      requires c.user in users && users[c.user].uid == c.uids.r
      modifies this`users, this`creds
      ensures Valid() && creds == old(creds)[cur := c]
    {
      var u := creds[cur].user;
      ghost var next := creds[cur := c];
      forall w ensures CountOk(users, next, multiset{u}, w) {
        HoldersUpdate(creds, cur, c, w);
        assert CountOk(users, creds, multiset{c.user}, w);
      }
      creds := creds[cur := c];
      assert forall w :: CountOk(users, creds, multiset{u}, w);
      FreeUid(u, multiset{u});
      assert multiset{u} - multiset{u} == multiset{};
    }

    method SetUser(c: Cred, ok: bool) returns (ret: int, c': Cred)
      requires Holds(multiset{c.user})
      modifies this`users, this`nextUser
      ensures ret == if ok then 0 else -EAGAIN
      ensures ret < 0 ==> c' == c && Holds(multiset{c.user})
      ensures ret == 0 ==> c' == c.(user := c'.user) && Holds(multiset{c'.user}) && c'.user in users
                           && users[c'.user].uid == c.uids.r
    {
      var u := AllocUid(c.uids.r, ok, multiset{c.user});
      if u.None? { return -EAGAIN, c; }
      FreeUid(c.user, multiset{c.user} + multiset{u.value});
      assert multiset{c.user} + multiset{u.value} - multiset{c.user} == multiset{u.value};
      assert CountOk(users, creds, multiset{u.value}, u.value);
      return 0, c.(user := u.value);
    }

    /** The common error exit: abort_creds(). */
    method Abandon(c: Cred, ghost before: Users)
      requires Holds(multiset{c.user}) && Balanced(before, creds, multiset{}) && UsersMatch(before, creds)
      modifies this`users
      ensures Valid() && users == before
    {
      AbortCreds(c);
      CountsDeterminedByCreds(before, users, creds);
    }

    /** The common tail of the uid calls: hook, ucounts, commit_creds(). */
    method Commit(cur: int, c: Cred, env: Env, ghost before: Users) returns (ret: int)
      requires Holds(multiset{c.user}) && cur in creds && c.user in users && users[c.user].uid == c.uids.r
      requires Balanced(before, creds, multiset{}) && UsersMatch(before, creds)
      modifies this`users, this`creds
      ensures Valid()
      ensures ret == if env.hook < 0 then env.hook else if env.ucounts < 0 then env.ucounts else 0
      ensures creds == if ret == 0 then old(creds)[cur := c] else old(creds)
      ensures ret != 0 ==> users == before
    {
      ret := env.hook;
      if ret < 0 { Abandon(c, before); return; }
      ret := env.ucounts;
      if ret < 0 { Abandon(c, before); return; }
      CommitCreds(cur, c);
      ret := 0;
    }

    // ------------------------------------------------------------ the uid family: write, then check

    method SetReuid(cur: int, ns: Namespace, ruid: int, euid: int, env: Env) returns (ret: int)
      requires Valid() && cur in creds
      modifies this
      ensures Valid() && UidsSet(old(creds), creds, cur, SetReOutcome(ns, old(creds[cur].uids), ruid, euid, env))
      ensures ret == SetReOutcome(ns, old(creds[cur].uids), ruid, euid, env).ret
      ensures ret != 0 ==> creds == old(creds) && users == old(users)
    {
      var kruid, keuid := MakeId(ns, ruid), MakeId(ns, euid);
      if ruid != NO_ID && kruid == NO_ID { return -EINVAL; }
      if euid != NO_ID && keuid == NO_ID { return -EINVAL; }
      var draft := PrepareCreds(cur, env.prepares);
      if draft.None? { return -ENOMEM; }
      var c, was := draft.value, creds[cur].uids;
      ret := -EPERM;
      if ruid != NO_ID {
        c := c.(uids := c.uids.(r := kruid));
        if was.r != kruid && was.e != kruid && !env.capable { Abandon(c, old(users)); return; }
      }
      if euid != NO_ID {
        c := c.(uids := c.uids.(e := keuid));
        if was.r != keuid && was.e != keuid && was.s != keuid && !env.capable { Abandon(c, old(users)); return; }
      }
      if c.uids.r != was.r {
        ret, c := SetUser(c, env.allocates);
        if ret < 0 { Abandon(c, old(users)); return; }
      } else {
        HolderInUsers(users, creds, multiset{c.user}, cur);
      }
      if ruid != NO_ID || (euid != NO_ID && keuid != was.r) {
        c := c.(uids := c.uids.(s := c.uids.e));
      }
      c := c.(uids := c.uids.(fs := c.uids.e));
      ret := Commit(cur, c, env, old(users));
    }

    method SetUid(cur: int, ns: Namespace, uid: int, env: Env) returns (ret: int)
      requires Valid() && cur in creds
      modifies this
      ensures Valid() && UidsSet(old(creds), creds, cur, SetOutcome(ns, old(creds[cur].uids), uid, env))
      ensures ret == SetOutcome(ns, old(creds[cur].uids), uid, env).ret
      ensures ret != 0 ==> creds == old(creds) && users == old(users)
    {
      var kuid := MakeId(ns, uid);
      if kuid == NO_ID { return -EINVAL; }
      var draft := PrepareCreds(cur, env.prepares);
      if draft.None? { return -ENOMEM; }
      var c, was := draft.value, creds[cur].uids;
      HolderInUsers(users, creds, multiset{c.user}, cur);
      ret := -EPERM;
      if env.capable {
        c := c.(uids := c.uids.(s := kuid, r := kuid));
        if kuid != was.r {
          ret, c := SetUser(c, env.allocates);
          if ret < 0 { Abandon(c, old(users)); return; }
        }
      } else if kuid != was.r && kuid != c.uids.s {
        Abandon(c, old(users));
        return;
      }
      c := c.(uids := c.uids.(fs := kuid, e := kuid));
      ret := Commit(cur, c, env, old(users));
    }

    /** The second half of setresuid(), once the change is known to be allowed and prepare_creds() to succeed. */
    method ChangeResuid(cur: int, ns: Namespace, ruid: int, euid: int, suid: int, env: Env) returns (ret: int)
      requires Valid() && cur in creds && env.prepares
      modifies this
      ensures var was := old(creds[cur].uids);
              var newE := Pick(ns, euid, was.e);
              var o := Finish(was, Ids(Pick(ns, ruid, was.r), newE, Pick(ns, suid, was.s), newE), env);
              Valid() && UidsSet(old(creds), creds, cur, o) && ret == o.ret
      ensures ret != 0 ==> creds == old(creds) && users == old(users)
    {
      var was := creds[cur].uids;
      var draft := PrepareCreds(cur, true);
      var c := draft.value;
      HolderInUsers(users, creds, multiset{c.user}, cur);
      if ruid != NO_ID {
        c := c.(uids := c.uids.(r := MakeId(ns, ruid)));
        if MakeId(ns, ruid) != was.r {
          ret, c := SetUser(c, env.allocates);
          if ret < 0 { Abandon(c, old(users)); return; }
        }
      }
      if euid != NO_ID { c := c.(uids := c.uids.(e := MakeId(ns, euid))); }
      if suid != NO_ID { c := c.(uids := c.uids.(s := MakeId(ns, suid))); }
      c := c.(uids := c.uids.(fs := c.uids.e));
      ret := Commit(cur, c, env, old(users));
    }

    method SetResuid(cur: int, ns: Namespace, ruid: int, euid: int, suid: int, env: Env) returns (ret: int)
      requires Valid() && cur in creds
      modifies this
      ensures Valid() && UidsSet(old(creds), creds, cur, SetResOutcome(ns, old(creds[cur].uids), ruid, euid, suid, env))
      ensures ret == SetResOutcome(ns, old(creds[cur].uids), ruid, euid, suid, env).ret
      ensures ret != 0 ==> creds == old(creds) && users == old(users)
    {
      var kruid, keuid, ksuid := MakeId(ns, ruid), MakeId(ns, euid), MakeId(ns, suid);
      if ruid != NO_ID && kruid == NO_ID { return -EINVAL; }
      if euid != NO_ID && keuid == NO_ID { return -EINVAL; }
      if suid != NO_ID && ksuid == NO_ID { return -EINVAL; }
      var was := creds[cur].uids;
      if (ruid == NO_ID || kruid == was.r) && (euid == NO_ID || (keuid == was.e && keuid == was.fs))
         && (suid == NO_ID || ksuid == was.s) {
        return 0;
      }
      var ruidNew := ruid != NO_ID && kruid != was.r && kruid != was.e && kruid != was.s;
      var euidNew := euid != NO_ID && keuid != was.r && keuid != was.e && keuid != was.s;
      var suidNew := suid != NO_ID && ksuid != was.r && ksuid != was.e && ksuid != was.s;
      if (ruidNew || euidNew || suidNew) && !env.capable { return -EPERM; }
      if !env.prepares { return -ENOMEM; }
      ret := ChangeResuid(cur, ns, ruid, euid, suid, env);
    }

    method SetFsuid(cur: int, ns: Namespace, uid: int, env: Env) returns (oldFsuid: int)
      requires Valid() && ValidNamespace(ns) && cur in creds
      modifies this
      ensures Valid() && users == old(users)
      ensures UidsSet(old(creds), creds, cur, SetFsOutcome(ns, old(creds[cur].uids), uid, env))
      ensures oldFsuid == Munged(ns, old(creds[cur].uids.fs))
    {
      var was := creds[cur].uids;
      oldFsuid := FromMunged(ns, was.fs);
      var kuid := MakeId(ns, uid);
      if kuid == NO_ID { return; }
      var draft := PrepareCreds(cur, env.prepares);
      if draft.None? { return; }
      var c := draft.value;
      HolderInUsers(users, creds, multiset{c.user}, cur);
      if kuid == was.r || kuid == was.e || kuid == was.s || kuid == was.fs || env.capable {
        if kuid != was.fs {
          c := c.(uids := c.uids.(fs := kuid));
          if env.hook == 0 {
            CommitCreds(cur, c);
            SameUsers(old(users), old(creds), users, creds, cur);
            return;
          }
        }
      }
      Abandon(c, old(users));
    }

    // ------------------------------------------------------------ the gid family: check, then write

    /** The common tail of the gid calls: hook, commit_creds(). */
    method CommitGids(cur: int, c: Cred, env: Env, ghost before: Users) returns (ret: int)
      requires Holds(multiset{c.user}) && cur in creds && c == creds[cur].(gids := c.gids)
      requires Balanced(before, creds, multiset{}) && UsersMatch(before, creds)
      modifies this`users, this`creds
      ensures Valid() && users == before
      ensures ret == if env.hook < 0 then env.hook else 0
      ensures creds == if ret == 0 then old(creds)[cur := c] else old(creds)
    {
      ret := env.hook;
      if ret < 0 { Abandon(c, before); return; }
      ghost var was := creds;
      CommitCreds(cur, c);
      SameUsers(before, was, users, creds, cur);
      ret := 0;
    }

    method SetRegid(cur: int, ns: Namespace, rgid: int, egid: int, env: Env) returns (ret: int)
      requires Valid() && cur in creds
      modifies this
      ensures Valid() && users == old(users)
      ensures GidsSet(old(creds), creds, cur, SetReOutcome(ns, old(creds[cur].gids), rgid, egid, GidEnv(env)))
      ensures ret == SetReOutcome(ns, old(creds[cur].gids), rgid, egid, GidEnv(env)).ret
    {
      var krgid, kegid := MakeId(ns, rgid), MakeId(ns, egid);
      if rgid != NO_ID && krgid == NO_ID { return -EINVAL; }
      if egid != NO_ID && kegid == NO_ID { return -EINVAL; }
      var draft := PrepareCreds(cur, env.prepares);
      if draft.None? { return -ENOMEM; }
      var c, was := draft.value, creds[cur].gids;
      ret := -EPERM;
      if rgid != NO_ID {
        if was.r == krgid || was.e == krgid || env.capable {
          c := c.(gids := c.gids.(r := krgid));
        } else {
          Abandon(c, old(users));
          return;
        }
      }
      if egid != NO_ID {
        if was.r == kegid || was.e == kegid || was.s == kegid || env.capable {
          c := c.(gids := c.gids.(e := kegid));
        } else {
          Abandon(c, old(users));
          return;
        }
      }
      if rgid != NO_ID || (egid != NO_ID && kegid != was.r) {
        c := c.(gids := c.gids.(s := c.gids.e));
      }
      c := c.(gids := c.gids.(fs := c.gids.e));
      ret := CommitGids(cur, c, env, old(users));
    }

    method SetGid(cur: int, ns: Namespace, gid: int, env: Env) returns (ret: int)
      requires Valid() && cur in creds
      modifies this
      ensures Valid() && users == old(users)
      ensures GidsSet(old(creds), creds, cur, SetOutcome(ns, old(creds[cur].gids), gid, GidEnv(env)))
      ensures ret == SetOutcome(ns, old(creds[cur].gids), gid, GidEnv(env)).ret
    {
      var kgid := MakeId(ns, gid);
      if kgid == NO_ID { return -EINVAL; }
      var draft := PrepareCreds(cur, env.prepares);
      if draft.None? { return -ENOMEM; }
      var c, was := draft.value, creds[cur].gids;
      ret := -EPERM;
      if env.capable {
        c := c.(gids := Ids(kgid, kgid, kgid, kgid));
      } else if kgid == was.r || kgid == was.s {
        c := c.(gids := c.gids.(e := kgid, fs := kgid));
      } else {
        Abandon(c, old(users));
        return;
      }
      ret := CommitGids(cur, c, env, old(users));
    }

    /** The second half of setresgid(), once the change is known to be allowed and prepare_creds() to succeed. */
    method ChangeResgid(cur: int, ns: Namespace, rgid: int, egid: int, sgid: int, env: Env) returns (ret: int)
      requires Valid() && cur in creds && env.prepares
      modifies this
      ensures var was := old(creds[cur].gids);
              var newE := Pick(ns, egid, was.e);
              var o := Finish(was, Ids(Pick(ns, rgid, was.r), newE, Pick(ns, sgid, was.s), newE), GidEnv(env));
              GidsSet(old(creds), creds, cur, o) && ret == o.ret
      ensures Valid() && users == old(users)
    {
      var draft := PrepareCreds(cur, true);
      var c := draft.value;
      if rgid != NO_ID { c := c.(gids := c.gids.(r := MakeId(ns, rgid))); }
      if egid != NO_ID { c := c.(gids := c.gids.(e := MakeId(ns, egid))); }
      if sgid != NO_ID { c := c.(gids := c.gids.(s := MakeId(ns, sgid))); }
      c := c.(gids := c.gids.(fs := c.gids.e));
      ret := CommitGids(cur, c, env, old(users));
    }

    method SetResgid(cur: int, ns: Namespace, rgid: int, egid: int, sgid: int, env: Env) returns (ret: int)
      requires Valid() && cur in creds
      modifies this
      ensures Valid() && users == old(users)
      ensures GidsSet(old(creds), creds, cur, SetResOutcome(ns, old(creds[cur].gids), rgid, egid, sgid, GidEnv(env)))
      ensures ret == SetResOutcome(ns, old(creds[cur].gids), rgid, egid, sgid, GidEnv(env)).ret
    {
      var krgid, kegid, ksgid := MakeId(ns, rgid), MakeId(ns, egid), MakeId(ns, sgid);
      if rgid != NO_ID && krgid == NO_ID { return -EINVAL; }
      if egid != NO_ID && kegid == NO_ID { return -EINVAL; }
      if sgid != NO_ID && ksgid == NO_ID { return -EINVAL; }
      var was := creds[cur].gids;
      if (rgid == NO_ID || krgid == was.r) && (egid == NO_ID || (kegid == was.e && kegid == was.fs))
         && (sgid == NO_ID || ksgid == was.s) {
        return 0;
      }
      var rgidNew := rgid != NO_ID && krgid != was.r && krgid != was.e && krgid != was.s;
      var egidNew := egid != NO_ID && kegid != was.r && kegid != was.e && kegid != was.s;
      var sgidNew := sgid != NO_ID && ksgid != was.r && ksgid != was.e && ksgid != was.s;
      if (rgidNew || egidNew || sgidNew) && !env.capable { return -EPERM; }
      if !env.prepares { return -ENOMEM; }
      ret := ChangeResgid(cur, ns, rgid, egid, sgid, env);
    }

    method SetFsgid(cur: int, ns: Namespace, gid: int, env: Env) returns (oldFsgid: int)
      requires Valid() && ValidNamespace(ns) && cur in creds
      modifies this
      ensures Valid() && users == old(users)
      ensures GidsSet(old(creds), creds, cur, SetFsOutcome(ns, old(creds[cur].gids), gid, GidEnv(env)))
      ensures oldFsgid == Munged(ns, old(creds[cur].gids.fs))
    {
      var was := creds[cur].gids;
      oldFsgid := FromMunged(ns, was.fs);
      var kgid := MakeId(ns, gid);
      if kgid == NO_ID { return; }
      var draft := PrepareCreds(cur, env.prepares);
      if draft.None? { return; }
      var c := draft.value;
      if (kgid == was.r || kgid == was.e || kgid == was.s || kgid == was.fs || env.capable) && kgid != was.fs
         && env.hook == 0 {
        c := c.(gids := c.gids.(fs := kgid));
        var ret := CommitGids(cur, c, env, old(users));
      } else {
        Abandon(c, old(users));
      }
    }

    // ------------------------------------------------------------ other users of the counts

    /** The selection part of setpriority() and getpriority() for PRIO_USER: find_user() takes a
        reference and free_uid() gives it back, whatever `who` names. */
    method SelectUser(cur: int, ns: Namespace, who: int) returns (uid: Option<int>)
      requires Valid() && cur in creds
      modifies this`users, this`nextUser
      ensures Valid() && users == old(users)
      ensures uid == if who == 0 || MakeId(ns, who) == creds[cur].uids.r then Some(creds[cur].uids.r)
                     else if exists p :: p in creds && creds[p].uids.r == MakeId(ns, who) then Some(MakeId(ns, who))
                     else None
    {
      var cred := creds[cur];
      var kuid, user := MakeId(ns, who), cred.user;
      if who == 0 {
        kuid := cred.uids.r;
      } else if kuid != cred.uids.r {
        if v :| v in users && users[v].uid == kuid {
          assert CountOk(users, creds, multiset{}, v);
          ghost var p := SomeHolder(creds, v);
          var found := AllocUid(kuid, true, multiset{});
          user := found.value;
          assert multiset{} + multiset{user} == multiset{user};
        } else {
          forall p <- creds ensures creds[p].uids.r != kuid { }
          return None;
        }
      }
      if kuid != cred.uids.r {
        FreeUid(user, multiset{user});
        assert multiset{user} - multiset{user} == multiset{};
      }
      CountsDeterminedByCreds(old(users), users, creds);
      return Some(kuid);
    }

    /** Copying a credential at fork and dropping one at exit, as steps of the environment. */
    method Fork(cur: int, child: int, ok: bool) returns (ret: int)
      requires Valid() && cur in creds && child !in creds
      modifies this
      ensures Valid()
      ensures creds == if ok then old(creds)[child := old(creds)[cur]] else old(creds)
    {
      var draft := PrepareCreds(cur, ok);
      if draft.None? { return -ENOMEM; }
      HolderInUsers(users, creds, multiset{draft.value.user}, cur);
      ghost var next := creds[child := draft.value];
      forall w ensures CountOk(users, next, multiset{}, w) {
        HoldersUpdate(creds, child, draft.value, w);
        assert CountOk(users, creds, multiset{draft.value.user}, w);
      }
      creds := creds[child := draft.value];
      assert forall w :: CountOk(users, creds, multiset{}, w);
      return child;
    }

    method Exit(cur: int)
      requires Valid() && cur in creds
      modifies this
      ensures Valid() && creds == old(creds) - {cur}
    {
      var u := creds[cur].user;
      ghost var next := creds - {cur};
      forall w ensures CountOk(users, next, multiset{u}, w) {
        HoldersRemove(creds, cur, w);
        assert CountOk(users, creds, multiset{}, w);
      }
      creds := creds - {cur};
      assert forall w :: CountOk(users, creds, multiset{u}, w);
      FreeUid(u, multiset{u});
      assert multiset{u} - multiset{u} == multiset{};
    }

    // ------------------------------------------------------------ runs

    method UidCall(cur: int, ns: Namespace, step: Step) returns (ret: int)
      requires Valid() && ValidNamespace(ns) && cur in creds
      modifies this
      ensures Valid() && UidsSet(old(creds), creds, cur, Apply(ns, old(creds[cur].uids), step.call, step.env))
      ensures ret == Apply(ns, old(creds[cur].uids), step.call, step.env).ret
      ensures Failed(step.call, ret) ==> creds == old(creds) && users == old(users)
    {
      match step.call {
        case SetRe(r, e) => ret := SetReuid(cur, ns, r, e, step.env);
        case Set(id) => ret := SetUid(cur, ns, id, step.env);
        case SetRes(r, e, s) => ret := SetResuid(cur, ns, r, e, s, step.env);
        case SetFs(id) => ret := SetFsuid(cur, ns, id, step.env);
      }
    }

    method GidCall(cur: int, ns: Namespace, step: Step) returns (ret: int)
      requires Valid() && ValidNamespace(ns) && cur in creds
      modifies this
      ensures Valid() && users == old(users)
      ensures GidsSet(old(creds), creds, cur, Apply(ns, old(creds[cur].gids), step.call, GidEnv(step.env)))
      ensures ret == Apply(ns, old(creds[cur].gids), step.call, GidEnv(step.env)).ret
    {
      match step.call {
        case SetRe(r, e) => ret := SetRegid(cur, ns, r, e, step.env);
        case Set(id) => ret := SetGid(cur, ns, id, step.env);
        case SetRes(r, e, s) => ret := SetResgid(cur, ns, r, e, s, step.env);
        case SetFs(id) => ret := SetFsgid(cur, ns, id, step.env);
      }
    }

    /** A run of calls of the uid family by one process. */
    method RunUid(cur: int, ns: Namespace, steps: seq<Step>) returns (codes: seq<int>)
      requires Valid() && ValidNamespace(ns) && cur in creds
      modifies this
      ensures Valid() && cur in creds && creds[cur].gids == old(creds[cur].gids)
      ensures codes == Codes(ns, old(creds[cur].uids), steps)
      ensures creds[cur].uids == Run(ns, old(creds[cur].uids), steps)
    {
      codes := [];
      for i := 0 to |steps|
        invariant Valid() && cur in creds && creds[cur].gids == old(creds[cur].gids)
        invariant codes + Codes(ns, creds[cur].uids, steps[i..]) == Codes(ns, old(creds[cur].uids), steps)
        invariant Run(ns, creds[cur].uids, steps[i..]) == Run(ns, old(creds[cur].uids), steps)
      {
        RunStep(ns, creds[cur].uids, steps, i, codes);
        var ret := UidCall(cur, ns, steps[i]);
        codes := codes + [ret];
      }
    }

    /** The same for the gid family. */
    method RunGid(cur: int, ns: Namespace, steps: seq<Step>) returns (codes: seq<int>)
      requires Valid() && ValidNamespace(ns) && cur in creds
      modifies this
      ensures Valid() && cur in creds && creds[cur].uids == old(creds[cur].uids)
      ensures codes == Codes(ns, old(creds[cur].gids), AsGid(steps))
      ensures creds[cur].gids == Run(ns, old(creds[cur].gids), AsGid(steps))
    {
      codes := [];
      ghost var gidSteps := AsGid(steps);
      for i := 0 to |steps|
        invariant Valid() && cur in creds && creds[cur].uids == old(creds[cur].uids)
        invariant codes + Codes(ns, creds[cur].gids, gidSteps[i..]) == Codes(ns, old(creds[cur].gids), gidSteps)
        invariant Run(ns, creds[cur].gids, gidSteps[i..]) == Run(ns, old(creds[cur].gids), gidSteps)
      {
        RunStep(ns, creds[cur].gids, gidSteps, i, codes);
        var ret := GidCall(cur, ns, steps[i]);
        codes := codes + [ret];
      }
    }

    /** Any run of uid calls and the same run of gid calls, started from equal ids: the code of the two
        families returns the same codes and ends in the same four ids, and the counts stay balanced. */
    method FamiliesAgree(cur: int, ns: Namespace, steps: seq<Step>) returns (uidCodes: seq<int>, gidCodes: seq<int>)
      requires Valid() && ValidNamespace(ns) && cur in creds && creds[cur].uids == creds[cur].gids
      requires forall st <- steps :: st.env.allocates && st.env.ucounts >= 0
      modifies this
      ensures Valid() && cur in creds
      ensures uidCodes == gidCodes == Codes(ns, old(creds[cur].uids), steps)
      ensures creds[cur].uids == creds[cur].gids == Run(ns, old(creds[cur].uids), steps)
    {
      UidAndGidRunsAgree(ns, creds[cur].uids, steps);
      uidCodes := RunUid(cur, ns, steps);
      gidCodes := RunGid(cur, ns, steps);
    }

    method OneEvent(e: Event)
      requires Valid() && ValidEvent(e)
      modifies this
      ensures Valid() && IdsOf(creds) == EventStep(old(IdsOf(creds)), e)
    {
      if e.cur !in creds { return; }
      match e {
        case Uid(cur, ns, step) => var ret := UidCall(cur, ns, step);
        case Gid(cur, ns, step) => var ret := GidCall(cur, ns, step);
        case PriorityOfUser(cur, ns, who) => var uid := SelectUser(cur, ns, who);
        case Forks(cur, child, ok) => if child !in creds { var ret := Fork(cur, child, ok); }
        case Exits(cur) => Exit(cur);
      }
    }

    /** Main result: after any run of calls by any processes, each in its own namespace, and whatever fails in
        between, every process has the ids that the calls specify, every user structure is counted exactly
        by the credentials that point at it, and every credential points at the structure of its real uid. */
    method AnyRun(events: seq<Event>)
      requires Valid() && ValidEvents(events)
      modifies this
      ensures Valid() && IdsOf(creds) == SpecRun(old(IdsOf(creds)), events)
      ensures forall u <- users :: users[u].count == |Holders(creds, u)| > 0
      ensures forall p <- creds :: creds[p].user in users && users[creds[p].user].uid == creds[p].uids.r
    {
      for i := 0 to |events|
        invariant Valid()
        invariant SpecRun(IdsOf(creds), events[i..]) == SpecRun(old(IdsOf(creds)), events)
      {
        assert events[i] in events && events[i..][1..] == events[i + 1..];
        OneEvent(events[i]);
      }
      assert forall u <- users :: CountOk(users, creds, multiset{}, u);
    }
  }
}
