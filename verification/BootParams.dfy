/** The boot parameters handed to init, in init/main.c: argv_init as a bounded list, envp_init as a
    bounded map, and the in-place repair of a parsed parameter. */
module BootParams {
  import opened Errno
  import opened CStrings

  type Slots = seq<Option<CString>>

  /** The first free slot (the length of the table when there is none). */
  function FirstNull(slots: Slots): (i: nat)
    ensures i <= |slots| && (i < |slots| ==> slots[i].None?)
    ensures forall k | 0 <= k < i :: slots[k].Some?
  {
    if slots == [] || slots[0].None? then 0 else 1 + FirstNull(slots[1..])
  }

  lemma FirstNullIs(slots: Slots, k: nat)
    requires k <= |slots| && (k < |slots| ==> slots[k].None?) && forall i | 0 <= i < k :: slots[i].Some?
    ensures FirstNull(slots) == k
  {
    var f := FirstNull(slots);
    assert f < |slots| ==> slots[f].None?;
  }

  // ---------------------------------------------------------------- names and values

  /** What parse_args() takes for a parameter name: not empty, and '=' at most as its first character. */
  predicate Name(n: CString) {
    |n| > 0 && forall i | 1 <= i < |n| :: n[i] != '='
  }

  /** "name=value" as one string. */
  function Setting(name: CString, value: CString): CString { name + "=" + value }

  /** strncmp(param, entry, strlen(name) + 1) == 0 when param is a setting of `name`. */
  predicate SameName(name: CString, entry: CString) { name + "=" <= entry }

  /** The first '=' at or after `from` (the length when there is none). */
  function EqualsAt(s: CString, from: nat): (i: nat)
    requires from <= |s|
    ensures from <= i <= |s| && (i < |s| ==> s[i] == '=') && forall k | from <= k < i :: s[k] != '='
    decreases |s| - from
  {
    if from == |s| || s[from] == '=' then from else EqualsAt(s, from + 1)
  }

  predicate IsSetting(entry: CString) { |entry| > 0 && EqualsAt(entry, 1) < |entry| }

  function NameOf(entry: CString): CString requires IsSetting(entry) { entry[..EqualsAt(entry, 1)] }
  function ValueOf(entry: CString): CString requires IsSetting(entry) { entry[EqualsAt(entry, 1) + 1..] }

  /** A setting splits back into its name and value. */
  lemma SettingSplits(name: CString, value: CString)
    requires Name(name)
    ensures IsSetting(Setting(name, value))
    ensures NameOf(Setting(name, value)) == name && ValueOf(Setting(name, value)) == value
  {
    var s := Setting(name, value);
    assert s[|name|] == '=' && forall i | 1 <= i < |name| :: s[i] == name[i];
    assert EqualsAt(s, 1) == |name|;
  }

  /** The comparison in the source, on name and '=' only, finds exactly the settings of that name. */
  lemma SameNameIff(name: CString, entry: CString)
    requires Name(name) && IsSetting(entry)
    ensures SameName(name, entry) <==> NameOf(entry) == name
  {
    if SameName(name, entry) {
      assert entry[|name|] == (name + "=")[|name|] && forall i | 1 <= i < |name| :: entry[i] == (name + "=")[i];
      assert EqualsAt(entry, 1) == |name|;
    }
  }

  // ---------------------------------------------------------------- the tables

  /** The two tables of max + 2 slots, and panic_later with its parameter. */
  datatype Tables = Tables(argv: Slots, envp: Slots, panic: Option<CString>)

  /** The first slot that is free or holds a setting of `name`. */
  function EnvSlot(envp: Slots, name: CString): (i: nat)
    ensures i <= |envp| && (i < |envp| ==> envp[i].None? || SameName(name, envp[i].value))
    ensures forall k | 0 <= k < i :: envp[k].Some? && !SameName(name, envp[k].value)
  {
    if envp == [] || envp[0].None? || SameName(name, envp[0].value) then 0 else 1 + EnvSlot(envp[1..], name)
  }

  lemma EnvSlotIs(envp: Slots, name: CString, k: nat)
    requires k < |envp| && (envp[k].None? || SameName(name, envp[k].value))
    requires forall i | 0 <= i < k :: envp[i].Some? && !SameName(name, envp[i].value)
    ensures EnvSlot(envp, name) == k
  {
    var i := EnvSlot(envp, name);
    assert i < |envp| ==> envp[i].None? || SameName(name, envp[i].value);
  }

  ghost predicate Contiguous(slots: Slots) { forall i | FirstNull(slots) <= i < |slots| :: slots[i].None? }

  ghost predicate OneEntryPerName(envp: Slots) {
    && (forall i | 0 <= i < |envp| && envp[i].Some? :: IsSetting(envp[i].value))
    && forall i, k | 0 <= i < k < |envp| && envp[i].Some? && envp[k].Some? ::
         NameOf(envp[i].value) != NameOf(envp[k].value)
  }

  ghost predicate Inv(t: Tables, max: nat) {
    && max > 0 && |t.argv| == |t.envp| == max + 2
    && t.argv[0] == Some("init")
    && (t.panic.None? ==> t.argv[max + 1].None? && t.envp[max + 1].None?)
    && Contiguous(t.envp) && OneEntryPerName(t.envp)
  }

  // ---------------------------------------------------------------- the handlers, declaratively

  datatype Event =
    | InitArg(text: CString)                       // after the "--"
    | Option_(text: CString)                       // unknown option without a value
    | Environment(name: CString, value: CString)   // unknown option with a value
    | Filtered(text: CString)                      // sysctl alias, obsolete or module parameter
    | InitOption                                   // init= and rdinit=

  ghost predicate ValidEvent(e: Event) { e.Environment? ==> Name(e.name) }

  ghost predicate ValidEvents(events: seq<Event>) { forall e <- events :: ValidEvent(e) }

  function Step(t: Tables, e: Event, max: nat): Tables
    requires |t.argv| == |t.envp| == max + 2 && (t.panic.None? ==> t.argv[max + 1].None? && t.envp[max + 1].None?)
  {
    match e
    case InitArg(text) =>
      if t.panic.Some? then t
      else if FirstNull(t.argv) > max then t.(panic := Some(text))
      else t.(argv := t.argv[FirstNull(t.argv) := Some(text)])
    case Option_(text) =>
      if t.panic.Some? then t
      else t.(argv := t.argv[FirstNull(t.argv) := Some(text)],
              panic := if FirstNull(t.argv) > max then Some(text) else None)
    case Environment(name, value) =>
      if t.panic.Some? then t
      else
        var i := EnvSlot(t.envp, name);
        assert i <= max + 1;
        t.(envp := t.envp[i := Some(Setting(name, value))],
           panic := if i >= max && t.envp[max].Some? then Some(Setting(name, value)) else None)
    case Filtered(_) => t
    case InitOption => t.(argv := seq(max + 2, i requires 0 <= i < max + 2 => if 1 <= i < max then None else t.argv[i]))
  }

  /** The initializers of argv_init and envp_init. */
  function InitialArg(i: nat): Option<CString> { if i == 0 then Some("init") else None }
  function InitialEnv(i: nat): Option<CString> {
    if i == 0 then Some(Setting("HOME", "/")) else if i == 1 then Some(Setting("TERM", "linux")) else None
  }

  ghost predicate IsInitial(t: Tables, max: nat) {
    && max > 0 && |t.argv| == |t.envp| == max + 2 && t.panic.None?
    && t.argv[0] == Some("init") && (forall i | 1 <= i < max + 2 :: t.argv[i].None?)
    && t.envp[0] == Some(Setting("HOME", "/")) && t.envp[1] == Some(Setting("TERM", "linux"))
    && forall i | 2 <= i < max + 2 :: t.envp[i].None?
  }

  // ---------------------------------------------------------------- the environment is a map

  ghost predicate EntryOf(envp: Slots, name: CString, i: int) {
    0 <= i < |envp| && envp[i].Some? && IsSetting(envp[i].value) && NameOf(envp[i].value) == name
  }

  /** The value envp_init gives a name. */
  ghost function Lookup(envp: Slots, name: CString): Option<CString> {
    if exists i :: EntryOf(envp, name, i) then
      var i :| EntryOf(envp, name, i);
      Some(ValueOf(envp[i].value))
    else None
  }

  lemma LookupAt(envp: Slots, name: CString, i: int)
    requires OneEntryPerName(envp) && EntryOf(envp, name, i)
    ensures Lookup(envp, name) == Some(ValueOf(envp[i].value))
  {
    var k :| EntryOf(envp, name, k) && Lookup(envp, name) == Some(ValueOf(envp[k].value));
    assert EntryOf(envp, name, k);
  }

  /** The slot EnvSlot picks is the entry of that name, or a new one when there is none. */
  lemma {:induction false} SlotIsEntry(envp: Slots, name: CString)
    requires Contiguous(envp) && OneEntryPerName(envp) && Name(name) && EnvSlot(envp, name) < |envp|
    ensures var i := EnvSlot(envp, name);
            && (envp[i].Some? ==> EntryOf(envp, name, i))
            && (envp[i].None? ==> i == FirstNull(envp) && forall k :: !EntryOf(envp, name, k))
  {
    var i := EnvSlot(envp, name);
    if envp[i].Some? {
      SameNameIff(name, envp[i].value);
    } else {
      forall k ensures !EntryOf(envp, name, k) {
        if EntryOf(envp, name, k) { SameNameIff(name, envp[k].value); }
      }
    }
  }

  ghost predicate Storable(envp: Slots, name: CString) {
    Contiguous(envp) && OneEntryPerName(envp) && Name(name) && EnvSlot(envp, name) < |envp|
  }

  function Store(envp: Slots, name: CString, value: CString): Slots
    requires EnvSlot(envp, name) < |envp|
  {
    envp[EnvSlot(envp, name) := Some(Setting(name, value))]
  }

  lemma StoreKeepsShape(envp: Slots, name: CString, value: CString)
    requires Storable(envp, name)
    ensures Contiguous(Store(envp, name, value)) && OneEntryPerName(Store(envp, name, value))
  {
    var i, envp' := EnvSlot(envp, name), Store(envp, name, value);
    SlotIsEntry(envp, name);
    SettingSplits(name, value);
    FirstNullIs(envp', if envp[i].None? then i + 1 else FirstNull(envp));
    forall k | 0 <= k < |envp| && k != i && envp[k].Some?
      ensures NameOf(envp[k].value) != name
    {
      assert !EntryOf(envp, name, k);
    }
  }

  /** Storing a setting where EnvSlot says is a map update. */
  lemma StoreIsMapUpdate(envp: Slots, name: CString, value: CString, other: CString)
    requires Storable(envp, name)
    ensures Lookup(Store(envp, name, value), other) == if other == name then Some(value) else Lookup(envp, other)
  {
    var i, envp' := EnvSlot(envp, name), Store(envp, name, value);
    StoreKeepsShape(envp, name, value);
    SlotIsEntry(envp, name);
    SettingSplits(name, value);
    if other == name {
      LookupAt(envp', name, i);
    } else {
      assert forall k :: EntryOf(envp', other, k) <==> EntryOf(envp, other, k);
      if k :| EntryOf(envp, other, k) {
        LookupAt(envp, other, k);
        LookupAt(envp', other, k);
      }
    }
  }

  /** The handlers keep the tables in shape, and a pending panic freezes the environment. */
  lemma StepKeepsInv(t: Tables, e: Event, max: nat)
    requires Inv(t, max) && ValidEvent(e)
    ensures Inv(Step(t, e, max), max)
    ensures t.panic.Some? ==> Step(t, e, max).panic == t.panic && Step(t, e, max).envp == t.envp
  {
    if e.Environment? && t.panic.None? {
      StoreKeepsShape(t.envp, e.name, e.value);
    }
  }

  ghost function Run(t: Tables, events: seq<Event>, max: nat): Tables
    requires Inv(t, max) && ValidEvents(events)
    decreases |events|
  {
    if events == [] then t
    else
      assert events[0] in events;
      StepKeepsInv(t, events[0], max);
      Run(Step(t, events[0], max), events[1..], max)
  }

  /** The last value written for a name, or the one it had. */
  function LastWrite(events: seq<Event>, name: CString, before: Option<CString>): Option<CString>
    decreases |events|
  {
    if events == [] then before
    else LastWrite(events[1..], name,
           if events[0].Environment? && events[0].name == name then Some(events[0].value) else before)
  }

  /** Main result: over every run the tables stay in shape, a panic once pending stays, and while none is
      the environment is the map of last writes. */
  lemma {:induction false} EnvironmentIsMapOfLastWrites(t: Tables, events: seq<Event>, max: nat, name: CString)
    requires Inv(t, max) && ValidEvents(events)
    ensures Inv(Run(t, events, max), max)
    ensures t.panic.Some? ==> Run(t, events, max).panic == t.panic
    ensures Run(t, events, max).panic.None? ==>
              Lookup(Run(t, events, max).envp, name) == LastWrite(events, name, Lookup(t.envp, name))
    decreases |events|
  {
    if events != [] {
      var e := events[0];
      assert e in events;
      StepKeepsInv(t, e, max);
      EnvironmentIsMapOfLastWrites(Step(t, e, max), events[1..], max, name);
      if e.Environment? && t.panic.None? {
        StoreIsMapUpdate(t.envp, e.name, e.value, name);
      }
    }
  }

  lemma InitialTables(t: Tables, max: nat, name: CString)
    requires IsInitial(t, max)
    ensures Inv(t, max)
    ensures Lookup(t.envp, name) == if name == "HOME" then Some("/") else if name == "TERM" then Some("linux") else None
  {
    var home: CString, term: CString := "HOME", "TERM";
    assert Name(home) && Name(term) && home[0] != term[0];
    SettingSplits(home, "/");
    SettingSplits(term, "linux");
    assert t.envp[2].None? && t.envp[0].Some? && t.envp[1].Some?;
    assert FirstNull(t.envp) == 2;
    assert EntryOf(t.envp, home, 0) && EntryOf(t.envp, term, 1);
    LookupAt(t.envp, home, 0);
    LookupAt(t.envp, term, 1);
  }

  // ---------------------------------------------------------------- when the environment overflows

  const HOME: CString := "HOME"
  const TERM: CString := "TERM"

  /** The names of a list, each once, in the order in which they first occur. */
  function Distinct(names: seq<CString>): seq<CString> {
    if names == [] then []
    else
      var before, name := names[..|names| - 1], names[|names| - 1];
      if name in before then Distinct(before) else Distinct(before) + [name]
  }

  /** How often a name occurs. */
  function Times(names: seq<CString>, name: CString): nat {
    if names == [] then 0 else Times(names[..|names| - 1], name) + if names[|names| - 1] == name then 1 else 0
  }

  lemma {:induction false} DistinctHasThemAll(names: seq<CString>, name: CString)
    ensures name in Distinct(names) <==> name in names
    ensures name in names <==> Times(names, name) > 0
    decreases |names|
  {
    if names != [] {
      var before := names[..|names| - 1];
      assert names == before + [names[|names| - 1]];
      DistinctHasThemAll(before, name);
    }
  }

  lemma DistinctOfOneMore(names: seq<CString>, name: CString)
    ensures Distinct(names + [name]) == if name in names then Distinct(names) else Distinct(names) + [name]
    ensures forall n: CString :: Times(names + [name], n) == Times(names, n) + if n == name then 1 else 0
  {
    assert (names + [name])[..|names|] == names;
  }

  lemma {:induction false} DistinctGrows(names: seq<CString>, more: seq<CString>)
    ensures Distinct(names) <= Distinct(names + more)
    ensures forall n: CString :: Times(names, n) <= Times(names + more, n)
    decreases |more|
  {
    if more == [] {
      assert names + more == names;
    } else {
      var fewer := more[..|more| - 1];
      DistinctGrows(names, fewer);
      DistinctOfOneMore(names + fewer, more[|more| - 1]);
      assert (names + fewer) + [more[|more| - 1]] == names + more;
    }
  }

  /** More distinct names than regular slots 0 to max; or just enough, and the last of them written twice. */
  ghost predicate Overdrawn(names: seq<CString>, max: nat) {
    var d := Distinct(names);
    |d| > max + 1 || (|d| == max + 1 && Times(names, d[max]) >= 2)
  }

  lemma OverdrawnStays(names: seq<CString>, more: seq<CString>, max: nat)
    requires Overdrawn(names, max)
    ensures Overdrawn(names + more, max)
  {
    DistinctGrows(names, more);
  }

  /** Slot i of the environment holds a setting of the i-th of the distinct names; the rest is free. */
  ghost predicate Represents(envp: Slots, d: seq<CString>) {
    && |d| < |envp|
    && (forall i | 0 <= i < |d| :: EntryOf(envp, d[i], i))
    && (forall i | |d| <= i < |envp| :: envp[i].None?)
  }

  ghost predicate OnlySettings(events: seq<Event>) { forall e <- events :: !e.InitArg? && !e.Option_? }

  /** The names the events write, in order. */
  function Written(events: seq<Event>): seq<CString> {
    if events == [] then []
    else (if events[0].Environment? then [events[0].name] else []) + Written(events[1..])
  }

  /** The slot for a name is the one it has among the distinct names, or the next free one. */
  lemma SlotOf(envp: Slots, d: seq<CString>, name: CString)
    requires Represents(envp, d) && Storable(envp, name)
    ensures var i := EnvSlot(envp, name);
            if name in d then i < |d| && d[i] == name && envp[i].Some? else i == |d| && envp[i].None?
  {
    forall k | 0 <= k < |d|
      ensures envp[k].Some? && NameOf(envp[k].value) == d[k]
    {
      assert EntryOf(envp, d[k], k);
    }
    FirstNullIs(envp, |d|);
    SlotIsEntry(envp, name);
    if name in d {
      var k :| 0 <= k < |d| && d[k] == name;
      assert EntryOf(envp, name, k);
    }
  }

  lemma StoreRepresents(envp: Slots, d: seq<CString>, name: CString, value: CString)
    requires Represents(envp, d) && Storable(envp, name) && (name in d || |d| + 1 < |envp|)
    ensures Represents(Store(envp, name, value), if name in d then d else d + [name])
  {
    var i, d' := EnvSlot(envp, name), if name in d then d else d + [name];
    SlotOf(envp, d, name);
    SettingSplits(name, value);
    forall k | 0 <= k < |d'|
      ensures EntryOf(Store(envp, name, value), d'[k], k)
    {
      if k != i { assert EntryOf(envp, d[k], k); }
    }
  }

  /** One setting panics exactly when it makes the names too many. */
  lemma {:induction false} OneSetting(t: Tables, names: seq<CString>, e: Event, max: nat)
    requires Inv(t, max) && t.panic.None? && ValidEvent(e) && e.Environment?
    requires Represents(t.envp, Distinct(names)) && !Overdrawn(names, max)
    ensures Step(t, e, max).panic.Some? <==> Overdrawn(names + [e.name], max)
  {
    var d := Distinct(names);
    SlotOf(t.envp, d, e.name);
    DistinctOfOneMore(names, e.name);
    DistinctHasThemAll(names, e.name);
    assert |d| > max <==> t.envp[max].Some? by {
      if |d| > max { assert EntryOf(t.envp, d[max], max); }
    }
  }

  lemma {:induction false} OneSettingRepresents(t: Tables, names: seq<CString>, e: Event, max: nat)
    requires Inv(t, max) && t.panic.None? && ValidEvent(e) && e.Environment?
    requires Represents(t.envp, Distinct(names)) && !Overdrawn(names, max)
    ensures Step(t, e, max).panic.None? ==> Represents(Step(t, e, max).envp, Distinct(names + [e.name]))
  {
    var d := Distinct(names);
    DistinctOfOneMore(names, e.name);
    DistinctHasThemAll(names, e.name);
    SlotOf(t.envp, d, e.name);
    if Step(t, e, max).panic.None? {
      OneSetting(t, names, e, max);
      StoreRepresents(t.envp, d, e.name, e.value);
    }
  }

  lemma OneOfSettings(t: Tables, names: seq<CString>, e: Event, max: nat)
    requires Inv(t, max) && t.panic.None? && ValidEvent(e) && !e.InitArg? && !e.Option_?
    requires Represents(t.envp, Distinct(names)) && !Overdrawn(names, max)
    ensures var t', names' := Step(t, e, max), names + Written([e]);
            && Inv(t', max)
            && if t'.panic.Some? then
                 Overdrawn(names', max) && e.Environment? && t'.panic == Some(e.name + "=" + e.value)
               else Represents(t'.envp, Distinct(names')) && !Overdrawn(names', max)
  {
    StepKeepsInv(t, e, max);
    assert [e][1..] == [];
    if e.Environment? {
      assert Written([e]) == [e.name];
      OneSetting(t, names, e, max);
      OneSettingRepresents(t, names, e, max);
    } else {
      assert names + Written([e]) == names;
    }
  }

  lemma WrittenSplits(names: seq<CString>, e: Event, rest: seq<Event>)
    ensures names + Written([e] + rest) == names + Written([e]) + Written(rest)
  {
    assert ([e] + rest)[1..] == rest && [e][1..] == [];
  }

  lemma {:induction false} SettingsRun(t: Tables, names: seq<CString>, events: seq<Event>, max: nat)
    requires Inv(t, max) && t.panic.None? && ValidEvents(events) && OnlySettings(events)
    requires Represents(t.envp, Distinct(names)) && !Overdrawn(names, max)
    ensures Run(t, events, max).panic.Some? <==> Overdrawn(names + Written(events), max)
    decreases |events|
  {
    if events == [] {
      assert names + Written(events) == names;
    } else {
      var e, rest := events[0], events[1..];
      assert e in events && forall f <- rest :: f in events;
      var t', names' := Step(t, e, max), names + Written([e]);
      WrittenSplits(names, e, rest);
      assert events == [e] + rest;
      OneOfSettings(t, names, e, max);
      if t'.panic.Some? {
        EnvironmentIsMapOfLastWrites(t', rest, max, HOME);
        OverdrawnStays(names', Written(rest), max);
      } else {
        SettingsRun(t', names', rest, max);
      }
    }
  }

  /** The k-th event is the setting that makes the names too many. */
  ghost predicate OverdrawsAt(names: seq<CString>, events: seq<Event>, k: int, max: nat) {
    && 0 <= k < |events| && events[k].Environment?
    && !Overdrawn(names + Written(events[..k]), max) && Overdrawn(names + Written(events[..k + 1]), max)
  }

  lemma OverdrawsLater(names: seq<CString>, events: seq<Event>, k: nat, max: nat)
    requires events != [] && k < |events| - 1
    requires OverdrawsAt(names + Written(events[..1]), events[1..], k, max)
    ensures OverdrawsAt(names, events, k + 1, max)
  {
    forall n | n == k || n == k + 1
      ensures names + Written(events[..n + 1]) == names + Written(events[..1]) + Written(events[1..][..n])
    {
      assert events[..n + 1][1..] == events[1..][..n] && events[..1][1..] == [];
    }
  }

  /** The panic blames that setting. */
  lemma {:induction false} PanicBlames(t: Tables, names: seq<CString>, events: seq<Event>, max: nat) returns (k: nat)
    requires Inv(t, max) && t.panic.None? && ValidEvents(events) && OnlySettings(events)
    requires Represents(t.envp, Distinct(names)) && !Overdrawn(names, max)
    requires Run(t, events, max).panic.Some?
    ensures OverdrawsAt(names, events, k, max)
    ensures Run(t, events, max).panic == Some(events[k].name + "=" + events[k].value)
    decreases |events|
  {
    var e, rest := events[0], events[1..];
    assert e in events && forall f <- rest :: f in events;
    var t', names' := Step(t, e, max), names + Written([e]);
    assert events[..1] == [e] && names + Written(events[..0]) == names;
    OneOfSettings(t, names, e, max);
    if t'.panic.Some? {
      EnvironmentIsMapOfLastWrites(t', rest, max, HOME);
      k := 0;
    } else {
      var k' := PanicBlames(t', names', rest, max);
      OverdrawsLater(names, events, k', max);
      k := k' + 1;
    }
  }

  const INITIAL_NAMES: seq<CString> := [HOME, TERM]

  lemma InitialNames()
    ensures Distinct(INITIAL_NAMES) == INITIAL_NAMES && Times(INITIAL_NAMES, TERM) == 1
  {
    assert HOME[0] != TERM[0];
    DistinctOfOneMore([], HOME);
    DistinctOfOneMore([HOME], TERM);
    assert [] + [HOME] == [HOME] && [HOME] + [TERM] == INITIAL_NAMES;
  }

  lemma InitialRepresents(t: Tables, max: nat)
    requires IsInitial(t, max)
    ensures Represents(t.envp, INITIAL_NAMES)
  {
    SettingSplits(HOME, "/");
    SettingSplits(TERM, "linux");
    assert EntryOf(t.envp, INITIAL_NAMES[0], 0);
    assert EntryOf(t.envp, INITIAL_NAMES[1], 1);
  }

  /** Exactly when the settings on the command line make the kernel panic later: with HOME and TERM counted as
      written once, when they name more than max + 1 variables; and also when they name just max + 1 and write
      the last of those again, although its slot is simply overwritten. The panic blames the first setting that
      makes it so. */
  lemma EnvironmentOverflowsIff(t: Tables, events: seq<Event>, max: nat)
    requires IsInitial(t, max) && ValidEvents(events) && OnlySettings(events)
    ensures Inv(t, max)
    ensures Run(t, events, max).panic.Some? <==> Overdrawn(INITIAL_NAMES + Written(events), max)
    ensures Run(t, events, max).panic.Some? ==>
              exists k :: OverdrawsAt(INITIAL_NAMES, events, k, max)
                          && Run(t, events, max).panic == Some(events[k].name + "=" + events[k].value)
  {
    InitialTables(t, max, HOME);
    InitialNames();
    InitialRepresents(t, max);
    assert !Overdrawn(INITIAL_NAMES, max);
    SettingsRun(t, INITIAL_NAMES, events, max);
    if Run(t, events, max).panic.Some? { var k := PanicBlames(t, INITIAL_NAMES, events, max); }
  }

  // ---------------------------------------------------------------- the arguments reach init

  /** Options without a value and arguments after the "--"; anything that is filtered may come in between. */
  ghost predicate OnlyArguments(events: seq<Event>) { forall e <- events :: !e.Environment? && !e.InitOption? }

  /** Their texts, in order. */
  function Texts(events: seq<Event>): seq<CString> {
    if events == [] then []
    else (if events[0].InitArg? || events[0].Option_? then [events[0].text] else []) + Texts(events[1..])
  }

  /** argv_init holds its own name and these arguments, and nothing else. */
  ghost predicate HoldsArguments(t: Tables, args: seq<CString>, max: nat) {
    && Inv(t, max) && t.panic.None? && |args| <= max
    && (forall i | 0 <= i < |args| :: t.argv[i + 1] == Some(args[i]))
    && (forall i | |args| < i < max + 2 :: t.argv[i].None?)
  }

  lemma OneArgument(t: Tables, args: seq<CString>, e: Event, max: nat)
    requires HoldsArguments(t, args, max) && (e.InitArg? || e.Option_?)
    ensures var t' := Step(t, e, max);
            if |args| < max then HoldsArguments(t', args + [e.text], max) else t'.panic == Some(e.text)
  {
    forall i | 0 <= i <= |args| ensures t.argv[i].Some? {
      if i > 0 { assert t.argv[(i - 1) + 1] == Some(args[i - 1]); }
    }
    FirstNullIs(t.argv, |args| + 1);
    StepKeepsInv(t, e, max);
  }

  lemma TextsSplit(args: seq<CString>, e: Event, rest: seq<Event>)
    ensures args + Texts([e] + rest)
         == (if e.InitArg? || e.Option_? then args + [e.text] else args) + Texts(rest)
  {
    assert ([e] + rest)[1..] == rest;
  }

  lemma {:induction false} ArgumentsRun(t: Tables, args: seq<CString>, events: seq<Event>, max: nat)
    requires HoldsArguments(t, args, max) && ValidEvents(events) && OnlyArguments(events)
    ensures var t', all := Run(t, events, max), args + Texts(events);
            if |all| <= max then HoldsArguments(t', all, max) else t'.panic == Some(all[max])
    decreases |events|
  {
    if events == [] {
      assert args + Texts(events) == args;
    } else {
      var e, rest := events[0], events[1..];
      assert e in events && forall f <- rest :: f in events;
      var t' := Step(t, e, max);
      StepKeepsInv(t, e, max);
      TextsSplit(args, e, rest);
      assert events == [e] + rest;
      if e.Filtered? {
        ArgumentsRun(t', args, rest, max);
      } else {
        OneArgument(t, args, e, max);
        if |args| < max {
          ArgumentsRun(t', args + [e.text], rest, max);
        } else {
          EnvironmentIsMapOfLastWrites(t', rest, max, HOME);
        }
      }
    }
  }

  /** Without init= and without settings: init gets all options and all arguments after the "--", in the order of the
      command line, as long as there are at most max of them; otherwise the kernel panics over the first one too
      many. */
  lemma ArgumentsReachInit(t: Tables, events: seq<Event>, max: nat)
    requires IsInitial(t, max) && ValidEvents(events) && OnlyArguments(events)
    ensures Inv(t, max)
    ensures var t', args := Run(t, events, max), Texts(events);
            if |args| <= max then
              && t'.panic.None? && FirstNull(t'.argv) == |args| + 1 && t'.argv[0] == Some("init")
              && forall i | 0 <= i < |args| :: t'.argv[i + 1] == Some(args[i])
            else t'.panic == Some(args[max])
  {
    InitialTables(t, max, HOME);
    ArgumentsRun(t, [], events, max);
    assert [] + Texts(events) == Texts(events);
    var t', args := Run(t, events, max), Texts(events);
    if |args| <= max {
      forall i | 0 <= i <= |args| ensures t'.argv[i].Some? {
        if i > 0 { assert t'.argv[(i - 1) + 1] == Some(args[i - 1]); }
      }
      FirstNullIs(t'.argv, |args| + 1);
    }
  }

  // ---------------------------------------------------------------- the arguments before init= come back

  /** The arguments init would be started with: what follows its name, up to the first free slot. */
  function Visible(argv: Slots): Slots { if FirstNull(argv) == 0 then [] else argv[1..FirstNull(argv)] }

  function Listed(args: seq<CString>): Slots { seq(|args|, i requires 0 <= i < |args| => Some(args[i])) }

  function AsEvents(args: seq<CString>): seq<Event> { seq(|args|, i requires 0 <= i < |args| => Option_(args[i])) }

  /** argv_init after init= and the first k of the arguments that follow it: only slots 1 to max - 1 were
      cleared, so slot max keeps what it held unless argument number max overwrites it. */
  ghost predicate Refilled(t: Tables, max: nat, args: seq<CString>, k: nat, stale: Option<CString>)
    requires k <= |args|
  {
    && Inv(t, max) && t.panic.None? && k <= max
    && (forall i | 1 <= i <= k :: t.argv[i] == Some(args[i - 1]))
    && (forall i | k < i < max :: t.argv[i].None?)
    && (k < max ==> t.argv[max] == stale)
  }

  lemma RefillStep(t: Tables, max: nat, args: seq<CString>, k: nat, stale: Option<CString>)
    requires k < |args| && Refilled(t, max, args, k, stale)
    ensures var t' := Step(t, Option_(args[k]), max);
            if k + 1 < max || (k + 1 == max && stale.None?) then Refilled(t', max, args, k + 1, stale)
            else t'.panic.Some?
  {
    FirstNullIs(t.argv, if k + 1 < max || (k + 1 == max && stale.None?) then k + 1 else max + 1);
  }

  lemma {:induction false} RefillRun(t: Tables, max: nat, args: seq<CString>, k: nat, stale: Option<CString>)
    requires k <= |args| && Refilled(t, max, args, k, stale)
    ensures ValidEvents(AsEvents(args[k..]))
    ensures var t' := Run(t, AsEvents(args[k..]), max);
            if |args| < max || (|args| == max && (stale.None? || k == max)) then Refilled(t', max, args, |args|, stale)
            else t'.panic.Some?
    decreases |args| - k
  {
    var events := AsEvents(args[k..]);
    if k < |args| {
      var t' := Step(t, events[0], max);
      assert events[0] == Option_(args[k]) && events[1..] == AsEvents(args[k + 1..]);
      StepKeepsInv(t, events[0], max);
      RefillStep(t, max, args, k, stale);
      if t'.panic.Some? {
        EnvironmentIsMapOfLastWrites(t', events[1..], max, "x");
      } else {
        RefillRun(t', max, args, k + 1, stale);
      }
    }
  }

  lemma VisibleWhenRefilled(t: Tables, max: nat, args: seq<CString>, stale: Option<CString>)
    requires Refilled(t, max, args, |args|, stale)
    ensures Visible(t.argv) == Listed(args) <==> |args| != max - 1 || stale.None?
  {
    var inTime := |args| < max - 1 || (|args| == max - 1 && stale.None?);
    var seen := if inTime then |args| + 1 else max + 1;
    FirstNullIs(t.argv, seen);
    assert |Visible(t.argv)| == seen - 1;
  }

  /** "Arguments entered before init= are ignored" holds exactly as long as the last regular slot was free
      when init= was seen, or too few arguments follow to reach it: otherwise the old argument in that slot
      is passed to init after all, or counted as one too many. */
  lemma IgnoredBeforeInitIff(t: Tables, max: nat, args: seq<CString>)
    requires Inv(t, max) && t.panic.None?
    ensures Inv(Step(t, InitOption, max), max) && ValidEvents(AsEvents(args))
    ensures var t' := Run(Step(t, InitOption, max), AsEvents(args), max);
            (t'.panic.None? && Visible(t'.argv) == Listed(args))
            <==> |args| < max - 1 || (t.argv[max].None? && |args| <= max)
  {
    var cleared := Step(t, InitOption, max);
    StepKeepsInv(t, InitOption, max);
    assert args[0..] == args;
    RefillRun(cleared, max, args, 0, t.argv[max]);
    var t' := Run(cleared, AsEvents(args), max);
    if t'.panic.None? { VisibleWhenRefilled(t', max, args, t.argv[max]); }
  }

  lemma RunTwo(t: Tables, e: Event, f: Event, events: seq<Event>, max: nat)
    requires Inv(t, max) && ValidEvent(e) && ValidEvent(f) && ValidEvents(events)
    ensures Inv(Step(t, e, max), max) && Inv(Step(Step(t, e, max), f, max), max)
    ensures Run(t, [e, f] + events, max) == Run(Step(Step(t, e, max), f, max), events, max)
  {
    StepKeepsInv(t, e, max);
    StepKeepsInv(Step(t, e, max), f, max);
    assert ([e, f] + events)[1..] == [f] + events && ([f] + events)[1..] == events;
  }

  /** The initial tables with two slots, after two options. */
  lemma TwoArguments(t: Tables, a: CString, b: CString)
    requires IsInitial(t, 2)
    ensures var t' := Step(Step(t, Option_(a), 2), Option_(b), 2);
            t'.panic.None? && t'.argv == [Some("init"), Some(a), Some(b), None]
  {
    FirstNullIs(t.argv, 1);
    var t1 := Step(t, Option_(a), 2);
    assert t1.argv == [Some("init"), Some(a), None, None];
    FirstNullIs(t1.argv, 2);
  }

  /** init=, and then one more option. */
  lemma ThirdArgument(t: Tables, a: CString, b: CString, c: CString)
    requires Inv(t, 2) && t.panic.None? && t.argv == [Some("init"), Some(a), Some(b), None]
    ensures var t' := Step(Step(t, InitOption, 2), Option_(c), 2);
            t'.panic.None? && Visible(t'.argv) == [Some(c), Some(b)]
  {
    var t1 := Step(t, InitOption, 2);
    FirstNullIs(t1.argv, 1);
    var t2 := Step(t1, Option_(c), 2);
    assert t2.argv == [Some("init"), Some(c), Some(b), None];
    FirstNullIs(t2.argv, 3);
  }

  /** A concrete run with two slots, from the initial tables: of the two arguments before init= the second is
      still there when one more has followed, and init gets the new argument and the old one. */
  lemma OldArgumentComesBack(t: Tables, a: CString, b: CString, c: CString)
    requires IsInitial(t, 2)
    ensures Inv(t, 2)
    ensures var t' := Run(t, [Option_(a), Option_(b), InitOption, Option_(c)], 2);
            t'.panic.None? && Visible(t'.argv) == [Some(c), Some(b)]
  {
    InitialTables(t, 2, HOME);
    var t2 := Step(Step(t, Option_(a), 2), Option_(b), 2);
    RunTwo(t, Option_(a), Option_(b), [InitOption, Option_(c)], 2);
    RunTwo(t2, InitOption, Option_(c), [], 2);
    assert [Option_(a), Option_(b)] + [InitOption, Option_(c)] == [Option_(a), Option_(b), InitOption, Option_(c)];
    assert [InitOption, Option_(c)] + [] == [InitOption, Option_(c)];
    TwoArguments(t, a, b);
    ThirdArgument(t2, a, b, c);
  }

  // ---------------------------------------------------------------- the code, in place

  /** memmove(mem + at - 1, mem + at, n) */
  method MoveDown(mem: array<char>, at: nat, n: nat)
    requires 0 < at && at + n <= mem.Length
    modifies mem
    ensures mem[..at - 1] == old(mem[..at - 1]) && mem[at + n..] == old(mem[at + n..])
    ensures mem[at - 1..at - 1 + n] == old(mem[at..at + n])
  {
    var moved := mem[at..at + n];
    forall i | 0 <= i < n { mem[at - 1 + i] := moved[i]; }
  }

  lemma SettingHeld(mem: seq<char>, at: nat, name: CString, value: CString)
    requires at + |name| < |mem| && mem[at..at + |name|] == name && mem[at + |name|] == '='
    requires HoldsAt(mem, at + |name| + 1, value)
    ensures HoldsAt(mem, at, Setting(name, value))
  {
    var mid := at + |name|;
    assert mem[at..mid + 1 + |value|] == mem[at..mid] + [mem[mid]] + mem[mid + 1..mid + 1 + |value|];
  }

  /** The quoted case: the value moves down over the quote. */
  method UnquoteInPlace(mem: array<char>, param: nat, name: CString, v: nat, value: CString)
    requires v == param + |name| + 2 && HoldsAt(mem[..], param, name) && HoldsAt(mem[..], v, value)
    modifies mem
    ensures HoldsAt(mem[..], param, Setting(name, value))
    ensures mem[..param] == old(mem[..param]) && mem[v + |value| + 1..] == old(mem[v + |value| + 1..])
  {
    ghost var m := mem[..];
    assert m[v..v + |value| + 1] == value + ['\0'];
    mem[v - 2] := '=';
    MoveDown(mem, v, |value| + 1);
    ghost var m' := mem[..];
    assert m'[v - 1..v + |value|] == value + ['\0'];
    assert m'[v - 1..v - 1 + |value|] == m'[v - 1..v + |value|][..|value|];
    assert m'[v - 1 + |value|] == m'[v - 1..v + |value|][|value|];
    assert m'[..v - 1] == m[..v - 2] + ['='];
    assert m'[param..param + |name|] == m'[..v - 1][param..param + |name|];
    SettingHeld(m', param, name, value);
  }

  /** repair_env_string(): put back the '=' that parsing replaced by a terminator; for param="val" also
      move the value over the opening quote. */
  method RepairEnvString(mem: array<char>, param: nat, name: CString, val: Option<nat>, value: CString)
    requires val.None? ==> HoldsAt(mem[..], param, name)
    requires val.Some? ==> (val.value == param + |name| + 1 || val.value == param + |name| + 2)
    requires val.Some? ==> HoldsAt(mem[..], param, name) && HoldsAt(mem[..], val.value, value)
    modifies mem
    ensures HoldsAt(mem[..], param, if val.None? then name else name + "=" + value)
    ensures mem[..param] == old(mem[..param])
    ensures val.Some? ==> mem[val.value + |value| + 1..] == old(mem[val.value + |value| + 1..])
    ensures val.None? ==> mem[..] == old(mem[..])
  {
    if val.None? { return; }
    var v := val.value;
    if v == param + |name| + 1 {
      mem[v - 1] := '=';
      SettingHeld(mem[..], param, name, value);
    } else {
      UnquoteInPlace(mem, param, name, v, value);
    }
  }

  class BootTables {
    const max: nat
    const argvInit: array<Option<CString>>
    const envpInit: array<Option<CString>>
    var panicLater: Option<CString>

    ghost function View(): Tables
      reads this, argvInit, envpInit
    {
      Tables(argvInit[..], envpInit[..], panicLater)
    }

    ghost predicate Valid()
      reads this, argvInit, envpInit
    {
      argvInit != envpInit && argvInit.Length == envpInit.Length == max + 2 && Inv(View(), max)
    }

    constructor (max: nat)
      requires max > 0
      ensures Valid() && this.max == max && IsInitial(View(), max)
    {
      this.max := max;
      panicLater := None;
      argvInit := new Option<CString>[max + 2](InitialArg);
      envpInit := new Option<CString>[max + 2](InitialEnv);
      new;
      InitialTables(View(), max, "HOME");
    }

    method SetInitArg(param: CString)
      requires Valid()
      modifies this, argvInit
      ensures Valid() && View() == Step(old(View()), InitArg(param), max)
    {
      StepKeepsInv(View(), InitArg(param), max);
      if panicLater.Some? { return; }
      var i := 0;
      while argvInit[i].Some?
        invariant 0 <= i <= FirstNull(argvInit[..]) <= max + 1 && i <= max && panicLater.None?
        modifies this
        decreases max + 1 - i
      {
        if i == max {
          panicLater := Some(param);
          return;
        }
        i := i + 1;
      }
      ghost var before := argvInit[..];
      FirstNullIs(before, i);
      argvInit[i] := Some(param);
      assert argvInit[..] == before[i := Some(param)];
    }

    /** The scan of the environment, which reports a panic on its way past the last regular slot. */
    method FindSlot(name: CString, param: CString) returns (i: nat)
      requires Valid() && panicLater.None?
      modifies this
      ensures i == EnvSlot(envpInit[..], name) <= max + 1
      ensures panicLater == if i >= max && envpInit[max].Some? then Some(param) else None
    {
      i := 0;
      ghost var envp := envpInit[..];
      while envpInit[i].Some?
        invariant 0 <= i <= max + 1
        invariant forall k | 0 <= k < i :: envp[k].Some? && !SameName(name, envp[k].value)
        invariant panicLater == if i > max then Some(param) else None
        modifies this
        decreases max + 1 - i
      {
        assert envp[i] == envpInit[i];
        if i == max { panicLater := Some(param); }
        if SameName(name, envpInit[i].value) { break; }
        i := i + 1;
      }
      EnvSlotIs(envp, name, i);
    }

    method AddEnvironment(name: CString, value: CString)
      requires Valid() && Name(name) && panicLater.None?
      modifies this, envpInit
      ensures Valid() && View() == Step(old(View()), Environment(name, value), max)
    {
      ghost var was := View();
      StepKeepsInv(was, Environment(name, value), max);
      var param := Setting(name, value);
      var i := FindSlot(name, param);
      envpInit[i] := Some(param);
      assert envpInit[..] == was.envp[i := Some(param)];
    }

    method AddArgument(param: CString)
      requires Valid() && panicLater.None?
      modifies this, argvInit
      ensures Valid() && View() == Step(old(View()), Option_(param), max)
    {
      StepKeepsInv(View(), Option_(param), max);
      ghost var was := View();
      var i := 0;
      while argvInit[i].Some?
        invariant 0 <= i <= FirstNull(argvInit[..]) <= max + 1
        invariant panicLater == if i > max then Some(param) else None
        modifies this
        decreases max + 1 - i
      {
        if i == max { panicLater := Some(param); }
        i := i + 1;
      }
      ghost var before := argvInit[..];
      FirstNullIs(before, i);
      argvInit[i] := Some(param);
      assert argvInit[..] == before[i := Some(param)];
      assert before == was.argv && envpInit[..] == was.envp;
      assert panicLater == Step(was, Option_(param), max).panic;
    }

    method UnknownBootoption(name: CString, val: Option<CString>, alias: bool, obsolete: bool)
      requires Valid() && (val.Some? ==> Name(name))
      modifies this, argvInit, envpInit
      ensures Valid()
      ensures View() == Step(old(View()),
                if alias || obsolete || '.' in name then Filtered(name)
                else if val.Some? then Environment(name, val.value) else Option_(name), max)
      ensures alias || obsolete || '.' in name || old(panicLater).Some? ==> View() == old(View())
    {
      if alias { return; }
      if obsolete { return; }
      if '.' in name { return; }
      if panicLater.Some? { return; }
      if val.Some? {
        AddEnvironment(name, val.value);
      } else {
        AddArgument(name);
      }
    }

    /** init_setup() and rdinit_setup(). */
    method InitSetup()
      requires Valid()
      modifies argvInit
      ensures Valid() && View() == Step(old(View()), InitOption, max)
    {
      StepKeepsInv(View(), InitOption, max);
      var i := 1;
      while i < max
        invariant 1 <= i && (max > 0 ==> i <= max)
        invariant forall k | 0 <= k < max + 2 :: argvInit[k] == if 1 <= k < i then None else old(argvInit[k])
      {
        argvInit[i] := None;
        i := i + 1;
      }
    }
  }
}
