/** xbc_snprint_cmdline() and xbc_make_cmdline() of init/main.c: render the keys and values of the boot
    configuration into a command line, by a pass that only counts and a pass that prints. */
module XbcCmdline {
  import opened Errno

  type Text = seq<char>

  /** One key of the tree: composing its name may fail; it has no value node, or a list of values. */
  datatype Key = Failed(err: int) | Bare(name: Text) | Valued(name: Text, values: seq<Text>)

  ghost predicate ValidKeys(keys: seq<Key>) {
    forall k <- keys :: (k.Failed? ==> k.err < 0) && (k.Valued? ==> |k.values| > 0)
  }

  function Assign(name: Text, value: Text): Text { name + "=\"" + value + "\" " }

  function Assigns(name: Text, values: seq<Text>): Text {
    if values == [] then "" else Assign(name, values[0]) + Assigns(name, values[1..])
  }

  function RenderKey(k: Key): Text
    requires !k.Failed?
  {
    if k.Bare? then k.name + " " else Assigns(k.name, k.values)
  }

  /** The full rendering, as far as the names can be composed, and the first error (0: none). */
  function Render(keys: seq<Key>): Text {
    if keys == [] || keys[0].Failed? then "" else RenderKey(keys[0]) + Render(keys[1..])
  }

  function FirstError(keys: seq<Key>): int {
    if keys == [] then 0 else if keys[0].Failed? then keys[0].err else FirstError(keys[1..])
  }

  // ---------------------------------------------------------------- printing

  /** What size bytes of buffer hold once `text` has been printed: as much as fits, and a terminator. */
  ghost predicate Holds(buf: Text, size: nat, text: Text)
    requires size <= |buf|
  {
    size > 0 && text != "" ==>
      if |text| < size then buf[..|text|] == text && buf[|text|] == '\0'
      else buf[..size - 1] == text[..size - 1] && buf[size - 1] == '\0'
  }

  /** snprintf(buf + at, room, "%s", text) with room = rest(buf + at, buf + size). */
  method Snprintf(buf: array<char>, size: nat, at: nat, text: Text, ghost done: Text) returns (ret: nat)
    requires size <= buf.Length && at == |done| && Holds(buf[..], size, done) && text != ""
    modifies buf
    ensures ret == |text| && Holds(buf[..], size, done + text)
    ensures buf[size..] == old(buf[size..])
  {
    var room := if size > at then size - at else 0;
    if room > 0 {
      var n := if |text| < room then |text| else room - 1;
      forall i | 0 <= i < n { buf[at + i] := text[i]; }
      buf[at + n] := '\0';
      assert buf[..at] == old(buf[..at]) == done;
      assert buf[..at + n] == done + text[..n] == (done + text)[..at + n];
    } else if size > 0 && done != "" {
      assert (done + text)[..size - 1] == done[..size - 1];
    }
    return |text|;
  }

  /** What the outer loop does for key i, on values. */
  lemma RenderOneMore(keys: seq<Key>, i: nat, done: Text)
    requires i < |keys|
    ensures FirstError(keys[i..]) == if keys[i].Failed? then keys[i].err else FirstError(keys[i + 1..])
    ensures done + Render(keys[i..])
         == if keys[i].Failed? then done else (done + RenderKey(keys[i])) + Render(keys[i + 1..])
  {
    assert keys[i..][0] == keys[i] && keys[i..][1..] == keys[i + 1..];
  }

  /** The inner loop over the values of one key. */
  method PrintValues(buf: array<char>, size: nat, at0: nat, name: Text, values: seq<Text>, ghost before: Text)
    returns (at: nat)
    requires size <= buf.Length && at0 == |before| && Holds(buf[..], size, before)
    modifies buf
    ensures at == |before + Assigns(name, values)|
    ensures Holds(buf[..], size, before + Assigns(name, values)) && buf[size..] == old(buf[size..])
  {
    at := at0;
    ghost var done := before;
    for v := 0 to |values|
      invariant at == |done| && done + Assigns(name, values[v..]) == before + Assigns(name, values)
      invariant Holds(buf[..], size, done) && buf[size..] == old(buf[size..])
    {
      assert values[v..][0] == values[v] && values[v..][1..] == values[v + 1..];
      var text := name + "=\"" + values[v] + "\" ";
      assert text == Assign(name, values[v]);
      var n := Snprintf(buf, size, at, text, done);
      assert (done + Assign(name, values[v])) + Assigns(name, values[v + 1..])
          == done + (Assign(name, values[v]) + Assigns(name, values[v + 1..]));
      done := done + Assign(name, values[v]);
      at := at + n;
    }
    assert done == before + Assigns(name, values);
  }

  /** One round of the outer loop. */
  method PrintKey(buf: array<char>, size: nat, at0: nat, k: Key, ghost done: Text) returns (at: nat)
    requires size <= buf.Length && at0 == |done| && Holds(buf[..], size, done) && !k.Failed?
    modifies buf
    ensures at == |done + RenderKey(k)|
    ensures Holds(buf[..], size, done + RenderKey(k)) && buf[size..] == old(buf[size..])
  {
    if k.Bare? {
      var n := Snprintf(buf, size, at0, k.name + " ", done);
      at := at0 + n;
    } else {
      at := PrintValues(buf, size, at0, k.name, k.values, done);
    }
  }

  method XbcSnprintCmdline(buf: array<char>, size: nat, keys: seq<Key>) returns (ret: int)
    requires size <= buf.Length && ValidKeys(keys)
    modifies buf
    ensures ret == if FirstError(keys) < 0 then FirstError(keys) else |Render(keys)|
    ensures Holds(buf[..], size, Render(keys)) && buf[size..] == old(buf[size..])
  {
    var at := 0;
    ghost var done := "";
    var i := 0;
    while i < |keys|
      invariant 0 <= i <= |keys| && at == |done|
      invariant done + Render(keys[i..]) == Render(keys) && FirstError(keys[i..]) == FirstError(keys)
      invariant Holds(buf[..], size, done) && buf[size..] == old(buf[size..])
    {
      assert keys[i] in keys;
      RenderOneMore(keys, i, done);
      if keys[i].Failed? { return keys[i].err; }
      at := PrintKey(buf, size, at, keys[i], done);
      done := done + RenderKey(keys[i]);
      i := i + 1;
    }
    assert keys[i..] == [] && done + "" == done;
    return at;
  }

  // ---------------------------------------------------------------- making the command line

  lemma {:induction false} AssignsEndInBlank(name: Text, values: seq<Text>)
    requires values != []
    ensures Assigns(name, values) != "" && Assigns(name, values)[|Assigns(name, values)| - 1] == ' '
  {
    if |values| == 1 {
      assert Assigns(name, values[1..]) == "";
      assert Assigns(name, values) == Assign(name, values[0]);
    } else {
      AssignsEndInBlank(name, values[1..]);
    }
  }

  /** Every non-empty rendering ends in a blank, and it is empty only when there is no key. */
  lemma {:induction false} RenderEndsInBlank(keys: seq<Key>)
    requires ValidKeys(keys) && FirstError(keys) >= 0
    ensures Render(keys) == "" <==> keys == []
    ensures keys != [] ==> Render(keys)[|Render(keys)| - 1] == ' '
  {
    if keys != [] {
      var k := keys[0];
      assert k in keys && ValidKeys(keys[1..]);
      if k.Valued? { AssignsEndInBlank(k.name, k.values); }
      assert RenderKey(k) != "" && RenderKey(k)[|RenderKey(k)| - 1] == ' ';
      RenderEndsInBlank(keys[1..]);
    }
  }

  lemma {:induction false} ErrorsAreNegative(keys: seq<Key>)
    requires ValidKeys(keys)
    ensures FirstError(keys) <= 0
  {
    if keys != [] {
      assert keys[0] in keys && ValidKeys(keys[1..]);
      ErrorsAreNegative(keys[1..]);
    }
  }

  ghost predicate PlainKey(k: Key) {
    match k
    case Failed(_) => true
    case Bare(name) => '\0' !in name
    case Valued(name, values) => '\0' !in name && forall v <- values :: '\0' !in v
  }

  /** Names and values are C strings. */
  ghost predicate Plain(keys: seq<Key>) { forall k <- keys :: PlainKey(k) }

  lemma {:induction false} AssignsArePlain(name: Text, values: seq<Text>)
    requires '\0' !in name && forall v <- values :: '\0' !in v
    ensures '\0' !in Assigns(name, values)
  {
    if values != [] {
      assert values[0] in values && forall v <- values[1..] :: v in values;
      AssignsArePlain(name, values[1..]);
    }
  }

  lemma {:induction false} RenderIsPlain(keys: seq<Key>)
    requires Plain(keys)
    ensures '\0' !in Render(keys)
  {
    if keys != [] && !keys[0].Failed? {
      var k := keys[0];
      assert k in keys && PlainKey(k) && Plain(keys[1..]);
      if k.Valued? { AssignsArePlain(k.name, k.values); }
      RenderIsPlain(keys[1..]);
    }
  }

  /** The counting pass and the printing pass agree: the result, if any, is the whole rendering with its
      terminator in exactly the counted space, and there is none only when there is nothing to render, a
      name cannot be composed, or memory is short. */
  method XbcMakeCmdline(keys: seq<Key>, allocates: bool) returns (cmdline: Option<array<char>>)
    requires ValidKeys(keys)
    ensures cmdline.Some? <==> keys != [] && FirstError(keys) == 0 && allocates
    ensures cmdline.Some? ==> fresh(cmdline.value) && cmdline.value[..] == Render(keys) + ['\0']
                              && |Render(keys)| > 0 && Render(keys)[|Render(keys)| - 1] == ' '
  {
    ErrorsAreNegative(keys);
    if FirstError(keys) >= 0 { RenderEndsInBlank(keys); }
    var nowhere := new char[0];
    var len := XbcSnprintCmdline(nowhere, 0, keys);
    if len <= 0 { return None; }
    if !allocates { return None; }
    var newCmdline := new char[len + 1](i => '\0');
    var ret := XbcSnprintCmdline(newCmdline, len + 1, keys);
    if ret < 0 || ret > len { return None; }
    assert newCmdline[..] == newCmdline[..len] + [newCmdline[len]];
    return Some(newCmdline);
  }

  // ---------------------------------------------------------------- reading it back

  /** One parameter of a command line, with a quoted value or none. */
  datatype Item = Item(name: Text, value: Option<Text>)

  function ValueItems(name: Text, values: seq<Text>): seq<Item> {
    seq(|values|, i requires 0 <= i < |values| => Item(name, Some(values[i])))
  }

  /** The keys in order, one item for each value of each. */
  function Items(keys: seq<Key>): seq<Item> {
    if keys == [] || keys[0].Failed? then []
    else
      var k := keys[0];
      (if k.Bare? then [Item(k.name, None)] else ValueItems(k.name, k.values)) + Items(keys[1..])
  }

  /** The first place with one of two characters (the length when there is none). */
  function Find(s: Text, a: char, b: char): (i: nat)
    ensures i <= |s| && (i < |s| ==> s[i] == a || s[i] == b) && forall k | 0 <= k < i :: s[k] != a && s[k] != b
  {
    if s == [] || s[0] == a || s[0] == b then 0 else 1 + Find(s[1..], a, b)
  }

  function Before(item: Item, rest: Option<seq<Item>>): Option<seq<Item>> {
    if rest.None? then None else Some([item] + rest.value)
  }

  /** Reads a line of `name ` and `name="value" ` parameters; a name ends at the first blank or '=', a value at the
      first quote. */
  function ReadLine(s: Text): Option<seq<Item>>
    decreases |s|
  {
    if s == [] then Some([])
    else
      var n := Find(s, ' ', '=');
      if n == |s| then None
      else if s[n] == ' ' then Before(Item(s[..n], None), ReadLine(s[n + 1..]))
      else if n + 1 == |s| || s[n + 1] != '"' then None
      else
        var text := s[n + 2..];
        var q := Find(text, '"', '"');
        if q + 1 >= |text| || text[q + 1] != ' ' then None
        else Before(Item(s[..n], Some(text[..q])), ReadLine(text[q + 2..]))
  }

  ghost predicate PlainName(name: Text) { ' ' !in name && '=' !in name }

  /** Key names hold no blank and no '='. */
  ghost predicate PlainNames(keys: seq<Key>) { forall k <- keys :: !k.Failed? ==> PlainName(k.name) }

  ghost predicate NoQuotes(items: seq<Item>) {
    forall i | 0 <= i < |items| :: items[i].value.Some? ==> '"' !in items[i].value.value
  }

  lemma FindAt(s: Text, a: char, b: char, k: nat)
    requires k < |s| && (s[k] == a || s[k] == b) && forall i | 0 <= i < k :: s[i] != a && s[i] != b
    ensures Find(s, a, b) == k
  {
  }

  lemma ReadBare(name: Text, rest: Text)
    requires PlainName(name)
    ensures ReadLine(name + " " + rest) == Before(Item(name, None), ReadLine(rest))
  {
    var s := name + " " + rest;
    FindAt(s, ' ', '=', |name|);
    assert s[..|name|] == name && s[|name| + 1..] == rest;
  }

  lemma ReadAssign(name: Text, value: Text, rest: Text)
    requires PlainName(name) && '"' !in value
    ensures ReadLine(name + "=\"" + value + "\" " + rest) == Before(Item(name, Some(value)), ReadLine(rest))
  {
    var s := name + "=\"" + value + "\" " + rest;
    var text := value + "\" " + rest;
    assert s == name + ("=\"" + text);
    FindAt(s, ' ', '=', |name|);
    assert s[..|name|] == name && s[|name| + 2..] == text;
    FindAt(text, '"', '"', |value|);
    assert text[..|value|] == value && text[|value| + 2..] == rest;
  }

  lemma AssignsSplit(name: Text, values: seq<Text>, rest: Text)
    requires values != []
    ensures Assigns(name, values) + rest == name + "=\"" + values[0] + "\" " + (Assigns(name, values[1..]) + rest)
  {
    var first, more := Assign(name, values[0]), Assigns(name, values[1..]);
    assert (first + more) + rest == first + (more + rest);
  }

  lemma ItemsSplit(name: Text, values: seq<Text>, items: seq<Item>)
    requires values != []
    ensures ValueItems(name, values) + items == [Item(name, Some(values[0]))] + (ValueItems(name, values[1..]) + items)
  {
  }

  lemma {:induction false} ReadAssigns(name: Text, values: seq<Text>, rest: Text, items: seq<Item>)
    requires PlainName(name) && (forall v <- values :: '"' !in v) && ReadLine(rest) == Some(items)
    ensures ReadLine(Assigns(name, values) + rest) == Some(ValueItems(name, values) + items)
  {
    if values == [] {
      assert Assigns(name, values) + rest == rest && ValueItems(name, values) + items == items;
    } else {
      var more := Assigns(name, values[1..]) + rest;
      assert values[0] in values && forall v <- values[1..] :: v in values;
      ReadAssigns(name, values[1..], rest, items);
      ReadAssign(name, values[0], more);
      AssignsSplit(name, values, rest);
      ItemsSplit(name, values, items);
    }
  }

  lemma {:induction false} RenderReadsBack(keys: seq<Key>)
    requires PlainNames(keys) && NoQuotes(Items(keys))
    ensures ReadLine(Render(keys)) == Some(Items(keys))
  {
    if keys != [] && !keys[0].Failed? {
      var k, rest := keys[0], keys[1..];
      assert k in keys && PlainNames(rest);
      var head := if k.Bare? then [Item(k.name, None)] else ValueItems(k.name, k.values);
      assert Items(keys) == head + Items(rest);
      assert NoQuotes(Items(rest)) by {
        assert forall i | 0 <= i < |Items(rest)| :: Items(rest)[i] == Items(keys)[|head| + i];
      }
      RenderReadsBack(rest);
      if k.Bare? {
        ReadBare(k.name, Render(rest));
      } else {
        forall v | v in k.values ensures '"' !in v {
          var i :| 0 <= i < |k.values| && k.values[i] == v;
          assert Items(keys)[i] == Item(k.name, Some(v));
        }
        ReadAssigns(k.name, k.values, Render(rest), Items(rest));
      }
    }
  }

  lemma {:induction false} ReadsNoQuotes(s: Text)
    ensures ReadLine(s).Some? ==> NoQuotes(ReadLine(s).value)
    decreases |s|
  {
    if s != [] {
      var n := Find(s, ' ', '=');
      if n < |s| && s[n] == ' ' {
        ReadsNoQuotes(s[n + 1..]);
      } else if n + 1 < |s| && s[n + 1] == '"' {
        var text := s[n + 2..];
        var q := Find(text, '"', '"');
        if q + 1 < |text| && text[q + 1] == ' ' { ReadsNoQuotes(text[q + 2..]); }
      }
    }
  }

  /** Round trip: reading the rendered line gives back every key with every value, in order, if and only if no value
      holds a quote (the printing code does not escape it). */
  lemma RenderReadsBackIff(keys: seq<Key>)
    requires PlainNames(keys)
    ensures ReadLine(Render(keys)) == Some(Items(keys)) <==> NoQuotes(Items(keys))
  {
    if NoQuotes(Items(keys)) { RenderReadsBack(keys); }
    ReadsNoQuotes(Render(keys));
  }
}
