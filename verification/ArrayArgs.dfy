/** `ExpandArrayParameters`: rewriting `--array v1 v2` to `--array v1 --array v2`. */
module ArrayArgs {
  import Sequences

  // ---------- arguments ----------

  const SENTINEL := "--"

  predicate IsDash(arg: string) { arg != "" && arg[0] == '-' }

  predicate HasEquals(arg: string) { '=' in arg }

  /** The part of the argument before its first `=`, and the part after it. */
  function FlagOf(arg: string): string
    requires HasEquals(arg)
  {
    if arg[0] == '=' then "" else [arg[0]] + FlagOf(arg[1..])
  }

  function ValueOf(arg: string): (v: string)
    requires HasEquals(arg)
    ensures |v| < |arg|
  {
    if arg[0] == '=' then arg[1..] else ValueOf(arg[1..])
  }

  /** An argument is cut at its first `=`. */
  lemma {:induction false} CutAtEquals(arg: string)
    requires HasEquals(arg)
    ensures arg == FlagOf(arg) + "=" + ValueOf(arg) && '=' !in FlagOf(arg)
  {
    if arg[0] != '=' {
      CutAtEquals(arg[1..]);
      var f, v := FlagOf(arg[1..]), ValueOf(arg[1..]);
      assert arg == [arg[0]] + (f + "=" + v);
      assert [arg[0]] + (f + "=" + v) == [arg[0]] + f + "=" + v;
    }
  }

  /** The names of array flags: they start with a dash, are not the sentinel and hold no `=`. */
  ghost predicate FlagNames(flags: set<string>) {
    forall f :: f in flags ==> IsDash(f) && f != SENTINEL && !HasEquals(f)
  }

  predicate IsAssignment(arg: string, flags: set<string>) {
    IsDash(arg) && HasEquals(arg) && FlagOf(arg) in flags
  }

  predicate IsBareFlag(arg: string, flags: set<string>) {
    arg in flags && !(IsDash(arg) && HasEquals(arg))
  }

  /** An argument that is passed on as it is. */
  predicate IsPlain(arg: string, flags: set<string>) {
    arg != SENTINEL && !IsAssignment(arg, flags) && !IsBareFlag(arg, flags)
  }

  // ---------- the meaning of a command line ----------

  /** A value given to an array flag, any other argument, or everything from the sentinel on. */
  datatype Item = Value(flag: string, value: string) | Plain(arg: string) | Rest(args: seq<string>)

  /** The space-separated values at the front of the arguments. */
  function GroupLen(argv: seq<string>): (n: nat)
    ensures n <= |argv|
    ensures n < |argv| ==> IsDash(argv[n])
    ensures forall k :: 0 <= k < n ==> !IsDash(argv[k])
  {
    if argv == [] || IsDash(argv[0]) then 0 else 1 + GroupLen(argv[1..])
  }

  function Group(flag: string, values: seq<string>): (items: seq<Item>)
    ensures |items| == |values| && forall k :: 0 <= k < |items| ==> items[k] == Value(flag, values[k])
  {
    seq(|values|, k requires 0 <= k < |values| => Value(flag, values[k]))
  }

  /** How the written command line is meant: an array flag takes the whole group that follows. */
  function Meaning(argv: seq<string>, flags: set<string>): seq<Item>
    decreases |argv|
  {
    if argv == [] then []
    else
      var arg, rest := argv[0], argv[1..];
      var n := GroupLen(rest);
      if arg == SENTINEL then [Rest(argv)]
      else if IsAssignment(arg, flags) then
        [Value(FlagOf(arg), ValueOf(arg))] + (Group(FlagOf(arg), rest[..n]) + Meaning(rest[n..], flags))
      else if IsBareFlag(arg, flags) then Group(arg, rest[..n]) + Meaning(rest[n..], flags)
      else [Plain(arg)] + Meaning(rest, flags)
  }

  /** How the flag library reads a command line: an array flag takes exactly the next argument. */
  function Parse(argv: seq<string>, flags: set<string>): seq<Item>
    decreases |argv|
  {
    if argv == [] then []
    else if argv[0] == SENTINEL then [Rest(argv)]
    else if argv[0] in flags && |argv| >= 2 then [Value(argv[0], argv[1])] + Parse(argv[2..], flags)
    else [Plain(argv[0])] + Parse(argv[1..], flags)
  }

  function WriteItem(item: Item): seq<string> {
    match item
    case Value(flag, value) => [flag, value]
    case Plain(arg) => [arg]
    case Rest(args) => args
  }

  function Write(items: seq<Item>): seq<string> {
    if items == [] then [] else WriteItem(items[0]) + Write(items[1..])
  }

  lemma {:induction false} WriteAppend(a: seq<Item>, b: seq<Item>)
    ensures Write(a + b) == Write(a) + Write(b)
  {
    if a == [] {
      assert a + b == b;
    } else {
      assert (a + b)[1..] == a[1..] + b;
      WriteAppend(a[1..], b);
      Sequences.Assoc(WriteItem(a[0]), Write(a[1..]), Write(b));
    }
  }

  /** What the expansion of a command line is. */
  function Expansion(argv: seq<string>, flags: set<string>): seq<string> {
    Write(Meaning(argv, flags))
  }

  // ---------- the source ----------

  function Leading(argv: seq<string>): seq<string> {
    argv[..GroupLen(argv)]
  }

  function JoinWords(words: seq<string>): string {
    if |words| == 0 then "" else if |words| == 1 then words[0] else words[0] + " " + JoinWords(words[1..])
  }

  /** The array flags of the command that the leading arguments name. */
  function ArrayFlags(argv: seq<string>, arrayParams: map<string, seq<string>>): set<string> {
    var path := JoinWords(Leading(argv));
    if path in arrayParams then set f | f in arrayParams[path] else {}
  }

  /** The command is named by its words joined with single spaces. */
  lemma CommandNamed(params: seq<string>)
    ensures ArrayFlags(["image", "build", "--tags", "a"], map["image build" := params]) == set f | f in params
    ensures ArrayFlags(["image", "--tags", "a"], map["image build" := params]) == {}
  {
    var argv := ["image", "build", "--tags", "a"];
    assert argv[1..][1..] == ["--tags", "a"];
    assert GroupLen(["--tags", "a"]) == 0;
    assert GroupLen(argv[1..]) == 1;
    assert argv[..2] == ["image", "build"] && ["image", "build"][1..] == ["build"];
    assert JoinWords(["image", "build"]) == "image" + " " + "build" == "image build";
    var other := ["image", "--tags", "a"];
    assert other[1..] == ["--tags", "a"];
    assert other[..1] == ["image"];
    assert JoinWords(["image"]) == "image";
    assert |"image build"| != |"image"|;
  }

  /** Where the loop goes on after the argument at index `i`, and what it appends for it. */
  function NextArg(argv: seq<string>, i: nat, flags: set<string>): (j: nat)
    requires i < |argv|
    ensures i < j <= |argv|
  {
    if argv[i] == SENTINEL then |argv|
    else if IsPlain(argv[i], flags) then i + 1
    else i + 1 + GroupLen(argv[i + 1..])
  }

  function Appended(argv: seq<string>, i: nat, flags: set<string>): seq<string>
    requires i < |argv|
  {
    var arg, j := argv[i], NextArg(argv, i, flags);
    if arg == SENTINEL then argv[i..]
    else if IsAssignment(arg, flags) then [FlagOf(arg), ValueOf(arg)] + Write(Group(FlagOf(arg), argv[i + 1..j]))
    else if IsBareFlag(arg, flags) then Write(Group(arg, argv[i + 1..j]))
    else [arg]
  }

  /** `ExpandArrayParameters`. */
  method ExpandArrayParameters(argv: seq<string>, arrayParams: map<string, seq<string>>) returns (out: seq<string>)
    ensures out == Expansion(argv, ArrayFlags(argv, arrayParams))
  {
    hide Expansion, Appended, NextArg, ArrayFlags;
    var multiFlags := MultiFlags(argv, arrayParams);
    out := [];
    var i := 0;
    assert argv[0..] == argv;
    while i < |argv|
      invariant 0 <= i <= |argv|
      invariant out + Expansion(argv[i..], multiFlags) == Expansion(argv, multiFlags)
    {
      ExpansionAt(argv, i, multiFlags);
      var appended, j := ExpandArg(argv, i, multiFlags);
      Sequences.Assoc(out, appended, Expansion(argv[j..], multiFlags));
      out := out + appended;
      i := j;
    }
    ExpansionNil(multiFlags);
    assert argv[|argv|..] == [] && out + [] == out;
  }

  /** The command is named by the arguments before the first one with a dash. */
  method MultiFlags(argv: seq<string>, arrayParams: map<string, seq<string>>) returns (flags: set<string>)
    ensures flags == ArrayFlags(argv, arrayParams)
  {
    var commandPathArray := [];
    var n := 0;
    while n < |argv| && !IsDash(argv[n])
      invariant 0 <= n <= |argv| && commandPathArray == argv[..n]
      invariant forall k :: 0 <= k < n ==> !IsDash(argv[k])
    {
      commandPathArray := commandPathArray + [argv[n]];
      n := n + 1;
    }
    GroupLenIs(argv, n);
    var commandPath := JoinWords(commandPathArray);
    var params := if commandPath in arrayParams then arrayParams[commandPath] else [];
    flags := {};
    for i := 0 to |params|
      invariant flags == set f | f in params[..i]
    {
      assert params[..i + 1] == params[..i] + [params[i]];
      flags := flags + {params[i]};
    }
    assert params[..|params|] == params;
  }

  lemma ExpansionNil(flags: set<string>)
    ensures Expansion([], flags) == []
  {
  }

  /** The body of the loop over the arguments. */
  method ExpandArg(argv: seq<string>, i: nat, multiFlags: set<string>) returns (out: seq<string>, next: nat)
    requires i < |argv|
    ensures out == Appended(argv, i, multiFlags) && next == NextArg(argv, i, multiFlags)
  {
    hide Write, Group, GroupLen, FlagOf, ValueOf, Appended, NextArg;
    AppendedCases(argv, i, multiFlags);
    var arg := argv[i];
    if arg == SENTINEL {
      return argv[i..], |argv|;
    }
    if IsDash(arg) && HasEquals(arg) {
      var flag := FlagOf(arg);
      if flag in multiFlags {
        out, next := ExpandGroup(argv, i + 1, flag);
        out := [flag, ValueOf(arg)] + out;
        return;
      }
      return [arg], i + 1;
    }
    if arg in multiFlags {
      out, next := ExpandGroup(argv, i + 1, arg);
      return;
    }
    return [arg], i + 1;
  }

  lemma AppendedCases(argv: seq<string>, i: nat, flags: set<string>)
    requires i < |argv|
    ensures var arg, j := argv[i], i + 1 + GroupLen(argv[i + 1..]);
            && (arg == SENTINEL ==> NextArg(argv, i, flags) == |argv| && Appended(argv, i, flags) == argv[i..])
            && (arg != SENTINEL && IsPlain(arg, flags) ==>
                  NextArg(argv, i, flags) == i + 1 && Appended(argv, i, flags) == [arg])
            && (arg != SENTINEL && !IsPlain(arg, flags) ==>
                  && NextArg(argv, i, flags) == j
                  && Appended(argv, i, flags) ==
                     if IsAssignment(arg, flags)
                     then [FlagOf(arg), ValueOf(arg)] + Write(Group(FlagOf(arg), argv[i + 1..j]))
                     else Write(Group(arg, argv[i + 1..j])))
  {
    hide Write, Group, GroupLen, FlagOf, ValueOf;
  }

  /** The inner loop: the flag is repeated before each value of the group. */
  method ExpandGroup(argv: seq<string>, from: nat, flag: string) returns (out: seq<string>, j: nat)
    requires from <= |argv|
    ensures j == from + GroupLen(argv[from..]) <= |argv|
    ensures out == Write(Group(flag, argv[from..j]))
  {
    hide Write, Group, GroupLen;
    out, j := [], from;
    assert argv[from..from] == [];
    GroupNone(flag);
    while j < |argv| && argv[j] != SENTINEL && !IsDash(argv[j])
      invariant from <= j <= |argv|
      invariant forall k :: from <= k < j ==> !IsDash(argv[k])
      invariant out == Write(Group(flag, argv[from..j]))
    {
      GroupNext(flag, argv[from..j], argv[j]);
      assert argv[from..j + 1] == argv[from..j] + [argv[j]];
      out := out + [flag, argv[j]];
      j := j + 1;
    }
    GroupLenIs(argv[from..], j - from);
  }

  lemma GroupNone(flag: string)
    ensures Write(Group(flag, [])) == []
  {
  }

  lemma GroupLenIs(argv: seq<string>, n: nat)
    requires n <= |argv| && (forall k :: 0 <= k < n ==> !IsDash(argv[k])) && (n < |argv| ==> IsDash(argv[n]))
    ensures GroupLen(argv) == n
  {
  }

  lemma GroupNext(flag: string, values: seq<string>, v: string)
    ensures Write(Group(flag, values + [v])) == Write(Group(flag, values)) + [flag, v]
  {
    assert Group(flag, values + [v]) == Group(flag, values) + [Value(flag, v)];
    WriteAppend(Group(flag, values), [Value(flag, v)]);
    assert [Value(flag, v)][1..] == [];
    assert Write([Value(flag, v)]) == [flag, v];
  }

  /** What the argument at index `i` contributes to the expansion. */
  lemma ExpansionAt(argv: seq<string>, i: nat, flags: set<string>)
    requires i < |argv|
    ensures Expansion(argv[i..], flags) == Appended(argv, i, flags) + Expansion(argv[NextArg(argv, i, flags)..], flags)
  {
    hide Group, IsAssignment, IsBareFlag, Write, FlagOf, ValueOf;
    MeaningAt(argv, i, flags);
    var arg, j := argv[i], NextArg(argv, i, flags);
    var tail := Meaning(argv[j..], flags);
    if arg == SENTINEL {
      WriteOne(Rest(argv[i..]), []);
      WriteNil();
      assert [Rest(argv[i..])] + [] == [Rest(argv[i..])];
    } else if arg != SENTINEL && IsPlain(arg, flags) {
      WriteOne(Plain(arg), tail);
    } else {
      GroupWritten(argv, i, flags);
    }
  }

  lemma GroupWritten(argv: seq<string>, i: nat, flags: set<string>)
    requires i < |argv| && argv[i] != SENTINEL && !IsPlain(argv[i], flags)
    ensures Expansion(argv[i..], flags) == Appended(argv, i, flags) + Expansion(argv[NextArg(argv, i, flags)..], flags)
  {
    hide Group, Write, FlagOf, ValueOf, GroupLen, Meaning;
    MeaningAt(argv, i, flags);
    var arg, j := argv[i], NextArg(argv, i, flags);
    var tail := Meaning(argv[j..], flags);
    if IsAssignment(arg, flags) {
      var g := Group(FlagOf(arg), argv[i + 1..j]);
      WriteOne(Value(FlagOf(arg), ValueOf(arg)), g + tail);
      WriteAppend(g, tail);
      Sequences.Assoc([FlagOf(arg), ValueOf(arg)], Write(g), Write(tail));
    } else {
      WriteAppend(Group(arg, argv[i + 1..j]), tail);
    }
  }

  lemma MeaningAt(argv: seq<string>, i: nat, flags: set<string>)
    requires i < |argv|
    ensures var arg, j := argv[i], NextArg(argv, i, flags);
            Meaning(argv[i..], flags) ==
            if arg == SENTINEL then [Rest(argv[i..])]
            else if IsAssignment(arg, flags) then
              [Value(FlagOf(arg), ValueOf(arg))] + (Group(FlagOf(arg), argv[i + 1..j]) + Meaning(argv[j..], flags))
            else if IsBareFlag(arg, flags) then Group(arg, argv[i + 1..j]) + Meaning(argv[j..], flags)
            else [Plain(arg)] + Meaning(argv[j..], flags)
  {
    hide Group, FlagOf, ValueOf, IsAssignment, IsBareFlag, Meaning, GroupLen;
    var rest := argv[i + 1..];
    var n := GroupLen(rest);
    assert argv[i..] == [argv[i]] + rest;
    MeaningCons(argv[i], rest, n, flags);
    assert rest[..n] == argv[i + 1..i + 1 + n] && rest[n..] == argv[i + 1 + n..];
  }

  lemma MeaningCons(arg: string, rest: seq<string>, n: nat, flags: set<string>)
    requires n == GroupLen(rest)
    ensures Meaning([arg] + rest, flags) ==
            if arg == SENTINEL then [Rest([arg] + rest)]
            else if IsAssignment(arg, flags) then
              [Value(FlagOf(arg), ValueOf(arg))] + (Group(FlagOf(arg), rest[..n]) + Meaning(rest[n..], flags))
            else if IsBareFlag(arg, flags) then Group(arg, rest[..n]) + Meaning(rest[n..], flags)
            else [Plain(arg)] + Meaning(rest, flags)
  {
    hide Group, FlagOf, ValueOf, IsAssignment, IsBareFlag, GroupLen;
    assert ([arg] + rest)[1..] == rest;
  }

  lemma WriteNil()
    ensures Write([]) == []
  {
  }

  lemma WriteOne(item: Item, rest: seq<Item>)
    ensures Write([item] + rest) == WriteItem(item) + Write(rest)
  {
    assert ([item] + rest)[1..] == rest;
  }

  // ---------- the meaning is kept ----------

  /** Items as they come from a command line: values belong to array flags, other arguments are
      plain, and the sentinel ends the list. */
  ghost predicate Canonical(items: seq<Item>, flags: set<string>) {
    items == [] ||
    (&& (items[0].Value? ==> items[0].flag in flags)
     && (items[0].Plain? ==> IsPlain(items[0].arg, flags))
     && (items[0].Rest? ==> |items| == 1 && items[0].args != [] && items[0].args[0] == SENTINEL)
     && Canonical(items[1..], flags))
  }

  lemma {:induction false} GroupCanonical(flag: string, values: seq<string>, tail: seq<Item>, flags: set<string>)
    requires flag in flags && Canonical(tail, flags)
    ensures Canonical(Group(flag, values) + tail, flags)
    decreases |values|
  {
    hide IsPlain;
    if values == [] {
      assert Group(flag, values) + tail == tail;
    } else {
      GroupCanonical(flag, values[1..], tail, flags);
      assert (Group(flag, values) + tail)[1..] == Group(flag, values[1..]) + tail;
    }
  }

  lemma {:induction false} MeaningCanonical(argv: seq<string>, i: nat, flags: set<string>)
    requires i <= |argv|
    ensures Canonical(Meaning(argv[i..], flags), flags)
    decreases |argv| - i
  {
    hide Meaning, Group, FlagOf, ValueOf;
    if i == |argv| {
      assert argv[i..] == [];
      MeaningNil(flags);
    } else {
      MeaningAt(argv, i, flags);
      var arg, j := argv[i], NextArg(argv, i, flags);
      MeaningCanonical(argv, j, flags);
      var tail := Meaning(argv[j..], flags);
      if arg == SENTINEL {
        CanonicalCons(Rest(argv[i..]), [], flags);
        assert [Rest(argv[i..])] + [] == [Rest(argv[i..])];
      } else if IsAssignment(arg, flags) {
        GroupCanonical(FlagOf(arg), argv[i + 1..j], tail, flags);
        CanonicalCons(Value(FlagOf(arg), ValueOf(arg)), Group(FlagOf(arg), argv[i + 1..j]) + tail, flags);
      } else if IsBareFlag(arg, flags) {
        GroupCanonical(arg, argv[i + 1..j], tail, flags);
      } else {
        CanonicalCons(Plain(arg), tail, flags);
      }
    }
  }

  lemma CanonicalCons(item: Item, rest: seq<Item>, flags: set<string>)
    requires Canonical(rest, flags)
    requires item.Value? ==> item.flag in flags
    requires item.Plain? ==> IsPlain(item.arg, flags)
    requires item.Rest? ==> rest == [] && item.args != [] && item.args[0] == SENTINEL
    ensures Canonical([item] + rest, flags)
  {
    hide IsPlain;
    assert ([item] + rest)[1..] == rest;
  }

  lemma MeaningNil(flags: set<string>)
    ensures Meaning([], flags) == []
  {
  }

  lemma {:induction false} ParseWritten(items: seq<Item>, flags: set<string>)
    requires FlagNames(flags) && Canonical(items, flags)
    ensures Parse(Write(items), flags) == items
  {
    if items != [] {
      var item, rest := items[0], items[1..];
      ParseWritten(rest, flags);
      var w := Write(rest);
      assert items == [item] + rest;
      match item
      case Value(f, v) =>
        assert ([f, v] + w)[2..] == w;
      case Plain(a) =>
        assert ([a] + w)[1..] == w;
      case Rest(args) =>
        assert rest == [] && args + [] == args;
    }
  }

  /** The expanded command line, read with one value per flag, means what was written: each array
      flag has its values in order, other arguments keep their order, and everything from the
      sentinel on is verbatim. */
  lemma ExpansionKeepsMeaning(argv: seq<string>, flags: set<string>)
    requires FlagNames(flags)
    ensures Parse(Expansion(argv, flags), flags) == Meaning(argv, flags)
  {
    hide Parse, Meaning, Canonical;
    assert argv[0..] == argv;
    MeaningCanonical(argv, 0, flags);
    ParseWritten(Meaning(argv, flags), flags);
  }

  lemma {:induction false} GroupLenPrefix(a: seq<string>, b: seq<string>)
    requires b != [] && IsDash(b[0])
    ensures GroupLen(a + b) == GroupLen(a)
  {
    if a == [] {
      assert a + b == b;
    } else {
      assert (a + b)[1..] == a[1..] + b;
      GroupLenPrefix(a[1..], b);
    }
  }

  /** What stands before the sentinel is expanded on its own, the rest is copied. */
  lemma {:induction false} SentinelVerbatim(a: seq<string>, b: seq<string>, flags: set<string>)
    requires SENTINEL !in a
    ensures Expansion(a + [SENTINEL] + b, flags) == Expansion(a, flags) + [SENTINEL] + b
    decreases |a|
  {
    hide Expansion, Appended, NextArg;
    var rest := [SENTINEL] + b;
    var argv := a + rest;
    assert argv == a + [SENTINEL] + b;
    if a == [] {
      ExpansionAt(argv, 0, flags);
      AtSentinel(argv, flags);
      ExpansionNil(flags);
      assert argv[0..] == argv && argv[|argv|..] == [] && argv + [] == argv;
      assert [] + [SENTINEL] + b == argv;
    } else {
      ExpansionAt(argv, 0, flags);
      ExpansionAt(a, 0, flags);
      SameStep(a, rest, flags);
      var j := NextArg(a, 0, flags);
      assert argv[0..] == argv && a[0..] == a;
      assert argv[j..] == a[j..] + [SENTINEL] + b;
      SentinelVerbatim(a[j..], b, flags);
      Sequences.Assoc(Appended(a, 0, flags), Expansion(a[j..], flags), [SENTINEL] + b);
      assert Expansion(a[j..], flags) + [SENTINEL] + b == Expansion(a[j..], flags) + ([SENTINEL] + b);
      assert Expansion(a, flags) + [SENTINEL] + b == Expansion(a, flags) + ([SENTINEL] + b);
    }
  }

  lemma AtSentinel(argv: seq<string>, flags: set<string>)
    requires argv != [] && argv[0] == SENTINEL
    ensures NextArg(argv, 0, flags) == |argv| && Appended(argv, 0, flags) == argv
  {
  }

  lemma SameStep(a: seq<string>, rest: seq<string>, flags: set<string>)
    requires a != [] && a[0] != SENTINEL && rest != [] && rest[0] == SENTINEL
    ensures NextArg(a + rest, 0, flags) == NextArg(a, 0, flags)
    ensures Appended(a + rest, 0, flags) == Appended(a, 0, flags)
  {
    hide GroupLen, Group, Write, FlagOf, ValueOf;
    assert (a + rest)[1..] == a[1..] + rest;
    GroupLenPrefix(a[1..], rest);
    var j := NextArg(a, 0, flags);
    assert (a + rest)[1..j] == a[1..j];
  }

  // ---------- expanding twice ----------

  ghost predicate NoDashValues(items: seq<Item>) {
    items == [] || ((items[0].Value? ==> !IsDash(items[0].value)) && NoDashValues(items[1..]))
  }

  /** After a value comes another value, an option, the sentinel or nothing. */
  ghost predicate Separated(items: seq<Item>) {
    items == [] ||
    ((items[0].Value? && |items| > 1 && items[1].Plain? ==> IsDash(items[1].arg)) && Separated(items[1..]))
  }

  ghost predicate StartsWithDash(argv: seq<string>) {
    argv != [] ==> IsDash(argv[0])
  }

  lemma {:induction false} GroupSeparated(flag: string, values: seq<string>, tail: seq<Item>)
    requires Separated(tail) && (tail != [] && tail[0].Plain? ==> IsDash(tail[0].arg))
    ensures Separated(Group(flag, values) + tail)
    decreases |values|
  {
    if values == [] {
      assert Group(flag, values) + tail == tail;
    } else {
      GroupSeparated(flag, values[1..], tail);
      assert (Group(flag, values) + tail)[1..] == Group(flag, values[1..]) + tail;
    }
  }

  lemma PlainFirst(argv: seq<string>, i: nat, flags: set<string>)
    requires i <= |argv|
    ensures var items := Meaning(argv[i..], flags);
            i < |argv| && IsDash(argv[i]) && items != [] && items[0].Plain? ==> IsDash(items[0].arg)
    decreases |argv| - i
  {
    hide Group, FlagOf, ValueOf, IsAssignment, IsBareFlag, Meaning;
    if i < |argv| {
      MeaningAt(argv, i, flags);
      var j := NextArg(argv, i, flags);
      if argv[i] != SENTINEL && !IsPlain(argv[i], flags) {
        GroupLenNext(argv, i);
        PlainFirst(argv, j, flags);
        if j == |argv| { assert argv[j..] == []; MeaningNil(flags); }
      }
    }
  }

  lemma GroupLenNext(argv: seq<string>, i: nat)
    requires i < |argv|
    ensures var j := i + 1 + GroupLen(argv[i + 1..]); j <= |argv| && (j < |argv| ==> IsDash(argv[j]))
  {
  }

  lemma {:induction false} MeaningSeparated(argv: seq<string>, i: nat, flags: set<string>)
    requires i <= |argv|
    ensures Separated(Meaning(argv[i..], flags))
    decreases |argv| - i
  {
    hide Meaning, Group, FlagOf, ValueOf, Separated, NextArg;
    if i == |argv| {
      assert argv[i..] == [];
      MeaningNil(flags);
      SeparatedNil();
    } else {
      MeaningAt(argv, i, flags);
      var arg, j := argv[i], NextArg(argv, i, flags);
      MeaningSeparated(argv, j, flags);
      var tail := Meaning(argv[j..], flags);
      if arg == SENTINEL {
        SeparatedNil();
        SeparatedCons(Rest(argv[i..]), []);
        assert [Rest(argv[i..])] + [] == [Rest(argv[i..])];
      } else if IsPlain(arg, flags) {
        SeparatedCons(Plain(arg), tail);
      } else {
        GroupThenDash(argv, i, flags);
        if IsAssignment(arg, flags) {
          GroupSeparated(FlagOf(arg), [ValueOf(arg)] + argv[i + 1..j], tail);
          GroupCons(FlagOf(arg), ValueOf(arg), argv[i + 1..j], tail);
        } else {
          GroupSeparated(arg, argv[i + 1..j], tail);
        }
      }
    }
  }

  lemma SeparatedNil()
    ensures Separated([])
  {
  }

  lemma GroupThenDash(argv: seq<string>, i: nat, flags: set<string>)
    requires i < |argv| && argv[i] != SENTINEL && !IsPlain(argv[i], flags)
    ensures var tail := Meaning(argv[NextArg(argv, i, flags)..], flags);
            tail != [] && tail[0].Plain? ==> IsDash(tail[0].arg)
  {
    hide Meaning, IsPlain;
    var j := NextArg(argv, i, flags);
    GroupLenNext(argv, i);
    PlainFirst(argv, j, flags);
    if j == |argv| { assert argv[j..] == []; MeaningNil(flags); }
  }

  lemma GroupCons(flag: string, v: string, values: seq<string>, tail: seq<Item>)
    ensures Group(flag, [v] + values) + tail == [Value(flag, v)] + (Group(flag, values) + tail)
  {
  }

  lemma SeparatedCons(item: Item, rest: seq<Item>)
    requires Separated(rest) && !item.Value?
    ensures Separated([item] + rest)
  {
    assert ([item] + rest)[1..] == rest;
  }

  /** After a value the written command line goes on with a dash. */
  lemma WrittenDash(items: seq<Item>, flags: set<string>)
    requires FlagNames(flags) && Canonical(items, flags) && (items != [] && items[0].Plain? ==> IsDash(items[0].arg))
    ensures StartsWithDash(Write(items))
  {
  }

  /** Expanding what was written for a first item. */
  lemma ExpandPlain(a: string, w: seq<string>, flags: set<string>)
    requires IsPlain(a, flags)
    ensures Expansion([a] + w, flags) == [a] + Expansion(w, flags)
  {
    hide Meaning, Write;
    var argv := [a] + w;
    ExpansionAt(argv, 0, flags);
    assert argv[0..] == argv && argv[1..] == w;
  }

  lemma ExpandFlag(f: string, w: seq<string>, flags: set<string>)
    requires FlagNames(flags) && f in flags && StartsWithDash(w)
    ensures Expansion([f] + w, flags) == Expansion(w, flags)
  {
    hide Meaning;
    var argv := [f] + w;
    ExpansionAt(argv, 0, flags);
    assert argv[0..] == argv && argv[1..] == w;
    assert GroupLen(w) == 0;
    assert argv[1..1] == [];
    assert [] + Expansion(w, flags) == Expansion(w, flags);
  }

  lemma ExpandValue(f: string, v: string, w: seq<string>, flags: set<string>)
    requires FlagNames(flags) && f in flags && !IsDash(v) && StartsWithDash(w)
    ensures Expansion([f, v] + w, flags) == [f, v] + Expansion(w, flags)
  {
    hide Meaning;
    var argv := [f, v] + w;
    ExpansionAt(argv, 0, flags);
    assert argv[0..] == argv && argv[1..] == [v] + w && ([v] + w)[1..] == w;
    assert GroupLen([v] + w) == 1;
    assert argv[1..2] == [v] && argv[2..] == w;
    GroupNext(f, [], v);
    assert [] + [v] == [v];
    WriteNil();
    assert Write(Group(f, [])) == [];
  }

  lemma ExpandAssignment(v: string, w: seq<string>, flags: set<string>)
    requires FlagNames(flags) && IsAssignment(v, flags) && v != SENTINEL && StartsWithDash(w)
    ensures Expansion([v] + w, flags) == [FlagOf(v), ValueOf(v)] + Expansion(w, flags)
  {
    hide Meaning, FlagOf, ValueOf;
    var argv := [v] + w;
    ExpansionAt(argv, 0, flags);
    assert argv[0..] == argv && argv[1..] == w;
    assert GroupLen(w) == 0;
    assert argv[1..1] == [];
    WriteNil();
    assert [FlagOf(v), ValueOf(v)] + [] == [FlagOf(v), ValueOf(v)];
  }

  lemma ExpandRest(args: seq<string>, flags: set<string>)
    requires args != [] && args[0] == SENTINEL
    ensures Expansion(args, flags) == args
  {
    hide Meaning;
    ExpansionAt(args, 0, flags);
    ExpansionNil(flags);
    assert args[0..] == args && args[|args|..] == [] && args + [] == args;
  }

  /** A value that starts with a dash is not read as a value again, so the flag is lost. */
  lemma DashValueLost(f: string, v: string, w: seq<string>, flags: set<string>)
    requires FlagNames(flags) && f in flags && IsDash(v) && StartsWithDash(w)
    requires |Expansion(w, flags)| <= |w|
    ensures var e := Expansion([f, v] + w, flags); e != [f, v] + w && |e| <= 2 + |w|
  {
    hide Expansion;
    assert [f, v] + w == [f] + ([v] + w);
    ExpandFlag(f, [v] + w, flags);
    if v == SENTINEL {
      ExpandRest([v] + w, flags);
    } else if IsAssignment(v, flags) {
      ExpandAssignment(v, w, flags);
      assert ([f, v] + w)[1] == v && ([FlagOf(v), ValueOf(v)] + Expansion(w, flags))[1] == ValueOf(v);
    } else if IsBareFlag(v, flags) {
      ExpandFlag(v, w, flags);
    } else {
      ExpandPlain(v, w, flags);
    }
  }

  lemma {:induction false} TwiceExpanded(items: seq<Item>, flags: set<string>)
    requires FlagNames(flags) && Canonical(items, flags) && Separated(items)
    ensures |Expansion(Write(items), flags)| <= |Write(items)|
    ensures Expansion(Write(items), flags) == Write(items) <==> NoDashValues(items)
  {
    hide Expansion, IsPlain, FlagNames;
    if items == [] {
      ExpansionNil(flags);
    } else {
      var item, rest := items[0], items[1..];
      var w := Write(rest);
      TwiceExpanded(rest, flags);
      match item
      case Plain(a) =>
        ExpandPlain(a, w, flags);
        Sequences.SamePrefix([a], Expansion(w, flags), w);
      case Value(f, v) =>
        WrittenDash(rest, flags);
        if IsDash(v) {
          DashValueLost(f, v, w, flags);
        } else {
          ExpandValue(f, v, w, flags);
          Sequences.SamePrefix([f, v], Expansion(w, flags), w);
        }
      case Rest(args) =>
        assert rest == [] && args + [] == args;
        ExpandRest(args, flags);
    }
  }

  /** Expansion is idempotent if and only if no `--array=value` has a value that starts with a dash. */
  lemma ExpansionIdempotent(argv: seq<string>, flags: set<string>)
    requires FlagNames(flags)
    ensures Expansion(Expansion(argv, flags), flags) == Expansion(argv, flags) <==> NoDashAssignments(argv, flags)
  {
    hide Meaning, Canonical, Separated, NoDashValues, NoDashAssignments;
    NoDashValuesIff(argv, flags);
    assert argv[0..] == argv;
    MeaningCanonical(argv, 0, flags);
    MeaningSeparated(argv, 0, flags);
    TwiceExpanded(Meaning(argv, flags), flags);
  }

  lemma {:induction false} LeadingKept(argv: seq<string>, i: nat, flags: set<string>)
    requires FlagNames(flags) && i <= |argv|
    ensures Leading(Expansion(argv[i..], flags)) == Leading(argv[i..])
    decreases |argv| - i
  {
    hide Expansion, IsPlain, FlagNames;
    if i == |argv| {
      assert argv[i..] == [];
      ExpansionNil(flags);
    } else if IsDash(argv[i]) {
      ExpansionDash(argv, i, flags);
      assert argv[i..][0] == argv[i];
    } else {
      assert argv[i..] == [argv[i]] + argv[i + 1..];
      WordIsPlain(argv[i], flags);
      ExpandPlain(argv[i], argv[i + 1..], flags);
      LeadingKept(argv, i + 1, flags);
      LeadingCons(argv[i], argv[i + 1..]);
      LeadingCons(argv[i], Expansion(argv[i + 1..], flags));
    }
  }

  lemma LeadingCons(w: string, rest: seq<string>)
    requires !IsDash(w)
    ensures Leading([w] + rest) == [w] + Leading(rest)
  {
    assert ([w] + rest)[1..] == rest;
  }

  lemma WordIsPlain(w: string, flags: set<string>)
    requires FlagNames(flags) && !IsDash(w)
    ensures IsPlain(w, flags)
  {
  }

  lemma ExpansionDash(argv: seq<string>, i: nat, flags: set<string>)
    requires FlagNames(flags) && i < |argv| && IsDash(argv[i])
    ensures StartsWithDash(Expansion(argv[i..], flags))
  {
    hide Meaning, Canonical, FlagNames;
    MeaningCanonical(argv, i, flags);
    PlainFirst(argv, i, flags);
    WrittenDash(Meaning(argv[i..], flags), flags);
  }

  /** The expanded command line names the same command, so a second expansion has the same flags. */
  lemma SameCommand(argv: seq<string>, arrayParams: map<string, seq<string>>)
    requires FlagNames(ArrayFlags(argv, arrayParams))
    ensures ArrayFlags(Expansion(argv, ArrayFlags(argv, arrayParams)), arrayParams) == ArrayFlags(argv, arrayParams)
  {
    hide Expansion, Leading;
    assert argv[0..] == argv;
    LeadingKept(argv, 0, ArrayFlags(argv, arrayParams));
  }

  // ---------- nothing is lost ----------

  /** What the arguments carry besides array flags: the values of assignments, and all others. */
  function Payload(argv: seq<string>, flags: set<string>): seq<string> {
    if argv == [] then []
    else if argv[0] == SENTINEL then argv
    else
      (if IsAssignment(argv[0], flags) then [ValueOf(argv[0])]
       else if IsBareFlag(argv[0], flags) then [] else [argv[0]])
      + Payload(argv[1..], flags)
  }

  function Carried(items: seq<Item>): seq<string> {
    if items == [] then []
    else
      CarriedBy(items[0]) + Carried(items[1..])
  }

  function CarriedBy(item: Item): seq<string> {
    match item
    case Value(_, value) => [value]
    case Plain(arg) => [arg]
    case Rest(args) => args
  }

  lemma CarriedCons(item: Item, rest: seq<Item>)
    ensures Carried([item] + rest) == CarriedBy(item) + Carried(rest)
  {
    assert ([item] + rest)[1..] == rest;
  }

  lemma {:induction false} CarriedGroup(flag: string, values: seq<string>, tail: seq<Item>)
    ensures Carried(Group(flag, values) + tail) == values + Carried(tail)
  {
    if values == [] {
      assert Group(flag, values) + tail == tail;
    } else {
      assert Group(flag, values) + tail == [Value(flag, values[0])] + (Group(flag, values[1..]) + tail);
      CarriedCons(Value(flag, values[0]), Group(flag, values[1..]) + tail);
      CarriedGroup(flag, values[1..], tail);
      assert [values[0]] + (values[1..] + Carried(tail)) == values + Carried(tail);
    }
  }

  lemma {:induction false} PayloadWords(argv: seq<string>, n: nat, flags: set<string>)
    requires FlagNames(flags) && n <= |argv| && forall k :: 0 <= k < n ==> !IsDash(argv[k])
    ensures Payload(argv, flags) == argv[..n] + Payload(argv[n..], flags)
  {
    hide IsAssignment, IsBareFlag;
    if n == 0 {
      assert argv[0..] == argv && argv[..0] == [];
    } else {
      WordIsPlain(argv[0], flags);
      PayloadWords(argv[1..], n - 1, flags);
      assert argv[1..][n - 1..] == argv[n..];
      assert [argv[0]] + (argv[1..][..n - 1] + Payload(argv[n..], flags)) == argv[..n] + Payload(argv[n..], flags);
    }
  }

  /** The meaning carries everything the arguments carry, in their order. */
  lemma {:induction false} NothingLost(argv: seq<string>, flags: set<string>)
    requires FlagNames(flags)
    ensures Carried(Meaning(argv, flags)) == Payload(argv, flags)
    decreases |argv|
  {
    hide Meaning, Group, Carried, IsBareFlag, FlagNames, FlagOf, ValueOf, IsDash;
    if argv == [] {
      MeaningNil(flags);
      CarriesNothing();
    } else {
      var arg, rest := argv[0], argv[1..];
      var n := GroupLen(rest);
      assert argv == [arg] + rest;
      MeaningCons(arg, rest, n, flags);
      var tail := Meaning(rest[n..], flags);
      PayloadWords(rest, n, flags);
      NothingLost(rest[n..], flags);
      CarriesNothing();
      if arg == SENTINEL {
        CarriedCons(Rest(argv), []);
        assert [Rest(argv)] + [] == [Rest(argv)];
      } else if IsAssignment(arg, flags) {
        var flag := FlagOf(arg);
        CarriedGroup(flag, rest[..n], tail);
        CarriedCons(Value(flag, ValueOf(arg)), Group(flag, rest[..n]) + tail);
      } else if IsBareFlag(arg, flags) {
        CarriedGroup(arg, rest[..n], tail);
      } else {
        NothingLost(rest, flags);
        CarriedCons(Plain(arg), Meaning(rest, flags));
      }
    }
  }

  lemma CarriesNothing()
    ensures Carried([]) == []
  {
  }

  // ---------- the condition in terms of the arguments ----------

  /** No argument `--array=value` before the sentinel has a value that starts with a dash. */
  ghost predicate NoDashAssignments(argv: seq<string>, flags: set<string>) {
    forall k :: 0 <= k < |argv| && SENTINEL !in argv[..k] && argv[k] != SENTINEL ==> FineArg(argv[k], flags)
  }

  predicate FineArg(arg: string, flags: set<string>) {
    IsAssignment(arg, flags) ==> !IsDash(ValueOf(arg))
  }

  lemma FineCons(arg: string, rest: seq<string>, flags: set<string>)
    ensures NoDashAssignments([arg] + rest, flags) <==>
            arg == SENTINEL || (FineArg(arg, flags) && NoDashAssignments(rest, flags))
  {
    hide FineArg;
    var argv := [arg] + rest;
    assert argv[0] == arg && SENTINEL !in argv[..0];
    forall k | 0 <= k < |rest|
      ensures argv[k + 1] == rest[k]
      ensures SENTINEL in argv[..k + 1] <==> arg == SENTINEL || SENTINEL in rest[..k]
    {
      assert argv[..k + 1] == [arg] + rest[..k];
    }
    if arg != SENTINEL && FineArg(arg, flags) && NoDashAssignments(rest, flags) {
      forall k | 0 <= k < |argv| && SENTINEL !in argv[..k] && argv[k] != SENTINEL ensures FineArg(argv[k], flags) {
        if k > 0 { assert argv[(k - 1) + 1] == rest[k - 1]; }
      }
    }
    if arg != SENTINEL && NoDashAssignments(argv, flags) {
      forall k | 0 <= k < |rest| && SENTINEL !in rest[..k] && rest[k] != SENTINEL ensures FineArg(rest[k], flags) {
        assert argv[k + 1] == rest[k];
      }
    }
    if arg == SENTINEL {
      forall k | 0 < k < |argv| ensures SENTINEL in argv[..k] { assert argv[..k][0] == arg; }
    }
  }

  /** Values of a group have no dash, so they are no assignments. */
  lemma {:induction false} FineWords(argv: seq<string>, n: nat, flags: set<string>)
    requires n <= |argv| && forall k :: 0 <= k < n ==> !IsDash(argv[k])
    ensures NoDashAssignments(argv, flags) <==> NoDashAssignments(argv[n..], flags)
  {
    hide NoDashAssignments, IsDash;
    if n == 0 {
      assert argv[0..] == argv;
    } else {
      assert argv == [argv[0]] + argv[1..];
      FineCons(argv[0], argv[1..], flags);
      WordIsFine(argv[0], flags);
      FineWords(argv[1..], n - 1, flags);
      assert argv[1..][n - 1..] == argv[n..];
    }
  }

  lemma WordIsFine(arg: string, flags: set<string>)
    requires !IsDash(arg)
    ensures arg != SENTINEL && FineArg(arg, flags)
  {
  }

  lemma {:induction false} NoDashGroup(flag: string, values: seq<string>, tail: seq<Item>)
    requires forall k :: 0 <= k < |values| ==> !IsDash(values[k])
    ensures NoDashValues(Group(flag, values) + tail) <==> NoDashValues(tail)
  {
    if values == [] {
      assert Group(flag, values) + tail == tail;
    } else {
      GroupCons(flag, values[0], values[1..], tail);
      assert [values[0]] + values[1..] == values;
      var all := Group(flag, values) + tail;
      assert all[1..] == Group(flag, values[1..]) + tail;
      NoDashGroup(flag, values[1..], tail);
    }
  }

  lemma NoDashCons(item: Item, rest: seq<Item>)
    ensures NoDashValues([item] + rest) <==> (item.Value? ==> !IsDash(item.value)) && NoDashValues(rest)
  {
    assert ([item] + rest)[1..] == rest;
  }

  /** A value starts with a dash only if it was given as `--array=value`. */
  lemma {:induction false} NoDashValuesIff(argv: seq<string>, flags: set<string>)
    ensures NoDashValues(Meaning(argv, flags)) <==> NoDashAssignments(argv, flags)
    decreases |argv|
  {
    hide NoDashValues, NoDashAssignments, Meaning, Group, IsDash, FlagOf, ValueOf;
    if argv == [] {
      NoneIsFine(flags);
    } else {
      var arg, rest := argv[0], argv[1..];
      var n := GroupLen(rest);
      assert argv == [arg] + rest;
      MeaningCons(arg, rest, n, flags);
      FineCons(arg, rest, flags);
      NoDashCons(Rest(argv), []);
      NoneIsFine(flags);
      assert [Rest(argv)] + [] == [Rest(argv)];
      NoDashValuesIff(rest[n..], flags);
      FineWords(rest, n, flags);
      var tail := Meaning(rest[n..], flags);
      NoDashGroup(arg, rest[..n], tail);
      if IsAssignment(arg, flags) {
        NoDashGroup(FlagOf(arg), rest[..n], tail);
        NoDashCons(Value(FlagOf(arg), ValueOf(arg)), Group(FlagOf(arg), rest[..n]) + tail);
      } else if !IsBareFlag(arg, flags) {
        NoDashValuesIff(rest, flags);
        NoDashCons(Plain(arg), Meaning(rest, flags));
      }
    }
  }

  lemma NoneIsFine(flags: set<string>)
    ensures Meaning([], flags) == [] && NoDashValues([]) && NoDashAssignments([], flags)
  {
  }
}
