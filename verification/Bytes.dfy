/** Go strings as byte sequences: the byte classes and the line splitting and joining
    that the Containerfile editor is built on. */
module Bytes {
  import Sequences

  newtype byte = b: int | 0 <= b < 0x100

  type Text = seq<byte>

  const TAB: byte := 0x09
  const NEWLINE: byte := 0x0A
  const SPACE: byte := 0x20
  const DOUBLE_QUOTE: byte := 0x22
  const HASH: byte := 0x23
  const DOLLAR: byte := 0x24
  const SINGLE_QUOTE: byte := 0x27
  const DASH: byte := 0x2D
  const BACKSLASH: byte := 0x5C
  const BACKTICK: byte := 0x60

  /** `unicode.IsSpace` of a single byte, so the Latin-1 spaces 0x85 and 0xA0 count. */
  predicate IsSpace(c: byte) {
    0x09 <= c <= 0x0D || c == SPACE || c == 0x85 || c == 0xA0
  }

  predicate HasPrefix(s: Text, prefix: Text) {
    |prefix| <= |s| && s[..|prefix|] == prefix
  }

  /** Length in bytes of the white-space rune that `s` starts with in UTF-8, or 0. */
  function SpaceRune(s: Text): (n: nat)
    ensures n <= |s| && n <= 3
  {
    if s == [] then 0
    else if 0x09 <= s[0] <= 0x0D || s[0] == SPACE then 1
    else if |s| >= 2 && s[0] == 0xC2 && (s[1] == 0x85 || s[1] == 0xA0) then 2
    else if |s| >= 3 && s[0] == 0xE1 && s[1] == 0x9A && s[2] == 0x80 then 3
    else if |s| >= 3 && s[0] == 0xE2 && s[1] == 0x80
            && (0x80 <= s[2] <= 0x8A || s[2] == 0xA8 || s[2] == 0xA9 || s[2] == 0xAF) then 3
    else if |s| >= 3 && s[0] == 0xE2 && s[1] == 0x81 && s[2] == 0x9F then 3
    else if |s| >= 3 && s[0] == 0xE3 && s[1] == 0x80 && s[2] == 0x80 then 3
    else 0
  }

  /** `strings.TrimLeftFunc(s, unicode.IsSpace)`: here white space is decoded as UTF-8. */
  function TrimLeftSpace(s: Text): (t: Text)
    ensures |t| <= |s| && t == s[|s| - |t|..]
    ensures SpaceRune(t) == 0
  {
    var n := SpaceRune(s);
    if n == 0 then s else TrimLeftSpace(s[n..])
  }

  /** A proper prefix of a multi-byte white-space rune: appended bytes may complete the rune. */
  predicate PartialSpaceRune(t: Text) {
    || t == [0xC2] || t == [0xE1] || t == [0xE2] || t == [0xE3]
    || t == [0xE1, 0x9A] || t == [0xE2, 0x80] || t == [0xE2, 0x81] || t == [0xE3, 0x80]
  }

  /** Trimming commutes with appending, unless the appended bytes complete a cut rune. */
  lemma {:induction false} TrimLeftAppend(a: Text, y: Text)
    ensures TrimLeftSpace(a) == [] ==> TrimLeftSpace(a + y) == TrimLeftSpace(y)
    ensures TrimLeftSpace(a) != [] && !PartialSpaceRune(TrimLeftSpace(a)) ==>
              TrimLeftSpace(a + y) == TrimLeftSpace(a) + y
    decreases |a|
  {
    var n := SpaceRune(a);
    if n == 0 {
      if a == [] {
        assert a + y == y;
      } else if !PartialSpaceRune(a) {
        assert SpaceRune(a + y) == 0;
      }
    } else {
      assert SpaceRune(a + y) == n;
      assert (a + y)[n..] == a[n..] + y;
      TrimLeftAppend(a[n..], y);
    }
  }

  /** `strings.TrimRight(s, " \t")`. */
  function TrimRightBlanks(s: Text): (t: Text)
    ensures |t| <= |s|
  {
    if s != [] && (s[|s| - 1] == SPACE || s[|s| - 1] == TAB) then TrimRightBlanks(s[..|s| - 1])
    else s
  }

  /** What is left is a prefix without trailing blanks, and only blanks are dropped. */
  lemma {:induction false} TrimRightFacts(s: Text)
    ensures var t := TrimRightBlanks(s);
            && t == s[..|t|]
            && (t != [] ==> t[|t| - 1] != SPACE && t[|t| - 1] != TAB)
            && (forall i :: |t| <= i < |s| ==> s[i] == SPACE || s[i] == TAB)
  {
    if s != [] && (s[|s| - 1] == SPACE || s[|s| - 1] == TAB) {
      TrimRightFacts(s[..|s| - 1]);
    }
  }

  /** These facts determine the result. */
  lemma TrimRightUnique(s: Text, n: nat)
    requires n <= |s|
    requires n > 0 ==> s[n - 1] != SPACE && s[n - 1] != TAB
    requires forall i :: n <= i < |s| ==> s[i] == SPACE || s[i] == TAB
    ensures TrimRightBlanks(s) == s[..n]
  {
    TrimRightFacts(s);
    var t := TrimRightBlanks(s);
    assert |t| >= n by { assert n > 0 ==> s[n - 1] != SPACE && s[n - 1] != TAB; }
    assert |t| <= n by { assert |t| > 0 ==> s[|t| - 1] == t[|t| - 1]; }
  }

  // ---------- lines ----------

  /** Index of the first newline, or the length. */
  function NewlineIndex(s: Text): (k: nat)
    ensures k <= |s|
    ensures forall i :: 0 <= i < k ==> s[i] != NEWLINE
    ensures k < |s| ==> s[k] == NEWLINE
  {
    if s == [] || s[0] == NEWLINE then 0 else 1 + NewlineIndex(s[1..])
  }

  /** The newline-terminated lines of `s` without their newlines; an unterminated rest is a line. */
  function Lines(s: Text): seq<Text>
    decreases |s|
  {
    if s == [] then []
    else
      var k := NewlineIndex(s);
      if k == |s| then [s] else [s[..k]] + Lines(s[k + 1..])
  }

  lemma {:induction false} LinesPlain(s: Text)
    ensures forall i :: 0 <= i < |Lines(s)| ==> NEWLINE !in Lines(s)[i]
    decreases |s|
  {
    var k := NewlineIndex(s);
    if k < |s| { LinesPlain(s[k + 1..]); }
  }

  /** `strings.Join`. */
  function Join(parts: seq<Text>, sep: Text): Text {
    if |parts| == 0 then []
    else if |parts| == 1 then parts[0]
    else parts[0] + sep + Join(parts[1..], sep)
  }

  function Concat(parts: seq<Text>): Text {
    if parts == [] then [] else parts[0] + Concat(parts[1..])
  }

  /** How the editor puts lines back together. */
  function Unsplit(lines: seq<Text>): Text {
    Join(lines, [NEWLINE]) + [NEWLINE]
  }

  /** A text that starts with a complete line. */
  lemma LinesFirst(l: Text, rest: Text)
    requires NEWLINE !in l
    ensures Lines(l + [NEWLINE] + rest) == [l] + Lines(rest)
  {
    var s := l + [NEWLINE] + rest;
    assert s[|l|] == NEWLINE;
    assert forall i :: 0 <= i < |l| ==> s[i] == l[i];
    assert NewlineIndex(s) == |l|;
    assert s[..|l|] == l && s[|l| + 1..] == rest;
  }

  /** A line without newlines, once terminated, is one line. */
  lemma OneLine(l: Text)
    requires NEWLINE !in l
    ensures Lines(l + [NEWLINE]) == [l]
  {
    LinesFirst(l, []);
    assert l + [NEWLINE] + [] == l + [NEWLINE];
  }

  /** A text cut after a newline splits into the lines of both parts. */
  lemma {:induction false} LinesAppend(a: Text, b: Text)
    ensures Lines(a + [NEWLINE] + b) == Lines(a + [NEWLINE]) + Lines(b)
    decreases |a|
  {
    var k := NewlineIndex(a);
    if k == |a| {
      OneLine(a);
      LinesFirst(a, b);
    } else {
      var l, a' := CutLine(a, b);
      LinesAppend(a', b);
      LinesFirst(l, a' + [NEWLINE] + b);
      LinesFirst(l, a' + [NEWLINE]);
      Sequences.Assoc([l], Lines(a' + [NEWLINE]), Lines(b));
    }
  }

  lemma CutLine(a: Text, b: Text) returns (l: Text, a': Text)
    requires NewlineIndex(a) < |a|
    ensures NEWLINE !in l && |a'| < |a|
    ensures a + [NEWLINE] + b == l + [NEWLINE] + (a' + [NEWLINE] + b)
    ensures a + [NEWLINE] == l + [NEWLINE] + (a' + [NEWLINE])
  {
    var k := NewlineIndex(a);
    l, a' := a[..k], a[k + 1..];
    assert a == l + [NEWLINE] + a';
  }

  /** The lines of a list of stored lines, some of which may hold newlines themselves. */
  function Flat(stored: seq<Text>): seq<Text> {
    if stored == [] then [] else Lines(stored[0] + [NEWLINE]) + Flat(stored[1..])
  }

  lemma {:induction false} FlatAppend(a: seq<Text>, b: seq<Text>)
    ensures Flat(a + b) == Flat(a) + Flat(b)
  {
    if a == [] {
      assert a + b == b;
    } else {
      assert (a + b)[1..] == a[1..] + b;
      FlatAppend(a[1..], b);
    }
  }

  lemma {:induction false} FlatPlain(ls: seq<Text>)
    requires forall i :: 0 <= i < |ls| ==> NEWLINE !in ls[i]
    ensures Flat(ls) == ls
  {
    if ls != [] {
      OneLine(ls[0]);
      FlatPlain(ls[1..]);
      assert ls == [ls[0]] + ls[1..];
    }
  }

  /** Splitting the rejoined text gives the flattened stored lines. */
  lemma {:induction false} SplitUnsplit(stored: seq<Text>)
    requires stored != []
    ensures Lines(Unsplit(stored)) == Flat(stored)
  {
    if |stored| == 1 {
      assert Flat(stored[1..]) == [];
    } else {
      var rest := Unsplit(stored[1..]);
      assert Unsplit(stored) == stored[0] + [NEWLINE] + rest;
      LinesAppend(stored[0], rest);
      SplitUnsplit(stored[1..]);
    }
  }

  /** Splitting and putting back together changes nothing but a missing final newline. */
  lemma {:induction false} UnsplitLines(c: Text)
    requires c != []
    ensures Unsplit(Lines(c)) == if c[|c| - 1] == NEWLINE then c else c + [NEWLINE]
    decreases |c|
  {
    hide Lines, Unsplit;
    var k := NewlineIndex(c);
    if k == |c| {
      UnsplitLast(c, c);
    } else {
      var l, rest := c[..k], c[k + 1..];
      assert c == l + [NEWLINE] + rest;
      if rest == [] {
        UnsplitLast(l, c);
      } else {
        LinesFirst(l, rest);
        UnsplitLines(rest);
        LinesSome(rest);
        UnsplitCons(l, Lines(rest));
        assert c[|c| - 1] == rest[|rest| - 1];
      }
    }
  }

  lemma LinesSome(c: Text)
    requires c != []
    ensures Lines(c) != []
  {
  }

  /** A last line, terminated or not. */
  lemma UnsplitLast(l: Text, c: Text)
    requires NEWLINE !in l && c != [] && (c == l || c == l + [NEWLINE])
    ensures Unsplit(Lines(c)) == l + [NEWLINE]
  {
    if c == l { assert NewlineIndex(c) == |c|; } else { OneLine(l); }
    assert Lines(c) == [l];
  }

  lemma UnsplitCons(l: Text, rest: seq<Text>)
    requires rest != []
    ensures Unsplit([l] + rest) == l + [NEWLINE] + Unsplit(rest)
  {
    assert ([l] + rest)[1..] == rest;
  }

  /** So it gives the text back if and only if that ends in a newline. */
  lemma UnsplitLinesIff(c: Text)
    ensures Unsplit(Lines(c)) == c <==> c != [] && c[|c| - 1] == NEWLINE
  {
    hide Lines;
    if c == [] { assert |Unsplit(Lines(c))| > 0; } else { UnsplitLines(c); }
  }

  /** `splitLines`: the loop that collects the lines. */
  method SplitLines(s: Text) returns (lines: seq<Text>)
    ensures lines == Lines(s)
  {
    lines := [];
    var rest := s;
    while rest != []
      invariant lines + Lines(rest) == Lines(s)
      decreases |rest|
    {
      var k := NewlineIndex(rest);
      if k == |rest| {
        lines := lines + [rest];
        rest := [];
      } else {
        lines := lines + [rest[..k]];
        rest := rest[k + 1..];
      }
    }
  }
}
