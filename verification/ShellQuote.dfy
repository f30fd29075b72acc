/** `ShellQuote` and `shellJoin`, and how a POSIX shell reads their output. */
module ShellQuote {
  import opened Wrappers
  import opened Bytes

  // ---------- the source ----------

  /** Bytes that are never quoted: letters, digits and `_%+,-./:=@`. Any other byte, and any byte
      of a non-ASCII character, makes the argument unsafe. */
  predicate IsSafe(c: byte) {
    || 0x61 <= c <= 0x7A || 0x41 <= c <= 0x5A || 0x30 <= c <= 0x39
    || c in [0x5F, 0x25, 0x2B, 0x2C, 0x2D, 0x2E, 0x2F, 0x3A, 0x3D, 0x40]
  }

  predicate AllSafe(arg: Text) {
    arg == [] || (IsSafe(arg[0]) && AllSafe(arg[1..]))
  }

  /** `strings.ReplaceAll(arg, "'", "'\\''")`. */
  function ReplaceQuotes(arg: Text): Text {
    if arg == [] then []
    else
      (if arg[0] == SINGLE_QUOTE then [SINGLE_QUOTE, BACKSLASH, SINGLE_QUOTE, SINGLE_QUOTE] else [arg[0]])
      + ReplaceQuotes(arg[1..])
  }

  function Quote(arg: Text): Text {
    if arg == [] || !AllSafe(arg) then [SINGLE_QUOTE] + ReplaceQuotes(arg) + [SINGLE_QUOTE] else arg
  }

  /** A letter, a digit or one of the ten listed characters. */
  predicate IsListed(c: byte) {
    var ch := c as int as char;
    'a' <= ch <= 'z' || 'A' <= ch <= 'Z' || '0' <= ch <= '9' || ch in "_%+,-./:=@"
  }

  /** An argument is left as it is exactly if it is not empty and holds listed characters only. */
  lemma QuotedAsNeeded(arg: Text)
    ensures Quote(arg) == arg <==> arg != [] && forall i :: 0 <= i < |arg| ==> IsListed(arg[i])
  {
    hide IsSafe, IsListed;
    AllSafeIff(arg);
    forall i | 0 <= i < |arg| ensures IsSafe(arg[i]) <==> IsListed(arg[i]) {
      SafeListed(arg[i]);
    }
    if arg == [] || !AllSafe(arg) { QuotingGrows(arg); }
  }

  lemma {:induction false} AllSafeIff(arg: Text)
    ensures AllSafe(arg) <==> forall i :: 0 <= i < |arg| ==> IsSafe(arg[i])
  {
    if arg != [] {
      AllSafeIff(arg[1..]);
      assert arg == [arg[0]] + arg[1..];
    }
  }

  lemma {:induction false} QuotingGrows(arg: Text)
    ensures |ReplaceQuotes(arg)| >= |arg|
  {
    if arg != [] { QuotingGrows(arg[1..]); }
  }

  lemma SafeListed(c: byte)
    ensures IsSafe(c) <==> IsListed(c)
  {
    var listed := "_%+,-./:=@";
    assert listed == ['_', '%', '+', ',', '-', '.', '/', ':', '=', '@'];
  }

  function QuoteAll(words: seq<Text>): (r: seq<Text>)
    ensures |r| == |words|
  {
    seq(|words|, k requires 0 <= k < |words| => Quote(words[k]))
  }

  /** `shellJoin`: the command name and its arguments, each quoted as needed. */
  method ShellJoin(cmdName: Text, args: seq<Text>) returns (s: Text)
    ensures s == Join(QuoteAll([cmdName] + args), [SPACE])
  {
    hide Quote;
    var cmd := new Text[|args| + 1](_ => []);
    cmd[0] := Quote(cmdName);
    var i := 0;
    while i < |args|
      invariant 0 <= i <= |args| && cmd[0] == Quote(cmdName)
      invariant forall k :: 0 <= k < i ==> cmd[k + 1] == Quote(args[k])
    {
      cmd[i + 1] := Quote(args[i]);
      i := i + 1;
    }
    forall k | 0 <= k < |args| + 1 ensures cmd[..][k] == QuoteAll([cmdName] + args)[k] {
      if k > 0 { assert cmd[(k - 1) + 1] == Quote(args[k - 1]); }
    }
    assert cmd[..] == QuoteAll([cmdName] + args);
    s := Join(cmd[..], [SPACE]);
  }

  // ---------- reading words ----------

  /** Between words, in a word, or inside single quotes of a word; the text of the word so far is
      kept with its quoting removed. */
  datatype Mode = Between | InWord(word: Text) | InQuotes(word: Text)

  function Extend(m: Mode, c: byte): Mode {
    if m.Between? then InWord([c]) else InWord(m.word + [c])
  }

  function OpenQuotes(m: Mode): Mode {
    if m.Between? then InQuotes([]) else InQuotes(m.word)
  }

  function Prepend(w: Text, rest: Option<seq<Text>>): Option<seq<Text>> {
    match rest
    case Some(ws) => Some([w] + ws)
    case None => None
  }

  /** A visible ASCII character that section 2.2 does not list as one that must be quoted, nor as one
      that may have to be, but for `=` and `%`, which matter in assignments and job names only. */
  predicate IsOrdinary(c: byte) {
    && 0x20 < c < 0x7F
    && c != 0x7C && c != 0x26 && c != 0x3B && c != 0x3C && c != 0x3E && c != 0x28 && c != 0x29   // | & ; < > ( )
    && c != 0x24 && c != 0x60 && c != 0x5C && c != 0x22 && c != 0x27                             // $ ` \ " '
    && c != 0x2A && c != 0x3F && c != 0x5B && c != 0x23 && c != 0x7E                             // * ? [ # ~
  }

  lemma SafeIsOrdinary(c: byte)
    requires IsSafe(c)
    ensures IsOrdinary(c)
  {
  }

  /** The words of a command line, by sections 2.2.1 (escape character), 2.2.2 (single quotes) and
      2.3 (token recognition) of the POSIX Shell Command Language. A line that needs any other rule
      to be read has no meaning here. */
  function Read(s: Text, m: Mode): Option<seq<Text>> {
    if s == [] then
      match m
      case Between => Some([])
      case InWord(w) => Some([w])
      case InQuotes(_) => None
    else
      var c, rest := s[0], s[1..];
      if m.InQuotes? then
        if c == SINGLE_QUOTE then Read(rest, InWord(m.word)) else Read(rest, InQuotes(m.word + [c]))
      else if c == SPACE || c == TAB then
        if m.Between? then Read(rest, Between) else Prepend(m.word, Read(rest, Between))
      else if c == SINGLE_QUOTE then Read(rest, OpenQuotes(m))
      else if c == BACKSLASH then
        if rest == [] then None
        else if rest[0] == NEWLINE then Read(rest[1..], m)
        else Read(rest[1..], Extend(m, rest[0]))
      else if IsOrdinary(c) then Read(rest, Extend(m, c))
      else None
  }

  // ---------- the round trip ----------

  lemma {:induction false} ReadQuoted(arg: Text, w: Text, rest: Text)
    ensures Read(ReplaceQuotes(arg) + [SINGLE_QUOTE] + rest, InQuotes(w)) == Read(rest, InWord(w + arg))
  {
    hide Read;
    var s := ReplaceQuotes(arg) + [SINGLE_QUOTE] + rest;
    if arg == [] {
      assert s == [SINGLE_QUOTE] + rest && w + [] == w;
      ReadNext(SINGLE_QUOTE, w, rest);
    } else {
      var more := ReplaceQuotes(arg[1..]) + [SINGLE_QUOTE] + rest;
      ReadQuoted(arg[1..], w + [arg[0]], rest);
      assert w + [arg[0]] + arg[1..] == w + arg;
      if arg[0] == SINGLE_QUOTE {
        assert s == [SINGLE_QUOTE, BACKSLASH, SINGLE_QUOTE, SINGLE_QUOTE] + more;
        ReadEscapedQuote(w, more);
      } else {
        assert s == [arg[0]] + more;
        ReadNext(arg[0], w, more);
      }
    }
  }

  /** Leaving the quotes, an escaped quote, and entering them again. */
  lemma ReadEscapedQuote(w: Text, more: Text)
    ensures Read([SINGLE_QUOTE, BACKSLASH, SINGLE_QUOTE, SINGLE_QUOTE] + more, InQuotes(w))
            == Read(more, InQuotes(w + [SINGLE_QUOTE]))
  {
    var s := [SINGLE_QUOTE, BACKSLASH, SINGLE_QUOTE, SINGLE_QUOTE] + more;
    assert s[1..] == [BACKSLASH, SINGLE_QUOTE, SINGLE_QUOTE] + more;
    assert s[1..][1..] == [SINGLE_QUOTE, SINGLE_QUOTE] + more;
    assert s[1..][1..][1..] == [SINGLE_QUOTE] + more;
    assert ([SINGLE_QUOTE] + more)[1..] == more;
    assert Read(s, InQuotes(w)) == Read(s[1..], InWord(w));
    assert Read(s[1..], InWord(w)) == Read([SINGLE_QUOTE] + more, InWord(w + [SINGLE_QUOTE]));
  }

  lemma {:induction false} ReadSafe(arg: Text, w: Text, rest: Text)
    requires AllSafe(arg)
    ensures Read(arg + rest, InWord(w)) == Read(rest, InWord(w + arg))
  {
    hide Read, IsSafe;
    if arg == [] {
      assert arg + rest == rest && w + [] == w;
    } else {
      assert arg + rest == [arg[0]] + (arg[1..] + rest);
      ReadNext(arg[0], w, arg[1..] + rest);
      ReadSafe(arg[1..], w + [arg[0]], rest);
      assert w + [arg[0]] + arg[1..] == w + arg;
    }
  }

  /** A byte inside a word, or inside the quotes of a word. */
  lemma ReadNext(c: byte, w: Text, rest: Text)
    ensures IsSafe(c) ==> Read([c] + rest, InWord(w)) == Read(rest, InWord(w + [c]))
    ensures c != SINGLE_QUOTE ==> Read([c] + rest, InQuotes(w)) == Read(rest, InQuotes(w + [c]))
    ensures Read([SINGLE_QUOTE] + rest, InQuotes(w)) == Read(rest, InWord(w))
  {
    hide IsOrdinary;
    if IsSafe(c) { SafeIsOrdinary(c); }
    assert ([c] + rest)[1..] == rest;
    assert ([SINGLE_QUOTE] + rest)[1..] == rest;
  }

  /** A quoted argument is read back as one word, whatever follows. */
  lemma ReadArgument(arg: Text, rest: Text)
    ensures Read(Quote(arg) + rest, Between) == Read(rest, InWord(arg))
  {
    hide Read, ReplaceQuotes, AllSafe;
    if arg == [] || !AllSafe(arg) {
      var inner := ReplaceQuotes(arg) + [SINGLE_QUOTE] + rest;
      assert Quote(arg) + rest == [SINGLE_QUOTE] + inner;
      ReadFirst(SINGLE_QUOTE, inner);
      ReadQuoted(arg, [], rest);
      assert [] + arg == arg;
    } else {
      SafeParts(arg);
      assert arg + rest == [arg[0]] + (arg[1..] + rest);
      ReadFirst(arg[0], arg[1..] + rest);
      ReadSafe(arg[1..], [arg[0]], rest);
      assert [arg[0]] + arg[1..] == arg;
    }
  }

  lemma SafeParts(arg: Text)
    requires arg != [] && AllSafe(arg)
    ensures IsSafe(arg[0]) && AllSafe(arg[1..])
  {
  }

  /** The first byte of a word. */
  lemma ReadFirst(c: byte, rest: Text)
    ensures c == SINGLE_QUOTE ==> Read([c] + rest, Between) == Read(rest, InQuotes([]))
    ensures IsSafe(c) ==> Read([c] + rest, Between) == Read(rest, InWord([c]))
  {
    hide IsOrdinary;
    if IsSafe(c) { SafeIsOrdinary(c); }
    assert ([c] + rest)[1..] == rest;
  }

  /** A word ends at a blank or at the end of the line. */
  lemma ReadWordEnd(w: Text, rest: Text)
    ensures Read([], InWord(w)) == Some([w])
    ensures Read([SPACE] + rest, InWord(w)) == Prepend(w, Read(rest, Between))
  {
    assert ([SPACE] + rest)[1..] == rest;
  }

  lemma QuoteAllCons(words: seq<Text>)
    requires words != []
    ensures QuoteAll(words)[0] == Quote(words[0]) && QuoteAll(words)[1..] == QuoteAll(words[1..])
  {
    hide Quote;
  }

  /** The joined command line is read back as exactly the words it was made from. */
  lemma {:induction false} JoinRoundTrip(words: seq<Text>)
    ensures Read(Join(QuoteAll(words), [SPACE]), Between) == Some(words)
  {
    hide *;
    JoinParts(words);
    if words != [] {
      var w, more := words[0], words[1..];
      var tail := Join(QuoteAll(more), [SPACE]);
      if |words| == 1 {
        ReadArgument(w, []);
        ReadWordEnd(w, []);
        assert Quote(w) + [] == Quote(w);
        assert words == [w];
      } else {
        JoinRoundTrip(more);
        ReadArgument(w, [SPACE] + tail);
        ReadWordEnd(w, tail);
        PrependMore(w, more);
      }
      assert words == [w] + more;
    }
  }

  lemma PrependMore(w: Text, more: seq<Text>)
    ensures Prepend(w, Some(more)) == Some([w] + more)
  {
  }

  lemma JoinParts(words: seq<Text>)
    ensures words == [] ==> Read(Join(QuoteAll(words), [SPACE]), Between) == Some([])
    ensures |words| == 1 ==> Join(QuoteAll(words), [SPACE]) == Quote(words[0])
    ensures |words| > 1 ==>
              Join(QuoteAll(words), [SPACE]) == Quote(words[0]) + ([SPACE] + Join(QuoteAll(words[1..]), [SPACE]))
  {
    hide Quote;
    if |words| > 1 {
      QuoteAllCons(words);
      var tail := Join(QuoteAll(words[1..]), [SPACE]);
      assert Quote(words[0]) + [SPACE] + tail == Quote(words[0]) + ([SPACE] + tail);
    }
  }

  /** Hence no two commands have the same joined form. */
  lemma JoinInjective(a: seq<Text>, b: seq<Text>)
    requires Join(QuoteAll(a), [SPACE]) == Join(QuoteAll(b), [SPACE])
    ensures a == b
  {
    hide *;
    JoinRoundTrip(a);
    JoinRoundTrip(b);
  }
}
