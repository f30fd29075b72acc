/** Exclusion patterns: `pathPatternToRegexp` and what the generated regular expression matches.
    Text is a sequence of characters; the bytes with a meaning in a pattern are all ASCII. */
module Glob {
  import opened Wrappers
  import Bytes

  // ---------- the source ----------

  const META := ".+()|^$[]{}\\"

  function TranslateChar(c: char): string {
    if c == '*' then ".*"
    else if c == '?' then "."
    else if c in META then ['\\', c]
    else [c]
  }

  function TranslateBody(pattern: string): string {
    if pattern == "" then "" else TranslateChar(pattern[0]) + TranslateBody(pattern[1..])
  }

  lemma {:induction false} TranslateSnoc(pattern: string, c: char)
    ensures TranslateBody(pattern + [c]) == TranslateBody(pattern) + TranslateChar(c)
  {
    hide TranslateChar;
    if pattern == "" {
      assert (pattern + [c])[1..] == "" && pattern + [c] == [c];
      assert TranslateChar(c) + "" == TranslateChar(c);
    } else {
      assert (pattern + [c])[1..] == pattern[1..] + [c];
      TranslateSnoc(pattern[1..], c);
      var x, y := TranslateChar(pattern[0]), TranslateBody(pattern[1..]);
      assert x + (y + TranslateChar(c)) == x + y + TranslateChar(c);
    }
  }

  /** `pathPatternToRegexp`: the text that is compiled. */
  method PathPatternToRegexp(pattern: string) returns (text: string)
    ensures text == "^" + TranslateBody(pattern) + "$"
  {
    hide TranslateChar, TranslateBody;
    text := "^";
    var i := 0;
    TranslateNil();
    while i < |pattern|
      invariant 0 <= i <= |pattern| && text == "^" + TranslateBody(pattern[..i])
    {
      TranslateSnoc(pattern[..i], pattern[i]);
      assert pattern[..i + 1] == pattern[..i] + [pattern[i]];
      var piece := TranslateOne(pattern[i]);
      assert "^" + (TranslateBody(pattern[..i]) + piece) == "^" + TranslateBody(pattern[..i]) + piece;
      text := text + piece;
      i := i + 1;
    }
    assert pattern[..|pattern|] == pattern;
    text := text + "$";
  }

  lemma TranslateNil()
    ensures TranslateBody("") == "" && "^" + "" == "^"
  {
  }

  /** The switch in the loop. */
  method TranslateOne(c: char) returns (piece: string)
    ensures piece == TranslateChar(c)
  {
    match c
    case '*' => piece := ".*";
    case '?' => piece := ".";
    case _ => piece := if c in META then ['\\', c] else [c];
  }

  // ---------- reading a regular expression ----------

  /** One item of a pattern: any run of characters, any character, or one given character. */
  datatype Item = AnyRun | AnyChar | Literal(c: char)

  function Prepend(item: Item, rest: Option<seq<Item>>): Option<seq<Item>> {
    match rest
    case Some(items) => Some([item] + items)
    case None => None
  }

  /** The characters with a meaning of their own in a regular expression, which a backslash takes away. */
  const SPECIAL := "\\.+*?()|[]{}^$"

  /** What follows the opening anchor, up to the closing anchor at the very end: dots, starred
      dots, escaped meta characters and plain characters. Anything else is not read here. */
  function ReadTail(s: string): Option<seq<Item>> {
    if s == "" then None
    else if s == "$" then Some([])
    else if s[0] == '.' then
      if |s| > 1 && s[1] == '*' then Prepend(AnyRun, ReadTail(s[2..])) else Prepend(AnyChar, ReadTail(s[1..]))
    else if s[0] == '\\' then
      if |s| > 1 && s[1] in SPECIAL then Prepend(Literal(s[1]), ReadTail(s[2..])) else None
    else if s[0] in SPECIAL then None
    else Prepend(Literal(s[0]), ReadTail(s[1..]))
  }

  function ReadRegexp(text: string): Option<seq<Item>> {
    if text != "" && text[0] == '^' then ReadTail(text[1..]) else None
  }

  function ItemOf(c: char): Item {
    if c == '*' then AnyRun else if c == '?' then AnyChar else Literal(c)
  }

  function Items(pattern: string): seq<Item> {
    if pattern == "" then [] else [ItemOf(pattern[0])] + Items(pattern[1..])
  }

  /** Nothing the translation produces starts with a star. */
  lemma NoStarFirst(pattern: string)
    ensures var s := TranslateBody(pattern) + "$"; s[0] != '*'
  {
    var s := TranslateBody(pattern) + "$";
    if pattern != "" {
      assert s[0] == TranslateChar(pattern[0])[0];
    }
  }

  lemma ReadPiece(c: char, rest: string)
    requires rest != "" && rest[0] != '*'
    ensures ReadTail(TranslateChar(c) + rest) == Prepend(ItemOf(c), ReadTail(rest))
  {
    var piece := TranslateChar(c);
    var s := piece + rest;
    assert s[|piece|..] == rest;
    assert |s| > 1 && s[0] == piece[0];
    if |piece| == 2 { assert s[1] == piece[1]; } else { assert s[1] == rest[0]; }
  }

  lemma {:induction false} ReadBody(pattern: string)
    ensures ReadTail(TranslateBody(pattern) + "$") == Some(Items(pattern))
  {
    hide TranslateChar;
    if pattern == "" {
      assert "" + "$" == "$";
    } else {
      var rest := TranslateBody(pattern[1..]) + "$";
      NoStarFirst(pattern[1..]);
      ReadPiece(pattern[0], rest);
      ReadBody(pattern[1..]);
      assert TranslateBody(pattern) + "$" == TranslateChar(pattern[0]) + rest;
    }
  }

  /** Reading the generated text gives exactly the items of the pattern, anchored at both ends. */
  lemma TranslationReads(pattern: string)
    ensures ReadRegexp("^" + TranslateBody(pattern) + "$") == Some(Items(pattern))
  {
    hide TranslateBody, ReadTail, Items;
    ReadBody(pattern);
    var text := "^" + TranslateBody(pattern) + "$";
    assert text[1..] == TranslateBody(pattern) + "$";
  }

  // ---------- matching ----------

  /** How a regular expression of such items matches a whole text: a dot is any character but a
      newline, and a starred dot is any number of them. */
  predicate Matches(items: seq<Item>, path: string) {
    if items == [] then path == ""
    else
      match items[0]
      case Literal(c) => path != "" && path[0] == c && Matches(items[1..], path[1..])
      case AnyChar => path != "" && path[0] != '\n' && Matches(items[1..], path[1..])
      case AnyRun => exists n :: 0 <= n <= |path| && '\n' !in path[..n] && Matches(items[1..], path[n..])
  }

  /** What a pattern is documented to mean: `*` is any run of characters, slashes included, `?` any
      single character; `newlines` says whether wildcards cover newlines too. */
  predicate GlobMatch(pattern: string, path: string, newlines: bool)
    decreases |pattern|, |path|
  {
    if pattern == "" then path == ""
    else if pattern[0] == '*' then
      || GlobMatch(pattern[1..], path, newlines)
      || (path != "" && (newlines || path[0] != '\n') && GlobMatch(pattern, path[1..], newlines))
    else
      && path != ""
      && (if pattern[0] == '?' then newlines || path[0] != '\n' else path[0] == pattern[0])
      && GlobMatch(pattern[1..], path[1..], newlines)
  }

  /** The text matches after a run of `n` characters. */
  ghost predicate RunOf(rest: seq<Item>, path: string, n: nat) {
    n <= |path| && '\n' !in path[..n] && Matches(rest, path[n..])
  }

  lemma MatchesRun(items: seq<Item>, path: string)
    requires items != [] && items[0].AnyRun?
    ensures Matches(items, path) <==> exists n :: RunOf(items[1..], path, n)
  {
    if n: nat :| RunOf(items[1..], path, n) { assert 0 <= n <= |path| && '\n' !in path[..n]; }
    if Matches(items, path) {
      var n :| 0 <= n <= |path| && '\n' !in path[..n] && Matches(items[1..], path[n..]);
      assert RunOf(items[1..], path, n);
    }
  }

  lemma RunShorter(rest: seq<Item>, path: string, n: nat)
    requires path != ""
    ensures RunOf(rest, path, n + 1) <==> path[0] != '\n' && RunOf(rest, path[1..], n)
  {
    hide Matches;
    if n <= |path| - 1 {
      assert path[..n + 1] == [path[0]] + path[1..][..n] && path[1..][n..] == path[n + 1..];
    }
  }

  /** A run taken one character at a time. */
  lemma RunStep(items: seq<Item>, path: string)
    requires items != [] && items[0].AnyRun?
    ensures Matches(items, path) <==>
            Matches(items[1..], path) || (path != "" && path[0] != '\n' && Matches(items, path[1..]))
  {
    hide Matches;
    var rest := items[1..];
    MatchesRun(items, path);
    assert RunOf(rest, path, 0) <==> Matches(rest, path) by { assert path[0..] == path && path[..0] == ""; }
    if path != "" {
      MatchesRun(items, path[1..]);
      if n: nat :| RunOf(rest, path, n) && n > 0 { RunShorter(rest, path, n - 1); }
      if n: nat :| RunOf(rest, path[1..], n) { RunShorter(rest, path, n); }
    } else {
      assert forall n :: RunOf(rest, path, n) ==> n == 0;
    }
  }

  lemma {:induction false} RunIffGlob(pattern: string, path: string)
    requires pattern != "" && pattern[0] == '*'
    requires forall p :: Matches(Items(pattern[1..]), p) <==> GlobMatch(pattern[1..], p, false)
    ensures Matches(Items(pattern), path) <==> GlobMatch(pattern, path, false)
    decreases |path|
  {
    hide Matches;
    assert Items(pattern)[1..] == Items(pattern[1..]);
    RunStep(Items(pattern), path);
    if path != "" { RunIffGlob(pattern, path[1..]); }
  }

  lemma {:induction false} MatchesIffGlob(pattern: string, path: string)
    ensures Matches(Items(pattern), path) <==> GlobMatch(pattern, path, false)
    decreases |pattern|
  {
    if pattern != "" {
      assert Items(pattern)[1..] == Items(pattern[1..]);
      if pattern[0] == '*' {
        forall p ensures Matches(Items(pattern[1..]), p) <==> GlobMatch(pattern[1..], p, false) {
          MatchesIffGlob(pattern[1..], p);
        }
        RunIffGlob(pattern, path);
      } else if path != "" {
        MatchesIffGlob(pattern[1..], path[1..]);
      }
    }
  }

  lemma {:induction false} NewlinesDoNotMatter(pattern: string, path: string)
    requires '\n' !in path
    ensures GlobMatch(pattern, path, true) <==> GlobMatch(pattern, path, false)
    decreases |pattern|, |path|
  {
    if pattern != "" {
      if pattern[0] == '*' { NewlinesDoNotMatter(pattern[1..], path); }
      if path != "" {
        NewlinesDoNotMatter(pattern[1..], path[1..]);
        if pattern[0] == '*' { NewlinesDoNotMatter(pattern, path[1..]); }
      }
    }
  }

  /** The translation preserves meaning: the compiled text matches a newline-free path exactly if
      the pattern does. */
  lemma TranslationPreservesMeaning(pattern: string, path: string)
    requires '\n' !in path
    ensures var r := ReadRegexp("^" + TranslateBody(pattern) + "$");
            r.Some? && (Matches(r.value, path) <==> GlobMatch(pattern, path, true))
  {
    hide *;
    TranslationReads(pattern);
    MatchesIffGlob(pattern, path);
    NewlinesDoNotMatter(pattern, path);
  }

  /** Without that restriction the regular expression can only reject more. */
  lemma {:induction false} TranslationOnlyNarrows(pattern: string, path: string)
    requires GlobMatch(pattern, path, false)
    ensures GlobMatch(pattern, path, true)
    decreases |pattern|, |path|
  {
    if pattern != "" {
      if pattern[0] == '*' {
        if GlobMatch(pattern[1..], path, false) {
          TranslationOnlyNarrows(pattern[1..], path);
        } else {
          TranslationOnlyNarrows(pattern, path[1..]);
        }
      } else {
        TranslationOnlyNarrows(pattern[1..], path[1..]);
      }
    }
  }

  /** And it does: a newline in a path is not covered by a star. */
  lemma NewlineNotCovered()
    ensures GlobMatch("*", "\n", true) && !Matches(Items("*"), "\n")
  {
    MatchesIffGlob("*", "\n");
    StarIsAnyRun("\n");
  }

  /** A lone star matches every path, but without newlines only the newline-free ones. */
  lemma {:induction false} StarIsAnyRun(path: string)
    ensures GlobMatch("*", path, true)
    ensures GlobMatch("*", path, false) <==> '\n' !in path
  {
    assert "*"[1..] == "";
    if path != "" {
      StarIsAnyRun(path[1..]);
      assert path == [path[0]] + path[1..];
    }
  }

  /** All patterns mean for a path what they are documented to mean, if and only if the path holds
      no newline. */
  lemma GlobExactIff(path: string)
    ensures (forall p: string :: Matches(Items(p), path) <==> GlobMatch(p, path, true)) <==> '\n' !in path
  {
    hide *;
    StarIsAnyRun(path);
    MatchesIffGlob("*", path);
    if '\n' !in path {
      forall p: string ensures Matches(Items(p), path) <==> GlobMatch(p, path, true) {
        MatchesIffGlob(p, path);
        NewlinesDoNotMatter(p, path);
      }
    }
  }

  // ---------- exclusion ----------

  /** `unicode.IsSpace`. */
  predicate IsSpace(c: char) {
    || '\t' <= c <= '\r' || c == ' ' || c == '\U{85}' || c == '\U{A0}' || c == '\U{1680}'
    || '\U{2000}' <= c <= '\U{200A}' || c == '\U{2028}' || c == '\U{2029}' || c == '\U{202F}'
    || c == '\U{205F}' || c == '\U{3000}'
  }

  /** The UTF-8 form of a character of the basic plane. */
  function Utf8(c: char): seq<Bytes.byte>
    requires c as int < 0x1_0000
  {
    var n := c as int;
    if n < 0x80 then [n as Bytes.byte]
    else if n < 0x800 then [(0xC0 + n / 0x40) as Bytes.byte, (0x80 + n % 0x40) as Bytes.byte]
    else [(0xE0 + n / 0x1000) as Bytes.byte, (0x80 + n / 0x40 % 0x40) as Bytes.byte, (0x80 + n % 0x40) as Bytes.byte]
  }

  /** White space is the same in characters, in UTF-8 text and, for the first 256 characters, in bytes. */
  lemma SpacesAgree(c: char)
    requires c as int < 0x1_0000
    ensures Bytes.SpaceRune(Utf8(c)) == if IsSpace(c) then |Utf8(c)| else 0
    ensures c as int < 0x100 ==> (Bytes.IsSpace(c as int as Bytes.byte) <==> IsSpace(c))
  {
  }

  /** `strings.TrimSpace`. */
  function Trim(s: string): string {
    if s != "" && IsSpace(s[0]) then Trim(s[1..])
    else if s != "" && IsSpace(s[|s| - 1]) then Trim(s[..|s| - 1])
    else s
  }

  /** Trimming takes white space off both ends and leaves none there. */
  lemma {:induction false} TrimMeaning(s: string) returns (l: string, r: string)
    ensures s == l + Trim(s) + r
    ensures (forall c :: c in l ==> IsSpace(c)) && (forall c :: c in r ==> IsSpace(c))
    ensures var t := Trim(s); t != "" ==> !IsSpace(t[0]) && !IsSpace(t[|t| - 1])
  {
    hide IsSpace;
    l, r := "", "";
    if s != "" && IsSpace(s[0]) {
      l, r := TrimMeaning(s[1..]);
      assert s == [s[0]] + (l + Trim(s) + r) == ([s[0]] + l) + Trim(s) + r;
      l := [s[0]] + l;
    } else if s != "" && IsSpace(s[|s| - 1]) {
      var n := |s| - 1;
      l, r := TrimMeaning(s[..n]);
      assert s == l + Trim(s) + r + [s[n]] == l + Trim(s) + (r + [s[n]]);
      r := r + [s[n]];
    }
  }

  predicate IsAbsolute(pattern: string) { pattern != "" && pattern[0] == '/' }

  /** A path is excluded if some non-blank pattern matches it. */
  ghost predicate Excluded(patterns: seq<string>, rel: string, newlines: bool) {
    exists k :: 0 <= k < |patterns| && Trim(patterns[k]) != "" && GlobMatch(Trim(patterns[k]), rel, newlines)
  }

  lemma ExcludedAlike(patterns: seq<string>, rel: string)
    requires '\n' !in rel
    ensures Excluded(patterns, rel, true) <==> Excluded(patterns, rel, false)
  {
    hide Trim, GlobMatch;
    forall k | 0 <= k < |patterns|
      ensures GlobMatch(Trim(patterns[k]), rel, true) <==> GlobMatch(Trim(patterns[k]), rel, false)
    {
      NewlinesDoNotMatter(Trim(patterns[k]), rel);
    }
  }

  /** `compileExcludePatterns`: blank patterns are dropped, an absolute pattern is an error. */
  method CompileExcludePatterns(patterns: seq<string>) returns (r: Result<seq<seq<Item>>, string>)
    ensures r.Failure? <==> exists k :: 0 <= k < |patterns| && Trim(patterns[k]) != "" && Trim(patterns[k])[0] == '/'
    ensures r.Success? ==> forall rel :: AnyMatches(r.value, rel) <==> Excluded(patterns, rel, false)
    ensures r.Success? ==> forall rel :: '\n' !in rel ==> (AnyMatches(r.value, rel) <==> Excluded(patterns, rel, true))
  {
    hide Trim, TranslateBody, ReadRegexp, Items, AnyMatches, Excluded;
    var out: seq<seq<Item>> := [];
    var i := 0;
    while i < |patterns|
      invariant 0 <= i <= |patterns|
      invariant forall k :: 0 <= k < i ==> !IsAbsolute(Trim(patterns[k]))
      invariant out == CompileAll(patterns[..i])
    {
      assert patterns[..i + 1][..i] == patterns[..i];
      var pattern := Trim(patterns[i]);
      if pattern == "" {
        i := i + 1;
        continue;
      }
      if IsAbsolute(pattern) {
        return Failure(pattern);
      }
      var text := PathPatternToRegexp(pattern);
      TranslationReads(pattern);
      out := out + [ReadRegexp(text).value];
      i := i + 1;
    }
    assert patterns[..|patterns|] == patterns;
    forall rel
      ensures AnyMatches(out, rel) <==> Excluded(patterns, rel, false)
      ensures '\n' !in rel ==> (AnyMatches(out, rel) <==> Excluded(patterns, rel, true))
    {
      CompileAllExcludes(patterns, rel);
      if '\n' !in rel { ExcludedAlike(patterns, rel); }
    }
    return Success(out);
  }

  /** The items of the non-blank patterns, in order. */
  ghost function CompileAll(patterns: seq<string>): seq<seq<Item>> {
    if patterns == [] then []
    else
      var n := |patterns| - 1;
      CompileAll(patterns[..n]) + if Trim(patterns[n]) == "" then [] else [Items(Trim(patterns[n]))]
  }

  ghost predicate AnyMatches(out: seq<seq<Item>>, rel: string) {
    exists j :: 0 <= j < |out| && Matches(out[j], rel)
  }

  lemma AnyMatchesSnoc(out: seq<seq<Item>>, items: seq<Item>, rel: string)
    ensures AnyMatches(out + [items], rel) <==> AnyMatches(out, rel) || Matches(items, rel)
  {
    hide Matches;
    var more := out + [items];
    assert more[|out|] == items;
    assert forall j :: 0 <= j < |out| ==> more[j] == out[j];
  }

  lemma ExcludedSnoc(patterns: seq<string>, p: string, rel: string)
    ensures Excluded(patterns + [p], rel, false) <==>
            Excluded(patterns, rel, false) || (Trim(p) != "" && GlobMatch(Trim(p), rel, false))
  {
    hide Trim, GlobMatch;
    var more := patterns + [p];
    assert more[|patterns|] == p;
    assert forall j :: 0 <= j < |patterns| ==> more[j] == patterns[j];
  }

  lemma {:induction false} CompileAllExcludes(patterns: seq<string>, rel: string)
    ensures AnyMatches(CompileAll(patterns), rel) <==> Excluded(patterns, rel, false)
  {
    hide Trim, Items, Matches, GlobMatch, Excluded;
    if patterns == [] {
      NothingExcluded(rel);
    } else {
      var n := |patterns| - 1;
      var p := Trim(patterns[n]);
      CompileAllExcludes(patterns[..n], rel);
      assert patterns == patterns[..n] + [patterns[n]];
      ExcludedSnoc(patterns[..n], patterns[n], rel);
      AnyMatchesSnoc(CompileAll(patterns[..n]), Items(p), rel);
      MatchesIffGlob(p, rel);
      assert CompileAll(patterns[..n]) + [] == CompileAll(patterns[..n]);
    }
  }

  lemma NothingExcluded(rel: string)
    ensures !Excluded([], rel, false)
  {
  }

  /** `symlinkPathExcluded`; `relative` is the path relative to the checkout, if it has one. */
  method SymlinkPathExcluded(relative: Option<string>, patterns: seq<seq<Item>>) returns (excluded: bool)
    ensures excluded <==> relative.Some? && AnyMatches(patterns, relative.value)
  {
    hide Matches;
    if relative.None? {
      return false;
    }
    var rel := relative.value;
    var j := 0;
    while j < |patterns|
      invariant 0 <= j <= |patterns|
      invariant forall k :: 0 <= k < j ==> !Matches(patterns[k], rel)
    {
      if Matches(patterns[j], rel) {
        return true;
      }
      j := j + 1;
    }
    return false;
  }
}
