/** The prefetch input: detecting RPM packages in a JSON tree and adding options to them. */
module RpmInput {
  import opened Wrappers

  /** A decoded JSON value. */
  datatype Json =
    | Null
    | Bool(value: bool)
    | Number(text: string)
    | Text(chars: string)
    | Arr(items: seq<Json>)
    | Obj(fields: Fields)

  type Fields = map<string, Json>

  const PACKAGES := "packages"
  const TYPE := "type"
  const OPTIONS := "options"
  const SSL := "ssl"
  const SUMMARY := "include_summary_in_sbom"

  predicate HasPackages(f: Fields) {
    PACKAGES in f && f[PACKAGES].Arr?
  }

  predicate IsRpm(f: Fields) {
    TYPE in f && f[TYPE] == Text("rpm")
  }

  /** An object that is itself changed by the injections. */
  predicate IsRpmLeaf(f: Fields) {
    !HasPackages(f) && IsRpm(f)
  }

  /** `containsRPM`. */
  predicate ContainsRpm(input: Json)
    decreases input
  {
    match input
    case Arr(items) => exists i :: 0 <= i < |items| && ContainsRpm(items[i])
    case Obj(f) =>
      (HasPackages(f) && exists i :: 0 <= i < |f[PACKAGES].items| && ContainsRpm(f[PACKAGES].items[i])) || IsRpm(f)
    case _ => false
  }

  /** The common shape of the injections: `leaf` is applied to the fields of every RPM leaf. */
  function Rewrite(input: Json, leaf: Fields -> Fields): Json
    decreases input
  {
    match input
    case Arr(items) => Arr(seq(|items|, i requires 0 <= i < |items| => Rewrite(items[i], leaf)))
    case Obj(f) =>
      if HasPackages(f) then
        var items := f[PACKAGES].items;
        Obj(f[PACKAGES := Arr(seq(|items|, i requires 0 <= i < |items| => Rewrite(items[i], leaf)))])
      else if IsRpm(f) then Obj(leaf(f))
      else input
    case _ => input
  }

  function SummaryLeaf(f: Fields): Fields {
    f[SUMMARY := Bool(true)]
  }

  /** The `options.ssl` object that is extended, if there is one. */
  predicate HasSsl(f: Fields) {
    OPTIONS in f && f[OPTIONS].Obj? && SSL in f[OPTIONS].fields && f[OPTIONS].fields[SSL].Obj?
  }

  function SslLeaf(f: Fields, ssl: Fields): Fields {
    if HasSsl(f) then
      f[OPTIONS := Obj(f[OPTIONS].fields[SSL := Obj(f[OPTIONS].fields[SSL].fields + ssl)])]
    else f[OPTIONS := Obj(map[SSL := Obj(ssl)])]
  }

  function WithSummary(input: Json): Json {
    Rewrite(input, SummaryLeaf)
  }

  function WithSsl(input: Json, ssl: Fields): Json {
    Rewrite(input, (f: Fields) => SslLeaf(f, ssl))
  }

  // ---------- the recursive procedures ----------

  /** `injectSummaryInSBOMField`. */
  method InjectSummaryInSBOMField(input: Json) returns (r: Json)
    ensures r == WithSummary(input)
    decreases input
  {
    match input {
      case Arr(items) =>
        var data := items;
        for i := 0 to |items|
          invariant |data| == |items|
          invariant forall k :: 0 <= k < i ==> data[k] == WithSummary(items[k])
          invariant forall k :: i <= k < |items| ==> data[k] == items[k]
        {
          var item := InjectSummaryInSBOMField(items[i]);
          data := data[i := item];
        }
        return Arr(data);
      case Obj(f) =>
        if HasPackages(f) {
          var items := f[PACKAGES].items;
          var packages := items;
          for i := 0 to |items|
            invariant |packages| == |items|
            invariant forall k :: 0 <= k < i ==> packages[k] == WithSummary(items[k])
            invariant forall k :: i <= k < |items| ==> packages[k] == items[k]
          {
            var item := InjectSummaryInSBOMField(items[i]);
            packages := packages[i := item];
          }
          RewritePackages(f, SummaryLeaf, packages);
          return Obj(f[PACKAGES := Arr(packages)]);
        }
        if IsRpm(f) {
          return Obj(f[SUMMARY := Bool(true)]);
        }
        return input;
      case _ => return input;
    }
  }

  /** `injectSSLOptions`. */
  method InjectSSLOptions(input: Json, ssl: Fields) returns (r: Json)
    ensures r == WithSsl(input, ssl)
    decreases input
  {
    match input {
      case Arr(items) =>
        var data := items;
        for i := 0 to |items|
          invariant |data| == |items|
          invariant forall k :: 0 <= k < i ==> data[k] == WithSsl(items[k], ssl)
          invariant forall k :: i <= k < |items| ==> data[k] == items[k]
        {
          var item := InjectSSLOptions(items[i], ssl);
          data := data[i := item];
        }
        return Arr(data);
      case Obj(f) =>
        if HasPackages(f) {
          var items := f[PACKAGES].items;
          var packages := items;
          for i := 0 to |items|
            invariant |packages| == |items|
            invariant forall k :: 0 <= k < i ==> packages[k] == WithSsl(items[k], ssl)
            invariant forall k :: i <= k < |items| ==> packages[k] == items[k]
          {
            var item := InjectSSLOptions(items[i], ssl);
            packages := packages[i := item];
          }
          RewritePackages(f, (g: Fields) => SslLeaf(g, ssl), packages);
          return Obj(f[PACKAGES := Arr(packages)]);
        }
        if IsRpm(f) {
          if OPTIONS in f && f[OPTIONS].Obj? {
            var existing := f[OPTIONS].fields;
            if SSL in existing && existing[SSL].Obj? {
              return Obj(f[OPTIONS := Obj(existing[SSL := Obj(existing[SSL].fields + ssl)])]);
            }
          }
          return Obj(f[OPTIONS := Obj(map[SSL := Obj(ssl)])]);
        }
        return input;
      case _ => return input;
    }
  }

  lemma RewritePackages(f: Fields, leaf: Fields -> Fields, packages: seq<Json>)
    requires HasPackages(f) && |packages| == |f[PACKAGES].items|
    requires forall k :: 0 <= k < |packages| ==> packages[k] == Rewrite(f[PACKAGES].items[k], leaf)
    ensures Rewrite(Obj(f), leaf) == Obj(f[PACKAGES := Arr(packages)])
  {
    var items := f[PACKAGES].items;
    assert packages == seq(|items|, i requires 0 <= i < |items| => Rewrite(items[i], leaf));
  }

  // ---------- the nodes that are visited ----------

  /** The values the traversals go down to: array elements, and elements of a `packages` array. */
  function Children(j: Json): seq<Json> {
    match j
    case Arr(items) => items
    case Obj(f) => if HasPackages(f) then f[PACKAGES].items else []
    case _ => []
  }

  /** The value reached by following child positions. */
  function At(j: Json, path: seq<nat>): Option<Json> {
    if path == [] then Some(j)
    else if path[0] < |Children(j)| then At(Children(j)[path[0]], path[1..])
    else None
  }

  predicate IsRpmNode(node: Option<Json>) {
    node.Some? && node.value.Obj? && IsRpm(node.value.fields)
  }

  ghost predicate VisitsRpm(j: Json) {
    exists path: seq<nat> :: IsRpmNode(At(j, path))
  }

  predicate IsLeafNode(node: Option<Json>) {
    node.Some? && node.value.Obj? && IsRpmLeaf(node.value.fields)
  }

  /** `containsRPM` tells whether some visited object has the type `rpm`. */
  lemma ContainsRpmIff(j: Json)
    ensures ContainsRpm(j) <==> VisitsRpm(j)
  {
    hide ContainsRpm, At;
    if ContainsRpm(j) {
      var path := FindRpm(j);
      assert VisitsRpm(j);
    }
    if VisitsRpm(j) {
      var path: seq<nat> :| IsRpmNode(At(j, path));
      RpmFound(j, path);
    }
  }

  lemma {:induction false} FindRpm(j: Json) returns (path: seq<nat>)
    requires ContainsRpm(j)
    ensures IsRpmNode(At(j, path))
    decreases j
  {
    if j.Obj? && IsRpm(j.fields) {
      path := [];
    } else {
      var i :| 0 <= i < |Children(j)| && ContainsRpm(Children(j)[i]);
      var rest := FindRpm(Children(j)[i]);
      path := [i] + rest;
      assert path[1..] == rest;
    }
  }

  lemma {:induction false} RpmFound(j: Json, path: seq<nat>)
    requires IsRpmNode(At(j, path))
    ensures ContainsRpm(j)
    decreases path
  {
    if path != [] { RpmFound(Children(j)[path[0]], path[1..]); }
  }

  // ---------- what the injections do ----------

  /** Visiting a rewritten tree gives the rewritten node: the shape is kept. */
  lemma {:induction false} RewriteAt(j: Json, leaf: Fields -> Fields, path: seq<nat>)
    requires KeepsKind(leaf)
    ensures At(Rewrite(j, leaf), path)
            == match At(j, path) case None => None case Some(node) => Some(Rewrite(node, leaf))
    decreases path
  {
    RewriteChildren(j, leaf);
    if path != [] && path[0] < |Children(j)| {
      RewriteAt(Children(j)[path[0]], leaf, path[1..]);
    }
  }

  /** Rewriting an RPM leaf gives an RPM leaf again. */
  ghost predicate KeepsKind(leaf: Fields -> Fields) {
    forall f :: IsRpmLeaf(f) ==> IsRpmLeaf(leaf(f))
  }

  lemma RewriteChildren(j: Json, leaf: Fields -> Fields)
    requires KeepsKind(leaf)
    ensures |Children(Rewrite(j, leaf))| == |Children(j)|
    ensures forall i :: 0 <= i < |Children(j)| ==> Children(Rewrite(j, leaf))[i] == Rewrite(Children(j)[i], leaf)
  {
  }

  /** An object's own fields after a rewrite: only an RPM leaf is changed by `leaf`, any other object
      keeps every field but `packages`. */
  lemma RewriteFields(f: Fields, leaf: Fields -> Fields)
    ensures var r := Rewrite(Obj(f), leaf);
            r.Obj? && if IsRpmLeaf(f) then r.fields == leaf(f)
                      else r.fields.Keys == f.Keys && forall k :: k in f && k != PACKAGES ==> r.fields[k] == f[k]
  {
  }

  /** Not an RPM leaf, or one at which `leaf` changes nothing. */
  ghost predicate Fixed(node: Option<Json>, leaf: Fields -> Fields) {
    IsLeafNode(node) ==> leaf(node.value.fields) == node.value.fields
  }

  ghost predicate NothingToDo(j: Json, leaf: Fields -> Fields) {
    forall path: seq<nat> :: Fixed(At(j, path), leaf)
  }

  /** A tree is left unchanged exactly if `leaf` has nothing to do at any RPM leaf. */
  lemma RewriteUnchangedIff(j: Json, leaf: Fields -> Fields)
    requires KeepsKind(leaf)
    ensures Rewrite(j, leaf) == j <==> NothingToDo(j, leaf)
  {
    hide At, Rewrite;
    if Rewrite(j, leaf) == j {
      forall path: seq<nat> ensures Fixed(At(j, path), leaf) {
        RewriteAt(j, leaf, path);
        if IsLeafNode(At(j, path)) { RewriteFields(At(j, path).value.fields, leaf); }
      }
    }
    if NothingToDo(j, leaf) {
      RewriteNothing(j, leaf);
    }
  }

  lemma {:induction false} RewriteNothing(j: Json, leaf: Fields -> Fields)
    requires NothingToDo(j, leaf)
    ensures Rewrite(j, leaf) == j
    decreases j
  {
    hide At, Rewrite, Fixed;
    AtRoot(j);
    forall i | 0 <= i < |Children(j)| ensures Rewrite(Children(j)[i], leaf) == Children(j)[i] {
      forall path: seq<nat> ensures Fixed(At(Children(j)[i], path), leaf) {
        AtChild(j, i, path);
      }
      RewriteNothing(Children(j)[i], leaf);
    }
    SameChildren(j, leaf);
  }

  lemma AtRoot(j: Json)
    ensures At(j, []) == Some(j)
  {
  }

  lemma AtChild(j: Json, i: nat, path: seq<nat>)
    requires i < |Children(j)|
    ensures At(j, [i] + path) == At(Children(j)[i], path)
  {
    assert ([i] + path)[1..] == path;
  }

  lemma SameChildren(j: Json, leaf: Fields -> Fields)
    requires forall i :: 0 <= i < |Children(j)| ==> Rewrite(Children(j)[i], leaf) == Children(j)[i]
    requires Fixed(Some(j), leaf)
    ensures Rewrite(j, leaf) == j
  {
    assert j.Arr? ==> forall i :: 0 <= i < |j.items| ==> Rewrite(j.items[i], leaf) == j.items[i] by {
      if j.Arr? { assert Children(j) == j.items; }
    }
    if j.Obj? && HasPackages(j.fields) {
      assert Children(j) == j.fields[PACKAGES].items;
      RewritePackages(j.fields, leaf, j.fields[PACKAGES].items);
    }
  }

  /** Rewriting twice is rewriting with the composed function; the rewrites of two functions that
      commute do too. */
  lemma {:induction false} RewriteTwice(j: Json, first: Fields -> Fields, second: Fields -> Fields)
    requires KeepsKind(first)
    ensures Rewrite(Rewrite(j, first), second) == Rewrite(j, (f: Fields) => second(first(f)))
    decreases j
  {
    var both := (f: Fields) => second(first(f));
    forall i | 0 <= i < |Children(j)|
      ensures Rewrite(Rewrite(Children(j)[i], first), second) == Rewrite(Children(j)[i], both)
    {
      RewriteTwice(Children(j)[i], first, second);
    }
    TwiceChildren(j, first, second, both);
  }

  lemma TwiceChildren(j: Json, first: Fields -> Fields, second: Fields -> Fields, both: Fields -> Fields)
    requires KeepsKind(first) && forall f :: both(f) == second(first(f))
    requires forall i :: 0 <= i < |Children(j)| ==>
                           Rewrite(Rewrite(Children(j)[i], first), second) == Rewrite(Children(j)[i], both)
    ensures Rewrite(Rewrite(j, first), second) == Rewrite(j, both)
  {
    RewriteChildren(j, first);
    if j.Obj? && HasPackages(j.fields) {
      var once := Rewrite(j, first);
      var twice := Rewrite(once, second);
      assert HasPackages(once.fields) && HasPackages(twice.fields);
      RewritePackages(j.fields, both, twice.fields[PACKAGES].items);
      assert twice.fields == j.fields[PACKAGES := twice.fields[PACKAGES]];
    }
  }

  /** Rewriting depends on `leaf` at RPM leaves only. */
  lemma {:induction false} RewriteSame(j: Json, a: Fields -> Fields, b: Fields -> Fields)
    requires forall f :: IsRpmLeaf(f) ==> a(f) == b(f)
    ensures Rewrite(j, a) == Rewrite(j, b)
    decreases j
  {
    forall i | 0 <= i < |Children(j)| ensures Rewrite(Children(j)[i], a) == Rewrite(Children(j)[i], b) {
      RewriteSame(Children(j)[i], a, b);
    }
    EqualChildren(j, a, b);
  }

  lemma EqualChildren(j: Json, a: Fields -> Fields, b: Fields -> Fields)
    requires forall f :: IsRpmLeaf(f) ==> a(f) == b(f)
    requires forall i :: 0 <= i < |Children(j)| ==> Rewrite(Children(j)[i], a) == Rewrite(Children(j)[i], b)
    ensures Rewrite(j, a) == Rewrite(j, b)
  {
    if j.Arr? {
      assert Children(j) == j.items;
    } else if j.Obj? && HasPackages(j.fields) {
      assert Children(j) == j.fields[PACKAGES].items;
      var r := Rewrite(j, b);
      RewritePackages(j.fields, a, r.fields[PACKAGES].items);
    }
  }

  lemma KeepsContainsRpm(j: Json, leaf: Fields -> Fields)
    requires KeepsKind(leaf)
    ensures ContainsRpm(Rewrite(j, leaf)) <==> ContainsRpm(j)
  {
    hide At, Rewrite, ContainsRpm, IsRpmNode;
    ContainsRpmIff(j);
    ContainsRpmIff(Rewrite(j, leaf));
    forall path: seq<nat> ensures IsRpmNode(At(Rewrite(j, leaf), path)) <==> IsRpmNode(At(j, path)) {
      RewriteAt(j, leaf, path);
      if At(j, path).Some? { KeepsRpmNode(At(j, path).value, leaf); }
    }
  }

  lemma KeepsRpmNode(j: Json, leaf: Fields -> Fields)
    requires KeepsKind(leaf)
    ensures IsRpmNode(Some(Rewrite(j, leaf))) <==> IsRpmNode(Some(j))
    ensures IsLeafNode(Some(Rewrite(j, leaf))) <==> IsLeafNode(Some(j))
  {
  }

  // ---------- the two injections ----------

  lemma SummaryKeepsKind()
    ensures KeepsKind(SummaryLeaf)
  {
  }

  lemma SslKeepsKind(ssl: Fields)
    ensures KeepsKind((f: Fields) => SslLeaf(f, ssl))
  {
  }

  /** Both injections leave the answer of `containsRPM` unchanged, and a tree without RPM as it is. */
  lemma InjectionsKeepContainsRpm(j: Json, ssl: Fields)
    ensures ContainsRpm(WithSummary(j)) == ContainsRpm(j) == ContainsRpm(WithSsl(j, ssl))
    ensures !ContainsRpm(j) ==> WithSummary(j) == j == WithSsl(j, ssl)
  {
    hide Rewrite, ContainsRpm;
    SummaryKeepsKind();
    SslKeepsKind(ssl);
    KeepsContainsRpm(j, SummaryLeaf);
    KeepsContainsRpm(j, (f: Fields) => SslLeaf(f, ssl));
    if !ContainsRpm(j) {
      NoRpmNothingToDo(j, SummaryLeaf);
      NoRpmNothingToDo(j, (f: Fields) => SslLeaf(f, ssl));
    }
  }

  lemma NoRpmNothingToDo(j: Json, leaf: Fields -> Fields)
    requires !ContainsRpm(j) && KeepsKind(leaf)
    ensures Rewrite(j, leaf) == j
  {
    hide At, Rewrite, ContainsRpm;
    ContainsRpmIff(j);
    forall path: seq<nat> ensures Fixed(At(j, path), leaf) {
      assert !IsRpmNode(At(j, path));
    }
    RewriteUnchangedIff(j, leaf);
  }

  /** Both injections are idempotent, and they commute. */
  lemma InjectionsIdempotent(j: Json, ssl: Fields)
    ensures WithSummary(WithSummary(j)) == WithSummary(j)
    ensures WithSsl(WithSsl(j, ssl), ssl) == WithSsl(j, ssl)
    ensures WithSsl(WithSummary(j), ssl) == WithSummary(WithSsl(j, ssl))
  {
    hide Rewrite, SummaryLeaf, SslLeaf;
    SummaryKeepsKind();
    SslKeepsKind(ssl);
    var a: Fields -> Fields := SummaryLeaf;
    var b := (f: Fields) => SslLeaf(f, ssl);
    RewriteTwice(j, a, a);
    RewriteTwice(j, b, b);
    RewriteTwice(j, a, b);
    RewriteTwice(j, b, a);
    forall f: Fields ensures a(a(f)) == a(f) && b(b(f)) == b(f) && b(a(f)) == a(b(f)) {
      LeafLaws(f, ssl);
    }
    RewriteSame(j, (f: Fields) => a(a(f)), a);
    RewriteSame(j, (f: Fields) => b(b(f)), b);
    RewriteSame(j, (f: Fields) => b(a(f)), (f: Fields) => a(b(f)));
  }

  lemma LeafLaws(f: Fields, ssl: Fields)
    ensures SummaryLeaf(SummaryLeaf(f)) == SummaryLeaf(f)
    ensures SslLeaf(SslLeaf(f, ssl), ssl) == SslLeaf(f, ssl)
    ensures SslLeaf(SummaryLeaf(f), ssl) == SummaryLeaf(SslLeaf(f, ssl))
  {
    SslTwice(f, ssl);
    SslThenSummary(f, ssl);
  }

  lemma SslTwice(f: Fields, ssl: Fields)
    ensures SslLeaf(SslLeaf(f, ssl), ssl) == SslLeaf(f, ssl)
  {
    var g := SslLeaf(f, ssl);
    var inner := g[OPTIONS].fields[SSL].fields;
    assert inner + ssl == inner;
    assert g[OPTIONS].fields[SSL := Obj(inner)] == g[OPTIONS].fields;
    assert g[OPTIONS := g[OPTIONS]] == g;
  }

  lemma SslThenSummary(f: Fields, ssl: Fields)
    ensures SslLeaf(SummaryLeaf(f), ssl) == SummaryLeaf(SslLeaf(f, ssl))
  {
    assert HasSsl(SummaryLeaf(f)) == HasSsl(f);
  }

  /** What an RPM leaf looks like after the ssl injection. */
  ghost predicate SslInjected(f: Fields, g: Fields, ssl: Fields) {
    && HasSsl(g) && g.Keys == f.Keys + {OPTIONS}
    && (forall k :: k in f && k != OPTIONS ==> g[k] == f[k])
    && var inner := g[OPTIONS].fields[SSL].fields;
       && (forall k :: k in ssl ==> k in inner && inner[k] == ssl[k])
       && if HasSsl(f) then
            && inner.Keys == f[OPTIONS].fields[SSL].fields.Keys + ssl.Keys
            && (forall k :: k in f[OPTIONS].fields[SSL].fields && k !in ssl ==>
                  inner[k] == f[OPTIONS].fields[SSL].fields[k])
            && g[OPTIONS].fields.Keys == f[OPTIONS].fields.Keys
            && (forall k :: k in f[OPTIONS].fields && k != SSL ==> g[OPTIONS].fields[k] == f[OPTIONS].fields[k])
          else inner == ssl && g[OPTIONS].fields.Keys == {SSL}
  }

  /** Every visited RPM leaf gets the ssl keys; an existing `options.ssl` keeps its other keys and the
      sibling options, anything else under `options` is replaced. Every other node keeps its own fields. */
  lemma SslAtEveryNode(j: Json, ssl: Fields, path: seq<nat>)
    ensures IsLeafNode(At(j, path)) ==>
              && IsLeafNode(At(WithSsl(j, ssl), path))
              && SslInjected(At(j, path).value.fields, At(WithSsl(j, ssl), path).value.fields, ssl)
    ensures OtherNodeKept(At(j, path), At(WithSsl(j, ssl), path))
  {
    hide Rewrite, At, SslInjected;
    SslKeepsKind(ssl);
    var leaf := (f: Fields) => SslLeaf(f, ssl);
    RewriteAt(j, leaf, path);
    NodeKept(At(j, path), leaf);
    if IsLeafNode(At(j, path)) {
      var f := At(j, path).value.fields;
      RewriteFields(f, leaf);
      SslLeafMeans(f, ssl);
    }
  }

  lemma SslLeafMeans(f: Fields, ssl: Fields)
    ensures SslInjected(f, SslLeaf(f, ssl), ssl)
  {
  }

  /** Every visited RPM leaf gets the summary flag and keeps its other fields. */
  lemma SummaryAtEveryNode(j: Json, path: seq<nat>)
    ensures IsLeafNode(At(j, path)) ==>
              && IsLeafNode(At(WithSummary(j), path))
              && At(WithSummary(j), path).value.fields == At(j, path).value.fields[SUMMARY := Bool(true)]
    ensures OtherNodeKept(At(j, path), At(WithSummary(j), path))
  {
    hide Rewrite, At;
    SummaryKeepsKind();
    RewriteAt(j, SummaryLeaf, path);
    NodeKept(At(j, path), SummaryLeaf);
    if IsLeafNode(At(j, path)) { RewriteFields(At(j, path).value.fields, SummaryLeaf); }
  }

  /** A node that is not an RPM leaf keeps its kind, its number of children and its own fields. */
  ghost predicate OtherNodeKept(before: Option<Json>, after: Option<Json>) {
    && before.Some? == after.Some?
    && (before.Some? && !IsLeafNode(before) ==>
          && |Children(after.value)| == |Children(before.value)|
          && (Children(before.value) == [] ==> after == before)
          && (before.value.Arr? <==> after.value.Arr?)
          && (before.value.Obj? ==>
                && after.value.Obj? && after.value.fields.Keys == before.value.fields.Keys
                && forall k :: k in before.value.fields && k != PACKAGES ==>
                     after.value.fields[k] == before.value.fields[k]))
  }

  lemma NodeKept(node: Option<Json>, leaf: Fields -> Fields)
    requires KeepsKind(leaf)
    ensures OtherNodeKept(node, match node case None => None case Some(j) => Some(Rewrite(j, leaf)))
  {
    if node.Some? && !IsLeafNode(node) {
      RewriteChildren(node.value, leaf);
      if Children(node.value) == [] { SameChildren(node.value, leaf); }
      if node.value.Obj? { RewriteFields(node.value.fields, leaf); }
    }
  }

  /** An object with both a `packages` array and the type `rpm` counts as RPM, but only its packages
      are changed: with none, the whole input stays as it is. */
  lemma PackagesShadowType(f: Fields, ssl: Fields)
    requires IsRpm(f) && HasPackages(f) && f[PACKAGES] == Arr([])
    ensures ContainsRpm(Obj(f)) && WithSummary(Obj(f)) == Obj(f) == WithSsl(Obj(f), ssl)
  {
    RewritePackages(f, SummaryLeaf, []);
    RewritePackages(f, g => SslLeaf(g, ssl), []);
    assert f[PACKAGES := Arr([])] == f;
  }

  predicate HasFlag(f: Fields) {
    SUMMARY in f && f[SUMMARY] == Bool(true)
  }

  predicate HasSslKeys(f: Fields, ssl: Fields) {
    HasSsl(f) && forall k :: k in ssl ==>
      k in f[OPTIONS].fields[SSL].fields && f[OPTIONS].fields[SSL].fields[k] == ssl[k]
  }

  /** Exactly which visited RPM objects are configured afterwards: those without a `packages` array,
      and those that were before. */
  lemma RpmConfiguredIff(j: Json, ssl: Fields, path: seq<nat>)
    requires IsRpmNode(At(j, path))
    ensures var f := At(j, path).value.fields;
            var a, b := At(WithSummary(j), path), At(WithSsl(j, ssl), path);
            && IsRpmNode(a) && IsRpmNode(b)
            && (HasFlag(a.value.fields) <==> !HasPackages(f) || HasFlag(f))
            && (HasSslKeys(b.value.fields, ssl) <==> !HasPackages(f) || HasSslKeys(f, ssl))
  {
    hide WithSummary, WithSsl, At;
    SummaryAtEveryNode(j, path);
    SslAtEveryNode(j, ssl, path);
  }

  // ---------- injectRPMInput ----------

  const KEY_SUFFIX := "-key.pem"
  const CA_BUNDLE := "/etc/rhsm/ca/redhat-uep.pem"

  predicate IsKeyFile(file: string) {
    |file| >= |KEY_SUFFIX| && file[|file| - |KEY_SUFFIX|..] == KEY_SUFFIX
  }

  /** The last of `files` that is (or is not) a key file, or the empty string. */
  ghost predicate LastOfKind(files: seq<string>, key: bool, found: string) {
    if exists i :: 0 <= i < |files| && IsKeyFile(files[i]) == key then
      exists i :: 0 <= i < |files| && IsKeyFile(files[i]) == key && found == files[i]
                  && forall k :: i < k < |files| ==> IsKeyFile(files[k]) != key
    else found == ""
  }

  function SslOptions(key: string, cert: string): Fields {
    map["client_key" := Text(key), "client_cert" := Text(cert), "ca_bundle" := Text(CA_BUNDLE)]
  }

  /** `injectRPMInput`; `files` is what the search for entitlement files gives, whose names are never
      empty. The tree comes back even if the files are missing. */
  method InjectRPMInput(input: Json, registeredWithRHSM: bool, files: seq<string>) returns (r: Json, ok: bool)
    requires forall i :: 0 <= i < |files| ==> files[i] != ""
    ensures !registeredWithRHSM ==> ok && r == WithSummary(input)
    ensures registeredWithRHSM ==>
              (ok <==> (exists i :: 0 <= i < |files| && IsKeyFile(files[i]))
                       && exists i :: 0 <= i < |files| && !IsKeyFile(files[i]))
    ensures !ok ==> r == WithSummary(input)
    ensures registeredWithRHSM && ok ==>
              exists key, cert :: LastOfKind(files, true, key) && LastOfKind(files, false, cert)
                && r == WithSsl(WithSummary(input), SslOptions(key, cert))
  {
    hide Rewrite, IsKeyFile;
    var withSummary := InjectSummaryInSBOMField(input);
    if !registeredWithRHSM {
      return withSummary, true;
    }
    var key, cert := "", "";
    for i := 0 to |files|
      invariant LastOfKind(files[..i], true, key) && LastOfKind(files[..i], false, cert)
    {
      LastExtends(files, i, true, key);
      LastExtends(files, i, false, cert);
      if IsKeyFile(files[i]) {
        key := files[i];
      } else {
        cert := files[i];
      }
    }
    assert files[..|files|] == files;
    if key == "" || cert == "" {
      return withSummary, false;
    }
    r := InjectSSLOptions(withSummary, SslOptions(key, cert));
    ok := true;
  }

  lemma LastExtends(files: seq<string>, i: nat, key: bool, found: string)
    requires i < |files| && LastOfKind(files[..i], key, found)
    ensures LastOfKind(files[..i + 1], key, if IsKeyFile(files[i]) == key then files[i] else found)
  {
    hide IsKeyFile;
    var before, after := files[..i], files[..i + 1];
    assert after == before + [files[i]];
    if IsKeyFile(files[i]) == key {
      assert IsKeyFile(after[i]) == key;
    } else if exists k :: 0 <= k < |before| && IsKeyFile(before[k]) == key {
      var k :| 0 <= k < |before| && IsKeyFile(before[k]) == key && found == before[k]
               && forall m :: k < m < |before| ==> IsKeyFile(before[m]) != key;
      assert IsKeyFile(after[k]) == key;
    } else {
      forall k | 0 <= k < |after| ensures IsKeyFile(after[k]) != key {
        if k < i { assert after[k] == before[k]; }
      }
    }
  }

  /** After a successful injection with a subscription, every visited RPM leaf has the summary flag
      and exactly the three given ssl values under their keys. */
  lemma EveryRpmIsConfigured(j: Json, key: string, cert: string, path: seq<nat>)
    requires IsLeafNode(At(j, path))
    ensures var r := At(WithSsl(WithSummary(j), SslOptions(key, cert)), path);
            && IsLeafNode(r) && HasSsl(r.value.fields)
            && Field(r.value.fields, "include_summary_in_sbom") == Some(Bool(true))
            && var ssl := r.value.fields["options"].fields["ssl"].fields;
               && Field(ssl, "client_key") == Some(Text(key)) && Field(ssl, "client_cert") == Some(Text(cert))
               && Field(ssl, "ca_bundle") == Some(Text("/etc/rhsm/ca/redhat-uep.pem"))
  {
    hide WithSummary, WithSsl, At;
    SummaryAtEveryNode(j, path);
    SslAtEveryNode(WithSummary(j), SslOptions(key, cert), path);
    var options := SslOptions(key, cert);
    assert "client_key" in options && "client_cert" in options && "ca_bundle" in options;
  }

  function Field(f: Fields, key: string): Option<Json> {
    Find(f, key)
  }

  /** An RPM object without options, alone and in a `packages` array, spelled out. */
  lemma RpmExample(ssl: Fields)
    ensures var rpm := Obj(map["type" := Text("rpm")]);
            var injected := Obj(map["type" := Text("rpm"), "include_summary_in_sbom" := Bool(true)]);
            && ContainsRpm(rpm) && WithSummary(rpm) == injected
            && WithSsl(rpm, ssl) == Obj(map["type" := Text("rpm"), "options" := Obj(map["ssl" := Obj(ssl)])])
            && WithSummary(Obj(map["packages" := Arr([rpm])])) == Obj(map["packages" := Arr([injected])])
    ensures !ContainsRpm(Obj(map["type" := Text("pip")]))
  {
    var rpm := Obj(map["type" := Text("rpm")]);
    var f := map["packages" := Arr([rpm])];
    assert "packages" == PACKAGES && "type" == TYPE;
    RewritePackages(f, SummaryLeaf, [WithSummary(rpm)]);
  }

  /** A key file is one whose name ends in `-key.pem`. */
  lemma KeyFileIff(file: string)
    ensures IsKeyFile(file) <==> exists name: string :: file == name + "-key.pem"
  {
    if IsKeyFile(file) { assert file == file[..|file| - 8] + "-key.pem"; }
  }
}
