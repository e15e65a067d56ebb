/** The generated module tree: where each binding file is written, the trie of modules, and the
    manifest that includes the files. */
module Manifests {
  import opened Allocation
  import opened ModulePaths
  import opened Sequences

  // ---------------------------------------------------------------------------------------------
  // The trie

  datatype Branch = Branch(name: string, below: seq<Branch>)

  function FindBranch(branches: seq<Branch>, name: string): (i: nat)
    ensures i <= |branches|
    ensures i < |branches| ==> branches[i].name == name
    ensures forall j :: 0 <= j < i ==> branches[j].name != name
  {
    if branches == [] || branches[0].name == name then 0 else 1 + FindBranch(branches[1..], name)
  }

  /** The order of names in a `BTreeMap`: character by character. */
  predicate Before(a: string, b: string) {
    b != "" && (a == "" || a[0] < b[0] || (a[0] == b[0] && Before(a[1..], b[1..])))
  }

  /** How many branches have smaller names. */
  function Position(branches: seq<Branch>, name: string): (i: nat)
    ensures i <= |branches|
    ensures forall j :: 0 <= j < i ==> Before(branches[j].name, name)
    ensures i < |branches| ==> !Before(branches[i].name, name)
  {
    if branches == [] || !Before(branches[0].name, name) then 0 else 1 + Position(branches[1..], name)
  }

  function InsertedAt(branches: seq<Branch>, at: nat, b: Branch): seq<Branch>
    requires at <= |branches|
  {
    branches[..at] + [b] + branches[at..]
  }

  /** `insert_into_tree` after the text has been split. */
  function InsertPath(branches: seq<Branch>, segments: Path): seq<Branch>
    decreases |segments|
  {
    if segments == [] then branches
    else
      var i := FindBranch(branches, segments[0]);
      if i < |branches| then
        branches[i := Branch(segments[0], InsertPath(branches[i].below, segments[1..]))]
      else
        var at := Position(branches, segments[0]);
        InsertedAt(branches, at, Branch(segments[0], InsertPath([], segments[1..])))
  }

  predicate HasPath(branches: seq<Branch>, p: Path)
    decreases |p|
  {
    p != [] &&
    var i := FindBranch(branches, p[0]);
    i < |branches| && (|p| == 1 || HasPath(branches[i].below, p[1..]))
  }

  ghost predicate Ascending(branches: seq<Branch>) {
    forall i, j :: 0 <= i < j < |branches| ==> Before(branches[i].name, branches[j].name)
  }

  /** Siblings come in ascending order of their names, at every level. */
  ghost predicate Proper(branches: seq<Branch>) {
    Ascending(branches) && forall i :: 0 <= i < |branches| ==> Proper(branches[i].below)
  }

  lemma {:induction false} BeforeIsStrict(a: string, b: string)
    ensures Before(a, b) ==> a != b && !Before(b, a)
    ensures a != b ==> Before(a, b) || Before(b, a)
    decreases |a|
  {
    if a != "" && b != "" && a[0] == b[0] {
      BeforeIsStrict(a[1..], b[1..]);
      assert a == [a[0]] + a[1..] && b == [b[0]] + b[1..];
    }
  }

  lemma {:induction false} BeforeThrough(a: string, b: string, c: string)
    requires Before(a, b) && Before(b, c)
    ensures Before(a, c)
    decreases |a|
  {
    if a != "" && a[0] == b[0] && b[0] == c[0] {
      BeforeThrough(a[1..], b[1..], c[1..]);
    }
  }

  lemma ProperDistinct(branches: seq<Branch>)
    requires Proper(branches)
    ensures forall i, j :: 0 <= i < j < |branches| ==> branches[i].name != branches[j].name
  {
    forall i, j | 0 <= i < j < |branches|
      ensures branches[i].name != branches[j].name
    {
      BeforeIsStrict(branches[i].name, branches[j].name);
    }
  }

  lemma FindFirst(branches: seq<Branch>, i: nat)
    requires i < |branches| && forall j :: 0 <= j < i ==> branches[j].name != branches[i].name
    ensures FindBranch(branches, branches[i].name) == i
  {
  }

  /** Finding in a list with one more branch, of a new name. */
  lemma {:induction false} FindInserted(branches: seq<Branch>, at: nat, b: Branch, name: string)
    requires at <= |branches| && FindBranch(branches, b.name) == |branches|
    ensures var after := InsertedAt(branches, at, b);
            var i := FindBranch(branches, name);
            var k := FindBranch(after, name);
            if name == b.name then k < |after| && after[k] == b
            else (k < |after| <==> i < |branches|) && (k < |after| ==> after[k] == branches[i])
    decreases |branches|
  {
    hide InsertedAt, FindBranch;
    InsertedSteps(branches, at, b);
    if at == 0 {
      FindCons(b, branches, name);
    } else {
      var rest := branches[1..];
      assert branches == [branches[0]] + rest;
      FindCons(branches[0], rest, b.name);
      FindCons(branches[0], rest, name);
      FindInserted(rest, at - 1, b, name);
      FindCons(branches[0], InsertedAt(rest, at - 1, b), name);
    }
  }

  lemma InsertedSteps(branches: seq<Branch>, at: nat, b: Branch)
    requires at <= |branches|
    ensures if at == 0 then InsertedAt(branches, at, b) == [b] + branches
            else InsertedAt(branches, at, b) == [branches[0]] + InsertedAt(branches[1..], at - 1, b)
  {
  }

  lemma FindCons(b: Branch, rest: seq<Branch>, name: string)
    ensures FindBranch([b] + rest, name) == if b.name == name then 0 else 1 + FindBranch(rest, name)
  {
    assert ([b] + rest)[1..] == rest;
  }

  /** The branch that inserting a path leaves under each name. */
  lemma InsertFind(branches: seq<Branch>, segments: Path, name: string)
    requires segments != []
    ensures var after := InsertPath(branches, segments);
            var i := FindBranch(branches, name);
            var k := FindBranch(after, name);
            if name == segments[0] then
              k < |after| && after[k].below == InsertPath(if i < |branches| then branches[i].below else [], segments[1..])
            else (k < |after| <==> i < |branches|) && (k < |after| ==> after[k] == branches[i])
  {
    var after := InsertPath(branches, segments);
    var at := FindBranch(branches, segments[0]);
    var i := FindBranch(branches, name);
    if at == |branches| {
      FindInserted(branches, Position(branches, segments[0]), Branch(segments[0], InsertPath([], segments[1..])), name);
    } else if name == segments[0] {
      FindFirst(after, at);
    } else if i < |branches| {
      assert after[i] == branches[i];
      FindFirst(after, i);
    }
  }

  /** Inserting a path adds exactly its non-empty prefixes. */
  lemma {:induction false} InsertAddsPrefixes(branches: seq<Branch>, segments: Path, p: Path)
    ensures HasPath(InsertPath(branches, segments), p) <==> HasPath(branches, p) || (p != [] && p <= segments)
    decreases |segments|
  {
    if segments != [] && p != [] {
      InsertFind(branches, segments, p[0]);
      var i := FindBranch(branches, p[0]);
      if p[0] == segments[0] {
        var below := if i < |branches| then branches[i].below else [];
        InsertAddsPrefixes(below, segments[1..], p[1..]);
        assert p == [p[0]] + p[1..] && segments == [segments[0]] + segments[1..];
        assert p <= segments <==> p[1..] <= segments[1..];
      }
    }
  }

  lemma AscendingConcat(a: seq<Branch>, b: seq<Branch>)
    requires Ascending(a) && Ascending(b) && AllBefore(a, b)
    ensures Ascending(a + b)
  {
    hide Before;
    forall i, j | 0 <= i < j < |a + b|
      ensures Before((a + b)[i].name, (a + b)[j].name)
    {
      if i < |a| <= j {
        assert (a + b)[i] == a[i] && (a + b)[j] == b[j - |a|];
      }
    }
  }

  lemma BeforeTheRest(branches: seq<Branch>, name: string, k: nat)
    requires Ascending(branches) && FindBranch(branches, name) == |branches|
    requires Position(branches, name) <= k < |branches|
    ensures Before(name, branches[k].name)
  {
    var at := Position(branches, name);
    hide Before, Position, FindBranch;
    BeforeIsStrict(name, branches[at].name);
    if k > at {
      BeforeThrough(name, branches[at].name, branches[k].name);
    }
  }

  ghost predicate AllBefore(a: seq<Branch>, b: seq<Branch>) {
    forall i, j :: 0 <= i < |a| && 0 <= j < |b| ==> Before(a[i].name, b[j].name)
  }

  lemma AscendingSplit(branches: seq<Branch>, at: nat)
    requires Ascending(branches) && at <= |branches|
    ensures Ascending(branches[..at]) && Ascending(branches[at..]) && AllBefore(branches[..at], branches[at..])
  {
    hide Before;
  }

  lemma AllBeforeConcat(a: seq<Branch>, b: seq<Branch>, c: seq<Branch>)
    requires AllBefore(a, b) && AllBefore(a, c)
    ensures AllBefore(a, b + c)
  {
    hide Before;
  }

  lemma PositionBefore(branches: seq<Branch>, b: Branch)
    requires Ascending(branches) && FindBranch(branches, b.name) == |branches|
    ensures var at := Position(branches, b.name); AllBefore(branches[..at], [b]) && AllBefore([b], branches[at..])
  {
    var at := Position(branches, b.name);
    hide Before, Position, FindBranch;
    forall k | at <= k < |branches|
      ensures Before(b.name, branches[k].name)
    {
      BeforeTheRest(branches, b.name, k);
    }
  }

  lemma InsertedAscending(branches: seq<Branch>, b: Branch)
    requires Ascending(branches) && FindBranch(branches, b.name) == |branches|
    ensures var at := Position(branches, b.name); Ascending(InsertedAt(branches, at, b))
  {
    var at := Position(branches, b.name);
    var front, back := branches[..at], branches[at..];
    AscendingSplit(branches, at);
    PositionBefore(branches, b);
    assert Ascending([b]);
    hide Ascending, AllBefore, Position, FindBranch;
    AscendingConcat([b], back);
    AllBeforeConcat(front, [b], back);
    AscendingConcat(front, [b] + back);
    Assoc(front, [b], back);
  }

  lemma InsertedElement(branches: seq<Branch>, at: nat, b: Branch, i: nat)
    requires at <= |branches| && i <= |branches|
    ensures |InsertedAt(branches, at, b)| == |branches| + 1
    ensures InsertedAt(branches, at, b)[i] == if i < at then branches[i] else if i == at then b else branches[i - 1]
  {
  }

  lemma InsertedProper(branches: seq<Branch>, b: Branch)
    requires Proper(branches) && Proper(b.below) && FindBranch(branches, b.name) == |branches|
    ensures var at := Position(branches, b.name); Proper(InsertedAt(branches, at, b))
  {
    var at := Position(branches, b.name);
    InsertedAscending(branches, b);
    var after := InsertedAt(branches, at, b);
    InsertedElement(branches, at, b, 0);
    hide Ascending, Position, FindBranch, InsertedAt;
    forall i | 0 <= i < |after|
      ensures Proper(after[i].below)
    {
      InsertedElement(branches, at, b, i);
    }
  }

  lemma {:induction false} InsertProper(branches: seq<Branch>, segments: Path)
    requires Proper(branches)
    ensures Proper(InsertPath(branches, segments))
    decreases |segments|
  {
    if segments != [] {
      hide Before;
      var i := FindBranch(branches, segments[0]);
      InsertProper(if i < |branches| then branches[i].below else [], segments[1..]);
      if i == |branches| {
        InsertedProper(branches, Branch(segments[0], InsertPath([], segments[1..])));
      }
    }
  }

  /** All nodes of the trie, in the order the manifest visits them. */
  function Nodes(branches: seq<Branch>, prefix: Path): seq<Path>
    decreases branches
  {
    if branches == [] then []
    else
      var here := prefix + [branches[0].name];
      [here] + Nodes(branches[0].below, here) + Nodes(branches[1..], prefix)
  }

  function Names(branches: seq<Branch>): set<string> {
    set i | 0 <= i < |branches| :: branches[i].name
  }

  ghost predicate Under(p: Path, prefix: Path, names: set<string>) {
    |prefix| < |p| && prefix <= p && p[|prefix|] in names
  }

  lemma {:induction false} NodesBelow(branches: seq<Branch>, prefix: Path)
    ensures forall p :: p in Nodes(branches, prefix) ==> Under(p, prefix, Names(branches))
    decreases branches
  {
    if branches != [] {
      var here := prefix + [branches[0].name];
      NodesBelow(branches[0].below, here);
      NodesBelow(branches[1..], prefix);
      forall p | p in Nodes(branches, prefix)
        ensures Under(p, prefix, Names(branches))
      {
        assert branches[0].name in Names(branches);
        if p in Nodes(branches[0].below, here) {
          assert Under(p, here, Names(branches[0].below));
          assert p[|prefix|] == here[|prefix|];
        } else if p in Nodes(branches[1..], prefix) {
          var i :| 0 <= i < |branches[1..]| && branches[1..][i].name == p[|prefix|];
          assert branches[i + 1].name == p[|prefix|];
        }
      }
    }
  }

  lemma HasPathTail(branches: seq<Branch>, p: Path)
    requires branches != [] && p != [] && p[0] != branches[0].name
    ensures HasPath(branches, p) <==> HasPath(branches[1..], p)
  {
  }

  lemma ProperTail(branches: seq<Branch>)
    requires branches != [] && Proper(branches)
    ensures Proper(branches[1..]) && Proper(branches[0].below)
    ensures branches[0].name !in Names(branches[1..])
  {
    ProperDistinct(branches);
  }

  /** A path is among the nodes exactly when the trie has it. */
  lemma {:induction false} NodesAreThePaths(branches: seq<Branch>, prefix: Path, p: Path)
    requires Proper(branches)
    ensures prefix + p in Nodes(branches, prefix) <==> HasPath(branches, p)
    decreases branches
  {
    NodesBelow(branches, prefix);
    if branches != [] && p != [] {
      ProperTail(branches);
      var here := prefix + [branches[0].name];
      NodesAreThePaths(branches[1..], prefix, p);
      NodesAreThePaths(branches[0].below, here, p[1..]);
      NodesBelow(branches[1..], prefix);
      NodesBelow(branches[0].below, here);
      assert (prefix + p)[|prefix|] == p[0] && here[|prefix|] == branches[0].name;
      hide Proper;
      if p[0] == branches[0].name {
        assert prefix + p == here + p[1..];
        assert |p| == 1 <==> prefix + p == here;
      } else {
        HasPathTail(branches, p);
      }
    }
  }

  lemma {:induction false} NodesDistinct(branches: seq<Branch>, prefix: Path)
    requires Proper(branches)
    ensures NoRepeats(Nodes(branches, prefix))
    decreases branches
  {
    if branches != [] {
      ProperTail(branches);
      var here := prefix + [branches[0].name];
      var below, rest := Nodes(branches[0].below, here), Nodes(branches[1..], prefix);
      NodesDistinct(branches[0].below, here);
      NodesDistinct(branches[1..], prefix);
      NodesBelow(branches[0].below, here);
      NodesBelow(branches[1..], prefix);
      assert here[|prefix|] == branches[0].name;
      assert forall p :: p in below ==> p[|prefix|] == here[|prefix|];
      NoRepeatsConcat([here], below);
      NoRepeatsConcat([here] + below, rest);
    }
  }

  // ---------------------------------------------------------------------------------------------
  // The manifest

  datatype Line = Open(name: string) | Include(file: string) | Close

  /** The files there are, and the modules with something beneath them, both as slash texts. */
  datatype Layout = Layout(files: set<string>, withChildren: set<string>) {
    function IncludePath(full: string): string {
      if full in withChildren then full + "/mod.rs" else full + ".rs"
    }

    function Own(full: string): seq<Line> {
      if full in files then [Include(IncludePath(full))] else []
    }
  }

  function LastPiece(s: string): string {
    var pieces := Split(s, "/");
    pieces[|pieces| - 1]
  }

  /** `emit_manifest_node`. */
  function EmitNode(full: string, b: Branch, layout: Layout): seq<Line>
    decreases b, 1
  {
    [Open(LastPiece(full))] + (layout.Own(full) + (EmitAll(full + "/", b.below, layout) + [Close]))
  }

  function EmitAll(front: string, branches: seq<Branch>, layout: Layout): seq<Line>
    decreases branches, 0
  {
    if branches == [] then []
    else EmitNode(front + branches[0].name, branches[0], layout) + EmitAll(front, branches[1..], layout)
  }

  /** Reading a manifest: each include with the modules open around it. */
  function Includes(lines: seq<Line>, scope: Path): seq<(Path, string)> {
    if lines == [] then []
    else
      match lines[0]
      case Open(name) => Includes(lines[1..], scope + [name])
      case Close => Includes(lines[1..], if scope == [] then [] else scope[..|scope| - 1])
      case Include(file) => [(scope, file)] + Includes(lines[1..], scope)
  }

  /** The includes expected for some modules: one for each that has a file, at its own path. */
  function Expected(paths: seq<Path>, layout: Layout): seq<(Path, string)> {
    if paths == [] then []
    else
      (if ToSlash(paths[0]) in layout.files then [(paths[0], layout.IncludePath(ToSlash(paths[0])))] else [])
      + Expected(paths[1..], layout)
  }

  lemma {:induction false} ExpectedConcat(a: seq<Path>, b: seq<Path>, layout: Layout)
    ensures Expected(a + b, layout) == Expected(a, layout) + Expected(b, layout)
    decreases |a|
  {
    if a == [] {
      assert a + b == b;
    } else {
      ExpectedConcat(a[1..], b, layout);
      assert (a + b)[1..] == a[1..] + b;
    }
  }

  /** The text in front of the children's names. */
  function Front(prefix: Path): string {
    if prefix == [] then "" else ToSlash(prefix) + "/"
  }

  ghost predicate NamesOk(branches: seq<Branch>) {
    forall i :: 0 <= i < |branches| ==> IsIdentifier(branches[i].name) && NamesOk(branches[i].below)
  }

  lemma FullPath(prefix: Path, name: string)
    requires WellFormed(prefix) && IsIdentifier(name)
    ensures WellFormed(prefix + [name])
    ensures Front(prefix) + name == ToSlash(prefix + [name])
    ensures LastPiece(Front(prefix) + name) == name
    ensures Front(prefix + [name]) == (Front(prefix) + name) + "/"
  {
    var here := prefix + [name];
    if prefix == [] {
      assert here == [name] && "" + name == name;
    } else {
      JoinSnoc(prefix, name, "/");
      assert ToSlash(prefix) + ("/" + name) == (ToSlash(prefix) + "/") + name;
    }
    NoSeparators(here, "/");
    SplitJoin(here, "/");
  }

  lemma IncludesOpen(name: string, rest: seq<Line>, scope: Path)
    ensures Includes([Open(name)] + rest, scope) == Includes(rest, scope + [name])
  {
    assert ([Open(name)] + rest)[1..] == rest;
  }

  lemma IncludesClose(rest: seq<Line>, scope: Path, name: string)
    ensures Includes([Close] + rest, scope + [name]) == Includes(rest, scope)
  {
    assert ([Close] + rest)[1..] == rest && (scope + [name])[..|scope|] == scope;
  }

  lemma IncludesOwn(layout: Layout, full: string, rest: seq<Line>, scope: Path)
    requires full == ToSlash(scope)
    ensures Includes(layout.Own(full) + rest, scope) == Expected([scope], layout) + Includes(rest, scope)
  {
    assert [scope][1..] == [];
    if full in layout.files {
      assert (layout.Own(full) + rest)[1..] == rest;
    } else {
      assert layout.Own(full) + rest == rest;
    }
  }

  lemma Assoc5<T>(a: seq<T>, b: seq<T>, c: seq<T>, d: seq<T>, e: seq<T>)
    ensures (a + (b + (c + d))) + e == a + (b + (c + (d + e)))
  {
  }

  /** One node, given that what lies beneath it reads as expected. */
  lemma EmitNodeReads(prefix: Path, b: Branch, layout: Layout, more: seq<Line>)
    requires WellFormed(prefix) && IsIdentifier(b.name)
    requires var here := prefix + [b.name];
             Includes(EmitAll(Front(here), b.below, layout) + ([Close] + more), here)
             == Expected(Nodes(b.below, here), layout) + Includes([Close] + more, here)
    ensures var here := prefix + [b.name];
            Includes(EmitNode(Front(prefix) + b.name, b, layout) + more, prefix)
            == Expected([here] + Nodes(b.below, here), layout) + Includes(more, prefix)
  {
    hide Includes, Expected, EmitAll, Nodes;
    var here, full := prefix + [b.name], Front(prefix) + b.name;
    FullPath(prefix, b.name);
    var inner := EmitAll(Front(here), b.below, layout);
    var below := Nodes(b.below, here);
    IncludesClose(more, prefix, b.name);
    IncludesOwn(layout, full, inner + ([Close] + more), here);
    IncludesOpen(b.name, layout.Own(full) + (inner + ([Close] + more)), prefix);
    Assoc5([Open(b.name)], layout.Own(full), inner, [Close], more);
    ExpectedConcat([here], below, layout);
    Assoc(Expected([here], layout), Expected(below, layout), Includes(more, prefix));
  }

  /** Emitted text read back: every module of the trie that has a file is included once, inside the
      modules that spell its own path. */
  lemma {:induction false} EmitAllReads(prefix: Path, branches: seq<Branch>, layout: Layout, rest: seq<Line>)
    requires WellFormed(prefix) && NamesOk(branches)
    ensures Includes(EmitAll(Front(prefix), branches, layout) + rest, prefix)
         == Expected(Nodes(branches, prefix), layout) + Includes(rest, prefix)
    decreases branches
  {
    hide Includes, Expected, EmitNode;
    if branches == [] {
      assert EmitAll(Front(prefix), branches, layout) + rest == rest;
      ExpectedNone(layout);
    } else {
      var b, here := branches[0], prefix + [branches[0].name];
      var node, tail := EmitNode(Front(prefix) + b.name, b, layout), EmitAll(Front(prefix), branches[1..], layout);
      FullPath(prefix, b.name);
      EmitAllReads(prefix, branches[1..], layout, rest);
      EmitAllReads(here, b.below, layout, [Close] + (tail + rest));
      EmitNodeReads(prefix, b, layout, tail + rest);
      Assoc(node, tail, rest);
      ExpectedConcat([here] + Nodes(b.below, here), Nodes(branches[1..], prefix), layout);
      Assoc(Expected([here] + Nodes(b.below, here), layout), Expected(Nodes(branches[1..], prefix), layout), Includes(rest, prefix));
    }
  }

  lemma ExpectedNone(layout: Layout)
    ensures Expected([], layout) == []
  {
  }

  // ---------------------------------------------------------------------------------------------
  // From the list of files to the trie and the layout

  function NonEmpty(pieces: seq<string>): Path {
    if pieces == [] then [] else (if pieces[0] == "" then [] else [pieces[0]]) + NonEmpty(pieces[1..])
  }

  /** `split('/').filter(non-empty)`. */
  function Segments(file: string): Path {
    NonEmpty(Split(file, "/"))
  }

  function Trie(files: seq<string>): seq<Branch> {
    if files == [] then [] else InsertPath(Trie(files[..|files| - 1]), Segments(files[|files| - 1]))
  }

  /** The text of a module's first `k` segments. */
  function Ancestor(segments: Path, k: int): string {
    if 0 <= k <= |segments| then Join(segments[..k], "/") else ""
  }

  function ParentTexts(file: string): set<string> {
    set k | 0 < k < |Segments(file)| :: Ancestor(Segments(file), k)
  }

  function WithChildren(files: seq<string>): set<string> {
    set f, m | f in files && m in ParentTexts(f) :: m
  }

  function LayoutOf(files: seq<string>): Layout {
    Layout((set f | f in files), WithChildren(files))
  }

  predicate IsChildFile(my: Path, file: string) {
    FromSlash(file).Some? && IsDirectParentOf(my, FromSlash(file).value)
  }

  /** `get_children`: the leaves of the files directly beneath a module. */
  function ChildrenOf(file: string, files: seq<string>): set<string> {
    match FromSlash(file)
    case None => {}
    case Some(my) => set f | f in files && IsChildFile(my, f) :: Leaf(FromSlash(f).value)
  }

  /** Where `emit_all` writes a file. */
  function WrittenPath(file: string, files: seq<string>): string {
    if ChildrenOf(file, files) == {} then file + ".rs" else file + "/mod.rs"
  }

  lemma NoFiles()
    ensures WithChildren([]) == {} && Trie([]) == []
  {
  }

  lemma OneMoreFile(files: seq<string>, i: nat)
    requires i < |files|
    ensures WithChildren(files[..i + 1]) == WithChildren(files[..i]) + ParentTexts(files[i])
    ensures Trie(files[..i + 1]) == InsertPath(Trie(files[..i]), Segments(files[i]))
  {
    hide ParentTexts, InsertPath, Segments;
    assert files[..i + 1] == files[..i] + [files[i]];
    assert files[..i + 1][..i] == files[..i];
  }

  /** The children of a module are exactly the names with which some file extends its path by one. */
  lemma ChildrenAreLeaves(file: string, files: seq<string>, my: Path, x: string)
    requires FromSlash(file) == Some(my)
    ensures x in ChildrenOf(file, files) <==> exists f :: f in files && FromSlash(f) == Some(my + [x])
  {
    hide FromSlash;
    forall f | f in files && FromSlash(f).Some?
      ensures IsChildFile(my, f) && Leaf(FromSlash(f).value) == x <==> FromSlash(f) == Some(my + [x])
    {
      DirectParentIff(my, FromSlash(f).value);
    }
    if f :| f in files && FromSlash(f) == Some(my + [x]) {
      assert IsChildFile(my, f) && Leaf(FromSlash(f).value) == x;
    }
  }

  lemma {:induction false} NonEmptyConcat(a: seq<string>, b: seq<string>)
    ensures NonEmpty(a + b) == NonEmpty(a) + NonEmpty(b)
    decreases |a|
  {
    if a == [] {
      assert a + b == b;
    } else {
      hide NonEmpty;
      NonEmptyConcat(a[1..], b);
      NonEmptyCons(a[0], a[1..]);
      NonEmptyCons(a[0], a[1..] + b);
      assert a == [a[0]] + a[1..] && a + b == [a[0]] + (a[1..] + b);
      Assoc(if a[0] == "" then [] else [a[0]], NonEmpty(a[1..]), NonEmpty(b));
    }
  }

  lemma NonEmptyCons(piece: string, rest: seq<string>)
    ensures NonEmpty([piece] + rest) == (if piece == "" then [] else [piece]) + NonEmpty(rest)
  {
    assert ([piece] + rest)[1..] == rest;
  }

  lemma {:induction false} SplitConcat(a: string, b: string)
    ensures Split(a + "/" + b, "/") == Split(a, "/") + Split(b, "/")
    decreases |a|
  {
    hide Split;
    var s := a + "/" + b;
    SplitSteps(a, "/");
    SplitSteps(s, "/");
    if a == "" {
      assert s == "/" + b && StartsWith(s, "/") && s[1..] == b;
    } else {
      assert s[1..] == a[1..] + "/" + b && s[0] == a[0];
      assert StartsWith(s, "/") <==> StartsWith(a, "/");
      SplitConcat(a[1..], b);
    }
  }

  /** A slash between two texts puts their segments together, however many slashes there are already; a
      text without one is a segment of its own unless it is empty. */
  lemma SegmentsMeaning(a: string, b: string)
    ensures Segments(a + "/" + b) == Segments(a) + Segments(b)
    ensures '/' !in a ==> Segments(a) == if a == "" then [] else [a]
  {
    hide Split;
    SplitConcat(a, b);
    NonEmptyConcat(Split(a, "/"), Split(b, "/"));
    if '/' !in a {
      SplitPlain(a, "/", "");
      assert a + "" == a;
      assert [a][1..] == [];
    }
  }

  class ManifestWriter {
    var content: seq<Line>

    constructor ()
      ensures content == []
    {
      content := [];
    }

    method EmitManifestNode(full: string, b: Branch, layout: Layout)
      modifies this
      ensures content == old(content) + EmitNode(full, b, layout)
      decreases b, 1
    {
      content := content + [Open(LastPiece(full))];
      if full in layout.files {
        content := content + [Include(layout.IncludePath(full))];
      }
      EmitChildren(full + "/", b.below, layout);
      content := content + [Close];
    }

    method EmitChildren(front: string, branches: seq<Branch>, layout: Layout)
      modifies this
      ensures content == old(content) + EmitAll(front, branches, layout)
      decreases branches, 0
    {
      var i := 0;
      assert branches[0..] == branches;
      while i < |branches|
        invariant 0 <= i <= |branches|
        invariant content + EmitAll(front, branches[i..], layout) == old(content) + EmitAll(front, branches, layout)
      {
        hide EmitNode;
        assert branches[i..][1..] == branches[i + 1..];
        ghost var before := content;
        EmitManifestNode(front + branches[i].name, branches[i], layout);
        Assoc(before, EmitNode(front + branches[i].name, branches[i], layout), EmitAll(front, branches[i + 1..], layout));
        i := i + 1;
      }
    }

    /** `emit_manifest`: the two sets, the trie, and the text. */
    method EmitManifest(files: seq<string>)
      requires content == []
      modifies this
      ensures content == EmitAll("", Trie(files), LayoutOf(files))
    {
      hide WithChildren, Trie, InsertPath, Segments, EmitAll, Ancestor;
      NoFiles();
      var withChildren := {};
      var tree := [];
      var i := 0;
      while i < |files|
        invariant 0 <= i <= |files| && content == []
        invariant withChildren == WithChildren(files[..i])
        invariant tree == Trie(files[..i])
      {
        var segments := Segments(files[i]);
        var j := 0;
        ghost var before := withChildren;
        while j + 1 < |segments|
          invariant 0 <= j && (j == 0 || j < |segments|) && content == []
          invariant withChildren == before + set k | 0 < k < j + 1 :: Ancestor(segments, k)
        {
          withChildren := withChildren + {Ancestor(segments, j + 1)};
          j := j + 1;
        }
        assert ParentTexts(files[i]) == set k | 0 < k < j + 1 :: Ancestor(segments, k);
        tree := InsertPath(tree, segments);
        OneMoreFile(files, i);
        i := i + 1;
      }
      assert files[..i] == files;
      EmitChildren("", tree, Layout((set f | f in files), withChildren));
    }

    static method GetChildren(file: string, files: seq<string>) returns (children: set<string>)
      ensures children == ChildrenOf(file, files)
    {
      children := {};
      var my := FromSlash(file);
      if my.None? {
        return;
      }
      var i := 0;
      while i < |files|
        invariant 0 <= i <= |files|
        invariant children == ChildrenOf(file, files[..i])
      {
        assert files[..i + 1] == files[..i] + [files[i]];
        var other := FromSlash(files[i]);
        if other.Some? && IsDirectParentOf(my.value, other.value) {
          children := children + {Leaf(other.value)};
        }
        i := i + 1;
      }
      assert files[..i] == files;
    }
  }

  // ---------------------------------------------------------------------------------------------
  // What the manifest says about the files

  ghost predicate PrefixOfSome(p: Path, files: seq<string>) {
    p != [] && exists i :: 0 <= i < |files| && p <= Segments(files[i])
  }

  lemma PrefixOfLast(p: Path, files: seq<string>)
    requires files != []
    ensures var n := |files| - 1;
            PrefixOfSome(p, files) <==> PrefixOfSome(p, files[..n]) || (p != [] && p <= Segments(files[n]))
  {
    hide Segments;
    var n := |files| - 1;
    if i :| 0 <= i < n && p <= Segments(files[..n][i]) {
      assert files[i] == files[..n][i];
    }
    if i :| 0 <= i < |files| && p <= Segments(files[i]) {
      assert i < n ==> files[..n][i] == files[i];
    }
  }

  /** The trie's paths are exactly the non-empty prefixes of the files, whatever the file names. */
  lemma {:induction false} TrieIsThePrefixes(files: seq<string>, p: Path)
    ensures Proper(Trie(files))
    ensures HasPath(Trie(files), p) <==> p != [] && exists i :: 0 <= i < |files| && p <= Segments(files[i])
    decreases |files|
  {
    TrieHas(files, p);
  }

  lemma {:induction false} TrieHas(files: seq<string>, p: Path)
    ensures Proper(Trie(files))
    ensures HasPath(Trie(files), p) <==> PrefixOfSome(p, files)
    decreases |files|
  {
    if files != [] {
      hide Segments, InsertPath, HasPath, Proper, PrefixOfSome;
      var front, last := files[..|files| - 1], files[|files| - 1];
      TrieHas(front, p);
      InsertProper(Trie(front), Segments(last));
      InsertAddsPrefixes(Trie(front), Segments(last), p);
      PrefixOfLast(p, files);
    }
  }

  ghost predicate ModuleFiles(paths: seq<Path>) {
    forall i :: 0 <= i < |paths| ==> WellFormed(paths[i]) && paths[i] != []
  }

  function Texts(paths: seq<Path>): seq<string> {
    seq(|paths|, i requires 0 <= i < |paths| => ToSlash(paths[i]))
  }

  lemma {:induction false} NothingEmpty(p: Path)
    requires WellFormed(p)
    ensures NonEmpty(p) == p
    decreases |p|
  {
    if p != [] {
      assert IsIdentifier(p[0]);
      NothingEmpty(p[1..]);
    }
  }

  lemma SegmentsOfText(p: Path)
    requires WellFormed(p) && p != []
    ensures Segments(ToSlash(p)) == p
  {
    NoSeparators(p, "/");
    SplitJoin(p, "/");
    NothingEmpty(p);
  }

  lemma SameText(p: Path, q: Path)
    requires WellFormed(p) && WellFormed(q) && ToSlash(p) == ToSlash(q)
    ensures p == q
  {
    TextRoundTrip(ToSlash(p), p, "/");
    TextRoundTrip(ToSlash(q), q, "/");
  }

  lemma InsertedNamesOk(branches: seq<Branch>, at: nat, b: Branch)
    requires at <= |branches| && NamesOk(branches) && IsIdentifier(b.name) && NamesOk(b.below)
    ensures NamesOk(InsertedAt(branches, at, b))
  {
    hide IsIdentifier, InsertedAt;
    var after := InsertedAt(branches, at, b);
    InsertedElement(branches, at, b, 0);
    forall i | 0 <= i < |after|
      ensures IsIdentifier(after[i].name) && NamesOk(after[i].below)
    {
      InsertedElement(branches, at, b, i);
    }
  }

  lemma {:induction false} InsertNamesOk(branches: seq<Branch>, segments: Path)
    requires NamesOk(branches) && WellFormed(segments)
    ensures NamesOk(InsertPath(branches, segments))
    decreases |segments|
  {
    hide IsIdentifier, InsertedAt, Position, FindBranch;
    if segments != [] {
      var i := FindBranch(branches, segments[0]);
      if i < |branches| {
        InsertNamesOk(branches[i].below, segments[1..]);
      } else {
        InsertNamesOk([], segments[1..]);
        InsertedNamesOk(branches, Position(branches, segments[0]), Branch(segments[0], InsertPath([], segments[1..])));
      }
    }
  }

  lemma {:induction false} TrieNamesOk(paths: seq<Path>)
    requires ModuleFiles(paths)
    ensures NamesOk(Trie(Texts(paths)))
    decreases |paths|
  {
    if paths != [] {
      var front, last := paths[..|paths| - 1], paths[|paths| - 1];
      TrieNamesOk(front);
      assert Texts(paths)[..|paths| - 1] == Texts(front);
      SegmentsOfText(last);
      InsertNamesOk(Trie(Texts(front)), last);
    }
  }

  lemma {:induction false} ExpectedMembers(nodes: seq<Path>, layout: Layout, p: Path, file: string)
    ensures (p, file) in Expected(nodes, layout)
       <==> p in nodes && ToSlash(p) in layout.files && file == layout.IncludePath(ToSlash(p))
    decreases |nodes|
  {
    if nodes != [] {
      ExpectedMembers(nodes[1..], layout, p, file);
    }
  }

  function Modules(includes: seq<(Path, string)>): seq<Path> {
    seq(|includes|, i requires 0 <= i < |includes| => includes[i].0)
  }

  lemma {:induction false} ExpectedDistinct(nodes: seq<Path>, layout: Layout)
    requires NoRepeats(nodes)
    ensures NoRepeats(Modules(Expected(nodes, layout)))
    decreases |nodes|
  {
    if nodes != [] {
      var rest := Expected(nodes[1..], layout);
      ExpectedDistinct(nodes[1..], layout);
      forall i | 0 <= i < |rest|
        ensures rest[i].0 != nodes[0]
      {
        ExpectedMembers(nodes[1..], layout, rest[i].0, rest[i].1);
        assert rest[i] == (rest[i].0, rest[i].1) && rest[i] in rest;
      }
      if ToSlash(nodes[0]) in layout.files {
        assert Expected(nodes, layout)[0].0 == nodes[0] && Expected(nodes, layout)[1..] == rest;
        assert Modules(Expected(nodes, layout)) == [nodes[0]] + Modules(rest);
      } else {
        assert Expected(nodes, layout) == rest;
      }
    }
  }

  function ManifestOf(paths: seq<Path>): seq<(Path, string)> {
    Includes(EmitAll("", Trie(Texts(paths)), LayoutOf(Texts(paths))), [])
  }

  lemma ManifestIsExpected(paths: seq<Path>)
    requires ModuleFiles(paths)
    ensures ManifestOf(paths) == Expected(Nodes(Trie(Texts(paths)), []), LayoutOf(Texts(paths)))
  {
    var trie, layout := Trie(Texts(paths)), LayoutOf(Texts(paths));
    TrieNamesOk(paths);
    EmitAllReads([], trie, layout, []);
    assert EmitAll("", trie, layout) + [] == EmitAll("", trie, layout);
    var expected := Expected(Nodes(trie, []), layout);
    assert expected + [] == expected;
  }

  /** The files that are nodes of the trie are the files. */
  lemma NodeFiles(paths: seq<Path>, p: Path)
    requires ModuleFiles(paths)
    ensures p in Nodes(Trie(Texts(paths)), []) && ToSlash(p) in LayoutOf(Texts(paths)).files <==> p in paths
  {
    hide Nodes, Trie, HasPath, Proper, Segments, Join, IsIdentifier;
    var files := Texts(paths);
    TrieIsThePrefixes(files, p);
    NodesAreThePaths(Trie(files), [], p);
    assert [] + p == p;
    if p in paths {
      var i :| 0 <= i < |paths| && paths[i] == p;
      SegmentsOfText(p);
      assert files[i] == ToSlash(p);
    }
    if p != [] && (exists i :: 0 <= i < |files| && p <= Segments(files[i])) && ToSlash(p) in files {
      var i :| 0 <= i < |files| && p <= Segments(files[i]);
      SegmentsOfText(paths[i]);
      assert WellFormed(p);
      var j :| 0 <= j < |files| && files[j] == ToSlash(p);
      SameText(p, paths[j]);
    }
  }

  /** The manifest, read as nested modules, includes every file once, inside the module its path
      names, and nothing else. */
  lemma ManifestIncludesEachFileOnce(paths: seq<Path>, p: Path, file: string)
    requires ModuleFiles(paths)
    ensures (p, file) in ManifestOf(paths)
       <==> p in paths && file == LayoutOf(Texts(paths)).IncludePath(ToSlash(p))
    ensures NoRepeats(Modules(ManifestOf(paths)))
  {
    var trie, layout := Trie(Texts(paths)), LayoutOf(Texts(paths));
    ManifestIsExpected(paths);
    TrieIsThePrefixes(Texts(paths), p);
    NodesDistinct(trie, []);
    ExpectedDistinct(Nodes(trie, []), layout);
    ExpectedMembers(Nodes(trie, []), layout, p, file);
    NodeFiles(paths, p);
  }

  // ---------------------------------------------------------------------------------------------
  // Written path against included path

  lemma AncestorText(p: Path, q: Path)
    requires WellFormed(p) && WellFormed(q) && q != []
    ensures p != [] && p < q <==> ToSlash(p) in ParentTexts(ToSlash(q))
  {
    SegmentsOfText(q);
    if p != [] && p < q {
      assert q[..|p|] == p && Ancestor(q, |p|) == ToSlash(p);
    }
    if ToSlash(p) in ParentTexts(ToSlash(q)) {
      var k :| 0 < k < |q| && Ancestor(q, k) == ToSlash(p);
      SameText(p, q[..k]);
    }
  }

  /** Something lies beneath the module, at any depth. */
  ghost predicate HasDescendant(p: Path, paths: seq<Path>) {
    exists i :: 0 <= i < |paths| && p < paths[i]
  }

  /** Something lies directly beneath the module. */
  ghost predicate HasChildFile(p: Path, paths: seq<Path>) {
    exists i :: 0 <= i < |paths| && IsDirectParentOf(p, paths[i])
  }

  lemma WithChildrenIff(p: Path, paths: seq<Path>)
    requires ModuleFiles(paths) && WellFormed(p) && p != []
    ensures ToSlash(p) in WithChildren(Texts(paths)) <==> HasDescendant(p, paths)
  {
    var files := Texts(paths);
    if HasDescendant(p, paths) {
      var i :| 0 <= i < |paths| && p < paths[i];
      AncestorText(p, paths[i]);
      assert files[i] in files;
    }
    if ToSlash(p) in WithChildren(files) {
      var f :| f in files && ToSlash(p) in ParentTexts(f);
      var i :| 0 <= i < |files| && files[i] == f;
      AncestorText(p, paths[i]);
    }
  }

  lemma ChildrenIff(p: Path, paths: seq<Path>)
    requires ModuleFiles(paths) && WellFormed(p)
    ensures ChildrenOf(ToSlash(p), Texts(paths)) != {} <==> HasChildFile(p, paths)
  {
    var files := Texts(paths);
    TextRoundTrip(ToSlash(p), p, "/");
    forall i | 0 <= i < |paths|
      ensures FromSlash(files[i]) == Some(paths[i])
    {
      TextRoundTrip(files[i], paths[i], "/");
    }
    if HasChildFile(p, paths) {
      var i :| 0 <= i < |paths| && IsDirectParentOf(p, paths[i]);
      assert files[i] in files && IsChildFile(p, files[i]);
      assert Leaf(paths[i]) in ChildrenOf(ToSlash(p), files);
    }
    if ChildrenOf(ToSlash(p), files) != {} {
      var f :| f in files && IsChildFile(p, f);
      var i :| 0 <= i < |files| && files[i] == f;
    }
  }

  lemma SuffixesDiffer(text: string)
    ensures text + ".rs" != text + "/mod.rs"
  {
    assert |text + ".rs"| != |text + "/mod.rs"|;
  }

  /** One file is included from the place it was written to, unless something lies beneath its module
      and nothing lies directly beneath. */
  lemma IncludedWhereWritten(p: Path, paths: seq<Path>)
    requires ModuleFiles(paths) && WellFormed(p) && p != []
    ensures LayoutOf(Texts(paths)).IncludePath(ToSlash(p)) == WrittenPath(ToSlash(p), Texts(paths))
       <==> (HasDescendant(p, paths) ==> HasChildFile(p, paths))
  {
    WithChildrenIff(p, paths);
    ChildrenIff(p, paths);
    SuffixesDiffer(ToSlash(p));
    if HasChildFile(p, paths) {
      var i :| 0 <= i < |paths| && IsDirectParentOf(p, paths[i]);
      assert p < paths[i];
    }
  }

  /** Every include names a written file exactly when every file's module with something beneath it also
      has something directly beneath it. */
  lemma ManifestFindsEveryFileIff(paths: seq<Path>)
    requires ModuleFiles(paths)
    ensures (forall p, file :: (p, file) in ManifestOf(paths) ==> file == WrittenPath(ToSlash(p), Texts(paths)))
       <==> forall i :: 0 <= i < |paths| && HasDescendant(paths[i], paths) ==> HasChildFile(paths[i], paths)
  {
    var layout := LayoutOf(Texts(paths));
    forall p, file | (p, file) in ManifestOf(paths)
      ensures p in paths && file == layout.IncludePath(ToSlash(p))
    {
      ManifestIncludesEachFileOnce(paths, p, file);
    }
    forall i | 0 <= i < |paths|
      ensures (paths[i], layout.IncludePath(ToSlash(paths[i]))) in ManifestOf(paths)
      ensures layout.IncludePath(ToSlash(paths[i])) == WrittenPath(ToSlash(paths[i]), Texts(paths))
         <==> (HasDescendant(paths[i], paths) ==> HasChildFile(paths[i], paths))
    {
      ManifestIncludesEachFileOnce(paths, paths[i], layout.IncludePath(ToSlash(paths[i])));
      IncludedWhereWritten(paths[i], paths);
    }
  }

  // ---------------------------------------------------------------------------------------------
  // Two files written to one place

  lemma SameEnding(a: string, b: string, ending: string)
    requires a + ending == b + ending
    ensures a == b
  {
    assert |a + ending| == |b + ending|;
    assert a == (a + ending)[..|a|] && b == (b + ending)[..|b|];
  }

  lemma DifferentEndings(a: string, b: string)
    ensures a + ".rs" == b + "/mod.rs" <==> a == b + "/mod"
  {
    assert b + "/mod.rs" == (b + "/mod") + ".rs";
    if a + ".rs" == b + "/mod.rs" {
      SameEnding(a, b + "/mod", ".rs");
    }
  }

  /** `q` is the module `mod` beneath `p`, and nothing lies directly beneath it. */
  ghost predicate Overwrites(q: Path, p: Path, paths: seq<Path>) {
    q == p + ["mod"] && !HasChildFile(q, paths)
  }

  lemma ModText(p: Path, q: Path)
    requires WellFormed(p) && p != [] && WellFormed(q)
    ensures ToSlash(q) == ToSlash(p) + "/mod" <==> q == p + ["mod"]
  {
    JoinSnoc(p, "mod", "/");
    assert IsIdentifier("mod");
    assert "/" + "mod" == "/mod";
    if ToSlash(q) == ToSlash(p + ["mod"]) {
      SameText(q, p + ["mod"]);
    }
  }

  ghost predicate WrittenTogether(p: Path, q: Path, paths: seq<Path>) {
    WrittenPath(ToSlash(p), Texts(paths)) == WrittenPath(ToSlash(q), Texts(paths))
  }

  /** Two files are written to the same place exactly when one is the other's module `mod` and is
      written as a plain file. */
  lemma WrittenTogetherIff(p: Path, q: Path, paths: seq<Path>)
    requires ModuleFiles(paths) && p in paths && q in paths && p != q
    ensures WrittenTogether(p, q, paths) <==> Overwrites(p, q, paths) || Overwrites(q, p, paths)
  {
    var s, t := ToSlash(p), ToSlash(q);
    if s == t {
      SameText(p, q);
    }
    ChildrenIff(p, paths);
    ChildrenIff(q, paths);
    ModText(p, q);
    ModText(q, p);
    DifferentEndings(s, t);
    DifferentEndings(t, s);
    ChildOfParent(p, q, paths);
    ChildOfParent(q, p, paths);
    hide ToSlash, ChildrenOf, HasChildFile;
    if s + ".rs" == t + ".rs" {
      SameEnding(s, t, ".rs");
    }
    if s + "/mod.rs" == t + "/mod.rs" {
      SameEnding(s, t, "/mod.rs");
    }
  }

  lemma ChildOfParent(p: Path, q: Path, paths: seq<Path>)
    requires q in paths
    ensures q == p + ["mod"] ==> HasChildFile(p, paths)
  {
    var i :| 0 <= i < |paths| && paths[i] == q;
    assert q == p + ["mod"] ==> IsDirectParentOf(p, paths[i]);
  }

  /** Every file gets a place of its own exactly when no file's module `mod` is a file with nothing
      directly beneath it. */
  lemma FilesKeptApartIff(paths: seq<Path>)
    requires ModuleFiles(paths)
    ensures (forall p, q :: p in paths && q in paths && WrittenTogether(p, q, paths) ==> p == q)
       <==> forall p, q :: p in paths && q in paths ==> !Overwrites(q, p, paths)
  {
    forall p, q | p in paths && q in paths && p != q
      ensures WrittenTogether(p, q, paths) <==> Overwrites(p, q, paths) || Overwrites(q, p, paths)
    {
      WrittenTogetherIff(p, q, paths);
    }
    forall p, q | Overwrites(q, p, paths)
      ensures p != q
    {
      assert |q| == |p| + 1;
    }
    hide WrittenTogether, Overwrites;
  }

  lemma SkippedLevel(x: string, y: string, z: string)
    requires IsIdentifier(x) && IsIdentifier(y) && IsIdentifier(z)
    ensures ([x], x + "/mod.rs") in ManifestOf([[x], [x, y, z]])
    ensures WrittenPath(x, Texts([[x], [x, y, z]])) == x + ".rs"
  {
    hide IsIdentifier, ManifestOf, Split, InsertPath;
    var p, paths := [x], [[x], [x, y, z]];
    assert p < paths[1] && !IsDirectParentOf(p, paths[0]) && !IsDirectParentOf(p, paths[1]);
    WithChildrenIff(p, paths);
    ChildrenIff(p, paths);
    assert ToSlash(p) == x && p == paths[0];
    ManifestIncludesEachFileOnce(paths, p, x + "/mod.rs");
  }

  /** The files `x` and `x/mod` are both written to `x/mod.rs`. */
  lemma OverwrittenFile(x: string)
    requires IsIdentifier(x)
    ensures var files := Texts([[x], [x, "mod"]]);
            WrittenPath(x, files) == WrittenPath(x + "/mod", files) == x + "/mod.rs"
  {
    var p, q := [x], [x, "mod"];
    var paths := [p, q];
    assert IsIdentifier("mod");
    assert q == p + ["mod"];
    ChildrenIff(p, paths);
    ChildrenIff(q, paths);
    ModText(p, q);
    ChildOfParent(p, q, paths);
    assert !IsDirectParentOf(q, paths[0]) && !IsDirectParentOf(q, paths[1]);
    assert ToSlash(p) == x;
    DifferentEndings(x + "/mod", x);
  }

  /** With files for `a` and `a/b/c` only, `a.rs` is written and `a/mod.rs` is included. */
  lemma SkippedLevelIsMissed()
    ensures (["a"], "a/mod.rs") in ManifestOf([["a"], ["a", "b", "c"]])
    ensures WrittenPath("a", Texts([["a"], ["a", "b", "c"]])) == "a.rs"
  {
    hide ManifestOf, WrittenPath;
    SkippedLevel("a", "b", "c");
    assert "a" + "/mod.rs" == "a/mod.rs" && "a" + ".rs" == "a.rs";
  }
}
