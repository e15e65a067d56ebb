/** Module paths: their textual forms and the ancestor relation. */
module ModulePaths {
  import opened Allocation
  import opened Sequences

  /** Segments below the library root; the root itself has none. */
  type Path = seq<string>

  predicate IsAlpha(c: char) {
    'a' <= c <= 'z' || 'A' <= c <= 'Z'
  }

  predicate IsIdentPart(c: char) {
    IsAlpha(c) || '0' <= c <= '9' || c == '_'
  }

  predicate IsIdentifier(seg: string) {
    seg != "" && (IsAlpha(seg[0]) || seg[0] == '_') && forall i :: 0 <= i < |seg| ==> IsIdentPart(seg[i])
  }

  predicate WellFormed(p: Path) {
    forall i :: 0 <= i < |p| ==> IsIdentifier(p[i])
  }

  // ---------------------------------------------------------------------------------------------
  // Text

  function Join(p: Path, sep: string): string {
    if p == [] then "" else if |p| == 1 then p[0] else p[0] + (sep + Join(p[1..], sep))
  }

  /** Does `sep` start at the front of `s`? */
  predicate StartsWith(s: string, sep: string) {
    sep <= s
  }

  /** `str::split`: the pieces between occurrences of `sep`, found from the left. */
  function Split(s: string, sep: string): (pieces: seq<string>)
    requires sep != ""
    ensures pieces != []
    decreases |s|
  {
    if s == "" then [""]
    else if StartsWith(s, sep) then [""] + Split(s[|sep|..], sep)
    else
      var rest := Split(s[1..], sep);
      [[s[0]] + rest[0]] + rest[1..]
  }

  /** `str::replace`. */
  function Replace(s: string, sep: string, other: string): string
    requires sep != ""
  {
    Join(Split(s, sep), other)
  }

  function Parse(pieces: seq<string>): Option<Path> {
    if pieces == [""] then Some([])
    else if WellFormed(pieces) then Some(pieces)
    else None
  }

  function FromText(s: string, sep: string): Option<Path>
    requires sep != ""
  {
    Parse(Split(s, sep))
  }

  function FromSlash(s: string): Option<Path> {
    FromText(s, "/")
  }

  function FromCanonical(s: string): Option<Path> {
    FromText(s, "::")
  }

  function ToSlash(p: Path): string {
    Join(p, "/")
  }

  function ToCanonical(p: Path): string {
    Join(p, "::")
  }

  /** The pieces after one more character in front. */
  function Prepend(c: char, pieces: seq<string>): seq<string>
    requires pieces != []
  {
    [[c] + pieces[0]] + pieces[1..]
  }

  lemma JoinPrepend(c: char, pieces: seq<string>, sep: string)
    requires pieces != []
    ensures Join(Prepend(c, pieces), sep) == [c] + Join(pieces, sep)
  {
    var all := Prepend(c, pieces);
    assert all[1..] == pieces[1..];
    if |pieces| > 1 {
      Assoc([c], pieces[0], sep + Join(pieces[1..], sep));
    }
  }

  lemma JoinEmptyHead(pieces: seq<string>, sep: string)
    requires pieces != []
    ensures Join([""] + pieces, sep) == sep + Join(pieces, sep)
  {
    assert ([""] + pieces)[1..] == pieces;
    assert "" + (sep + Join(pieces, sep)) == sep + Join(pieces, sep);
  }

  lemma {:induction false} JoinSplit(s: string, sep: string)
    requires sep != ""
    ensures Join(Split(s, sep), sep) == s
    decreases |s|
  {
    hide Join, Split;
    SplitSteps(s, sep);
    if s == "" {
      JoinOne("", sep);
    } else if StartsWith(s, sep) {
      JoinSplit(s[|sep|..], sep);
      JoinEmptyHead(Split(s[|sep|..], sep), sep);
    } else {
      JoinSplit(s[1..], sep);
      JoinPrepend(s[0], Split(s[1..], sep), sep);
    }
  }

  lemma JoinOne(x: string, sep: string)
    ensures Join([x], sep) == x
  {
  }

  lemma SplitSteps(s: string, sep: string)
    requires sep != ""
    ensures s == "" ==> Split(s, sep) == [""]
    ensures StartsWith(s, sep) ==> Split(s, sep) == [""] + Split(s[|sep|..], sep)
    ensures s != "" && !StartsWith(s, sep) ==> Split(s, sep) == Prepend(s[0], Split(s[1..], sep))
  {
  }

  lemma {:induction false} SplitPlain(seg: string, sep: string, tail: string)
    requires sep != "" && forall i :: 0 <= i < |seg| ==> seg[i] != sep[0]
    requires tail == "" || StartsWith(tail, sep)
    ensures Split(seg + tail, sep) == if tail == "" then [seg] else [seg] + Split(tail[|sep|..], sep)
    decreases |seg|
  {
    hide Split;
    SplitSteps(seg + tail, sep);
    if seg == "" {
      assert seg + tail == tail;
    } else {
      SplitPlain(seg[1..], sep, tail);
      var s := seg + tail;
      assert s[1..] == seg[1..] + tail && s[0] == seg[0] && !StartsWith(s, sep);
      assert [seg[0]] + seg[1..] == seg && Split(s[1..], sep)[0] == seg[1..];
    }
  }

  lemma {:induction false} SplitJoin(p: Path, sep: string)
    requires sep != "" && p != []
    requires forall k :: 0 <= k < |p| ==> forall i :: 0 <= i < |p[k]| ==> p[k][i] != sep[0]
    ensures Split(Join(p, sep), sep) == p
    decreases |p|
  {
    if |p| == 1 {
      SplitPlain(p[0], sep, "");
      assert p[0] + "" == p[0];
    } else {
      var tail := sep + Join(p[1..], sep);
      SplitPlain(p[0], sep, tail);
      assert tail[|sep|..] == Join(p[1..], sep);
      SplitJoin(p[1..], sep);
    }
  }

  lemma NoSeparators(p: Path, sep: string)
    requires WellFormed(p) && (sep == "/" || sep == "::")
    ensures forall k :: 0 <= k < |p| ==> forall i :: 0 <= i < |p[k]| ==> p[k][i] != sep[0]
  {
    forall k | 0 <= k < |p|
      ensures forall i :: 0 <= i < |p[k]| ==> p[k][i] != sep[0]
    {
      assert IsIdentifier(p[k]);
    }
  }

  /** Printing and parsing are mutual inverses, with slashes and with double colons: a text parses to a
      path exactly when it is the printed form of that well-formed path. */
  lemma TextRoundTrip(s: string, p: Path, sep: string)
    requires sep == "/" || sep == "::"
    ensures FromText(s, sep) == Some(p) <==> WellFormed(p) && s == Join(p, sep)
  {
    if WellFormed(p) && s == Join(p, sep) {
      if p != [] {
        NoSeparators(p, sep);
        SplitJoin(p, sep);
        assert IsIdentifier(p[0]);
      }
    }
    JoinSplit(s, sep);
  }

  /** Slash text and canonical text name the same path. */
  lemma CanonicalSlash(p: Path)
    requires WellFormed(p)
    ensures FromSlash(ToSlash(p)) == FromCanonical(ToCanonical(p)) == Some(p)
    ensures Replace(ToCanonical(p), "::", "/") == ToSlash(p)
    ensures Replace(ToSlash(p), "/", "::") == ToCanonical(p)
  {
    TextRoundTrip(ToSlash(p), p, "/");
    TextRoundTrip(ToCanonical(p), p, "::");
    if p != [] {
      NoSeparators(p, "/");
      NoSeparators(p, "::");
      SplitJoin(p, "/");
      SplitJoin(p, "::");
    }
  }

  // ---------------------------------------------------------------------------------------------
  // File stems

  function StripSuffix(s: string, suffix: string): string {
    if |suffix| <= |s| && s[|s| - |suffix|..] == suffix then s[..|s| - |suffix|] else s
  }

  function FromFileStem(path: string): Option<Path> {
    var cleaned := StripSuffix(StripSuffix(path, ".rs"), "/mod");
    if cleaned == "mod" then Some([]) else FromSlash(cleaned)
  }

  lemma StripAdded(s: string, suffix: string)
    ensures StripSuffix(s + suffix, suffix) == s
  {
    assert (s + suffix)[|s|..] == suffix && (s + suffix)[..|s|] == s;
  }

  lemma {:induction false} JoinSnoc(p: Path, name: string, sep: string)
    requires p != []
    ensures Join(p + [name], sep) == Join(p, sep) + (sep + name)
    decreases |p|
  {
    if |p| > 1 {
      JoinSnoc(p[1..], name, sep);
      assert (p + [name])[1..] == p[1..] + [name];
      assert p[0] + (sep + (Join(p[1..], sep) + (sep + name))) == (p[0] + (sep + Join(p[1..], sep))) + (sep + name);
    } else {
      assert (p + [name])[1..] == [name] && (p + [name])[0] == p[0];
    }
  }

  /** `dir/mod.rs` stands for `dir`. */
  lemma ModFileStem(p: Path)
    requires WellFormed(p) && p != []
    ensures FromFileStem(ToSlash(p) + "/mod.rs") == if p == ["mod"] then Some([]) else Some(p)
  {
    assert ToSlash(p) + "/mod.rs" == (ToSlash(p) + "/mod") + ".rs";
    StripAdded(ToSlash(p) + "/mod", ".rs");
    StripAdded(ToSlash(p), "/mod");
    TextRoundTrip(ToSlash(p), p, "/");
    TextRoundTrip("mod", ["mod"], "/");
    assert FromSlash("mod") == Some(["mod"]);
  }

  lemma NoSlash(seg: string)
    requires IsIdentifier(seg)
    ensures '/' !in seg
  {
  }

  /** What follows the last slash of a text is determined by it. */
  lemma LastSlash(x: string, a: string, y: string, b: string)
    requires '/' !in a && '/' !in b && x + "/" + a == y + "/" + b
    ensures a == b
  {
    var s := x + "/" + a;
    assert s[|x|] == '/' && forall i :: |x| < i < |s| ==> s[i] == a[i - |x| - 1];
    assert s[|y|] == '/' && forall i :: |y| < i < |s| ==> s[i] == b[i - |y| - 1];
    assert a == s[|x| + 1..] && b == s[|y| + 1..];
  }

  lemma EndsInMod(front: string, name: string)
    requires '/' !in name
    ensures StripSuffix(front + "/" + name, "/mod") == if name == "mod" then front else front + "/" + name
  {
    var s := front + "/" + name;
    if 4 <= |s| && s[|s| - 4..] == "/mod" {
      assert s == s[..|s| - 4] + "/" + "mod";
      LastSlash(front, name, s[..|s| - 4], "mod");
    }
    if name == "mod" {
      assert s == front + "/mod";
      StripAdded(front, "/mod");
    }
  }

  /** A plain file, with or without its suffix, stands for its own path, unless it is called `mod`: then
      for its directory, and for the root when there is none or when that is itself called `mod`. */
  lemma PlainFileStem(p: Path)
    requires WellFormed(p) && p != []
    ensures FromFileStem(ToSlash(p) + ".rs") == FromFileStem(ToSlash(p))
         == if Leaf(p) != "mod" then Some(p) else if Parent(p) == ["mod"] then Some([]) else Some(Parent(p))
  {
    var name, up := Leaf(p), Parent(p);
    assert p == up + [name] && IsIdentifier(name);
    NoSlash(name);
    StripAdded(ToSlash(p), ".rs");
    NoSuffix(p);
    TextRoundTrip(ToSlash(p), p, "/");
    if up == [] {
      assert ToSlash(p) == name;
      TooShort(name);
    } else {
      JoinSnoc(up, name, "/");
      assert ToSlash(p) == ToSlash(up) + "/" + name;
      EndsInMod(ToSlash(up), name);
      TextRoundTrip(ToSlash(up), up, "/");
      TextRoundTrip("mod", ["mod"], "/");
      if name != "mod" {
        assert '/' in ToSlash(p);
      }
    }
  }

  lemma {:induction false} NoDots(p: Path)
    requires WellFormed(p)
    ensures '.' !in ToSlash(p)
    decreases |p|
  {
    if p != [] {
      assert IsIdentifier(p[0]);
      NoDots(p[1..]);
    }
  }

  lemma NoSuffix(p: Path)
    requires WellFormed(p)
    ensures StripSuffix(ToSlash(p), ".rs") == ToSlash(p)
  {
    NoDots(p);
    var s := ToSlash(p);
    assert 3 <= |s| ==> s[|s| - 3..][0] == s[|s| - 3];
  }

  /** Nothing else is accepted: a text that names a path is that path's slash text, or the text `mod` for
      the root, with or without the two suffixes. */
  lemma FileStemOnly(t: string, p: Path)
    requires FromFileStem(t) == Some(p)
    ensures WellFormed(p)
    ensures var s := if p == [] && (t == "mod" || t == "mod.rs" || t == "mod/mod" || t == "mod/mod.rs") then "mod" else ToSlash(p);
            t == s || t == s + ".rs" || t == s + "/mod" || t == s + "/mod.rs"
  {
    var stem := StripSuffix(t, ".rs");
    var cleaned := StripSuffix(stem, "/mod");
    StripBack(t, ".rs");
    StripBack(stem, "/mod");
    TextRoundTrip(cleaned, p, "/");
    assert (cleaned + "/mod") + ".rs" == cleaned + "/mod.rs";
  }

  lemma StripBack(s: string, suffix: string)
    ensures StripSuffix(s, suffix) == s || s == StripSuffix(s, suffix) + suffix
  {
  }

  lemma TooShort(name: string)
    requires '/' !in name
    ensures StripSuffix(name, "/mod") == name
  {
    assert 4 <= |name| ==> name[|name| - 4..][0] == name[|name| - 4];
  }

  // ---------------------------------------------------------------------------------------------
  // The tree of paths

  function Leaf(p: Path): string {
    if p == [] then "" else p[|p| - 1]
  }

  function Parent(p: Path): Path {
    if p == [] then [] else p[..|p| - 1]
  }

  predicate Contains(p: Path, q: Path) {
    p <= q
  }

  predicate IsDirectParentOf(p: Path, q: Path) {
    |q| == |p| + 1 && |q[|p|..]| == 1 && q[..|p|] == p
  }

  function RelativeSegments(q: Path, prefix: Path): Option<Path> {
    if Contains(prefix, q) then Some(q[|prefix|..]) else None
  }

  lemma DirectParentIff(p: Path, q: Path)
    ensures IsDirectParentOf(p, q) <==> q != [] && q == p + [Leaf(q)]
    ensures IsDirectParentOf(p, q) ==> Parent(q) == p && Contains(p, q) && !Contains(q, p)
  {
    if IsDirectParentOf(p, q) {
      assert q == q[..|p|] + [q[|p|]];
    }
  }

  lemma RelativeIff(q: Path, prefix: Path, r: Path)
    ensures RelativeSegments(q, prefix) == Some(r) <==> q == prefix + r
  {
  }

  lemma ContainsIsPartialOrder(p: Path, q: Path, r: Path)
    ensures Contains([], p) && Contains(p, p)
    ensures Contains(p, q) && Contains(q, p) ==> p == q
    ensures Contains(p, q) && Contains(q, r) ==> Contains(p, r)
  {
  }
}
