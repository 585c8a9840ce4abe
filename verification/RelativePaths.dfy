/**
  * Which items a path names for deletion: relative paths as in section 30.10.8.4.11 [fs.path.gen] of
  * ISO/IEC 14882:2017 as amended by library issue 3096, which does not count empty elements and makes the
  * result "." when nothing remains; and what the test on their text means for the names of the paths.
  */
module RelativePaths {
  import opened Paths

  /** The elements of a path: the root, the names, and an empty element after a trailing separator. */
  function Elements(s: string): seq<string> {
    (if IsAbsolute(s) then ["/"] else []) + Names(s) + (if EndsWithSlash(s) && Names(s) != [] then [""] else [])
  }

  /** Paths are equal when their elements are. */
  predicate SamePath(a: string, b: string) {
    Elements(a) == Elements(b)
  }

  function CommonElements(a: seq<string>, b: seq<string>): (m: nat)
    ensures m <= |a| && m <= |b| && a[..m] == b[..m]
    ensures m < |a| && m < |b| ==> a[m] != b[m]
  {
    if a == [] || b == [] || a[0] != b[0] then 0
    else
      var m := CommonElements(a[1..], b[1..]);
      assert a[..m + 1] == [a[0]] + a[1..][..m] && b[..m + 1] == [b[0]] + b[1..][..m];
      m + 1
  }

  /** How far up the remaining elements of the base lead, less how far its dot-dots lead. */
  function StepsUp(b: seq<string>): int {
    if b == [] then 0
    else StepsUp(b[1..]) + (if b[0] == ".." then -1 else if b[0] == "" || b[0] == "." then 0 else 1)
  }

  function DotDots(n: nat): (r: seq<string>)
    ensures |r| == n && forall i :: 0 <= i < n ==> r[i] == ".."
  {
    if n == 0 then [] else DotDots(n - 1) + [".."]
  }

  function Relative(a: seq<string>, b: seq<string>): string {
    var m := CommonElements(a, b);
    if m == |a| == |b| then "."
    else
      var n := StepsUp(b[m..]);
      if n < 0 then ""
      else if n == 0 && (m == |a| || a[m] == "") then "."
      else Join(DotDots(n) + a[m..])
  }

  function LexicallyRelative(path: string, base: string): string {
    if IsAbsolute(path) != IsAbsolute(base) then "" else Relative(Elements(path), Elements(base))
  }

  /** The test of the code on the text of the relative path. */
  predicate LooksInside(relative: string, isDir: bool) {
    && (relative != "." || isDir)
    && (!(".." <= relative) || (|relative| > 2 && relative[2] != '/'))
  }

  predicate IsInsidePath(itemPath: string, isDir: bool, base: string) {
    LooksInside(LexicallyRelative(itemPath, base), isDir)
  }

  // ----- what the test means -----

  /** A normal relative path: names only, joined by single separators. */
  ghost predicate IsNormalItem(path: string, names: seq<string>) {
    names != [] && AllNames(names) && path == Join(names)
  }

  lemma SlashedIsJoin(names: seq<string>)
    requires names != []
    ensures Slashed(names) == "/" + Join(names)
  {
  }

  lemma JoinedNames(names: seq<string>, tail: string)
    requires names != [] && (tail == "" || tail == "/")
    requires forall i :: 0 <= i < |names| ==> names[i] != "" && SlashFree(names[i])
    ensures Names(Join(names) + tail) == names && !IsAbsolute(Join(names) + tail)
    ensures EndsWithSlash(Join(names) + tail) <==> tail == "/"
  {
    SlashedIsJoin(names);
    NamesOfSlashed(names, tail);
    assert tail == "/" ==> tail[1..] == "";
    assert Names(tail) == [];
    assert Slashed(names) + tail == "/" + (Join(names) + tail);
    LeadingSlash(Join(names) + tail);
    SlashedEnd(names);
    assert Join(names)[0] == names[0][0];
  }

  lemma ItemElements(path: string, names: seq<string>)
    requires IsNormalItem(path, names)
    ensures Elements(path) == names && !IsAbsolute(path)
  {
    JoinedNames(names, "");
    assert Join(names) + "" == path;
  }

  /** Walking down from nothing: dot-dots first, then names. */
  ghost predicate DotsThenNames(names: seq<string>, dots: nat) {
    && dots <= |names|
    && (forall i :: 0 <= i < dots ==> names[i] == "..")
    && AllNames(names[dots..])
  }

  lemma WalkKeepsShape(stack: seq<string>, dots: nat, name: string) returns (dots': nat)
    requires DotsThenNames(stack, dots) && name != "" && SlashFree(name)
    ensures DotsThenNames(Follow(false, stack, name), dots')
  {
    var w := Follow(false, stack, name);
    if name == "." {
      dots' := dots;
    } else if name == ".." {
      if stack != [] && stack[|stack| - 1] != ".." {
        dots' := dots;
        assert w[dots..] == stack[dots..][..|stack| - 1 - dots];
      } else {
        assert dots == |stack|;
        dots' := dots + 1;
      }
    } else {
      dots' := dots;
      assert w[dots..] == stack[dots..] + [name];
    }
  }

  lemma {:induction false} ResolvedShape(stack: seq<string>, dots: nat, names: seq<string>) returns (dots': nat)
    requires DotsThenNames(stack, dots)
    requires forall i :: 0 <= i < |names| ==> names[i] != "" && SlashFree(names[i])
    ensures DotsThenNames(Resolve(false, stack, names), dots')
    decreases |names|
  {
    if names == [] {
      dots' := dots;
    } else {
      var d := WalkKeepsShape(stack, dots, names[0]);
      dots' := ResolvedShape(Follow(false, stack, names[0]), d, names[1..]);
    }
  }

  /** The elements of a normalised relative path. */
  lemma NormalElements(path: string) returns (names: seq<string>, dots: nat, trailing: bool)
    requires path != "" && !IsAbsolute(path)
    ensures DotsThenNames(names, dots) && names == Resolve(false, [], Names(path))
    ensures !IsAbsolute(LexicallyNormal(path))
    ensures Elements(LexicallyNormal(path)) ==
            if names == [] then ["."] else names + (if trailing then [""] else [])
  {
    hide Resolve, Names, Join, Elements, SlashFree;
    names := Resolve(false, [], Names(path));
    dots := ResolvedShape([], 0, Names(path));
    trailing := names != [] && DirectoryLike(path) && names[|names| - 1] != "..";
    if names == [] {
      DotElements();
    } else {
      PartsOfShape(names, dots);
      JoinedElements(names, trailing);
      assert !trailing ==> Join(names) + "" == Join(names);
    }
  }

  lemma {:induction false} ResolveShaped(a: seq<string>, b: seq<string>, dots: nat)
    requires DotsThenNames(a + b, dots)
    ensures Resolve(false, a, b) == a + b
    decreases |b|
  {
    if b == [] {
      assert a + b == a;
    } else {
      assert (a + b)[|a|] == b[0];
      if |a| < dots {
        assert a != [] ==> (a + b)[|a| - 1] == "..";
      } else {
        assert (a + b)[dots..][|a| - dots] == b[0];
      }
      assert a + [b[0]] + b[1..] == a + b;
      ResolveShaped(a + [b[0]], b[1..], dots);
    }
  }

  /** Normalising once is enough. */
  lemma NormalOnce(path: string)
    ensures LexicallyNormal(LexicallyNormal(path)) == LexicallyNormal(path)
  {
    hide Resolve, Names, Join, SlashFree, Rendered;
    if path == "" {
    } else if IsAbsolute(path) {
      ResolvedAreNames([], Names(path));
      NormalIsFixed(Resolve(true, [], Names(path)), DirectoryLike(path));
    } else {
      var names, dots, trailing := NormalElements(path);
      if names == [] {
        DotIsFixed();
      } else {
        RelativeIsFixed(names, dots, DirectoryLike(path));
      }
    }
  }

  lemma DotIsFixed()
    ensures LexicallyNormal(".") == "."
  {
    OneName(".");
    assert ["."][1..] == [];
  }

  lemma RelativeIsFixed(names: seq<string>, dots: nat, directory: bool)
    requires names != [] && DotsThenNames(names, dots)
    ensures var normal := Join(names) + (if directory && names[|names| - 1] != ".." then "/" else "");
            LexicallyNormal(normal) == normal
  {
    hide Resolve, Names, Join, SlashFree;
    var last := names[|names| - 1];
    var tail := if directory && last != ".." then "/" else "";
    PartsOfShape(names, dots);
    JoinedNames(names, tail);
    assert [] + names == names;
    ResolveShaped([], names, dots);
    if dots < |names| {
      assert IsName(names[dots..][|names| - dots - 1]);
    }
    assert Join(names) != "" by {
      JoinNotEmpty(names);
    }
  }

  lemma JoinNotEmpty(names: seq<string>)
    requires names != [] && names[0] != ""
    ensures Join(names) != ""
  {
  }

  /** In terms of the path itself: a path that stays below its start ends in a separator when it is written so. */
  lemma ElementsOfNormal(path: string)
    requires path != "" && !IsAbsolute(path) && AllNames(Resolve(false, [], Names(path)))
    ensures var names := Resolve(false, [], Names(path));
            Elements(LexicallyNormal(path)) ==
            if names == [] then ["."] else names + (if DirectoryLike(path) then [""] else [])
  {
    hide Resolve, Names, Join, Elements, SlashFree, DirectoryLike;
    var names := Resolve(false, [], Names(path));
    if names == [] {
      DotElements();
    } else {
      assert IsName(names[|names| - 1]);
      JoinedElements(names, DirectoryLike(path));
      assert Join(names) + "" == Join(names);
    }
  }

  lemma PartsOfShape(names: seq<string>, dots: nat)
    requires DotsThenNames(names, dots)
    ensures forall i :: 0 <= i < |names| ==> names[i] != "" && SlashFree(names[i])
  {
    forall i | 0 <= i < |names| ensures names[i] != "" && SlashFree(names[i]) {
      if i >= dots {
        assert names[i] == names[dots..][i - dots];
      }
    }
  }

  lemma JoinedElements(names: seq<string>, trailing: bool)
    requires names != [] && forall i :: 0 <= i < |names| ==> names[i] != "" && SlashFree(names[i])
    ensures var s := Join(names) + (if trailing then "/" else "");
            !IsAbsolute(s) && Elements(s) == names + (if trailing then [""] else [])
  {
    hide Names, Join, SlashFree;
    JoinedNames(names, if trailing then "/" else "");
  }

  lemma DotElements()
    ensures Elements(".") == ["."] && !IsAbsolute(".")
  {
    assert SlashFree(".");
    NamesHead(".", "");
    assert "." + "" == ".";
  }

  lemma {:induction false} StepsUpNames(names: seq<string>, tail: seq<string>)
    requires AllNames(names) && (tail == [] || tail == [""])
    ensures StepsUp(names + tail) == |names|
  {
    if names == [] {
      assert names + tail == tail;
      assert tail != [] ==> tail[1..] == [];
    } else {
      assert (names + tail)[1..] == names[1..] + tail;
      StepsUpNames(names[1..], tail);
    }
  }

  lemma {:induction false} StepsUpDots(names: seq<string>, dots: nat, tail: seq<string>)
    requires DotsThenNames(names, dots) && (tail == [] || tail == [""])
    ensures StepsUp(names + tail) == |names| - 2 * dots
    decreases dots
  {
    if dots == 0 {
      assert names[0..] == names;
      StepsUpNames(names, tail);
    } else {
      assert (names + tail)[1..] == names[1..] + tail;
      assert names[1..][dots - 1..] == names[dots..];
      StepsUpDots(names[1..], dots - 1, tail);
    }
  }

  /** A joined path of names never looks like it starts with a dot-dot element; one that climbs always does. */
  lemma ClimbsIff(n: nat, rest: seq<string>)
    requires AllNames(rest) && n + |rest| > 0
    ensures var s := Join(DotDots(n) + rest);
            forall isDir :: LooksInside(s, isDir) <==> n == 0
  {
    var names := DotDots(n) + rest;
    var s, tail := Join(names), Slashed(names[1..]);
    SlashedStart(names[1..]);
    assert s == names[0] + tail;
    if n > 0 {
      assert names[0] == "..";
      assert |s| > 2 ==> s[2] == tail[0];
    } else {
      assert names[0] == rest[0];
      FirstNameDots(names[0], tail);
    }
  }

  lemma FirstNameDots(name: string, tail: string)
    requires IsName(name) && (tail == "" || tail[0] == '/')
    ensures var s := name + tail; s != "." && (".." <= s ==> |s| > 2 && s[2] != '/')
  {
    var s := name + tail;
    assert name == s[..|name|];
    assert ".." <= s ==> s[..2] == "..";
  }

  lemma CommonIsPrefix(a: seq<string>, b: seq<string>)
    ensures b <= a <==> CommonElements(a, b) == |b|
    ensures a <= b <==> CommonElements(a, b) == |a|
  {
    var m := CommonElements(a, b);
    if b <= a {
      assert b == a[..|b|];
    }
    if a <= b {
      assert a == b[..|a|];
    }
  }

  /**
    * Deleting by a path inside the archive: with names `b` after normalisation, a normal item is inside
    * exactly when `b` starts its names, the item itself only when it is a folder.
    */
  lemma InsideIffBelow(item: string, a: seq<string>, isDir: bool, path: string)
    requires IsNormalItem(item, a) && path != "" && !IsAbsolute(path)
    requires AllNames(Resolve(false, [], Names(path)))
    ensures var b := Resolve(false, [], Names(path));
            IsInsidePath(item, isDir, LexicallyNormal(path)) <==> b <= a && (a != b || isDir)
  {
    hide Join, Elements, Resolve, LexicallyNormal, Names, Relative, LooksInside;
    ItemElements(item, a);
    var names, dots, trailing := NormalElements(path);
    if names == [] {
      RelativeToDot(a, isDir);
    } else {
      RelativeToNames(a, names, if trailing then [""] else [], isDir);
    }
  }

  /** An item whose own path is absolute counts as inside every path that may be deleted, whatever its names. */
  lemma AbsoluteItemIsInside(item: string, isDir: bool, base: string)
    requires IsAbsolute(item) && !IsAbsolute(base)
    ensures IsInsidePath(item, isDir, base)
  {
  }

  lemma ShortTexts(isDir: bool)
    ensures LooksInside(".", isDir) <==> isDir
    ensures LooksInside("", isDir)
  {
  }

  lemma RelativeToDot(a: seq<string>, isDir: bool)
    requires AllNames(a) && a != []
    ensures LooksInside(Relative(a, ["."]), isDir)
  {
    hide Join, LooksInside;
    assert a[0] != ".";
    assert ["."][0..] == ["."] && a[0..] == a && ["."][1..] == [];
    assert StepsUp(["."]) == 0;
    ClimbsIff(0, a);
    assert DotDots(0) + a == a;
  }

  lemma RelativeToNames(a: seq<string>, b: seq<string>, tail: seq<string>, isDir: bool)
    requires AllNames(a) && AllNames(b) && a != [] && b != [] && (tail == [] || tail == [""])
    ensures LooksInside(Relative(a, b + tail), isDir) <==> b <= a && (a != b || isDir)
  {
    hide Join, StepsUp, CommonElements, LooksInside;
    ShortTexts(isDir);
    CommonOfTail(a, b, tail);
    CommonIsPrefix(a, b);
    var k := CommonElements(a, b);
    assert (b + tail)[k..] == b[k..] + tail;
    StepsUpNames(b[k..], tail);
    if |b| - k + |a| - k > 0 {
      ClimbsIff(|b| - k, a[k..]);
      assert k < |a| ==> IsName(a[k]);
      assert Relative(a, b + tail) == Join(DotDots(|b| - k) + a[k..]);
    } else {
      assert a == b;
      assert Relative(a, b + tail) == ".";
    }
  }

  lemma {:induction false} ClimbingUndoes(stack: seq<string>, n: nat)
    requires AllNames(stack) && n <= |stack|
    ensures Resolve(false, stack, DotDots(n)) == stack[..|stack| - n]
    decreases n
  {
    if n > 0 {
      var d := DotDots(n - 1);
      ResolveSplit(false, stack, d, [".."]);
      ClimbingUndoes(stack, n - 1);
      assert [".."][1..] == [];
      var rest := stack[..|stack| - n + 1];
      assert IsName(rest[|rest| - 1]);
    } else {
      assert stack[..|stack|] == stack;
    }
  }

  lemma WayParts(n: nat, rest: seq<string>)
    requires AllNames(rest)
    ensures forall i :: 0 <= i < n + |rest| ==>
              (DotDots(n) + rest)[i] != "" && SlashFree((DotDots(n) + rest)[i])
  {
  }

  /** As many dot-dots as the base has names below what both share, then the rest of the path. */
  lemma RelativeIsWay(a: seq<string>, b: seq<string>)
    requires AllNames(a) && AllNames(b)
    ensures var m := CommonElements(a, b);
            && (m == |a| == |b| ==> a == b && Relative(a, b) == ".")
            && (m < |a| || m < |b| ==> Relative(a, b) == Join(DotDots(|b| - m) + a[m..]))
  {
    hide Join, StepsUp, Names, SlashFree;
    var m := CommonElements(a, b);
    assert b[m..] + [] == b[m..];
    StepsUpNames(b[m..], []);
    assert m < |a| ==> IsName(a[m]);
  }

  /** The relative path is the way from the base to the path; a separator at the end of either changes nothing. */
  lemma RelativeLeads(a: seq<string>, b: seq<string>)
    requires AllNames(a) && AllNames(b)
    ensures Resolve(false, b, Names(Relative(a, b))) == a
    ensures Relative(a + [""], a) == "." && Relative(a, a + [""]) == "."
  {
    hide Join, Names, Relative, Resolve;
    SeparatorsIgnored(a);
    RelativeIsWay(a, b);
    var m := CommonElements(a, b);
    if m < |a| || m < |b| {
      WayLeads(a, b, m);
    } else {
      OneName(".");
      SpecialElements(false, b, "a");
    }
  }

  lemma WayLeads(a: seq<string>, b: seq<string>, m: nat)
    requires AllNames(a) && AllNames(b) && m <= |a| && m <= |b| && a[..m] == b[..m] && (m < |a| || m < |b|)
    ensures Resolve(false, b, Names(Join(DotDots(|b| - m) + a[m..]))) == a
  {
    hide Join, Names, SlashFree, Resolve;
    var n := |b| - m;
    var way := DotDots(n) + a[m..];
    WayParts(n, a[m..]);
    JoinedNames(way, "");
    assert Join(way) + "" == Join(way);
    ResolveSplit(false, b, DotDots(n), a[m..]);
    ClimbingUndoes(b, n);
    ResolveNames(false, b[..m], a[m..]);
    assert b[..m] + a[m..] == a;
  }

  lemma SeparatorsIgnored(a: seq<string>)
    requires AllNames(a)
    ensures Relative(a + [""], a) == "." && Relative(a, a + [""]) == "."
  {
    hide Join;
    CommonIsPrefix(a, a + [""]);
    CommonIsPrefix(a + [""], a);
    assert a[|a|..] == [] && (a + [""])[|a|..] == [""] && [""][1..] == [];
  }

  lemma {:induction false} CommonOfTail(a: seq<string>, b: seq<string>, tail: seq<string>)
    requires AllNames(a) && (tail == [] || tail == [""])
    ensures CommonElements(a, b + tail) == CommonElements(a, b)
  {
    if b == [] || a == [] {
      assert b == [] ==> b + tail == tail;
    } else if a[0] == b[0] {
      assert (b + tail)[1..] == b[1..] + tail;
      CommonOfTail(a[1..], b[1..], tail);
    }
  }

  /**
    * A path that climbs out of the archive: every item counts as inside unless the path climbs less than it
    * descends.
    */
  lemma InsideWhenClimbing(item: string, a: seq<string>, isDir: bool, path: string, dots: nat)
    requires IsNormalItem(item, a) && path != "" && !IsAbsolute(path)
    requires dots > 0 && DotsThenNames(Resolve(false, [], Names(path)), dots)
    ensures IsInsidePath(item, isDir, LexicallyNormal(path)) <==> |Resolve(false, [], Names(path))| <= 2 * dots
  {
    hide Join, Elements, Resolve, LexicallyNormal, Names, Relative, LooksInside;
    ItemElements(item, a);
    var names, d, trailing := NormalElements(path);
    RelativeToClimbing(a, names, dots, if trailing then [""] else [], isDir);
  }

  lemma RelativeToClimbing(a: seq<string>, b: seq<string>, dots: nat, tail: seq<string>, isDir: bool)
    requires AllNames(a) && a != [] && dots > 0 && DotsThenNames(b, dots) && (tail == [] || tail == [""])
    ensures LooksInside(Relative(a, b + tail), isDir) <==> |b| <= 2 * dots
  {
    hide Join, StepsUp, LooksInside;
    ShortTexts(isDir);
    var e := b + tail;
    assert e[0] == ".." && a[0] != "..";
    StepsUpDots(b, dots, tail);
    assert e[0..] == e && a[0..] == a;
    var n := StepsUp(e);
    if n >= 0 {
      ClimbsIff(n, a);
      assert CommonElements(a, e) == 0;
      assert Relative(a, e) == Join(DotDots(n) + a);
    } else {
      assert Relative(a, e) == "";
    }
  }
}
