/** Where the items of an archive may be written: below the base path, and nowhere else. */
module SafePaths {
  import opened Paths

  /** The length of the longest common prefix. */
  function Mismatch(a: string, b: string): (m: nat)
    ensures m <= |a| && m <= |b| && a[..m] == b[..m]
    ensures m < |a| && m < |b| ==> a[m] != b[m]
  {
    if a == "" || b == "" || a[0] != b[0] then 0
    else
      var m := Mismatch(a[1..], b[1..]);
      assert a[..m + 1] == [a[0]] + a[1..][..m] && b[..m + 1] == [b[0]] + b[1..][..m];
      m + 1
  }

  /** The comparison of the code: characters only, no names. */
  predicate IsOutsideBase(path: string, base: string)
    requires base != ""
  {
    var m := Mismatch(base, path);
    if m < |base| then m < |path| || m + 1 < |base| || base[|base| - 1] != '/'
    else if m == |path| then false
    else if base[|base| - 1] == '/' then false
    else path[m] != '/'
  }

  lemma PrefixIsMismatch(a: string, b: string)
    ensures a <= b <==> Mismatch(a, b) == |a|
  {
    if a <= b {
      assert a == b[..|a|];
    }
  }

  /**
    * On paths without and with a trailing separator, the comparison asks whether the base is a prefix up to a
    * separator.
    */
  lemma InsideIsPrefix(x: string, tx: bool, y: string, ty: bool)
    requires x != "" && x[|x| - 1] != '/'
    requires y == "" || y[|y| - 1] != '/'
    requires y != "" || ty
    ensures var base := x + (if tx then "/" else "");
            var path := y + (if ty then "/" else "");
            !IsOutsideBase(path, base) <==> x + "/" <= y + "/"
  {
    var base := x + (if tx then "/" else "");
    var path := y + (if ty then "/" else "");
    hide Mismatch;
    PrefixIsMismatch(base, path);
    var m := Mismatch(base, path);
    var z := y + "/";
    if tx {
      if m == |base| {
        assert base <= path <= z;
      } else {
        if !IsOutsideBase(path, base) {
          assert path == base[..m] == x;
        }
        if base <= z {
          assert z == base || base <= y;
        }
      }
    } else {
      assert x + "/" <= z ==> x <= path by {
        if x + "/" <= z {
          assert x == z[..|x|] == y[..|x|] == path[..|x|];
        }
      }
      if m == |base| {
        assert x == path[..|x|];
        if x + "/" <= z {
          assert z[|x|] == '/';
        }
        if !IsOutsideBase(path, base) {
          assert z[..|x| + 1] == x + "/";
        }
      }
    }
  }

  /**
    * On normal absolute paths the character comparison is exactly "the names of the base start the names of the
    * path".
    */
  lemma OutsideIffNames(a: seq<string>, ta: bool, b: seq<string>, tb: bool)
    requires AllNames(a) && AllNames(b)
    ensures IsOutsideBase(Rendered(b, tb), Rendered(a, ta)) <==> !(a <= b)
  {
    hide IsOutsideBase, AllNames, SlashFree, Slashed, Mismatch;
    var base, path := Rendered(a, ta), Rendered(b, tb);
    NamesNotEmpty(a);
    NamesNotEmpty(b);
    SlashedStart(b);
    if a == [] {
      RootHoldsAll(path);
    } else {
      assert Slashed(a) + "" == Slashed(a) && Slashed(b) + "" == Slashed(b);
      SlashedEnd(a);
      PrefixIffNames(a, b);
      if b == [] {
        InsideIsPrefix(Slashed(a), ta, "", true);
        assert "" + "/" == "/" == path && Slashed(b) + "/" == "/";
      } else {
        SlashedEnd(b);
        InsideIsPrefix(Slashed(a), ta, Slashed(b), tb);
      }
    }
  }

  lemma NamesNotEmpty(names: seq<string>)
    requires AllNames(names)
    ensures forall i :: 0 <= i < |names| ==> names[i] != "" && SlashFree(names[i])
  {
  }

  lemma RootHoldsAll(path: string)
    requires path != "" && path[0] == '/'
    ensures !IsOutsideBase(path, "/")
  {
    assert path == "/" + path[1..];
    PrefixIsMismatch("/", path);
  }

  // ----- building output paths -----

  datatype PathResult = Built(path: string) | InvalidItemPath | ItemHasAbsolutePath | ItemOutsideOutputDirectory

  predicate HasNul(s: string) {
    exists i :: 0 <= i < |s| && s[i] == '\0'
  }

  function SanitizePathJoin(base: string, path: string): PathResult {
    if HasNul(path) then InvalidItemPath
    else if IsAbsolute(path) then ItemHasAbsolutePath
    else Built(Append(base, path))
  }

  function BuildPath(base: string, path: string): PathResult
    requires base != ""
  {
    if path == "" then Built(base)
    else
      match SanitizePathJoin(base, path)
      case Built(joined) =>
        var builtPath := LexicallyNormal(joined);
        if IsOutsideBase(builtPath, base) then ItemOutsideOutputDirectory else Built(builtPath)
      case error => error
  }

  /** The base path as the constructor prepares it, given the (normal, absolute) current directory. */
  function SanitizeBasePath(currentPath: string, basePath: string): string {
    if basePath == "" || basePath == "." then currentPath
    else LexicallyNormal(if IsAbsolute(basePath) then basePath else Append(currentPath, basePath))
  }

  lemma NormalIsRendered(s: string)
    requires IsAbsolute(s)
    ensures var names := Resolve(true, [], Names(s));
            AllNames(names) && LexicallyNormal(s) == Rendered(names, DirectoryLike(s))
  {
    ResolvedAreNames([], Names(s));
  }

  lemma NamesOfAppended(base: seq<string>, trailing: bool, path: string)
    requires AllNames(base) && !IsAbsolute(path)
    ensures var joined := Append(Rendered(base, trailing), path);
            IsAbsolute(joined) && Names(joined) == base + Names(path)
  {
    var b := Rendered(base, trailing);
    var joined := Append(b, path);
    NamesOfRendered(base, trailing);
    NamesOfRendered(base, false);
    var stem := if base == [] then "" else Slashed(base);
    if base == [] {
      assert joined == stem + "/" + path;
    } else if trailing {
      assert joined == stem + "/" + path;
    } else {
      assert stem + "" == stem;
      assert joined == stem + "/" + path;
    }
    assert Names(stem) == base by {
      assert base != [] ==> Rendered(base, false) == stem + "" == stem;
    }
    NamesAcrossSlash(stem, path);
  }

  /** Joining a relative item path to a normal base and normalising is walking down its names from the base. */
  lemma WalksFromBase(base: seq<string>, trailing: bool, path: string)
    requires AllNames(base) && !IsAbsolute(path)
    ensures var joined := Append(Rendered(base, trailing), path);
            && IsAbsolute(joined)
            && Resolve(true, [], Names(joined)) == Resolve(true, base, Names(path))
  {
    NamesOfAppended(base, trailing, path);
    ResolveSplit(true, [], base, Names(path));
    ResolveNames(true, [], base);
    assert [] + base == base;
  }

  /** A path ends like a folder's whatever it is appended to. */
  lemma EndOfAppended(base: seq<string>, trailing: bool, path: string)
    requires AllNames(base) && path != "" && !IsAbsolute(path)
    ensures DirectoryLike(Append(Rendered(base, trailing), path)) <==> DirectoryLike(path)
  {
    hide AllNames, SlashFree, Slashed, Names, Rendered;
    NamesUnfold(path);
    NamesOfAppended(base, trailing, path);
    var joined := Append(Rendered(base, trailing), path);
    assert joined[|joined| - 1] == path[|path| - 1];
  }

  /** Which folder the constructor prepares: a relative base path is walked down from the current directory. */
  function BaseNames(current: seq<string>, basePath: string): seq<string> {
    Resolve(true, if IsAbsolute(basePath) then [] else current, Names(basePath))
  }

  /** The prepared base path: a normal absolute path, to the folder that the argument names. */
  lemma BasePathIs(current: seq<string>, basePath: string)
    requires AllNames(current)
    ensures var names := BaseNames(current, basePath);
            && AllNames(names)
            && SanitizeBasePath(Rendered(current, false), basePath) ==
               Rendered(names, basePath !in {"", "."} && DirectoryLike(basePath))
    ensures basePath in {"", "."} ==> BaseNames(current, basePath) == current
  {
    hide AllNames, SlashFree, Slashed, Names, DirectoryLike;
    NamesOfRendered(current, false);
    if basePath == "" || basePath == "." {
      NamesOfDot();
      assert ["."][1..] == [];
    } else if IsAbsolute(basePath) {
      NormalIsRendered(basePath);
    } else {
      NormalIsRendered(Append(Rendered(current, false), basePath));
      WalksFromBase(current, false, basePath);
      EndOfAppended(current, false, basePath);
    }
  }

  lemma NamesOfDot()
    ensures Names("") == [] && Names(".") == ["."]
  {
    assert SlashFree(".");
    NamesHead(".", "");
    assert "." + "" == ".";
  }

  /**
    * Whatever item path an archive contains: the result, if there is one, lies below the base; and a
    * relative path without NUL is accepted exactly when the walk it describes ends below the base.
    */
  lemma BuildPathStaysInside(base: seq<string>, trailing: bool, path: string)
    requires AllNames(base)
    ensures var target := Resolve(true, base, Names(path));
            var r := BuildPath(Rendered(base, trailing), path);
            && (r.Built? <==> path == "" || (!HasNul(path) && !IsAbsolute(path) && base <= target))
            && (r.Built? ==> base <= Names(r.path) && Names(r.path) == target && AllNames(target))
            && (r.ItemHasAbsolutePath? <==> IsAbsolute(path) && !HasNul(path))
            && (r.InvalidItemPath? <==> HasNul(path))
  {
    var b := Rendered(base, trailing);
    NamesOfRendered(base, trailing);
    if path == "" {
    } else if !HasNul(path) && !IsAbsolute(path) {
      var joined := Append(b, path);
      WalksFromBase(base, trailing, path);
      NormalIsRendered(joined);
      var target := Resolve(true, base, Names(path));
      OutsideIffNames(base, trailing, target, DirectoryLike(joined));
      NamesOfRendered(target, DirectoryLike(joined));
    }
  }

  /**
    * From the arguments to the file: items are written below the folder that the base path names, seen from the
    * current directory, where walking down the item path leads; and a path that leads anywhere else, starts at
    * the root or contains NUL is refused.
    */
  lemma ExtractionTarget(current: seq<string>, basePath: string, path: string)
    requires AllNames(current)
    ensures var base := BaseNames(current, basePath);
            var target := Resolve(true, base, Names(path));
            var r := BuildPath(SanitizeBasePath(Rendered(current, false), basePath), path);
            && (r.Built? <==> path == "" || (!HasNul(path) && !IsAbsolute(path) && base <= target))
            && (r.Built? && path != "" ==> r.path == Rendered(target, DirectoryLike(path)))
            && (path == "" ==> r.path == SanitizeBasePath(Rendered(current, false), basePath))
            && (r.Built? ==> Names(r.path) == target && base <= target)
            && (r.InvalidItemPath? <==> HasNul(path))
            && (r.ItemHasAbsolutePath? <==> IsAbsolute(path) && !HasNul(path))
  {
    hide AllNames, SlashFree, Slashed, Names, DirectoryLike, IsOutsideBase;
    BasePathIs(current, basePath);
    var base, trailing := BaseNames(current, basePath), basePath !in {"", "."} && DirectoryLike(basePath);
    BuildPathStaysInside(base, trailing, path);
    if path != "" && !IsAbsolute(path) {
      var joined := Append(Rendered(base, trailing), path);
      WalksFromBase(base, trailing, path);
      NormalIsRendered(joined);
      EndOfAppended(base, trailing, path);
    }
  }
}
