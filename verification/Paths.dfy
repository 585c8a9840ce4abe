/**
  * Paths as strings and as lists of names, with lexical normalisation as in section 30.10.8.1
  * [fs.path.generic] of ISO/IEC 14882:2017 on a system whose only separator is '/'.
  */
module Paths {

  predicate SlashFree(s: string) {
    forall i :: 0 <= i < |s| ==> s[i] != '/'
  }

  /** A name that normalisation leaves alone. */
  predicate IsName(s: string) {
    s != "" && SlashFree(s) && s != "." && s != ".."
  }

  predicate AllNames(names: seq<string>) {
    forall i :: 0 <= i < |names| ==> IsName(names[i])
  }

  // ----- splitting and joining -----

  /** The position of the first separator, or the length. */
  function FirstSlash(s: string): (k: nat)
    ensures k <= |s| && SlashFree(s[..k])
    ensures k < |s| ==> s[k] == '/'
  {
    if s == "" || s[0] == '/' then 0
    else
      var k := FirstSlash(s[1..]);
      assert s[..k + 1] == [s[0]] + s[1..][..k];
      k + 1
  }

  /** The non-empty parts between separators. */
  function Names(s: string): (names: seq<string>)
    ensures forall i :: 0 <= i < |names| ==> names[i] != "" && SlashFree(names[i])
    decreases |s|
  {
    if s == "" then []
    else if s[0] == '/' then Names(s[1..])
    else [s[..FirstSlash(s)]] + Names(s[FirstSlash(s)..])
  }

  /** Each name preceded by a separator. */
  function Slashed(names: seq<string>): string {
    if names == [] then "" else "/" + names[0] + Slashed(names[1..])
  }

  function Join(names: seq<string>): string {
    if names == [] then "" else names[0] + Slashed(names[1..])
  }

  lemma {:induction false} FirstSlashAt(name: string, rest: string)
    requires SlashFree(name) && (rest == "" || rest[0] == '/')
    ensures FirstSlash(name + rest) == |name|
    ensures (name + rest)[..|name|] == name && (name + rest)[|name|..] == rest
  {
    if name == "" {
      assert name + rest == rest;
    } else {
      FirstSlashAt(name[1..], rest);
      assert (name + rest)[1..] == name[1..] + rest;
    }
  }

  lemma SlashedStart(names: seq<string>)
    ensures names != [] ==> Slashed(names) != "" && Slashed(names)[0] == '/'
    ensures names == [] ==> Slashed(names) == ""
  {
  }

  lemma LeadingSlash(s: string)
    ensures Names("/" + s) == Names(s)
  {
    assert ("/" + s)[1..] == s;
  }

  lemma NamesHead(name: string, rest: string)
    requires name != "" && SlashFree(name) && (rest == "" || rest[0] == '/')
    ensures Names(name + rest) == [name] + Names(rest)
  {
    hide FirstSlash;
    FirstSlashAt(name, rest);
    assert (name + rest)[0] == name[0];
  }

  /** Splitting undoes joining. */
  lemma {:induction false} NamesOfSlashed(names: seq<string>, tail: string)
    requires forall i :: 0 <= i < |names| ==> names[i] != "" && SlashFree(names[i])
    requires tail == "" || tail[0] == '/'
    ensures Names(Slashed(names) + tail) == names + Names(tail)
  {
    hide FirstSlash, SlashFree, Names, Slashed;
    SlashedUnfold(names);
    if names == [] {
      assert Slashed(names) + tail == tail;
      assert names + Names(tail) == Names(tail);
    } else {
      var head, others := names[0], names[1..];
      var rest := Slashed(others) + tail;
      SlashedStart(others);
      NamesOfSlashed(others, tail);
      LeadingSlash(head + rest);
      NamesHead(head, rest);
      Regroup("/", head, Slashed(others), tail);
      Regroup([], [head], others, Names(tail));
      assert [] + [head] + others == names && [] + ([head] + (others + Names(tail))) == [head] + (others + Names(tail));
    }
  }

  lemma Regroup<T>(a: seq<T>, b: seq<T>, c: seq<T>, d: seq<T>)
    ensures a + b + c + d == a + (b + (c + d))
  {
  }

  lemma SlashedUnfold(names: seq<string>)
    ensures Slashed(names) == if names == [] then "" else "/" + names[0] + Slashed(names[1..])
  {
  }

  /** A separator splits the names. */
  lemma {:induction false} NamesAcrossSlash(x: string, y: string)
    ensures Names(x + "/" + y) == Names(x) + Names(y)
    decreases |x|
  {
    hide FirstSlash, SlashFree, Names;
    var s := x + "/" + y;
    NamesUnfold(x);
    if x == "" {
      LeadingSlash(y);
      assert s == "/" + y;
      assert [] + Names(y) == Names(y);
    } else if x[0] == '/' {
      LeadingSlash(x[1..]);
      LeadingSlash(x[1..] + "/" + y);
      assert x == "/" + x[1..] && s == "/" + (x[1..] + "/" + y);
      NamesAcrossSlash(x[1..], y);
    } else {
      var k := FirstSlash(x);
      var name, rest := x[..k], x[k..];
      NamesAcrossSlash(rest, y);
      NamesHead(name, rest + "/" + y);
      assert s == name + (rest + "/" + y) by {
        assert x == name + rest;
      }
      assert [name] + (Names(rest) + Names(y)) == [name] + Names(rest) + Names(y);
    }
  }

  lemma NamesUnfold(s: string)
    ensures s == "" ==> Names(s) == []
    ensures s != "" && s[0] != '/' ==>
              FirstSlash(s) > 0 && Names(s) == [s[..FirstSlash(s)]] + Names(s[FirstSlash(s)..])
  {
  }

  // ----- normalisation -----

  /** Walking down `names` from `stack`; below an absolute root ".." goes nowhere. */
  function Resolve(absolute: bool, stack: seq<string>, names: seq<string>): seq<string>
    decreases |names|
  {
    if names == [] then stack
    else Resolve(absolute, Follow(absolute, stack, names[0]), names[1..])
  }

  function Follow(absolute: bool, stack: seq<string>, name: string): seq<string> {
    if name == "." || name == "" then stack
    else if name == ".." then
      if stack != [] && stack[|stack| - 1] != ".." then stack[..|stack| - 1]
      else if absolute then stack
      else stack + [".."]
    else stack + [name]
  }

  predicate IsAbsolute(s: string) {
    s != "" && s[0] == '/'
  }

  predicate EndsWithSlash(s: string) {
    s != "" && s[|s| - 1] == '/'
  }

  /** Whether the normal form ends in a separator: after a separator, a dot, or a dot-dot that was resolved. */
  predicate DirectoryLike(s: string) {
    EndsWithSlash(s) || (Names(s) != [] && Names(s)[|Names(s)| - 1] in {".", ".."})
  }

  function Rendered(names: seq<string>, trailing: bool): string {
    if names == [] then "/" else Slashed(names) + (if trailing then "/" else "")
  }

  function LexicallyNormal(s: string): string {
    if s == "" then ""
    else
      var names := Resolve(IsAbsolute(s), [], Names(s));
      if IsAbsolute(s) then Rendered(names, DirectoryLike(s))
      else if names == [] then "."
      else Join(names) + (if DirectoryLike(s) && names[|names| - 1] != ".." then "/" else "")
  }

  /** `base / path` for a relative path. */
  function Append(base: string, path: string): string {
    if base != "" && !EndsWithSlash(base) then base + "/" + path else base + path
  }

  lemma {:induction false} ResolveSplit(absolute: bool, stack: seq<string>, a: seq<string>, b: seq<string>)
    ensures Resolve(absolute, stack, a + b) == Resolve(absolute, Resolve(absolute, stack, a), b)
    decreases |a|
  {
    if a == [] {
      assert a + b == b;
    } else {
      assert (a + b)[1..] == a[1..] + b;
      ResolveSplit(absolute, Follow(absolute, stack, a[0]), a[1..], b);
    }
  }

  lemma {:induction false} ResolveNames(absolute: bool, stack: seq<string>, names: seq<string>)
    requires AllNames(names)
    ensures Resolve(absolute, stack, names) == stack + names
    decreases |names|
  {
    if names == [] {
      assert stack + names == stack;
    } else {
      ResolveNames(absolute, stack + [names[0]], names[1..]);
      assert stack + [names[0]] + names[1..] == stack + names;
    }
  }

  /** A dot-dot undoes a name, stays at the root, and otherwise climbs; a dot does nothing. */
  lemma SpecialElements(absolute: bool, stack: seq<string>, name: string)
    requires IsName(name)
    ensures Resolve(absolute, stack, [name, ".."]) == stack
    ensures Resolve(absolute, stack, ["."]) == stack
    ensures Resolve(true, [], [".."]) == [] && Resolve(false, [], [".."]) == [".."]
    ensures Resolve(false, stack + [".."], [".."]) == stack + ["..", ".."]
  {
    assert [name, ".."][1..] == [".."] && [".."][1..] == [] && ["."][1..] == [];
    assert (stack + [name])[..|stack|] == stack;
    assert stack + [".."] + [".."] == stack + ["..", ".."];
  }

  lemma OneName(s: string)
    requires s != "" && SlashFree(s)
    ensures Names(s) == [s]
  {
    NamesHead(s, "");
    assert s + "" == s;
  }

  lemma ExampleNames()
    ensures Names("foo/./bar/..") == ["foo", ".", "bar", ".."]
  {
    hide Names, FirstSlash, SlashFree;
    assert SlashFree("foo") && SlashFree(".") && SlashFree("bar") && SlashFree("..") by {
      PlainNames();
    }
    OneName("foo");
    OneName(".");
    OneName("bar");
    OneName("..");
    NamesAcrossSlash("bar", "..");
    NamesAcrossSlash(".", "bar" + "/" + "..");
    NamesAcrossSlash("foo", "." + "/" + ("bar" + "/" + ".."));
    assert "foo" + "/" + ("." + "/" + ("bar" + "/" + "..")) == "foo/./bar/..";
  }

  lemma PlainNames()
    ensures SlashFree("foo") && SlashFree(".") && SlashFree("bar") && SlashFree("..")
  {
  }

  /** An example of the standard and a simpler one: the results end in a separator because they name a folder. */
  lemma NormalExample()
    ensures LexicallyNormal("foo/./bar/..") == "foo/" && LexicallyNormal("foo/.") == "foo/"
  {
    hide Names, Resolve, SlashFree;
    PlainNames();
    ExampleNames();
    OneName("foo");
    OneName(".");
    NamesAcrossSlash("foo", ".");
    assert "foo" + "/" + "." == "foo/.";
    var first, last := ["foo", "."], ["bar", ".."];
    assert first + last == ["foo", ".", "bar", ".."];
    ResolveSplit(false, [], first, last);
    assert ["foo"] + ["."] == first && [] + ["foo"] == ["foo"];
    ResolveSplit(false, [], ["foo"], ["."]);
    ResolveNames(false, [], ["foo"]);
    SpecialElements(false, ["foo"], "bar");
    assert Join(["foo"]) == "foo" by {
      assert ["foo"][1..] == [];
    }
  }

  lemma {:induction false} ResolvedAreNames(stack: seq<string>, names: seq<string>)
    requires AllNames(stack) && forall i :: 0 <= i < |names| ==> SlashFree(names[i])
    ensures AllNames(Resolve(true, stack, names))
    decreases |names|
  {
    if names != [] {
      ResolvedAreNames(Follow(true, stack, names[0]), names[1..]);
    }
  }

  /** The names of a normal absolute path. */
  lemma NamesOfRendered(names: seq<string>, trailing: bool)
    requires AllNames(names)
    ensures Names(Rendered(names, trailing)) == names
    ensures IsAbsolute(Rendered(names, trailing))
    ensures names != [] ==> (EndsWithSlash(Rendered(names, trailing)) <==> trailing)
  {
    var tail := if trailing then "/" else "";
    if names == [] {
      assert "/"[1..] == "";
    } else {
      NamesOfSlashed(names, tail);
      assert trailing ==> tail[1..] == "";
      assert Names(tail) == [];
      SlashedEnd(names);
    }
  }

  lemma {:induction false} SlashedEnd(names: seq<string>)
    requires names != [] && names[|names| - 1] != "" && SlashFree(names[|names| - 1])
    ensures |Slashed(names)| > 1 && Slashed(names)[|Slashed(names)| - 1] != '/'
  {
    if |names| > 1 {
      SlashedEnd(names[1..]);
    } else {
      assert names[1..] == [];
      assert Slashed(names) == "/" + names[0];
    }
  }

  /** A normal absolute path is its own normal form. */
  lemma NormalIsFixed(names: seq<string>, trailing: bool)
    requires AllNames(names)
    ensures LexicallyNormal(Rendered(names, trailing)) == Rendered(names, trailing)
  {
    NamesOfRendered(names, trailing);
    ResolveNames(true, [], names);
    assert [] + names == names;
  }

  // ----- prefixes of strings and of name lists -----

  lemma {:induction false} FirstSlashOfPrefix(p: string, q: string)
    requires p <= q && FirstSlash(p) < |p|
    ensures FirstSlash(q) == FirstSlash(p)
  {
    if p[0] != '/' {
      FirstSlashOfPrefix(p[1..], q[1..]);
    }
  }

  lemma NamePrefix(a: string, x: string, b: string, y: string)
    requires SlashFree(a) && SlashFree(b) && x != "" && y != "" && x[0] == '/' && y[0] == '/'
    ensures a + x <= b + y <==> a == b && x <= y
  {
    if a + x <= b + y {
      FirstSlashAt(a, x);
      FirstSlashAt(b, y);
      FirstSlashOfPrefix(a + x, b + y);
      assert a == (a + x)[..|a|] == (b + y)[..|a|] == b;
      assert (a + x)[|a|..] == x && (b + y)[|a|..] == y;
      assert x == (b + y)[|a|..|a| + |x|];
    }
    if a == b && x <= y {
      assert b + y == a + (x + y[|x|..]);
    }
  }

  /** With a separator at the end, string prefix is prefix of the name lists. */
  lemma {:induction false} PrefixIffNames(a: seq<string>, b: seq<string>)
    requires forall i :: 0 <= i < |a| ==> SlashFree(a[i])
    requires forall i :: 0 <= i < |b| ==> SlashFree(b[i])
    requires forall i :: 0 <= i < |a| ==> a[i] != ""
    ensures Slashed(a) + "/" <= Slashed(b) + "/" <==> a <= b
    decreases |a|
  {
    hide SlashFree, Slashed;
    SlashedStart(b);
    SlashedUnfold(a);
    SlashedUnfold(b);
    if a == [] {
      assert Slashed(a) + "/" == "/";
    } else if b == [] {
      assert |Slashed(a) + "/"| > |"/"|;
    } else {
      var x, y := Slashed(a[1..]) + "/", Slashed(b[1..]) + "/";
      SlashedStart(a[1..]);
      SlashedStart(b[1..]);
      Regroup("/", a[0], Slashed(a[1..]), "/");
      Regroup("/", b[0], Slashed(b[1..]), "/");
      NamePrefix(a[0], x, b[0], y);
      SlashPrefix(a[0] + x, b[0] + y);
      PrefixIffNames(a[1..], b[1..]);
      HeadPrefix(a, b);
    }
  }

  lemma HeadPrefix<T>(a: seq<T>, b: seq<T>)
    requires a != [] && b != []
    ensures a <= b <==> a[0] == b[0] && a[1..] <= b[1..]
  {
    assert a == [a[0]] + a[1..] && b == [b[0]] + b[1..];
  }

  lemma SlashPrefix(x: string, y: string)
    ensures "/" + x <= "/" + y <==> x <= y
  {
    assert ("/" + x)[1..] == x && ("/" + y)[1..] == y;
    if "/" + x <= "/" + y {
      assert x == ("/" + y)[1..|x| + 1];
    }
  }
}
