/**
  * The names of the files of a multi-volume archive. The writer builds each name from the archive
  * name; the reader derives each name from the previous one by replacing its extension.
  */
module VolumeNames {

  // ----- zero-padded decimal numbers -----

  predicate IsDigit(c: char) {
    '0' <= c <= '9'
  }

  function Digits(n: nat): (s: string)
    ensures s != [] && forall c :: c in s ==> IsDigit(c)
  {
    var last := '0' + (n % 10) as char;
    if n < 10 then [last] else Digits(n / 10) + [last]
  }

  function Zeros(n: nat): (s: string)
    ensures |s| == n && forall c :: c in s ==> c == '0'
  {
    if n == 0 then "" else Zeros(n - 1) + "0"
  }

  /** A volume number, at least three characters wide. */
  function Padded(n: nat): (s: string)
    ensures |s| >= 3 && forall c :: c in s ==> IsDigit(c)
  {
    var s := Digits(n);
    if |s| < 3 then Zeros(3 - |s|) + s else s
  }

  function Value(s: string): nat
    requires forall c :: c in s ==> IsDigit(c)
  {
    if s == [] then 0
    else
      assert IsDigit(s[|s| - 1]);
      10 * Value(s[..|s| - 1]) + (s[|s| - 1] as int - '0' as int)
  }

  lemma {:induction false} ValueOfDigits(n: nat)
    ensures Value(Digits(n)) == n
  {
    var s := Digits(n);
    if n < 10 {
      assert Value(s[..0]) == 0;
    } else {
      ValueOfDigits(n / 10);
      assert s[..|s| - 1] == Digits(n / 10);
    }
  }

  lemma {:induction false} ValueSkipsZeros(k: nat, s: string)
    requires forall c :: c in s ==> IsDigit(c)
    ensures Value(Zeros(k) + s) == Value(s)
  {
    var t := Zeros(k) + s;
    if s != [] {
      ValueSkipsZeros(k, s[..|s| - 1]);
      assert t[..|t| - 1] == Zeros(k) + s[..|s| - 1];
    } else if k > 0 {
      ValueSkipsZeros(k - 1, s);
      assert t[..|t| - 1] == Zeros(k - 1) + s;
    }
  }

  /** Padding loses nothing: the number can be read back, so no two volumes share a number. */
  lemma PaddedRoundTrip(n: nat)
    ensures Value(Padded(n)) == n
  {
    ValueOfDigits(n);
    var s := Digits(n);
    if |s| < 3 {
      ValueSkipsZeros(3 - |s|, s);
    }
  }

  lemma {:induction false} DigitsWidth(n: nat)
    ensures |Digits(n)| == 1 <==> n < 10
    ensures |Digits(n)| <= 2 <==> n < 100
    ensures |Digits(n)| <= 3 <==> n < 1000
    ensures n > 0 ==> Digits(n)[0] != '0'
  {
    if n >= 10 {
      DigitsWidth(n / 10);
    }
  }

  /** The number is padded to three characters and never beyond: a longer one has no leading zero. */
  lemma PaddedWidth(n: nat)
    ensures |Padded(n)| == 3 <==> n < 1000
    ensures |Padded(n)| > 3 ==> Padded(n)[0] != '0'
    ensures Padded(1) == "001"
  {
    DigitsWidth(n);
    assert Digits(1) == "1" && Zeros(0) == "" && Zeros(1) == "0" && Zeros(2) == "00";
  }

  /** So the volumes of an archive are `.001`, `.002` and so on, the first of which is what a reader is given. */
  lemma FirstOutName(prefix: string)
    ensures OutName(prefix, 0) == prefix + ".001"
  {
    PaddedWidth(1);
    assert prefix + "." + "001" == prefix + ".001";
  }

  lemma PaddedInjective(m: nat, n: nat)
    requires Padded(m) == Padded(n)
    ensures m == n
  {
    PaddedRoundTrip(m);
    PaddedRoundTrip(n);
  }

  // ----- file names and extensions -----

  /** The last position of `c` in `s`, or -1. */
  function LastIndexOf(s: string, c: char): (k: int)
    ensures -1 <= k < |s|
    ensures k >= 0 ==> s[k] == c
    ensures forall j :: k < j < |s| ==> s[j] != c
  {
    if s == [] then -1
    else if s[|s| - 1] == c then |s| - 1
    else LastIndexOf(s[..|s| - 1], c)
  }

  function FilenameStart(path: string): (k: nat)
    ensures k <= |path|
  {
    LastIndexOf(path, '/') + 1
  }

  predicate HasFilename(path: string) {
    path != "" && path[|path| - 1] != '/'
  }

  /** The position of the dot that starts the extension, or the length of the path when there is none. */
  function ExtensionStart(path: string): (k: nat)
    ensures k <= |path|
  {
    var start := FilenameStart(path);
    var dot := LastIndexOf(path, '.');
    if dot <= start || path[start..] == ".." then |path| else dot
  }

  function ReplaceExtension(path: string, ext: string): string {
    path[..ExtensionStart(path)] + (if ext != "" && ext[0] != '.' then "." else "") + ext
  }

  /** Where an extension starts: at the last dot of the filename, unless nothing or only one more dot is before it. */
  lemma ExtensionIs(folder: string, stem: string, ext: string)
    requires folder == "" || folder[|folder| - 1] == '/'
    requires '/' !in stem && '/' !in ext && '.' !in ext
    ensures var path := folder + (stem + "." + ext);
            path[ExtensionStart(path)..] == if stem == "" || (stem == "." && ext == "") then "" else "." + ext
    ensures ExtensionStart(folder + ext) == |folder + ext|
  {
    hide LastIndexOf, FilenameStart;
    var name := stem + "." + ext;
    NameOfParts(stem, ext);
    FilenameIs(folder, name);
    FilenameIs(folder, ext);
    LastInFolder(folder, name, |stem|, '.');
    NoneInName(folder, ext);
    var path := folder + name;
    assert path[|folder|..] == name && path[|folder| + |stem|..] == name[|stem|..];
  }

  lemma NameOfParts(stem: string, ext: string)
    requires '/' !in stem && '/' !in ext && '.' !in ext
    ensures var name := stem + "." + ext;
            && '/' !in name && LastIndexOf(name, '.') == |stem| && name[|stem|..] == "." + ext
            && (name == ".." <==> stem == "." && ext == "")
  {
    var name := stem + "." + ext;
    LastIs(name, |stem|, '.');
    assert name[..|stem|] == stem && name[|stem| + 1..] == ext;
    assert ".."[..1] == "." && ".."[1..] == ".";
  }

  lemma FilenameIs(folder: string, name: string)
    requires folder == "" || folder[|folder| - 1] == '/'
    requires '/' !in name
    ensures FilenameStart(folder + name) == |folder|
  {
    var path := folder + name;
    assert folder != "" ==> path[|folder| - 1] == '/';
    assert forall j :: |folder| <= j < |path| ==> path[j] == name[j - |folder|];
  }

  lemma LastIs(s: string, k: nat, c: char)
    requires k < |s| && s[k] == c && forall j :: k < j < |s| ==> s[j] != c
    ensures LastIndexOf(s, c) == k
  {
  }

  lemma LastInFolder(folder: string, name: string, k: nat, c: char)
    requires k < |name| && LastIndexOf(name, c) == k
    ensures LastIndexOf(folder + name, c) == |folder| + k
  {
    var path := folder + name;
    assert path[|folder| + k] == c;
    assert forall j :: |folder| + k < j < |path| ==> path[j] == name[j - |folder|];
    LastIs(path, |folder| + k, c);
  }

  /** A dot of a folder is none of the filename. */
  lemma NoneInName(folder: string, name: string)
    requires '.' !in name
    ensures LastIndexOf(folder + name, '.') < |folder|
  {
    var path := folder + name;
    assert forall j :: |folder| <= j < |path| ==> path[j] in name;
  }

  /** The name of volume `i` (counting from 0), as the writer builds it. */
  function OutName(prefix: string, i: nat): string {
    prefix + "." + Padded(i + 1)
  }

  /** The name of volume `i` (counting from 0), as the reader derives it. */
  function InName(first: string, i: nat): string {
    if i == 0 then first else ReplaceExtension(InName(first, i - 1), Padded(i + 1))
  }

  lemma OutNamesDistinct(prefix: string, i: nat, j: nat)
    requires OutName(prefix, i) == OutName(prefix, j)
    ensures i == j
  {
    hide Padded;
    assert Padded(i + 1) == OutName(prefix, i)[|prefix| + 1..];
    assert Padded(j + 1) == OutName(prefix, j)[|prefix| + 1..];
    PaddedInjective(i + 1, j + 1);
  }

  /** Where the filename starts and where its last dot is, for a name ending in a volume number. */
  lemma NumberedName(prefix: string, n: nat)
    ensures var path := prefix + "." + Padded(n);
            && LastIndexOf(path, '.') == |prefix|
            && FilenameStart(path) == FilenameStart(prefix)
            && path[FilenameStart(path)..] != ".."
  {
    var path := prefix + "." + Padded(n);
    assert forall k :: |prefix| < k < |path| ==> path[k] in Padded(n);
    assert path[|prefix|] == '.';
    assert forall k :: 0 <= k < |prefix| ==> path[k] == prefix[k];
    assert path[|path| - 1] in Padded(n);
    var start := FilenameStart(path);
    assert path[start..][|path[start..]| - 1] == path[|path| - 1];
  }

  lemma ReplaceNumber(prefix: string, m: nat, n: nat)
    ensures ReplaceExtension(prefix + "." + Padded(m), Padded(n)) ==
            (if HasFilename(prefix) then prefix + "." + Padded(n)
             else prefix + "." + Padded(m) + "." + Padded(n))
  {
    NumberedName(prefix, m);
    var path := prefix + "." + Padded(m);
    assert Padded(n)[0] in Padded(n);
    if HasFilename(prefix) {
      assert path[..|prefix|] == prefix;
    } else {
      assert FilenameStart(prefix) == |prefix|;
      assert path[..|path|] == path;
    }
  }

  lemma {:induction false} NamesAgreeUpTo(prefix: string, i: nat)
    requires HasFilename(prefix)
    ensures InName(OutName(prefix, 0), i) == OutName(prefix, i)
  {
    if i > 0 {
      NamesAgreeUpTo(prefix, i - 1);
      ReplaceNumber(prefix, i, i + 1);
    }
  }

  /** Reader and writer agree on every volume name exactly when the archive name has a filename part. */
  lemma NamesAgree(prefix: string)
    ensures (forall i: nat :: InName(OutName(prefix, 0), i) == OutName(prefix, i)) <==> HasFilename(prefix)
  {
    if HasFilename(prefix) {
      forall i: nat ensures InName(OutName(prefix, 0), i) == OutName(prefix, i) {
        NamesAgreeUpTo(prefix, i);
      }
    } else {
      ReplaceNumber(prefix, 1, 2);
      assert InName(OutName(prefix, 0), 1) == ReplaceExtension(OutName(prefix, 0), Padded(2));
      assert |InName(OutName(prefix, 0), 1)| > |prefix + "." + Padded(2)|;
      assert InName(OutName(prefix, 0), 1) != OutName(prefix, 1);
    }
  }

  /** From the second volume on the reader only changes the number, whatever the first name was. */
  lemma {:induction false} InNameForm(first: string, i: nat)
    requires HasFilename(first) && i > 0
    ensures var stem := first[..ExtensionStart(first)];
            InName(first, i) == stem + "." + Padded(i + 1) && HasFilename(stem)
  {
    var stem := first[..ExtensionStart(first)];
    assert Padded(i + 1)[0] in Padded(i + 1);
    assert HasFilename(stem) by {
      if ExtensionStart(first) < |first| {
        var start, dot := FilenameStart(first), LastIndexOf(first, '.');
        assert first[dot - 1] != '/';
      }
    }
    if i > 1 {
      InNameForm(first, i - 1);
      ReplaceNumber(stem, i, i + 1);
    } else {
      assert InName(first, 1) == ReplaceExtension(InName(first, 0), Padded(2));
    }
  }

  lemma LaterNamesDistinct(first: string, i: nat, j: nat)
    requires HasFilename(first) && i > 0 && j > 0
    requires InName(first, i) == InName(first, j)
    ensures i == j
  {
    InNameForm(first, i);
    InNameForm(first, j);
    OutNamesDistinct(first[..ExtensionStart(first)], i, j);
  }

  function Extension(path: string): string {
    path[ExtensionStart(path)..]
  }

  /** The name ends in a padded number from 2 on: it is the name of a later volume. */
  predicate NamesLaterVolume(path: string) {
    var ext := Extension(path);
    && ext != "" && (forall c :: c in ext[1..] ==> IsDigit(c))
    && Value(ext[1..]) >= 2 && Padded(Value(ext[1..])) == ext[1..]
  }

  predicate EndsInNumber(path: string, n: nat) {
    Extension(path) == "." + Padded(n)
  }

  lemma ComesUpAgainIff(first: string, j: nat)
    requires HasFilename(first) && j > 0
    ensures InName(first, j) == first <==> EndsInNumber(first, j + 1)
  {
    hide InName, Padded;
    InNameForm(first, j);
    var stem := first[..ExtensionStart(first)];
    assert first == stem + Extension(first);
    assert stem + "." + Padded(j + 1) == stem + ("." + Padded(j + 1));
    if stem + Extension(first) == stem + ("." + Padded(j + 1)) {
      assert Extension(first) == (stem + Extension(first))[|stem|..];
      assert "." + Padded(j + 1) == (stem + ("." + Padded(j + 1)))[|stem|..];
    }
  }

  lemma LaterVolumeIff(path: string)
    ensures NamesLaterVolume(path) <==> exists n: nat :: n >= 2 && EndsInNumber(path, n)
  {
    hide Padded;
    var ext := Extension(path);
    if NamesLaterVolume(path) {
      assert ext == "." + ext[1..];
      assert EndsInNumber(path, Value(ext[1..]));
    }
    if n: nat :| n >= 2 && EndsInNumber(path, n) {
      assert ext[1..] == Padded(n);
      PaddedRoundTrip(n);
    }
  }

  /** The reader derives pairwise distinct names exactly when the first name is not that of a later volume. */
  lemma InNamesDistinct(first: string)
    requires HasFilename(first)
    ensures (forall i: nat, j: nat :: i != j ==> InName(first, i) != InName(first, j)) <==> !NamesLaterVolume(first)
  {
    hide InName, Padded, NamesLaterVolume, EndsInNumber, HasFilename;
    LaterVolumeIff(first);
    FirstNameIs(first);
    if n: nat :| n >= 2 && EndsInNumber(first, n) {
      ComesUpAgainIff(first, n - 1);
      assert InName(first, n - 1) == InName(first, 0);
    } else {
      forall i: nat, j: nat | i < j ensures InName(first, i) != InName(first, j) {
        if i == 0 {
          ComesUpAgainIff(first, j);
        } else if InName(first, i) == InName(first, j) {
          LaterNamesDistinct(first, i, j);
        }
      }
    }
  }

  lemma FirstNameIs(first: string)
    ensures InName(first, 0) == first
  {
  }

  /** In particular when the first name ends in ".001", as it does wherever a reader is opened. */
  lemma VolumeOneIsFirst(first: string)
    requires Extension(first) == ".001"
    ensures !NamesLaterVolume(first)
  {
    assert Value("") == 0 && "0"[..0] == "" && "00"[..1] == "0" && "001"[..2] == "00";
    assert Value("001") == 1;
  }
}
