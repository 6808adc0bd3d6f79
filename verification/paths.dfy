/** POSIX paths as `pathlib.PurePosixPath` parses and prints them, and
    `os.path.join` on strings. */
module Paths {

  import opened Results
  import opened Text

  /** A parsed path: its root (`""`, `"/"` or `"//"`, the three roots
      `posixpath.splitroot` produces) and its components. */
  datatype PurePath = PurePath(root: string, parts: seq<string>)

  /** A component as pathlib keeps it: empty components and `.` are dropped
      while parsing, and no component holds the separator. */
  predicate IsPart(c: string) {
    c != "" && c != "." && '/' !in c
  }

  predicate IsRoot(r: string) {
    r == "" || r == "/" || r == "//"
  }

  predicate AllParts(cs: seq<string>) {
    forall i | 0 <= i < |cs| :: IsPart(cs[i])
  }

  predicate WellFormed(p: PurePath) {
    IsRoot(p.root) && AllParts(p.parts)
  }

  /** `posixpath.splitroot`: one or three-and-more leading slashes are the
      root `/`, exactly two are the root `//`. */
  function SplitRoot(s: string): (r: (string, string))
    ensures IsRoot(r.0) && r.0 + r.1 == s
  {
    if s == [] || s[0] != '/' then ("", s)
    else if |s| == 1 || s[1] != '/' || (|s| > 2 && s[2] == '/') then ("/", s[1..])
    else ("//", s[2..])
  }

  /** `s.split('/')`. */
  function Split(s: string): (r: seq<string>)
    ensures |r| >= 1
    ensures forall i | 0 <= i < |r| :: '/' !in r[i]
    decreases |s|
  {
    match IndexOf(s, '/')
    case None => [s]
    case Some(k) => [s[..k]] + Split(s[k + 1..])
  }

  /** Drops the empty and `.` components, keeping the order of the rest. */
  function Keep(cs: seq<string>): (r: seq<string>)
    requires forall i | 0 <= i < |cs| :: '/' !in cs[i]
    ensures AllParts(r)
  {
    if cs == [] then []
    else if cs[0] == "" || cs[0] == "." then Keep(cs[1..])
    else [cs[0]] + Keep(cs[1..])
  }

  /** `PurePosixPath(s)`. */
  function Parse(s: string): (p: PurePath)
    ensures WellFormed(p)
  {
    var (root, rest) := SplitRoot(s);
    PurePath(root, Keep(Split(rest)))
  }

  /** `'/'.join(parts)`. */
  function JoinParts(parts: seq<string>): string {
    if parts == [] then ""
    else if |parts| == 1 then parts[0]
    else parts[0] + "/" + JoinParts(parts[1..])
  }

  /** `str(path)`: the empty relative path prints as `.`. */
  function ToString(p: PurePath): string {
    var s := p.root + JoinParts(p.parts);
    if s == "" then "." else s
  }

  /** `PurePath.name`: the last component, or `""` when there is none. */
  function Name(p: PurePath): string {
    if p.parts == [] then "" else p.parts[|p.parts| - 1]
  }

  /** The index of the dot that starts the suffix of a final component:
      its last dot, provided that dot is neither the first nor the last
      character. */
  function SuffixDot(name: string): (r: Option<nat>)
    ensures r.Some? ==> 0 < r.value < |name| - 1 && name[r.value] == '.'
    ensures r.Some? ==> '.' !in name[r.value + 1..]
  {
    match LastIndexOf(name, '.')
    case Some(i) => if 0 < i < |name| - 1 then Some(i) else None
    case None => None
  }

  /** `PurePath.suffix` of a final component. */
  function Suffix(name: string): string {
    match SuffixDot(name)
    case Some(i) => name[i..]
    case None => ""
  }

  /** `PurePath.stem` of a final component. */
  function Stem(name: string): string {
    match SuffixDot(name)
    case Some(i) => name[..i]
    case None => name
  }

  /** `PurePath.parent`: the path without its last component; a path with
      no component is its own parent. */
  function Parent(p: PurePath): (q: PurePath)
    ensures WellFormed(p) ==> WellFormed(q)
  {
    if p.parts == [] then p else PurePath(p.root, p.parts[..|p.parts| - 1])
  }

  /** `p / s`: an absolute right-hand side replaces the left one, a
      relative one appends its components. */
  function Join(p: PurePath, s: string): (q: PurePath)
    ensures WellFormed(p) ==> WellFormed(q)
  {
    var r := Parse(s);
    if r.root != "" then r else PurePath(p.root, p.parts + r.parts)
  }

  /** `Path(s).suffix`. */
  function SuffixOf(path: string): string {
    Suffix(Name(Parse(path)))
  }

  /** `os.path.join(a, b)` on POSIX. */
  function JoinStrings(a: string, b: string): string {
    if StartsWith(b, "/") then b
    else if a == "" || a[|a| - 1] == '/' then a + b
    else a + "/" + b
  }

  /** Appending an extension (a dot followed by dot-free text) to a
      non-empty stem gives a name with exactly that stem and suffix. */
  lemma StemSuffixAppend(stem: string, ext: string)
    requires stem != [] && |ext| >= 2 && ext[0] == '.' && '.' !in ext[1..]
    ensures Suffix(stem + ext) == ext && Stem(stem + ext) == stem
  {
    var name := stem + ext;
    assert name[|stem|] == '.';
    assert name[|stem| + 1..] == ext[1..];
    LastIndexOfAt(name, '.', |stem|);
    assert SuffixDot(name) == Some(|stem|);
    assert name[|stem|..] == ext && name[..|stem|] == stem;
  }

  // ---------------------------------------------------------------------
  // Printing then parsing a path gives the path back.

  lemma {:induction false} SplitJoinParts(parts: seq<string>)
    requires parts != [] && AllParts(parts)
    ensures Split(JoinParts(parts)) == parts
    decreases |parts|
  {
    if |parts| == 1 {
      assert IndexOf(parts[0], '/') == None;
    } else {
      var s := JoinParts(parts);
      var k := |parts[0]|;
      assert s == parts[0] + ("/" + JoinParts(parts[1..]));
      assert s[k] == '/' && s[..k] == parts[0];
      IndexOfAt(s, '/', k);
      assert s[k + 1..] == JoinParts(parts[1..]);
      SplitJoinParts(parts[1..]);
      assert Split(s) == [parts[0]] + parts[1..];
    }
  }

  lemma {:induction false} KeepParts(cs: seq<string>)
    requires AllParts(cs)
    ensures Keep(cs) == cs
  {
    if cs != [] {
      KeepParts(cs[1..]);
      assert [cs[0]] + cs[1..] == cs;
    }
  }

  lemma JoinPartsHead(parts: seq<string>)
    requires parts != [] && AllParts(parts)
    ensures JoinParts(parts) != [] && JoinParts(parts)[0] != '/'
  {
    assert parts[0][0] in parts[0];
  }

  /** `PurePosixPath(str(p)) == p` for every path pathlib can hold. */
  lemma {:induction false} ParseToString(p: PurePath)
    requires WellFormed(p)
    ensures Parse(ToString(p)) == p
  {
    var j := JoinParts(p.parts);
    if p.parts == [] {
      assert j == "";
      if p.root == "" {
        assert ToString(p) == ".";
        assert IndexOf(".", '/') == None;
        assert Split(".") == ["."];
        assert SplitRoot(".") == ("", ".");
        assert Keep(["."]) == Keep(["."][1..]) == [];
      } else {
        assert ToString(p) == p.root;
        assert SplitRoot(p.root) == (p.root, "");
        assert IndexOf("", '/') == None;
        assert Split("") == [""];
        assert Keep([""]) == Keep([""][1..]) == [];
      }
    } else {
      JoinPartsHead(p.parts);
      var s := p.root + j;
      assert ToString(p) == s;
      assert s[|p.root|] == j[0];
      if p.root == "" {
        assert s == j;
      } else if p.root == "/" {
        assert s[0] == '/' && s[1] != '/';
        assert s[1..] == j;
      } else {
        assert s[0] == '/' && s[1] == '/' && s[2] != '/';
        assert s[2..] == j;
      }
      assert SplitRoot(s) == (p.root, j);
      SplitJoinParts(p.parts);
      KeepParts(p.parts);
    }
  }

  /** A single component with no dot-only form parses to itself. */
  lemma ParseOnePart(c: string)
    requires IsPart(c)
    ensures Parse(c) == PurePath("", [c])
  {
    assert c[0] in c;
    assert SplitRoot(c) == ("", c);
    assert IndexOf(c, '/') == None;
    assert Split(c) == [c];
    assert Keep([c]) == [c] + Keep([c][1..]);
  }

  // ---------------------------------------------------------------------
  // Parsing commutes with lower-casing.

  function LowerAll(cs: seq<string>): (r: seq<string>)
    ensures |r| == |cs|
    ensures forall i | 0 <= i < |cs| :: r[i] == Lower(cs[i])
  {
    seq(|cs|, i requires 0 <= i < |cs| => Lower(cs[i]))
  }

  lemma LowerKeepsSlash(c: char)
    ensures LowerChar(c) == '/' <==> c == '/'
    ensures LowerChar(c) == '.' <==> c == '.'
  {
  }

  lemma {:induction false} IndexOfLower(s: string, c: char)
    requires c == '/' || c == '.'
    ensures IndexOf(Lower(s), c) == IndexOf(s, c)
    decreases |s|
  {
    LowerKeepsSlash(if s == [] then c else s[0]);
    if s != [] {
      assert Lower(s)[1..] == Lower(s[1..]);
      IndexOfLower(s[1..], c);
    }
  }

  lemma {:induction false} LastIndexOfLower(s: string, c: char)
    requires c == '/' || c == '.'
    ensures LastIndexOf(Lower(s), c) == LastIndexOf(s, c)
    decreases |s|
  {
    if s != [] {
      LowerKeepsSlash(s[|s| - 1]);
      assert Lower(s)[..|s| - 1] == Lower(s[..|s| - 1]);
      LastIndexOfLower(s[..|s| - 1], c);
    }
  }

  lemma {:induction false} SplitLower(s: string)
    ensures Split(Lower(s)) == LowerAll(Split(s))
    decreases |s|
  {
    IndexOfLower(s, '/');
    match IndexOf(s, '/')
    case None =>
    case Some(k) =>
      assert Lower(s)[..k] == Lower(s[..k]);
      assert Lower(s)[k + 1..] == Lower(s[k + 1..]);
      SplitLower(s[k + 1..]);
      assert LowerAll(Split(s)) == [Lower(s[..k])] + LowerAll(Split(s[k + 1..]));
  }

  lemma LowerEmptyOrDot(c: string)
    ensures Lower(c) == "" <==> c == ""
    ensures Lower(c) == "." <==> c == "."
  {
    if |c| == 1 {
      LowerKeepsSlash(c[0]);
    }
  }

  lemma NoSlashLower(c: string)
    requires '/' !in c
    ensures '/' !in Lower(c)
  {
    forall i | 0 <= i < |c|
      ensures Lower(c)[i] != '/'
    {
      LowerKeepsSlash(c[i]);
    }
  }

  lemma {:induction false} KeepLower(cs: seq<string>)
    requires forall i | 0 <= i < |cs| :: '/' !in cs[i]
    ensures forall i | 0 <= i < |cs| :: '/' !in LowerAll(cs)[i]
    ensures Keep(LowerAll(cs)) == LowerAll(Keep(cs))
  {
    forall i | 0 <= i < |cs|
      ensures '/' !in LowerAll(cs)[i]
    {
      NoSlashLower(cs[i]);
    }
    if cs != [] {
      LowerEmptyOrDot(cs[0]);
      assert LowerAll(cs)[1..] == LowerAll(cs[1..]);
      KeepLower(cs[1..]);
      if !(cs[0] == "" || cs[0] == ".") {
        assert LowerAll([cs[0]] + Keep(cs[1..])) == [Lower(cs[0])] + LowerAll(Keep(cs[1..]));
      }
    }
  }

  lemma SplitRootLower(s: string)
    ensures SplitRoot(Lower(s)).0 == SplitRoot(s).0
    ensures SplitRoot(Lower(s)).1 == Lower(SplitRoot(s).1)
  {
    if s != [] {
      LowerKeepsSlash(s[0]);
      if |s| > 1 {
        LowerKeepsSlash(s[1]);
      }
      if |s| > 2 {
        LowerKeepsSlash(s[2]);
      }
    }
    var (root, rest) := SplitRoot(s);
    assert Lower(s)[|root|..] == Lower(s[|root|..]);
  }

  lemma SuffixLower(name: string)
    ensures Suffix(Lower(name)) == Lower(Suffix(name))
  {
    LastIndexOfLower(name, '.');
    match SuffixDot(name)
    case Some(i) =>
      assert Lower(name)[i..] == Lower(name[i..]);
    case None =>
  }

  /** The suffix of a lower-cased path is the lower-cased suffix. */
  lemma SuffixOfLower(path: string)
    ensures SuffixOf(Lower(path)) == Lower(SuffixOf(path))
  {
    SplitRootLower(path);
    var (root, rest) := SplitRoot(path);
    SplitLower(rest);
    KeepLower(Split(rest));
    var kept := Keep(Split(rest));
    assert Parse(Lower(path)).parts == LowerAll(kept);
    assert Name(Parse(Lower(path))) == Lower(Name(Parse(path)));
    SuffixLower(Name(Parse(path)));
  }

  /** Whatever is decided from the lower-cased suffix of a path is the same
      for two paths that differ only in letter case. */
  lemma LowerSuffixCaseBlind(a: string, b: string)
    requires Lower(a) == Lower(b)
    ensures Lower(SuffixOf(a)) == Lower(SuffixOf(b))
  {
    SuffixOfLower(a);
    SuffixOfLower(b);
    LowerIdempotent(SuffixOf(a));
    LowerIdempotent(SuffixOf(b));
  }
}
