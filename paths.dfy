/** Path strings and path components, the way `pathlib.PurePosixPath` and `str(path)`
    treat them. A path below a root is a sequence of entry names; its string form
    joins them with '/'. */
module Paths {

  type Path = seq<string>

  predicate EndsWith(s: string, tail: string) {
    |tail| <= |s| && s[|s| - |tail|..] == tail
  }

  /** A name the filesystem can hold as one directory entry. */
  predicate IsName(c: string) {
    c != "" && c != "." && c != ".." && '/' !in c
  }

  predicate IsRelPath(p: Path) {
    forall i :: 0 <= i < |p| ==> IsName(p[i])
  }

  function Last(p: Path): string
    requires |p| > 0
  {
    p[|p| - 1]
  }

  function Parent(p: Path): Path
    requires |p| > 0
  {
    p[..|p| - 1]
  }

  /** `str(PurePosixPath(p[0], ..., p[n-1]))` for a non-empty path. */
  function Join(p: Path): string {
    if |p| == 0 then ""
    else if |p| == 1 then p[0]
    else p[0] + "/" + Join(p[1..])
  }

  function IndexOf(s: string, c: char): (i: int)
    ensures -1 <= i < |s|
    ensures 0 <= i ==> s[i] == c && c !in s[..i]
    ensures i < 0 ==> c !in s
  {
    if |s| == 0 then -1
    else if s[0] == c then 0
    else
      var j := IndexOf(s[1..], c);
      assert s[1..][..(if j < 0 then 0 else j)] == s[1..1 + (if j < 0 then 0 else j)];
      if j < 0 then -1 else j + 1
  }

  function LastIndexOf(s: string, c: char): (i: int)
    ensures -1 <= i < |s|
    ensures 0 <= i ==> s[i] == c && c !in s[i + 1..]
    ensures i < 0 ==> c !in s
  {
    if |s| == 0 then -1
    else if s[|s| - 1] == c then |s| - 1
    else LastIndexOf(s[..|s| - 1], c)
  }

  /** `s.split('/')`. */
  function Split(s: string): (r: seq<string>)
    ensures |r| >= 1
    decreases |s|
  {
    var i := IndexOf(s, '/');
    if i < 0 then [s] else [s[..i]] + Split(s[i + 1..])
  }

  lemma {:induction false} SplitSegmentsHaveNoSlash(s: string)
    ensures forall k :: 0 <= k < |Split(s)| ==> '/' !in Split(s)[k]
    decreases |s|
  {
    var i := IndexOf(s, '/');
    if 0 <= i {
      SplitSegmentsHaveNoSlash(s[i + 1..]);
    }
  }

  /** Drops the empty and "." segments, as PurePath parsing does. */
  function Clean(segments: seq<string>): seq<string> {
    if |segments| == 0 then []
    else
      var last := segments[|segments| - 1];
      Clean(segments[..|segments| - 1]) + (if last == "" || last == "." then [] else [last])
  }

  /** The components of `PurePosixPath(s)` for a relative `s`: `root / s` names
      `root` followed by these. */
  function PathParts(s: string): Path {
    Clean(Split(s))
  }

  /** The strings the model accepts as relative path arguments: not absolute and
      without a ".." segment, which only the operating system can resolve. */
  predicate IsRelArg(s: string) {
    (|s| == 0 || s[0] != '/') && ".." !in Split(s)
  }

  /** `PurePath(name).suffix`: the text from the last dot, unless that dot starts
      the name or ends it. */
  function Suffix(name: string): string {
    var i := LastIndexOf(name, '.');
    if 0 < i < |name| - 1 then name[i..] else ""
  }

  lemma {:induction false} CleanKeepsNames(segments: seq<string>)
    requires forall k :: 0 <= k < |segments| ==> '/' !in segments[k] && segments[k] != ".."
    ensures IsRelPath(Clean(segments))
  {
    if |segments| > 0 {
      CleanKeepsNames(segments[..|segments| - 1]);
    }
  }

  /** Every argument the model accepts parses into well-formed entry names. */
  lemma PathPartsAreNames(s: string)
    requires IsRelArg(s)
    ensures IsRelPath(PathParts(s))
  {
    SplitSegmentsHaveNoSlash(s);
    CleanKeepsNames(Split(s));
  }

  lemma {:induction false} CleanOfNames(p: Path)
    requires IsRelPath(p)
    ensures Clean(p) == p
  {
    if |p| > 0 {
      CleanOfNames(p[..|p| - 1]);
    }
  }

  lemma {:induction false} SplitJoin(p: Path)
    requires |p| > 0 && IsRelPath(p)
    ensures Split(Join(p)) == p
  {
    if |p| > 1 {
      var s := Join(p);
      assert s == p[0] + "/" + Join(p[1..]);
      var i := IndexOf(s, '/');
      assert s[|p[0]|] == '/';
      assert s[..|p[0]|] == p[0];
      assert forall j :: 0 <= j < |p[0]| ==> s[j] == p[0][j];
      assert i == |p[0]|;
      assert s[i + 1..] == Join(p[1..]);
      SplitJoin(p[1..]);
      assert p == [p[0]] + p[1..];
    } else {
      assert '/' !in p[0];
    }
  }

  /** Parsing the string the server joins a stored path into gives that path back:
      a joined path is already normalised. */
  lemma PathPartsOfJoin(p: Path)
    requires IsRelPath(p)
    ensures PathParts(Join(p)) == p
  {
    if |p| == 0 {
      assert Split("") == [""];
    } else {
      SplitJoin(p);
      CleanOfNames(p);
    }
  }

  /** The string a joined path gives is itself an accepted argument. */
  lemma JoinIsRelArg(p: Path)
    requires IsRelPath(p)
    ensures IsRelArg(Join(p))
  {
    if |p| > 0 {
      SplitJoin(p);
      assert Join(p)[0] == p[0][0] by { JoinStartsWithHead(p); }
    } else {
      assert Split("") == [""];
    }
  }

  lemma {:induction false} JoinStartsWithHead(p: Path)
    requires |p| > 0 && |p[0]| > 0
    ensures |Join(p)| > 0 && Join(p)[0] == p[0][0]
  {
  }

  lemma {:induction false} LastSegmentEndsWith(s: string, tail: string)
    requires EndsWith(s, tail) && '/' !in tail
    ensures EndsWith(Split(s)[|Split(s)| - 1], tail)
    decreases |s|
  {
    var i := IndexOf(s, '/');
    if 0 <= i {
      assert forall j :: |s| - |tail| <= j < |s| ==> s[j] == tail[j - (|s| - |tail|)];
      assert i < |s| - |tail|;
      var rest := s[i + 1..];
      assert rest[|rest| - |tail|..] == s[|s| - |tail|..];
      LastSegmentEndsWith(rest, tail);
    }
  }

  /** An argument ending in an extension names a file whose name ends in it. */
  lemma PathPartsKeepExtension(s: string, ext: string)
    requires EndsWith(s, ext) && '/' !in ext && ext != "" && ext != "."
    ensures |PathParts(s)| > 0 && EndsWith(Last(PathParts(s)), ext)
  {
    LastSegmentEndsWith(s, ext);
    var segments := Split(s);
    var last := segments[|segments| - 1];
    assert last != "" && last != ".";
  }

  /** `PurePath(name).suffix` for a name ending in an extension such as ".xml":
      the extension, unless the name is nothing but the extension. */
  lemma SuffixOfExtension(name: string, ext: string)
    requires |ext| >= 2 && ext[0] == '.' && '.' !in ext[1..] && EndsWith(name, ext)
    ensures Suffix(name) == (if |name| > |ext| then ext else "")
  {
    var k := |name| - |ext|;
    assert name[k] == '.';
    var i := LastIndexOf(name, '.');
    assert forall j :: k < j < |name| ==> name[j] == ext[1..][j - k - 1];
    assert i >= k ==> i == k;
    assert i >= k by {
      assert forall j :: i < j < |name| ==> name[j] == name[i + 1..][j - i - 1];
    }
  }

  /** Appending a relative path below a directory: the name stays last and the
      directory becomes a prefix of the parent. */
  lemma ConcatPath(d: Path, f: Path)
    requires IsRelPath(d) && IsRelPath(f) && |f| > 0
    ensures |d + f| > 0 && Last(d + f) == Last(f) && IsRelPath(d + f)
    ensures Parent(d + f) == d + Parent(f)
  {
    assert (d + f)[..|d + f| - 1] == d + f[..|f| - 1];
  }

  lemma {:induction false} CleanDropsLeadingDot(segments: seq<string>)
    ensures Clean(["."] + segments) == Clean(segments)
  {
    if |segments| > 0 {
      var init := segments[..|segments| - 1];
      CleanDropsLeadingDot(init);
      assert (["."] + segments)[..|segments|] == ["."] + init;
    }
  }

  /** A leading "./" does not change the entry a path string names. */
  lemma PathPartsOfDotSlash(s: string)
    ensures PathParts("./" + s) == PathParts(s)
  {
    var d := "./" + s;
    assert d[0] == '.' && d[1] == '/';
    assert d[1..][0] == '/';
    assert IndexOf(d, '/') == 1;
    assert d[..1] == "." && d[2..] == s;
    assert Split(d) == ["."] + Split(s);
    CleanDropsLeadingDot(Split(s));
  }
}
