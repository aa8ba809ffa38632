/**
 * java.nio.file.Path on a Unix file system: parsing a path string, resolve, normalize and
 * startsWith, plus toAbsolutePath against a working directory.
 */
module UnixPaths {
  import opened Wrappers
  import JavaText

  /** A parsed path: whether it starts at the root, and its name elements. */
  datatype Path = Path(absolute: bool, names: seq<string>)

  /** Paths.get rejects a string holding a NUL character with InvalidPathException. */
  datatype PathError = InvalidPath

  predicate IsDotName(n: string) {
    n == "." || n == ".."
  }

  /** Name elements are non-empty and hold no separator. */
  predicate IsWellFormed(p: Path) {
    forall i :: 0 <= i < |p.names| ==> p.names[i] != "" && '/' !in p.names[i]
  }

  /** No `.` and no `..` element: what normalize leaves of an absolute path. */
  predicate IsNormal(p: Path) {
    forall i :: 0 <= i < |p.names| ==> !IsDotName(p.names[i])
  }

  function NonEmpty(pieces: seq<string>): (r: seq<string>)
    ensures forall i :: 0 <= i < |r| ==> r[i] != "" && r[i] in pieces
    ensures forall x :: x in pieces && x != "" ==> x in r
  {
    if pieces == [] then []
    else if pieces[0] == "" then NonEmpty(pieces[1..])
    else [pieces[0]] + NonEmpty(pieces[1..])
  }

  lemma {:induction false} NonEmptyAppend(a: seq<string>, b: seq<string>)
    ensures NonEmpty(a + b) == NonEmpty(a) + NonEmpty(b)
    decreases |a|
  {
    if a == [] {
      assert a + b == b;
    } else {
      assert (a + b)[1..] == a[1..] + b;
      NonEmptyAppend(a[1..], b);
    }
  }

  /** The name elements of a path string: the text between slashes, repeated and trailing slashes
      ignored. */
  function Names(s: string): seq<string> {
    NonEmpty(JavaText.SplitOn(s, '/'))
  }

  /** Paths.get(s). */
  function Parse(s: string): (r: Result<Path, PathError>)
    ensures r.Err? <==> '\0' in s
    ensures r.Ok? ==> IsWellFormed(r.value) && r.value.absolute == (s != [] && s[0] == '/')
  {
    if '\0' in s then Err(InvalidPath)
    else Ok(Path(s != [] && s[0] == '/', Names(s)))
  }

  /** Path.resolve: an absolute argument replaces the base, a relative one is appended. */
  function Resolve(base: Path, other: Path): (r: Path)
    ensures other.absolute ==> r == other
    ensures !other.absolute ==> r.absolute == base.absolute && r.names == base.names + other.names
  {
    if other.absolute then other else Path(base.absolute, base.names + other.names)
  }

  /** The normalize scan: `.` is dropped, `..` removes the element before it unless that is a
      `..` too, and at the root of an absolute path `..` is dropped. */
  function NormalizeNames(absolute: bool, acc: seq<string>, rest: seq<string>): seq<string>
    decreases |rest|
  {
    if rest == [] then acc
    else if rest[0] == "." then NormalizeNames(absolute, acc, rest[1..])
    else if rest[0] == ".." then
      if acc != [] && acc[|acc| - 1] != ".." then NormalizeNames(absolute, acc[..|acc| - 1], rest[1..])
      else if absolute then NormalizeNames(absolute, acc, rest[1..])
      else NormalizeNames(absolute, acc + [".."], rest[1..])
    else NormalizeNames(absolute, acc + [rest[0]], rest[1..])
  }

  /** Path.normalize. */
  function Normalize(p: Path): Path {
    Path(p.absolute, NormalizeNames(p.absolute, [], p.names))
  }

  /** Path.startsWith(Path): same kind of path, and the other's names come first. */
  predicate StartsWith(p: Path, prefix: Path) {
    p.absolute == prefix.absolute && prefix.names <= p.names
  }

  /** Path.toAbsolutePath: a relative path is resolved against the working directory. */
  function ToAbsolute(p: Path, cwd: Path): Path {
    if p.absolute then p else Resolve(cwd, p)
  }

  lemma {:induction false} NormalizeAbsoluteIsNormal(acc: seq<string>, rest: seq<string>)
    requires forall i :: 0 <= i < |acc| ==> !IsDotName(acc[i])
    ensures IsNormal(Path(true, NormalizeNames(true, acc, rest)))
    decreases |rest|
  {
    if rest != [] {
      if rest[0] == "." {
        NormalizeAbsoluteIsNormal(acc, rest[1..]);
      } else if rest[0] == ".." {
        if acc != [] && acc[|acc| - 1] != ".." {
          NormalizeAbsoluteIsNormal(acc[..|acc| - 1], rest[1..]);
        } else {
          NormalizeAbsoluteIsNormal(acc, rest[1..]);
        }
      } else {
        NormalizeAbsoluteIsNormal(acc + [rest[0]], rest[1..]);
      }
    }
  }

  /** Normalizing an absolute path removes every `.` and `..`. */
  lemma NormalizeAbsolute(p: Path)
    requires p.absolute
    ensures Normalize(p).absolute && IsNormal(Normalize(p))
  {
    NormalizeAbsoluteIsNormal([], p.names);
  }

  /** Elements that are neither `.` nor `..` pass through the scan unchanged. */
  lemma {:induction false} NormalizePlainPrefix(absolute: bool, acc: seq<string>, xs: seq<string>, rest: seq<string>)
    requires forall i :: 0 <= i < |xs| ==> !IsDotName(xs[i])
    ensures NormalizeNames(absolute, acc, xs + rest) == NormalizeNames(absolute, acc + xs, rest)
    decreases |xs|
  {
    if xs == [] {
      assert xs + rest == rest;
      assert acc + xs == acc;
    } else {
      assert (xs + rest)[0] == xs[0];
      assert (xs + rest)[1..] == xs[1..] + rest;
      NormalizePlainPrefix(absolute, acc + [xs[0]], xs[1..], rest);
      assert acc + [xs[0]] + xs[1..] == acc + xs;
    }
  }

  /** Without `..`, the scan only drops the `.` elements. */
  lemma {:induction false} NormalizeWithoutParent(absolute: bool, acc: seq<string>, rest: seq<string>)
    requires forall i :: 0 <= i < |rest| ==> rest[i] != ".."
    ensures acc <= NormalizeNames(absolute, acc, rest)
    decreases |rest|
  {
    if rest != [] {
      if rest[0] == "." {
        NormalizeWithoutParent(absolute, acc, rest[1..]);
      } else {
        NormalizeWithoutParent(absolute, acc + [rest[0]], rest[1..]);
      }
    }
  }

  /** Resolving a path free of `..` under a normal absolute directory and normalizing the result
      stays under that directory. */
  lemma ResolveWithoutParentStaysUnder(root: Path, p: Path)
    requires root.absolute && IsNormal(root) && !p.absolute
    requires forall i :: 0 <= i < |p.names| ==> p.names[i] != ".."
    ensures StartsWith(Normalize(Resolve(root, p)), root)
  {
    NormalizePlainPrefix(true, [], root.names, p.names);
    assert [] + root.names == root.names;
    NormalizeWithoutParent(true, root.names, p.names);
  }

  /** Normalizing a normal absolute path changes nothing. */
  lemma NormalizeNormal(p: Path)
    requires p.absolute && IsNormal(p)
    ensures Normalize(p) == p
  {
    NormalizePlainPrefix(true, [], p.names, []);
    assert p.names + [] == p.names;
    assert [] + p.names == p.names;
  }

  /** Stripping leading slashes leaves the name elements as they were. */
  lemma NamesStripLeadingSlashes(s: string)
    ensures Names(JavaText.StripLeadingSlashes(s)) == Names(s)
    decreases |s|
  {
    if s != [] && s[0] == '/' {
      NamesStripLeadingSlashes(s[1..]);
      JavaText.SplitAppend([], s[1..], '/');
      assert [] + ['/'] + s[1..] == s;
      assert JavaText.SplitOn([], '/') == [""];
      NonEmptyAppend([""], JavaText.SplitOn(s[1..], '/'));
    }
  }

  /** The name elements of a slash-joined string are those of the parts, in order. */
  lemma {:induction false} NamesJoin(parts: seq<string>)
    ensures Names(JavaText.JoinWith(parts, '/')) == NamesOfAll(parts)
    decreases |parts|
  {
    if |parts| == 1 {
      assert NamesOfAll(parts) == Names(parts[0]) + NamesOfAll([]);
      assert Names(parts[0]) + [] == Names(parts[0]);
    } else if |parts| > 1 {
      NamesJoin(parts[1..]);
      JavaText.SplitAppend(parts[0], JavaText.JoinWith(parts[1..], '/'), '/');
      NonEmptyAppend(JavaText.SplitOn(parts[0], '/'), JavaText.SplitOn(JavaText.JoinWith(parts[1..], '/'), '/'));
    }
  }

  function NamesOfAll(parts: seq<string>): seq<string> {
    if parts == [] then [] else Names(parts[0]) + NamesOfAll(parts[1..])
  }

  /** The string Paths.get(first, more...) parses: `first`, then each non-empty element of
      `more`, with a slash between non-empty neighbours. */
  function JoinPath(first: string, more: seq<string>): string
    decreases |more|
  {
    if more == [] then first
    else
      JoinPath(AppendSegment(first, more[0]), more[1..])
  }

  /** One step of Paths.get: an empty segment is skipped, and a slash separates two non-empty ones. */
  function AppendSegment(first: string, segment: string): string {
    if segment == "" then first else if first == "" then segment else first + "/" + segment
  }

  lemma {:induction false} NamesJoinPath(first: string, more: seq<string>)
    ensures Names(JoinPath(first, more)) == Names(first) + NamesOfAll(more)
    decreases |more|
  {
    if more == [] {
      assert Names(first) + [] == Names(first);
    } else {
      var next := AppendSegment(first, more[0]);
      NamesJoinPath(next, more[1..]);
      NamesAppendSegment(first, more[0]);
      Regroup(Names(JoinPath(first, more)), Names(first), Names(more[0]), NamesOfAll(more[1..]), NamesOfAll(more));
    }
  }

  lemma Regroup(whole: seq<string>, a: seq<string>, b: seq<string>, c: seq<string>, bc: seq<string>)
    requires whole == a + b + c && bc == b + c
    ensures whole == a + bc
  {
  }

  lemma NamesAppendSegment(first: string, segment: string)
    ensures Names(AppendSegment(first, segment)) == Names(first) + Names(segment)
  {
    if segment == "" {
      assert Names(segment) == [];
      assert Names(first) + [] == Names(first);
    } else if first == "" {
      assert Names(first) == [];
      assert [] + Names(segment) == Names(segment);
    } else {
      JavaText.SplitAppend(first, segment, '/');
      NonEmptyAppend(JavaText.SplitOn(first, '/'), JavaText.SplitOn(segment, '/'));
    }
  }

  /** A path string built only from parts that do not start with a slash is relative. */
  lemma {:induction false} JoinPathRelative(first: string, more: seq<string>)
    requires first == "" || first[0] != '/'
    requires forall i :: 0 <= i < |more| ==> more[i] == "" || more[i][0] != '/'
    ensures JoinPath(first, more) == "" || JoinPath(first, more)[0] != '/'
    decreases |more|
  {
    if more != [] {
      var next := AppendSegment(first, more[0]);
      JoinPathRelative(next, more[1..]);
    }
  }

  /** The characters of a joined path string, slashes aside, are those of its parts. */
  lemma {:induction false} JoinPathChars(first: string, more: seq<string>, c: char)
    requires c != '/'
    ensures c in JoinPath(first, more) <==> c in first || exists i :: 0 <= i < |more| && c in more[i]
    decreases |more|
  {
    if more != [] {
      var next := AppendSegment(first, more[0]);
      JoinPathChars(next, more[1..], c);
      assert c in next <==> c in first || c in more[0];
      if exists i :: 0 <= i < |more[1..]| && c in more[1..][i] {
        var i :| 0 <= i < |more[1..]| && c in more[1..][i];
        assert more[1..][i] == more[i + 1];
      }
      if exists i :: 0 <= i < |more| && c in more[i] {
        var i :| 0 <= i < |more| && c in more[i];
        if i > 0 {
          assert more[1..][i - 1] == more[i];
        }
      }
    }
  }
}
