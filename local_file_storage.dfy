/**
 * LocalFileStorageService: where uploaded files go on disk and under which public URL prefix
 * they are served. A stored file lands under `<upload root>/<sub dirs>/<today>` with a random
 * UUID name that keeps the original extension.
 */
module LocalFileStorageService {
  import opened Wrappers
  import JavaText
  import UnixPaths
  import Calendar
  import TransactionalFileOps

  type Path = UnixPaths.Path

  /** The `asboard.file` properties, with the process working directory that resolves a
      relative upload root. */
  datatype FileStorageProps = FileStorageProps(uploadRoot: string, publicBase: Option<string>, workingDir: Path)

  predicate IsValidProps(props: FileStorageProps) {
    props.workingDir.absolute
  }

  /** InvalidPathException (a NUL character in a path) and IllegalStateException (a directory
      outside the upload root). */
  datatype StorageError = InvalidPath | IllegalState

  /** A multipart upload part; it is empty when its size is 0. */
  datatype MultipartFile = MultipartFile(originalFilename: Option<string>, size: int, contentType: Option<string>)

  datatype SavedFile = SavedFile(
    originalName: Option<string>,
    uuidName: string,
    publicDir: string,
    size: int,
    contentType: Option<string>,
    absolutePath: Path)

  // ---------------------------------------------------------------------------
  // Public prefix
  // ---------------------------------------------------------------------------

  /** Prefixes a slash when there is none. */
  function WithLeadingSlash(s: string): (r: string)
    ensures JavaText.StartsWith(r, "/")
    ensures r == s || r == "/" + s
  {
    if JavaText.StartsWith(s, "/") then s else "/" + s
  }

  /** Removes one trailing slash, if there is one. */
  function WithoutOneTrailingSlash(s: string): (r: string)
    ensures r == s || r + "/" == s
    ensures r == s <==> !JavaText.EndsWith(s, "/")
  {
    if JavaText.EndsWith(s, "/") then s[..|s| - 1] else s
  }

  /** publicBase(): the configured prefix, "/upload" when null or blank, with a leading slash and
      without one trailing slash. */
  function PublicBase(props: FileStorageProps): (r: string)
    ensures JavaText.IsNullOrBlank(props.publicBase) ==> r == "/upload"
    ensures !JavaText.IsNullOrBlank(props.publicBase) ==>
              r == WithoutOneTrailingSlash(WithLeadingSlash(props.publicBase.value))
    ensures r == "" || r[0] == '/'
  {
    var base := if JavaText.IsNullOrBlank(props.publicBase) then "/upload" else props.publicBase.value;
    WithoutOneTrailingSlash(WithLeadingSlash(base))
  }

  /** "/" and "//" show the two steps: the slash is kept, then exactly one trailing slash goes. */
  lemma PublicBaseOfSlashes(props: FileStorageProps)
    ensures props.publicBase == Some("/") ==> PublicBase(props) == ""
    ensures props.publicBase == Some("//") ==> PublicBase(props) == "/"
    ensures props.publicBase == Some("upload/") ==> PublicBase(props) == "/upload"
  {
    assert !JavaText.IsWhitespace('/') && !JavaText.IsWhitespace('u');
    if props.publicBase == Some("//") {
      assert "//"[0] == '/' && "//"[..1] == "/";
      assert !JavaText.IsBlank("//");
      assert WithLeadingSlash("//") == "//";
    }
    if props.publicBase == Some("upload/") {
      assert "upload/"[0] == 'u';
      assert !JavaText.IsBlank("upload/");
      assert !JavaText.StartsWith("upload/", "/");
      assert WithLeadingSlash("upload/") == "/upload/";
      assert "/upload/"[7..] == "/";
      assert "/upload/"[..7] == "/upload";
    }
  }

  /** buildPublicDir(parts): the parts joined with "/", leading slashes stripped, under the
      public prefix. */
  function BuildPublicDir(props: FileStorageProps, parts: seq<string>): (r: string)
    ensures JavaText.StartsWith(r, PublicBase(props) + "/")
  {
    PublicBase(props) + "/" + JavaText.StripLeadingSlashes(JavaText.JoinWith(parts, '/'))
  }

  // ---------------------------------------------------------------------------
  // Directories under the upload root
  // ---------------------------------------------------------------------------

  /** Paths.get(uploadRoot).toAbsolutePath().normalize(). */
  function Root(props: FileStorageProps): (r: Result<Path, StorageError>)
    requires IsValidProps(props)
    ensures r.Ok? ==> r.value.absolute && UnixPaths.IsNormal(r.value)
    ensures r.Err? <==> '\0' in props.uploadRoot
  {
    match UnixPaths.Parse(props.uploadRoot)
    case Err(_) => Err(InvalidPath)
    case Ok(p) =>
      var root := UnixPaths.Normalize(UnixPaths.ToAbsolute(p, props.workingDir));
      UnixPaths.NormalizeAbsolute(UnixPaths.ToAbsolute(p, props.workingDir));
      Ok(root)
  }

  /** `root.resolve(p).normalize()`, refused with IllegalStateException unless it starts with the
      root. */
  function ResolveUnder(root: Path, p: Path): (r: Result<Path, StorageError>)
    requires root.absolute && UnixPaths.IsNormal(root)
    ensures r.Ok? ==> UnixPaths.StartsWith(r.value, root) && UnixPaths.IsNormal(r.value)
    ensures r.Ok? ==> r.value == UnixPaths.Normalize(UnixPaths.Resolve(root, p))
    ensures r.Err? ==> r.error == IllegalState
  {
    var dir := UnixPaths.Normalize(UnixPaths.Resolve(root, p));
    if UnixPaths.StartsWith(dir, root) then
      UnixPaths.NormalizeAbsolute(UnixPaths.Resolve(root, p));
      Ok(dir)
    else Err(IllegalState)
  }

  /** The directory ensureDir(parts) checks and returns (creating it on disk is not modelled). */
  function EnsureDir(props: FileStorageProps, parts: seq<string>): (r: Result<Path, StorageError>)
    requires IsValidProps(props)
  {
    match Root(props)
    case Err(e) => Err(e)
    case Ok(root) =>
      if !root.absolute then Err(IllegalState)
      else
        match UnixPaths.Parse(UnixPaths.JoinPath("", parts))
        case Err(_) => Err(InvalidPath)
        case Ok(p) => ResolveUnder(root, p)
  }

  /** toAbsoluteDirFromPublic(publicPath): drop the public prefix (as a plain string prefix) and
      leading slashes, then resolve under the root. */
  function ToAbsoluteDirFromPublic(props: FileStorageProps, publicPath: Option<string>): (r: Result<Path, StorageError>)
    requires IsValidProps(props)
  {
    var under0 := publicPath.GetOr("");
    var base := PublicBase(props);
    var under1 := if JavaText.StartsWith(under0, base) then under0[|base|..] else under0;
    var under := JavaText.StripLeadingSlashes(under1);
    ResolveParsed(props, UnixPaths.Parse(under))
  }

  /** A parsed path resolved under the root: the root's own failure first, then a parse failure,
      then the containment check. */
  function ResolveParsed(props: FileStorageProps, parsed: Result<Path, UnixPaths.PathError>): (r: Result<Path, StorageError>)
    requires IsValidProps(props)
    ensures r.Ok? ==> Root(props).Ok? && parsed.Ok?
                      && r.value == UnixPaths.Normalize(UnixPaths.Resolve(Root(props).value, parsed.value))
                      && UnixPaths.StartsWith(r.value, Root(props).value)
  {
    match Root(props)
    case Err(e) => Err(e)
    case Ok(root) =>
      match parsed
      case Err(_) => Err(InvalidPath)
      case Ok(p) => ResolveUnder(root, p)
  }

  /** ensureDir's own isAbsolute check never fires: it resolves like any other parsed path. */
  lemma EnsureDirResolves(props: FileStorageProps, parts: seq<string>)
    requires IsValidProps(props)
    ensures EnsureDir(props, parts) == ResolveParsed(props, UnixPaths.Parse(UnixPaths.JoinPath("", parts)))
  {
  }

  /** The root is always absolute, so the isAbsolute check in ensureDir never fires; every
      directory ensureDir hands out lies under the root and holds no `.` or `..`. */
  lemma EnsureDirContained(props: FileStorageProps, parts: seq<string>)
    requires IsValidProps(props)
    ensures EnsureDir(props, parts).Ok? ==>
      Root(props).Ok? && UnixPaths.StartsWith(EnsureDir(props, parts).value, Root(props).value)
      && UnixPaths.IsNormal(EnsureDir(props, parts).value)
    ensures EnsureDir(props, parts) == Err(IllegalState) ==>
      Root(props).Ok? && !UnixPaths.StartsWith(
        UnixPaths.Normalize(UnixPaths.Resolve(Root(props).value, UnixPaths.Parse(UnixPaths.JoinPath("", parts)).value)),
        Root(props).value)
  {
  }

  /** Every directory toAbsoluteDirFromPublic hands out lies under the root. */
  lemma ToAbsoluteDirContained(props: FileStorageProps, publicPath: Option<string>)
    requires IsValidProps(props)
    ensures ToAbsoluteDirFromPublic(props, publicPath).Ok? ==>
      Root(props).Ok? && UnixPaths.StartsWith(ToAbsoluteDirFromPublic(props, publicPath).value, Root(props).value)
  {
  }

  /** Paths.get("", parts) parses, relative, to the name elements of the parts, unless one of
      them holds a NUL. */
  lemma ParseJoinPath(parts: seq<string>)
    requires forall i :: 0 <= i < |parts| ==> parts[i] == "" || parts[i][0] != '/'
    ensures UnixPaths.Parse(UnixPaths.JoinPath("", parts)).Err? <==>
              exists i :: 0 <= i < |parts| && '\0' in parts[i]
    ensures UnixPaths.Parse(UnixPaths.JoinPath("", parts)).Ok? ==>
              UnixPaths.Parse(UnixPaths.JoinPath("", parts)).value == UnixPaths.Path(false, UnixPaths.NamesOfAll(parts))
  {
    UnixPaths.JoinPathChars("", parts, '\0');
    UnixPaths.JoinPathRelative("", parts);
    UnixPaths.NamesJoinPath("", parts);
    assert UnixPaths.Names("") == [];
    assert [] + UnixPaths.NamesOfAll(parts) == UnixPaths.NamesOfAll(parts);
  }

  /** Sub-directory parts without `..` never trip the containment check of ensureDir. */
  lemma EnsureDirAcceptsPartsWithoutParent(props: FileStorageProps, parts: seq<string>)
    requires IsValidProps(props)
    requires '\0' !in props.uploadRoot
    requires forall i :: 0 <= i < |parts| ==> '\0' !in parts[i] && (parts[i] == "" || parts[i][0] != '/')
    requires forall i :: 0 <= i < |UnixPaths.NamesOfAll(parts)| ==> UnixPaths.NamesOfAll(parts)[i] != ".."
    ensures EnsureDir(props, parts).Ok?
  {
    ParseJoinPath(parts);
    var root := Root(props).value;
    var p := UnixPaths.Path(false, UnixPaths.NamesOfAll(parts));
    UnixPaths.ResolveWithoutParentStaysUnder(root, p);
    assert ResolveUnder(root, p).Ok?;
  }

  /** What toAbsoluteDirFromPublic resolves for a public directory built as `base + "/" + x`:
      the prefix and the slash after it come off again. */
  lemma UnderOfBuiltPublicDir(base: string, x: string)
    requires x == [] || x[0] != '/'
    ensures JavaText.StartsWith(base + "/" + x, base)
    ensures JavaText.StripLeadingSlashes((base + "/" + x)[|base|..]) == x
  {
    assert (base + "/" + x)[..|base|] == base;
    assert (base + "/" + x)[|base|..] == "/" + x;
    assert ("/" + x)[1..] == x;
  }

  /** Stripping leading slashes from a slash-joined string parses like Paths.get("", parts). */
  lemma ParseStrippedJoin(parts: seq<string>)
    requires forall i :: 0 <= i < |parts| ==> parts[i] == "" || parts[i][0] != '/'
    ensures UnixPaths.Parse(JavaText.StripLeadingSlashes(JavaText.JoinWith(parts, '/')))
            == UnixPaths.Parse(UnixPaths.JoinPath("", parts))
  {
    var joined := JavaText.JoinWith(parts, '/');
    var x := JavaText.StripLeadingSlashes(joined);
    ParseJoinPath(parts);
    JavaText.JoinWithChars(parts, '/', '\0');
    StripKeepsNul(joined);
    if '\0' !in x {
      UnixPaths.NamesStripLeadingSlashes(joined);
      UnixPaths.NamesJoin(parts);
      assert UnixPaths.Parse(x) == Ok(UnixPaths.Path(false, UnixPaths.NamesOfAll(parts)));
    }
  }

  /** Stripping leading slashes neither adds nor removes a NUL character. */
  lemma StripKeepsNul(s: string)
    ensures '\0' in JavaText.StripLeadingSlashes(s) <==> '\0' in s
  {
    SlashPrefixKeepsNul(s, |s| - |JavaText.StripLeadingSlashes(s)|);
  }

  lemma SlashPrefixKeepsNul(s: string, d: nat)
    requires d <= |s|
    requires forall i :: 0 <= i < d ==> s[i] == '/'
    ensures '\0' in s[d..] <==> '\0' in s
  {
    var r := s[d..];
    if '\0' in s {
      var i :| 0 <= i < |s| && s[i] == '\0';
      assert i >= d && r[i - d] == s[i];
    }
    if '\0' in r {
      var j :| 0 <= j < |r| && r[j] == '\0';
      assert s[j + d] == r[j];
    }
  }

  /** The public directory saveAll records maps back to the directory it wrote into: for parts
      that do not start with a slash, toAbsoluteDirFromPublic(buildPublicDir(parts)) gives the
      same result as ensureDir(parts), directory or exception alike. */
  lemma PublicDirRoundTrip(props: FileStorageProps, parts: seq<string>)
    requires IsValidProps(props)
    requires forall i :: 0 <= i < |parts| ==> parts[i] == "" || parts[i][0] != '/'
    ensures ToAbsoluteDirFromPublic(props, Some(BuildPublicDir(props, parts))) == EnsureDir(props, parts)
  {
    var x := JavaText.StripLeadingSlashes(JavaText.JoinWith(parts, '/'));
    assert BuildPublicDir(props, parts) == PublicBase(props) + "/" + x;
    UnderOfBuiltPublicDir(PublicBase(props), x);
    assert ToAbsoluteDirFromPublic(props, Some(BuildPublicDir(props, parts))) == ResolveParsed(props, UnixPaths.Parse(x));
    ParseStrippedJoin(parts);
    EnsureDirResolves(props, parts);
  }

  // ---------------------------------------------------------------------------
  // Stored file names
  // ---------------------------------------------------------------------------

  /** The position of the last occurrence of `c`, or -1 (String.lastIndexOf). */
  function LastIndexOf(s: string, c: char): (k: int)
    ensures -1 <= k < |s|
    ensures k >= 0 ==> s[k] == c
    ensures forall j :: k < j < |s| ==> s[j] != c
  {
    if s == [] then -1
    else if s[|s| - 1] == c then |s| - 1
    else LastIndexOf(s[..|s| - 1], c)
  }

  /** The extension saveAll keeps: from the last '.' of the original name to its end, or nothing
      when the name is null or has no '.'. */
  function Extension(original: Option<string>): (ext: string)
    ensures ext == "" <==> original.None? || '.' !in original.value
    ensures ext != "" ==> ext[0] == '.' && '.' !in ext[1..] && JavaText.EndsWith(original.value, ext)
  {
    match original
    case None => ""
    case Some(o) =>
      var dot := LastIndexOf(o, '.');
      if dot >= 0 then
        var ext := o[dot..];
        assert forall j :: 0 <= j < |ext| - 1 ==> ext[1..][j] == o[dot + 1 + j];
        ext
      else ""
  }

  /** The text of UUID.randomUUID().toString(): 36 lower-case hexadecimal digits and dashes. */
  predicate IsUuidText(u: string) {
    |u| == 36 && forall i :: 0 <= i < |u| ==> ('0' <= u[i] <= '9') || ('a' <= u[i] <= 'f') || u[i] == '-'
  }

  /** The name a file is stored under: a UUID followed by the original extension. */
  function StoredName(uuid: string, original: Option<string>): (name: string)
    ensures name == uuid + Extension(original)
  {
    uuid + Extension(original)
  }

  lemma {:induction false} SplitAfterPlainPrefix(a: string, b: string)
    requires '/' !in a
    ensures |JavaText.SplitOn(a + b, '/')| == |JavaText.SplitOn(b, '/')|
    ensures JavaText.SplitOn(a + b, '/')[0] == a + JavaText.SplitOn(b, '/')[0]
    ensures JavaText.SplitOn(a + b, '/')[1..] == JavaText.SplitOn(b, '/')[1..]
    decreases |a|
  {
    if a != [] {
      assert (a + b)[1..] == a[1..] + b;
      SplitAfterPlainPrefix(a[1..], b);
      assert [a[0]] + (a[1..] + JavaText.SplitOn(b, '/')[0]) == a + JavaText.SplitOn(b, '/')[0];
    } else {
      assert a + b == b;
    }
  }

  lemma {:induction false} SplitPiecesChars(s: string, i: nat, c: char)
    requires i < |JavaText.SplitOn(s, '/')| && c in JavaText.SplitOn(s, '/')[i]
    ensures c in s
    decreases |s|
  {
    if s != [] {
      var rest := JavaText.SplitOn(s[1..], '/');
      if s[0] == '/' {
        SplitPiecesChars(s[1..], i - 1, c);
      } else if i == 0 {
        if c != s[0] {
          SplitPiecesChars(s[1..], 0, c);
        }
      } else {
        SplitPiecesChars(s[1..], i, c);
      }
    }
  }

  /** No name element of a stored name is `.` or `..`: the first starts with the UUID, and the
      others come from the extension after its only '.'. */
  lemma StoredNameHasNoDotNames(uuid: string, original: Option<string>)
    requires IsUuidText(uuid)
    ensures forall i :: 0 <= i < |UnixPaths.Names(StoredName(uuid, original))| ==>
              !UnixPaths.IsDotName(UnixPaths.Names(StoredName(uuid, original))[i])
  {
    var ext := Extension(original);
    var pieces := JavaText.SplitOn(uuid + ext, '/');
    var extPieces := JavaText.SplitOn(ext, '/');
    assert '/' !in uuid by {
      forall k | 0 <= k < |uuid| ensures uuid[k] != '/' {}
    }
    SplitAfterPlainPrefix(uuid, ext);
    forall j | 0 <= j < |pieces| ensures !UnixPaths.IsDotName(pieces[j]) {
      if j == 0 {
        assert pieces[0][0] == uuid[0];
      } else {
        assert pieces[j] == extPieces[j];
        if UnixPaths.IsDotName(pieces[j]) {
          assert '.' in pieces[j];
          if ext != "" {
            var tail := ext[1..];
            assert ext == [ext[0]] + tail;
            SplitAfterPlainPrefix([ext[0]], tail);
            assert extPieces[j] == JavaText.SplitOn(tail, '/')[j];
            SplitPiecesChars(tail, j, '.');
          }
        }
      }
    }
  }

  /** A stored file always lands inside the day's directory. */
  lemma StoredFileStaysInDir(absDir: Path, uuid: string, original: Option<string>)
    requires absDir.absolute && UnixPaths.IsNormal(absDir)
    requires IsUuidText(uuid)
    requires UnixPaths.Parse(StoredName(uuid, original)).Ok?
    ensures UnixPaths.StartsWith(
      UnixPaths.Normalize(UnixPaths.Resolve(absDir, UnixPaths.Parse(StoredName(uuid, original)).value)), absDir)
  {
    StoredNameHasNoDotNames(uuid, original);
    var p := UnixPaths.Parse(StoredName(uuid, original)).value;
    assert StoredName(uuid, original)[0] == uuid[0];
    UnixPaths.ResolveWithoutParentStaysUnder(absDir, p);
  }

  // ---------------------------------------------------------------------------
  // Dates in directory names
  // ---------------------------------------------------------------------------

  function DigitChar(d: int): char
    requires 0 <= d < 10
  {
    ('0' as int + d) as char
  }

  /** Integer.toString for a non-negative value. */
  function Decimal(n: nat): (s: string)
    ensures |s| >= 1 && (n >= 10 ==> |s| >= 2) && (n >= 100 ==> |s| >= 3) && (n >= 1000 ==> |s| >= 4)
    ensures forall i :: 0 <= i < |s| ==> '0' <= s[i] <= '9'
  {
    if n < 10 then [DigitChar(n)] else Decimal(n / 10) + [DigitChar(n % 10)]
  }

  /** Left-pads with zeros to `width` digits. */
  function ZeroPad(n: nat, width: nat): (s: string)
    ensures |s| >= width
    ensures forall i :: 0 <= i < |s| ==> '0' <= s[i] <= '9'
  {
    var d := Decimal(n);
    if |d| >= width then d else seq(width - |d|, _ => '0') + d
  }

  /** LocalDate.toString: yyyy-MM-dd, a '+' before a year above 9999 and a '-' before a negative
      one. */
  function DateText(d: Calendar.Date): (s: string)
    requires Calendar.IsValid(d)
    ensures |s| >= 10
    ensures forall i :: 0 <= i < |s| ==> ('0' <= s[i] <= '9') || s[i] == '-' || s[i] == '+'
  {
    var year :=
      if d.year < 0 then "-" + ZeroPad(-d.year, 4)
      else if d.year > 9999 then "+" + Decimal(d.year)
      else ZeroPad(d.year, 4);
    year + "-" + ZeroPad(d.month, 2) + "-" + ZeroPad(d.day, 2)
  }

  /** The sub-directory parts saveAll stores under: the caller's parts, then the date. */
  function DayParts(subDirs: seq<string>, today: Calendar.Date): seq<string>
    requires Calendar.IsValid(today)
  {
    subDirs + [DateText(today)]
  }

  lemma {:induction false} JoinEndsWithLast(parts: seq<string>, last: string)
    ensures JavaText.EndsWith(JavaText.JoinWith(parts + [last], '/'), last)
    ensures parts != [] ==> JavaText.EndsWith(JavaText.JoinWith(parts + [last], '/'), "/" + last)
    decreases |parts|
  {
    var all := parts + [last];
    if parts == [] {
      assert all == [last];
      assert JavaText.JoinWith(all, '/') == last;
      assert last[|last| - |last|..] == last;
    } else {
      var rest := parts[1..] + [last];
      assert all[1..] == rest;
      var joinedRest := JavaText.JoinWith(rest, '/');
      assert JavaText.JoinWith(all, '/') == parts[0] + "/" + joinedRest;
      if parts[1..] == [] {
        assert rest == [last];
        assert joinedRest == last;
        EndsWithSlashThen(parts[0], last);
      } else {
        JoinEndsWithLast(parts[1..], last);
        EndsWithAppended(parts[0] + "/", joinedRest, "/" + last);
      }
      SlashSuffix(JavaText.JoinWith(all, '/'), last);
    }
  }

  lemma EndsWithAppended(a: string, b: string, u: string)
    requires JavaText.EndsWith(b, u)
    ensures JavaText.EndsWith(a + b, u)
  {
    assert (a + b)[|a + b| - |u|..] == b[|b| - |u|..];
  }

  lemma SlashSuffix(s: string, u: string)
    requires JavaText.EndsWith(s, "/" + u)
    ensures JavaText.EndsWith(s, u)
  {
    assert s[|s| - |u|..] == s[|s| - |u| - 1..][1..];
  }

  lemma SuffixTrans(a: string, b: string, c: string)
    requires JavaText.EndsWith(a, b) && JavaText.EndsWith(b, c)
    ensures JavaText.EndsWith(a, c)
  {
    assert a[|a| - |c|..] == b[|b| - |c|..];
  }

  lemma SuffixOfSuffix(s: string, v: string, u: string)
    requires JavaText.EndsWith(s, v) && JavaText.EndsWith(s, u) && |u| <= |v|
    ensures JavaText.EndsWith(v, u)
  {
    assert v[|v| - |u|..] == s[|s| - |u|..];
  }

  /** Leading slashes come off before a suffix that does not start with one. */
  lemma StripKeepsSuffix(s: string, u: string)
    requires JavaText.EndsWith(s, u) && u != [] && u[0] != '/'
    ensures JavaText.EndsWith(JavaText.StripLeadingSlashes(s), u)
  {
    var r := JavaText.StripLeadingSlashes(s);
    SuffixOfSuffix(s, r, u);
  }

  lemma EndsWithSlashThen(base: string, t: string)
    ensures JavaText.EndsWith(base + "/" + t, "/" + t)
  {
    assert (base + "/" + t)[|base|..] == "/" + t;
  }

  lemma BuiltDirEndsWithLast(base: string, subDirs: seq<string>, t: string)
    requires t != [] && t[0] != '/'
    ensures JavaText.EndsWith(base + "/" + JavaText.StripLeadingSlashes(JavaText.JoinWith(subDirs + [t], '/')), "/" + t)
  {
    var joined := JavaText.JoinWith(subDirs + [t], '/');
    var x := JavaText.StripLeadingSlashes(joined);
    JoinEndsWithLast(subDirs, t);
    StripKeepsSuffix(joined, t);
    if |x| == |t| {
      assert x == x[|x| - |t|..] == t;
      EndsWithSlashThen(base, t);
    } else {
      SuffixOfSuffix(joined, x, "/" + t);
      EndsWithAppended(base + "/", x, "/" + t);
    }
  }

  /** Every public directory of a day's uploads ends with "/" and the date. */
  lemma PublicDirEndsWithDate(props: FileStorageProps, subDirs: seq<string>, today: Calendar.Date)
    requires Calendar.IsValid(today)
    ensures JavaText.EndsWith(BuildPublicDir(props, DayParts(subDirs, today)), "/" + DateText(today))
  {
    var t := DateText(today);
    assert t[0] != '/';
    BuiltDirEndsWithLast(PublicBase(props), subDirs, t);
  }

  // ---------------------------------------------------------------------------
  // saveAll
  // ---------------------------------------------------------------------------

  /** Whether the loop stores an entry: it is neither null nor empty. */
  predicate IsKept(entry: Option<MultipartFile>) {
    entry.Some? && entry.value.size != 0
  }

  /** The entries saveAll stores, in input order. */
  function Kept(files: seq<Option<MultipartFile>>): (r: seq<MultipartFile>)
    ensures |r| <= |files|
  {
    if files == [] then []
    else
      var init := Kept(files[..|files| - 1]);
      if IsKept(files[|files| - 1]) then init + [files[|files| - 1].value] else init
  }

  /** The record of one stored file, or InvalidPathException when its name holds a NUL. */
  function SavedFor(mf: MultipartFile, uuid: string, publicDir: string, absDir: Path): (r: Result<SavedFile, StorageError>)
    ensures r.Ok? ==> r.value.uuidName == StoredName(uuid, mf.originalFilename)
                      && r.value.originalName == mf.originalFilename && r.value.size == mf.size
                      && r.value.contentType == mf.contentType && r.value.publicDir == publicDir
  {
    var name := StoredName(uuid, mf.originalFilename);
    match UnixPaths.Parse(name)
    case Err(_) => Err(InvalidPath)
    case Ok(p) =>
      Ok(SavedFile(mf.originalFilename, name, publicDir, mf.size, mf.contentType,
                   UnixPaths.Normalize(UnixPaths.Resolve(absDir, p))))
  }

  /** The files stored from `kept` with the `k`-th UUID for the `k`-th file, and whether a name
      stopped the loop. */
  function SaveEach(kept: seq<MultipartFile>, uuids: seq<string>, publicDir: string, absDir: Path): (r: (seq<SavedFile>, bool))
    requires |uuids| >= |kept|
    ensures !r.1 ==> |r.0| == |kept|
    ensures r.1 ==> |r.0| < |kept| && SavedFor(kept[|r.0|], uuids[|r.0|], publicDir, absDir).Err?
  {
    if kept == [] then ([], false)
    else
      var n := |kept| - 1;
      var prev := SaveEach(kept[..n], uuids, publicDir, absDir);
      if prev.1 then prev
      else
        match SavedFor(kept[n], uuids[n], publicDir, absDir)
        case Err(_) => (prev.0, true)
        case Ok(sf) => (prev.0 + [sf], false)
  }

  /** The `k`-th stored file is the `k`-th kept entry saved with the `k`-th UUID. */
  lemma {:induction false} SaveEachSaved(kept: seq<MultipartFile>, uuids: seq<string>, publicDir: string, absDir: Path)
    requires |uuids| >= |kept|
    ensures forall k :: 0 <= k < |SaveEach(kept, uuids, publicDir, absDir).0| ==>
              SavedFor(kept[k], uuids[k], publicDir, absDir) == Ok(SaveEach(kept, uuids, publicDir, absDir).0[k])
    decreases |kept|
  {
    if kept != [] {
      var n := |kept| - 1;
      var init := kept[..n];
      assert kept == init + [kept[n]];
      SaveEachSnoc(init, kept[n], uuids, publicDir, absDir);
      SaveEachSaved(init, uuids, publicDir, absDir);
      var prev := SaveEach(init, uuids, publicDir, absDir).0;
      var saved := SaveEach(kept, uuids, publicDir, absDir).0;
      forall k | 0 <= k < |saved|
        ensures SavedFor(kept[k], uuids[k], publicDir, absDir) == Ok(saved[k])
      {
        if k < |prev| {
          assert init[k] == kept[k] && saved[k] == prev[k];
        } else {
          var stored := SavedFor(kept[n], uuids[n], publicDir, absDir);
          assert !SaveEach(init, uuids, publicDir, absDir).1 && stored.Ok?;
          assert k == n && saved == prev + [stored.value];
        }
      }
    }
  }

  /** The paths of a list of stored files. */
  function PathsOf(saved: seq<SavedFile>): set<Path> {
    set k | 0 <= k < |saved| :: saved[k].absolutePath
  }

  lemma PathsOfAppend(saved: seq<SavedFile>, sf: SavedFile)
    ensures PathsOf(saved + [sf]) == PathsOf(saved) + {sf.absolutePath}
  {
    var all := saved + [sf];
    assert all[|saved|] == sf;
    forall p | p in PathsOf(saved) ensures p in PathsOf(all) {
      var k :| 0 <= k < |saved| && saved[k].absolutePath == p;
      assert all[k] == saved[k];
    }
  }

  lemma AddStored(base: set<Path>, saved: seq<SavedFile>, sf: SavedFile)
    ensures base + PathsOf(saved + [sf]) == base + PathsOf(saved) + {sf.absolutePath}
  {
    PathsOfAppend(saved, sf);
  }

  /** One more entry: a skipped one changes nothing, a kept one is stored with the next UUID. */
  lemma SaveEachStep(entries: seq<Option<MultipartFile>>, i: nat, uuids: seq<string>,
                     publicDir: string, absDir: Path, results: seq<SavedFile>)
    requires i < |entries| <= |uuids|
    requires SaveEach(Kept(entries[..i]), uuids, publicDir, absDir) == (results, false)
    ensures !IsKept(entries[i]) ==> SaveEach(Kept(entries[..i + 1]), uuids, publicDir, absDir) == (results, false)
    ensures IsKept(entries[i]) ==> |results| < |uuids|
    ensures IsKept(entries[i]) && SavedFor(entries[i].value, uuids[|results|], publicDir, absDir).Err? ==>
              SaveEach(Kept(entries[..i + 1]), uuids, publicDir, absDir) == (results, true)
    ensures IsKept(entries[i]) && SavedFor(entries[i].value, uuids[|results|], publicDir, absDir).Ok? ==>
              SaveEach(Kept(entries[..i + 1]), uuids, publicDir, absDir) ==
                (results + [SavedFor(entries[i].value, uuids[|results|], publicDir, absDir).value], false)
  {
    var prefix := entries[..i + 1];
    assert prefix[..|prefix| - 1] == entries[..i];
    if IsKept(entries[i]) {
      assert Kept(prefix) == Kept(entries[..i]) + [entries[i].value];
      SaveEachSnoc(Kept(entries[..i]), entries[i].value, uuids, publicDir, absDir);
    }
  }

  /** One more kept file: saved with the next UUID unless the loop has already stopped. */
  lemma SaveEachSnoc(kept: seq<MultipartFile>, mf: MultipartFile, uuids: seq<string>, publicDir: string, absDir: Path)
    requires |uuids| > |kept|
    ensures var prev := SaveEach(kept, uuids, publicDir, absDir);
            var next := SaveEach(kept + [mf], uuids, publicDir, absDir);
            (prev.1 ==> next == prev)
            && (!prev.1 && SavedFor(mf, uuids[|kept|], publicDir, absDir).Err? ==> next == (prev.0, true))
            && (!prev.1 && SavedFor(mf, uuids[|kept|], publicDir, absDir).Ok? ==>
                  next == (prev.0 + [SavedFor(mf, uuids[|kept|], publicDir, absDir).value], false))
  {
    assert (kept + [mf])[..|kept|] == kept;
  }

  lemma KeptAppend(a: seq<Option<MultipartFile>>, b: seq<Option<MultipartFile>>)
    ensures Kept(a + b) == Kept(a) + Kept(b)
    decreases |b|
  {
    if b == [] {
      assert a + b == a;
    } else {
      var n := |b| - 1;
      assert (a + b)[..|a + b| - 1] == a + b[..n];
      KeptAppend(a, b[..n]);
    }
  }

  /** A file is kept exactly when some entry holds it and it is not empty. */
  lemma {:induction false} KeptMembers(files: seq<Option<MultipartFile>>)
    ensures forall m :: m in Kept(files) <==> Some(m) in files && m.size != 0
    decreases |files|
  {
    if files != [] {
      var n := |files| - 1;
      assert files == files[..n] + [files[n]];
      KeptMembers(files[..n]);
    }
  }

  /** A single entry is kept exactly when it is present and not empty. */
  lemma KeptSingle(entry: Option<MultipartFile>)
    ensures Kept([entry]) == if IsKept(entry) then [entry.value] else []
  {
    assert [entry][..0] == [];
  }

  lemma KeptSplit(entries: seq<Option<MultipartFile>>, i: nat)
    requires i <= |entries|
    ensures Kept(entries) == Kept(entries[..i]) + Kept(entries[i..])
    ensures |Kept(entries[..i])| + |Kept(entries[i..])| <= |entries|
  {
    assert entries[..i] + entries[i..] == entries;
    KeptAppend(entries[..i], entries[i..]);
  }

  /** Once a name has stopped the loop, later entries change nothing. */
  lemma {:induction false} SaveEachStopped(xs: seq<MultipartFile>, ys: seq<MultipartFile>, uuids: seq<string>,
                                           publicDir: string, absDir: Path)
    requires |uuids| >= |xs| + |ys|
    requires SaveEach(xs, uuids, publicDir, absDir).1
    ensures SaveEach(xs + ys, uuids, publicDir, absDir) == SaveEach(xs, uuids, publicDir, absDir)
    decreases |ys|
  {
    if ys == [] {
      assert xs + ys == xs;
    } else {
      var n := |ys| - 1;
      assert (xs + ys)[..|xs + ys| - 1] == xs + ys[..n];
      SaveEachStopped(xs, ys[..n], uuids, publicDir, absDir);
    }
  }

  /** The loop stops at the first entry whose name fails, having stored exactly the entries
      before it. */
  lemma {:induction false} SaveEachStopsAtFirstFailure(kept: seq<MultipartFile>, uuids: seq<string>, publicDir: string,
                                                       absDir: Path, k: nat)
    requires |uuids| >= |kept| && k < |kept|
    requires SavedFor(kept[k], uuids[k], publicDir, absDir).Err?
    requires forall j :: 0 <= j < k ==> SavedFor(kept[j], uuids[j], publicDir, absDir).Ok?
    ensures SaveEach(kept, uuids, publicDir, absDir).1
    ensures PathsOf(SaveEach(kept, uuids, publicDir, absDir).0)
            == set j | 0 <= j < k :: SavedFor(kept[j], uuids[j], publicDir, absDir).value.absolutePath
  {
    var saved := SaveEach(kept, uuids, publicDir, absDir);
    SaveEachSaved(kept, uuids, publicDir, absDir);
    assert saved.1 && |saved.0| == k;
    forall j | 0 <= j < k ensures saved.0[j].absolutePath == SavedFor(kept[j], uuids[j], publicDir, absDir).value.absolutePath {
    }
  }

  /** Every file saveAll stores lands inside the day's directory. */
  lemma SaveEachStaysInDir(kept: seq<MultipartFile>, uuids: seq<string>, publicDir: string, absDir: Path)
    requires |uuids| >= |kept|
    requires absDir.absolute && UnixPaths.IsNormal(absDir)
    requires forall k :: 0 <= k < |uuids| ==> IsUuidText(uuids[k])
    ensures forall k :: 0 <= k < |SaveEach(kept, uuids, publicDir, absDir).0| ==>
              UnixPaths.StartsWith(SaveEach(kept, uuids, publicDir, absDir).0[k].absolutePath, absDir)
  {
    var saved := SaveEach(kept, uuids, publicDir, absDir).0;
    SaveEachSaved(kept, uuids, publicDir, absDir);
    forall k | 0 <= k < |saved| ensures UnixPaths.StartsWith(saved[k].absolutePath, absDir) {
      assert SavedFor(kept[k], uuids[k], publicDir, absDir) == Ok(saved[k]);
      StoredFileStaysInDir(absDir, uuids[k], kept[k].originalFilename);
    }
  }

  /** saveAll(files, subDirs...): stores every kept entry under the day's directory, one UUID per
      stored file (`uuids` are the values UUID.randomUUID() returns, in order). The rollback
      cleanup is registered with the `created` list while that list is still empty, so it
      registers nothing. */
  method SaveAll(props: FileStorageProps, txOps: TransactionalFileOps.TransactionalFileOps,
                 disk: TransactionalFileOps.FileSystem,
                 files: Option<seq<Option<MultipartFile>>>, subDirs: seq<string>,
                 today: Calendar.Date, uuids: seq<string>)
    returns (r: Result<seq<SavedFile>, StorageError>)
    requires IsValidProps(props) && Calendar.IsValid(today)
    requires files.Some? ==> |uuids| >= |files.value|
    modifies txOps, disk
    ensures txOps.registered == old(txOps.registered)
    ensures files.None? || files.value == [] ==> r == Ok([]) && disk.files == old(disk.files)
    ensures files.Some? && files.value != [] && EnsureDir(props, DayParts(subDirs, today)).Err? ==>
              r == Err(EnsureDir(props, DayParts(subDirs, today)).error) && disk.files == old(disk.files)
    ensures files.Some? && files.value != [] && EnsureDir(props, DayParts(subDirs, today)).Ok? ==>
              var saved := SaveEach(Kept(files.value), uuids, BuildPublicDir(props, DayParts(subDirs, today)),
                                    EnsureDir(props, DayParts(subDirs, today)).value);
              (r == if saved.1 then Err(InvalidPath) else Ok(saved.0))
              && disk.files == old(disk.files) + PathsOf(saved.0)
  {
    if files.None? || files.value == [] {
      return Ok([]);
    }
    var entries := files.value;
    var parts := DayParts(subDirs, today);
    var publicDir := BuildPublicDir(props, parts);
    var absDirResult := EnsureDir(props, parts);
    if absDirResult.Err? {
      return Err(absDirResult.error);
    }
    var absDir := absDirResult.value;
    ghost var saved := SaveEach(Kept(entries), uuids, publicDir, absDir);
    assert SaveEach(Kept(files.value), uuids, BuildPublicDir(props, DayParts(subDirs, today)),
                    EnsureDir(props, DayParts(subDirs, today)).value) == saved;
    r := StoreUnder(txOps, disk, entries, uuids, publicDir, absDir);
  }

  /** The part of saveAll after the directory checks: the rollback cleanup is registered with the
      still empty `created` list, then every kept entry is stored. */
  method StoreUnder(txOps: TransactionalFileOps.TransactionalFileOps, disk: TransactionalFileOps.FileSystem,
                    entries: seq<Option<MultipartFile>>, uuids: seq<string>, publicDir: string, absDir: Path)
    returns (r: Result<seq<SavedFile>, StorageError>)
    requires |uuids| >= |entries|
    modifies txOps, disk
    ensures txOps.registered == old(txOps.registered)
    ensures var saved := SaveEach(Kept(entries), uuids, publicDir, absDir);
            (r == if saved.1 then Err(InvalidPath) else Ok(saved.0))
            && disk.files == old(disk.files) + PathsOf(saved.0)
  {
    var created := new TransactionalFileOps.FileList([]);
    txOps.RegisterRollbackCleanup(created);
    r := StoreEach(entries, uuids, publicDir, absDir, disk, created);
  }

  /** The loop of saveAll: each kept entry gets the next UUID, is written to the day's directory
      and is added to `created`; a name holding a NUL stops the loop with InvalidPathException. */
  method StoreEach(entries: seq<Option<MultipartFile>>, uuids: seq<string>, publicDir: string, absDir: Path,
                   disk: TransactionalFileOps.FileSystem, created: TransactionalFileOps.FileList)
    returns (r: Result<seq<SavedFile>, StorageError>)
    requires |uuids| >= |entries|
    modifies disk, created
    ensures var saved := SaveEach(Kept(entries), uuids, publicDir, absDir);
            (r == if saved.1 then Err(InvalidPath) else Ok(saved.0))
            && disk.files == old(disk.files) + PathsOf(saved.0)
  {
    ghost var disk0 := disk.files;
    var results: seq<SavedFile> := [];
    var i := 0;
    while i < |entries|
      invariant 0 <= i <= |entries|
      invariant SaveEach(Kept(entries[..i]), uuids, publicDir, absDir) == (results, false)
      invariant disk.files == disk0 + PathsOf(results)
    {
      var entry := entries[i];
      SaveEachStep(entries, i, uuids, publicDir, absDir, results);
      if !IsKept(entry) {
        i := i + 1;
        continue;
      }
      var stored := SavedFor(entry.value, uuids[|results|], publicDir, absDir);
      if stored.Err? {
        StoppedAt(entries, i, uuids, publicDir, absDir, results);
        return Err(InvalidPath);
      }
      var sf := stored.value;
      AddStored(disk0, results, sf);
      disk.files := disk.files + {sf.absolutePath};
      created.Add(sf.absolutePath);
      results := results + [sf];
      i := i + 1;
    }
    assert entries[..i] == entries;
    return Ok(results);
  }

  /** A name that stops the loop stops saveAll: the later entries are never looked at. */
  lemma StoppedAt(entries: seq<Option<MultipartFile>>, i: nat, uuids: seq<string>,
                  publicDir: string, absDir: Path, results: seq<SavedFile>)
    requires i < |entries| <= |uuids|
    requires SaveEach(Kept(entries[..i + 1]), uuids, publicDir, absDir) == (results, true)
    ensures SaveEach(Kept(entries), uuids, publicDir, absDir) == (results, true)
  {
    KeptSplit(entries, i + 1);
    SaveEachStopped(Kept(entries[..i + 1]), Kept(entries[i + 1..]), uuids, publicDir, absDir);
  }

  /** The files stored by saveAll survive a rollback of the surrounding transaction: the only
      cleanup saveAll asks for was registered with an empty list and so never registered. */
  method SaveAllThenRollback(props: FileStorageProps, txOps: TransactionalFileOps.TransactionalFileOps,
                             disk: TransactionalFileOps.FileSystem,
                             files: seq<Option<MultipartFile>>, subDirs: seq<string>,
                             today: Calendar.Date, uuids: seq<string>)
    returns (r: Result<seq<SavedFile>, StorageError>)
    requires IsValidProps(props) && Calendar.IsValid(today)
    requires |uuids| >= |files|
    requires txOps.registered == []
    modifies txOps, disk
    ensures r.Ok? ==> forall k :: 0 <= k < |r.value| ==> r.value[k].absolutePath in disk.files
  {
    r := SaveAll(props, txOps, disk, Some(files), subDirs, today, uuids);
    txOps.Complete(TransactionalFileOps.RolledBack, disk, {});
  }

  /** deleteAfterCommit(absoluteFiles): nothing for a null or empty collection, otherwise one
      after-commit deletion of a list holding those files. */
  method DeleteAfterCommit(txOps: TransactionalFileOps.TransactionalFileOps, absoluteFiles: Option<seq<Path>>)
    modifies txOps
    ensures absoluteFiles.None? || absoluteFiles.value == [] ==> txOps.registered == old(txOps.registered)
    ensures absoluteFiles.Some? && absoluteFiles.value != [] ==>
              |txOps.registered| == |old(txOps.registered)| + 1
              && txOps.registered[..|old(txOps.registered)|] == old(txOps.registered)
              && var last := txOps.registered[|txOps.registered| - 1];
                 last.DeleteAfterCommit? && fresh(last.toDelete) && last.toDelete.items == absoluteFiles.value
  {
    if absoluteFiles.None? || absoluteFiles.value == [] {
      return;
    }
    var files := new TransactionalFileOps.FileList(absoluteFiles.value);
    txOps.RegisterDeleteAfterCommit(files);
  }
}
