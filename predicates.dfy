/**
 * The predicates the `Condition` factories build (core.py, the static methods
 * of `Condition`). Each closure of the source becomes one constructor of
 * `Predicate` holding what the closure captured; `Holds` is the closure body.
 */
module Predicates {

  import opened Options
  import opened Paths

  const SecondsPerDay := 86400

  /** What `path.stat()` reports; timestamps are whole seconds. */
  datatype Stat = Stat(size: int, mtime: int, ctime: int)

  /** What a predicate is applied to: the path and the result of stat on it
      (None when stat raises OSError). */
  datatype Candidate = Candidate(path: Path, stat: Option<Stat>)

  datatype Predicate =
    | Extension(normalized: set<string>)
    | SizeGreaterThan(sizeBytes: int)
    | SizeLessThan(sizeBytes: int)
    | SizeBetween(minBytes: int, maxBytes: int)
    | InDirectory(dirPaths: set<Path>, dirNames: set<string>)
    | NotInDirectory(dirPaths: set<Path>, dirNames: set<string>)
    | PathMatches(search: string -> bool)
    | NameContains(substring: string, caseSensitive: bool)
    | NameMatches(search: string -> bool)
    | NameEquals(name: string, caseSensitive: bool)
    | ModifiedSince(cutoff: int)
    | CreatedSince(cutoff: int)

  /** The predicate closure applied to a candidate. */
  function Holds(p: Predicate, c: Candidate): bool
  {
    match p
    case Extension(normalized) => Lower(Suffix(Name(c.path))) in normalized
    case SizeGreaterThan(n) => c.stat.Some? && c.stat.value.size > n
    case SizeLessThan(n) => c.stat.Some? && c.stat.value.size < n
    case SizeBetween(lo, hi) => c.stat.Some? && lo <= c.stat.value.size <= hi
    case InDirectory(dirPaths, dirNames) => UnderSome(dirPaths, c.path) || ParentNamed(c.path, dirNames)
    case NotInDirectory(dirPaths, dirNames) => !(UnderSome(dirPaths, c.path) || ParentNamed(c.path, dirNames))
    case PathMatches(search) => search(Str(c.path))
    case NameContains(sub, cs) => IsSubstring(sub, if cs then Name(c.path) else Lower(Name(c.path)))
    case NameMatches(search) => search(Name(c.path))
    case NameEquals(name, cs) => (if cs then Name(c.path) else Lower(Name(c.path))) == name
    case ModifiedSince(cutoff) => c.stat.Some? && c.stat.value.mtime >= cutoff
    case CreatedSince(cutoff) => c.stat.Some? && c.stat.value.ctime >= cutoff
  }

  // ===== extension =====

  /** One argument of `extension`, lower-cased and given a leading dot. */
  function NormalizeExt(ext: string): (r: string)
    ensures |r| >= 1 && r[0] == '.' && IsLower(r)
  {
    var e := Lower(ext);
    LowerIsLower(ext);
    if |e| > 0 && e[0] == '.' then e else "." + e
  }

  function NormalizedSet(exts: seq<string>): set<string>
  {
    set e | e in exts :: NormalizeExt(e)
  }

  /** `Condition.extension(*exts)`. */
  function ExtensionOf(exts: seq<string>): Predicate
  {
    Extension(NormalizedSet(exts))
  }

  lemma NormalizedSetSnoc(exts: seq<string>, e: string)
    ensures NormalizedSet(exts + [e]) == NormalizedSet(exts) + {NormalizeExt(e)}
  {
    assert forall x :: x in exts + [e] <==> x in exts || x == e;
  }

  /** The loop of `extension` that builds the normalised set. */
  method NormalizeExtensions(exts: seq<string>) returns (normalized: set<string>)
    ensures normalized == NormalizedSet(exts)
    ensures forall x :: x in normalized <==> exists e :: e in exts && NormalizeExt(e) == x
  {
    normalized := {};
    for k := 0 to |exts|
      invariant normalized == NormalizedSet(exts[..k])
    {
      var ext := Lower(exts[k]);
      if !(|ext| > 0 && ext[0] == '.') {
        ext := "." + ext;
      }
      assert ext == NormalizeExt(exts[k]);
      assert exts[..k + 1] == exts[..k] + [exts[k]];
      NormalizedSetSnoc(exts[..k], exts[k]);
      normalized := normalized + {ext};
    }
    assert exts[..|exts|] == exts;
  }

  /** Normalising is idempotent, and it ignores letter case and a missing dot:
      "txt", ".txt" and ".TXT" all normalise alike. */
  lemma NormalizeExtCanonical(ext: string)
    ensures NormalizeExt(NormalizeExt(ext)) == NormalizeExt(ext)
    ensures NormalizeExt(Lower(ext)) == NormalizeExt(ext)
    ensures (ext == [] || ext[0] != '.') ==> NormalizeExt("." + ext) == NormalizeExt(ext)
  {
    var n := NormalizeExt(ext);
    LowerIsLower(n);
    LowerIdempotent(ext);
    LowerAppend(".", ext);
    assert Lower(".") == ".";
  }

  /** `extension(...)` accepts a path exactly when its lower-cased suffix is the
      normal form of some argument; a path without a suffix is never accepted. */
  lemma ExtensionOfIff(exts: seq<string>, c: Candidate)
    ensures Holds(ExtensionOf(exts), c) <==>
      exists e :: e in exts && NormalizeExt(e) == Lower(Suffix(Name(c.path)))
    ensures Suffix(Name(c.path)) == "" ==> !Holds(ExtensionOf(exts), c)
  {
    if Suffix(Name(c.path)) == "" {
      assert Lower(Suffix(Name(c.path))) == "";
    }
  }

  /** Two argument lists with the same normal forms give the same predicate. */
  lemma ExtensionOfDependsOnNormalForms(exts1: seq<string>, exts2: seq<string>, c: Candidate)
    requires forall e :: e in exts1 ==> exists f :: f in exts2 && NormalizeExt(f) == NormalizeExt(e)
    requires forall f :: f in exts2 ==> exists e :: e in exts1 && NormalizeExt(e) == NormalizeExt(f)
    ensures Holds(ExtensionOf(exts1), c) == Holds(ExtensionOf(exts2), c)
  {
    assert NormalizedSet(exts1) == NormalizedSet(exts2);
  }

  // ===== media-type shortcuts =====

  const ImageExtensions: seq<string> := [".png", ".jpg", ".jpeg", ".gif", ".bmp", ".svg", ".webp", ".tiff", ".ico"]
  const VideoExtensions: seq<string> := [".mp4", ".avi", ".mov", ".mkv", ".flv", ".wmv", ".webm", ".m4v", ".mpg", ".mpeg"]
  const AudioExtensions: seq<string> := [".mp3", ".wav", ".flac", ".aac", ".ogg", ".wma", ".m4a", ".opus"]
  const DocumentExtensions: seq<string> := [".pdf", ".doc", ".docx", ".txt", ".odt", ".rtf", ".md", ".markdown"]
  const ArchiveExtensions: seq<string> := [".zip", ".tar", ".gz", ".bz2", ".7z", ".rar", ".xz", ".tgz"]

  function IsImage(): Predicate { ExtensionOf(ImageExtensions) }
  function IsVideo(): Predicate { ExtensionOf(VideoExtensions) }
  function IsAudio(): Predicate { ExtensionOf(AudioExtensions) }
  function IsDocument(): Predicate { ExtensionOf(DocumentExtensions) }
  function IsArchive(): Predicate { ExtensionOf(ArchiveExtensions) }

  /** An extension already in normal form: a leading dot and no upper case. */
  predicate IsNormal(e: string)
  {
    |e| > 0 && e[0] == '.' && IsLower(e)
  }

  predicate AllNormal(exts: seq<string>)
  {
    forall e :: e in exts ==> IsNormal(e)
  }

  lemma ImageListNormal()
    ensures AllNormal(ImageExtensions)
  {
    assert IsNormal(".png") && IsNormal(".jpg") && IsNormal(".jpeg") && IsNormal(".gif") && IsNormal(".bmp");
    assert IsNormal(".svg") && IsNormal(".webp") && IsNormal(".tiff") && IsNormal(".ico");
  }

  lemma VideoListNormal()
    ensures AllNormal(VideoExtensions)
  {
    assert IsNormal(".mp4") && IsNormal(".avi") && IsNormal(".mov") && IsNormal(".mkv") && IsNormal(".flv");
    assert IsNormal(".wmv") && IsNormal(".webm") && IsNormal(".m4v") && IsNormal(".mpg") && IsNormal(".mpeg");
  }

  lemma AudioListNormal()
    ensures AllNormal(AudioExtensions)
  {
    assert IsNormal(".mp3") && IsNormal(".wav") && IsNormal(".flac") && IsNormal(".aac");
    assert IsNormal(".ogg") && IsNormal(".wma") && IsNormal(".m4a") && IsNormal(".opus");
  }

  lemma DocumentListNormal()
    ensures AllNormal(DocumentExtensions)
  {
    assert IsNormal(".pdf") && IsNormal(".doc") && IsNormal(".docx") && IsNormal(".txt");
    assert IsNormal(".odt") && IsNormal(".rtf") && IsNormal(".md") && IsNormal(".markdown");
  }

  lemma ArchiveListNormal()
    ensures AllNormal(ArchiveExtensions)
  {
    assert IsNormal(".zip") && IsNormal(".tar") && IsNormal(".gz") && IsNormal(".bz2");
    assert IsNormal(".7z") && IsNormal(".rar") && IsNormal(".xz") && IsNormal(".tgz");
  }

  lemma {:induction false} NormalFormsAreFixed(exts: seq<string>, x: string)
    requires AllNormal(exts)
    ensures x in NormalizedSet(exts) <==> x in exts
  {
    forall e | e in exts
      ensures NormalizeExt(e) == e
    {
      LowerIsLower(e);
    }
  }

  /** Each media shortcut accepts a path exactly when its lower-cased suffix is in the fixed list. */
  lemma MediaShortcutsIff(c: Candidate)
    ensures Holds(IsImage(), c) <==> Lower(Suffix(Name(c.path))) in ImageExtensions
    ensures Holds(IsVideo(), c) <==> Lower(Suffix(Name(c.path))) in VideoExtensions
    ensures Holds(IsAudio(), c) <==> Lower(Suffix(Name(c.path))) in AudioExtensions
    ensures Holds(IsDocument(), c) <==> Lower(Suffix(Name(c.path))) in DocumentExtensions
    ensures Holds(IsArchive(), c) <==> Lower(Suffix(Name(c.path))) in ArchiveExtensions
  {
    var x := Lower(Suffix(Name(c.path)));
    ImageListNormal();
    VideoListNormal();
    AudioListNormal();
    DocumentListNormal();
    ArchiveListNormal();
    NormalFormsAreFixed(ImageExtensions, x);
    NormalFormsAreFixed(VideoExtensions, x);
    NormalFormsAreFixed(AudioExtensions, x);
    NormalFormsAreFixed(DocumentExtensions, x);
    NormalFormsAreFixed(ArchiveExtensions, x);
  }

  // ===== in_directory / not_in_directory =====

  /** `resolved_path.relative_to(d)` succeeds for some `d`: the path is `d` or lies under it. */
  predicate UnderSome(dirPaths: set<Path>, p: Path)
  {
    exists d :: d in dirPaths && d <= p
  }

  /** `any(parent.name in dir_names for parent in p.parents)`, nearest parent first. */
  predicate ParentNamed(p: Path, dirNames: set<string>)
    decreases |p|
  {
    p != [] && (Name(Parent(p)) in dirNames || ParentNamed(Parent(p), dirNames))
  }

  /** Some proper ancestor of `p` (the root "/" included, whose name is "") is named `a`. */
  predicate AncestorNamed(p: Path, a: string)
  {
    exists i :: 0 <= i < |p| && Name(p[..i]) == a
  }

  lemma {:induction false} ParentNamedIff(p: Path, dirNames: set<string>)
    ensures ParentNamed(p, dirNames) <==> exists a :: a in dirNames && AncestorNamed(p, a)
    decreases |p|
  {
    if p != [] {
      var q := Parent(p);
      ParentNamedIff(q, dirNames);
      assert q == p[..|p| - 1];
      forall i | 0 <= i < |q|
        ensures q[..i] == p[..i]
      {
      }
      if ParentNamed(p, dirNames) {
        if Name(q) in dirNames {
          assert AncestorNamed(p, Name(q)) by {
            assert Name(p[..|p| - 1]) == Name(q);
          }
        } else {
          var a :| a in dirNames && AncestorNamed(q, a);
          var i :| 0 <= i < |q| && Name(q[..i]) == a;
          assert Name(p[..i]) == a;
        }
      }
      if exists a :: a in dirNames && AncestorNamed(p, a) {
        var a :| a in dirNames && AncestorNamed(p, a);
        var i :| 0 <= i < |p| && Name(p[..i]) == a;
        if i < |q| {
          assert Name(q[..i]) == a;
          assert AncestorNamed(q, a);
        } else {
          assert p[..i] == q;
        }
      }
    }
  }

  /** The resolved absolute arguments of `in_directory`. */
  function AbsoluteArgs(directories: seq<string>): set<Path>
  {
    set d | d in directories && IsAbsolute(d) :: Components(d)
  }

  /** The arguments `in_directory` treats as directory names. */
  function NameArgs(directories: seq<string>): set<string>
  {
    set d | d in directories && !IsAbsolute(d)
  }

  /** `Condition.in_directory(*directories)`. */
  function InDirectoryOf(directories: seq<string>): Predicate
  {
    InDirectory(AbsoluteArgs(directories), NameArgs(directories))
  }

  /** `Condition.not_in_directory(*directories)`. */
  function NotInDirectoryOf(directories: seq<string>): Predicate
  {
    NotInDirectory(AbsoluteArgs(directories), NameArgs(directories))
  }

  /** The loop of `in_directory` that sorts the arguments into paths and names. */
  method SplitDirectoryArgs(directories: seq<string>) returns (dirPaths: set<Path>, dirNames: set<string>)
    ensures forall d :: d in dirPaths <==> exists a :: a in directories && IsAbsolute(a) && Components(a) == d
    ensures forall n :: n in dirNames <==> n in directories && !IsAbsolute(n)
  {
    dirPaths, dirNames := {}, {};
    for k := 0 to |directories|
      invariant forall d :: d in dirPaths <==> exists a :: a in directories[..k] && IsAbsolute(a) && Components(a) == d
      invariant forall n :: n in dirNames <==> n in directories[..k] && !IsAbsolute(n)
    {
      var d := directories[k];
      assert directories[..k + 1] == directories[..k] + [d];
      if IsAbsolute(d) {
        dirPaths := dirPaths + {Components(d)};
      } else {
        dirNames := dirNames + {d};
      }
    }
    assert directories[..|directories|] == directories;
  }

  /** `in_directory(args)` holds exactly when some absolute argument is the path or
      one of its ancestors, or some other argument names a proper ancestor;
      `not_in_directory(args)` is its negation. */
  lemma InDirectoryOfIff(directories: seq<string>, c: Candidate)
    ensures Holds(InDirectoryOf(directories), c) <==>
      exists a :: a in directories &&
        ((IsAbsolute(a) && Components(a) <= c.path) || (!IsAbsolute(a) && AncestorNamed(c.path, a)))
    ensures Holds(NotInDirectoryOf(directories), c) == !Holds(InDirectoryOf(directories), c)
  {
    ParentNamedIff(c.path, NameArgs(directories));
    if UnderSome(AbsoluteArgs(directories), c.path) {
      var d :| d in AbsoluteArgs(directories) && d <= c.path;
      var a :| a in directories && IsAbsolute(a) && Components(a) == d;
    }
    if exists a :: a in directories &&
        ((IsAbsolute(a) && Components(a) <= c.path) || (!IsAbsolute(a) && AncestorNamed(c.path, a)))
    {
      var a :| a in directories &&
        ((IsAbsolute(a) && Components(a) <= c.path) || (!IsAbsolute(a) && AncestorNamed(c.path, a)));
      if IsAbsolute(a) {
        assert Components(a) in AbsoluteArgs(directories);
      } else {
        assert a in NameArgs(directories);
      }
    }
  }

  /** Writing a directory's path as the argument selects everything under it. */
  lemma InDirectoryOfPathString(dir: Path, c: Candidate)
    requires WellFormed(dir) && dir <= c.path
    ensures Holds(InDirectoryOf([Str(dir)]), c)
  {
    StrRoundTrip(dir);
    assert Components(Str(dir)) in AbsoluteArgs([Str(dir)]);
  }

  // ===== name_contains / name_equals / name_matches / path_matches =====

  /** `Condition.name_contains(substring, case_sensitive)`: the argument is
      lower-cased once, at construction, unless the match is case-sensitive. */
  function NameContainsOf(substring: string, caseSensitive: bool): Predicate
  {
    NameContains(if caseSensitive then substring else Lower(substring), caseSensitive)
  }

  /** `Condition.name_equals(name, case_sensitive)`. */
  function NameEqualsOf(name: string, caseSensitive: bool): Predicate
  {
    NameEquals(if caseSensitive then name else Lower(name), caseSensitive)
  }

  /** The case-insensitive forms compare lower-cased argument and lower-cased
      name, so the case of neither matters. */
  lemma NameConditionsCase(s: string, c: Candidate, c': Candidate)
    requires Lower(Name(c.path)) == Lower(Name(c'.path))
    ensures Holds(NameContainsOf(s, false), c) == Holds(NameContainsOf(Lower(s), false), c')
    ensures Holds(NameEqualsOf(s, false), c) == Holds(NameEqualsOf(Lower(s), false), c')
    ensures Holds(NameEqualsOf(s, false), c) <==> Lower(Name(c.path)) == Lower(s)
  {
    LowerIdempotent(s);
  }

  /** Every case-sensitive match is also a case-insensitive one. */
  lemma NameSensitiveImpliesInsensitive(s: string, c: Candidate)
    ensures Holds(NameContainsOf(s, true), c) ==> Holds(NameContainsOf(s, false), c)
    ensures Holds(NameEqualsOf(s, true), c) ==> Holds(NameEqualsOf(s, false), c)
  {
    if Holds(NameContainsOf(s, true), c) {
      LowerKeepsSubstring(s, Name(c.path));
    }
  }

  // ===== modified_within_days / created_within_days =====

  /** `Condition.modified_within_days(days)` built at time `now`: the cutoff is fixed here. */
  function ModifiedWithinDays(days: int, now: int): Predicate
  {
    ModifiedSince(now - days * SecondsPerDay)
  }

  /** `Condition.created_within_days(days)` built at time `now`. */
  function CreatedWithinDays(days: int, now: int): Predicate
  {
    CreatedSince(now - days * SecondsPerDay)
  }

  /** The time windows include their cutoff, widen with `days`, and reject a file whose stat fails. */
  lemma WithinDaysWindows(days: int, wider: int, now: int, c: Candidate)
    requires days <= wider
    ensures Holds(ModifiedWithinDays(days, now), c) <==> c.stat.Some? && now - c.stat.value.mtime <= days * SecondsPerDay
    ensures Holds(CreatedWithinDays(days, now), c) <==> c.stat.Some? && now - c.stat.value.ctime <= days * SecondsPerDay
    ensures Holds(ModifiedWithinDays(days, now), c) ==> Holds(ModifiedWithinDays(wider, now), c)
    ensures Holds(CreatedWithinDays(days, now), c) ==> Holds(CreatedWithinDays(wider, now), c)
  {
  }

  // ===== size_greater_than / size_less_than / size_between =====

  /** `size_between` is inclusive at both ends: it is the conjunction of the
      strict bounds one byte outside; and every size and time predicate
      rejects a file whose stat fails. */
  lemma SizeBounds(lo: int, hi: int, cutoff: int, c: Candidate)
    ensures Holds(SizeBetween(lo, hi), c) == (Holds(SizeGreaterThan(lo - 1), c) && Holds(SizeLessThan(hi + 1), c))
    ensures c.stat.None? ==>
      !Holds(SizeGreaterThan(lo), c) && !Holds(SizeLessThan(hi), c) && !Holds(SizeBetween(lo, hi), c) &&
      !Holds(ModifiedSince(cutoff), c) && !Holds(CreatedSince(cutoff), c)
  {
  }
}
