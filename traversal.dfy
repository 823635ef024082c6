/**
 * `FileFinder._walk_directory` (core.py): the directory tree, what one scan of
 * a directory keeps, the sequence the walk yields, and an iterator that
 * produces that sequence one file at a time from an explicit stack of
 * directory frames.
 */
module Traversal {

  import opened Options
  import opened Paths
  import opened Predicates

  /**
   * One directory entry as `os.scandir` reports it. `File` is an entry for
   * which `is_file` holds and `Dir` one for which `is_dir` holds (through the
   * link when the entry is a followed symbolic link); `Other` is neither (a
   * device, a socket, a dangling link, or an entry whose type query fails).
   * `stat` is what stat on the file's path returns; `listable` says whether
   * `os.scandir` on the directory succeeds.
   */
  datatype Entry =
    | File(name: string, stat: Option<Stat>, symlink: bool)
    | Dir(name: string, symlink: bool, listable: bool, children: seq<Entry>)
    | Other(name: string, symlink: bool)

  /** Symbolic links are skipped unless they are followed. */
  predicate Skipped(e: Entry, follow: bool)
  {
    e.symlink && !follow
  }

  /** The `files` list one scan of a directory with entries `cs` builds. */
  function KeptFiles(dir: Path, cs: seq<Entry>, follow: bool): seq<Candidate>
  {
    if cs == [] then []
    else
      var e := cs[|cs| - 1];
      KeptFiles(dir, cs[..|cs| - 1], follow) +
      (if !Skipped(e, follow) && e.File? then [Candidate(dir + [e.name], e.stat)] else [])
  }

  /** The `dirs` list one scan builds; empty when the walk is not recursive. */
  function KeptDirs(cs: seq<Entry>, follow: bool, recursive: bool): seq<Entry>
  {
    if cs == [] then []
    else
      var e := cs[|cs| - 1];
      KeptDirs(cs[..|cs| - 1], follow, recursive) +
      (if !Skipped(e, follow) && e.Dir? && recursive then [e] else [])
  }

  /**
   * What `_walk_directory(dir, recursive, depth)` yields for the directory
   * entry `e` at path `dir`: nothing beyond the depth limit or when the
   * directory cannot be listed; otherwise the files it lists, then the walk
   * of each subdirectory it keeps, at the next depth and always recursive.
   */
  function Walk(dir: Path, e: Entry, depth: int, recursive: bool, follow: bool, maxDepth: Option<int>): seq<Candidate>
    decreases e
  {
    if maxDepth.Some? && depth > maxDepth.value then []
    else if !e.Dir? || !e.listable then []
    else KeptFiles(dir, e.children, follow) + WalkSubdirs(dir, e.children, depth + 1, recursive, follow, maxDepth)
  }

  /** The walks of the subdirectories among the entries `cs` of `dir`, in listing order. */
  function WalkSubdirs(dir: Path, cs: seq<Entry>, depth: int, recursive: bool, follow: bool, maxDepth: Option<int>): seq<Candidate>
    decreases cs
  {
    if cs == [] then []
    else
      var e := cs[|cs| - 1];
      WalkSubdirs(dir, cs[..|cs| - 1], depth, recursive, follow, maxDepth) +
      (if !Skipped(e, follow) && e.Dir? && recursive then Walk(dir + [e.name], e, depth, true, follow, maxDepth) else [])
  }

  /** The walks of the directories `ds` of `dir`, one after another. */
  function WalkList(dir: Path, ds: seq<Entry>, depth: int, follow: bool, maxDepth: Option<int>): seq<Candidate>
  {
    if ds == [] then []
    else
      var d := ds[|ds| - 1];
      WalkList(dir, ds[..|ds| - 1], depth, follow, maxDepth) + Walk(dir + [d.name], d, depth, true, follow, maxDepth)
  }

  lemma {:induction false} WalkListAppend(dir: Path, a: seq<Entry>, b: seq<Entry>, depth: int, follow: bool, maxDepth: Option<int>)
    ensures WalkList(dir, a + b, depth, follow, maxDepth) == WalkList(dir, a, depth, follow, maxDepth) + WalkList(dir, b, depth, follow, maxDepth)
    decreases |b|
  {
    if b == [] {
      assert a + b == a;
    } else {
      assert (a + b)[..|a + b| - 1] == a + b[..|b| - 1];
      WalkListAppend(dir, a, b[..|b| - 1], depth, follow, maxDepth);
    }
  }

  /** Walking the subdirectories found among `cs` is walking the `dirs` list a scan of `cs` builds. */
  lemma {:induction false} WalkSubdirsIsWalkList(dir: Path, cs: seq<Entry>, depth: int, recursive: bool, follow: bool, maxDepth: Option<int>)
    ensures WalkSubdirs(dir, cs, depth, recursive, follow, maxDepth) == WalkList(dir, KeptDirs(cs, follow, recursive), depth, follow, maxDepth)
  {
    if cs != [] {
      var e := cs[|cs| - 1];
      WalkSubdirsIsWalkList(dir, cs[..|cs| - 1], depth, recursive, follow, maxDepth);
      var tail := if !Skipped(e, follow) && e.Dir? && recursive then [e] else [];
      WalkListAppend(dir, KeptDirs(cs[..|cs| - 1], follow, recursive), tail, depth, follow, maxDepth);
      if tail != [] {
        assert WalkList(dir, tail, depth, follow, maxDepth) == WalkList(dir, [], depth, follow, maxDepth) + Walk(dir + [e.name], e, depth, true, follow, maxDepth);
      }
    }
  }

  /** The listing loop of `_walk_directory`: sort the entries into files and
      subdirectories, skipping symbolic links unless they are followed. */
  method Scan(dir: Path, cs: seq<Entry>, recursive: bool, follow: bool) returns (files: seq<Candidate>, dirs: seq<Entry>)
    ensures files == KeptFiles(dir, cs, follow)
    ensures dirs == KeptDirs(cs, follow, recursive)
  {
    files, dirs := [], [];
    for k := 0 to |cs|
      invariant files == KeptFiles(dir, cs[..k], follow)
      invariant dirs == KeptDirs(cs[..k], follow, recursive)
    {
      var entry := cs[k];
      assert cs[..k + 1][..k] == cs[..k];
      if entry.symlink && !follow {
        continue;
      }
      if entry.File? {
        files := files + [Candidate(dir + [entry.name], entry.stat)];
      } else if entry.Dir? && recursive {
        dirs := dirs + [entry];
      }
    }
    assert cs[..|cs|] == cs;
  }

  /** Exactly the listed regular files that are not skipped links become candidates, each at its path inside `dir`. */
  lemma {:induction false} KeptFilesIff(dir: Path, cs: seq<Entry>, follow: bool, c: Candidate)
    ensures c in KeptFiles(dir, cs, follow) <==>
            exists e :: e in cs && e.File? && !Skipped(e, follow) && c == Candidate(dir + [e.name], e.stat)
  {
    if cs != [] {
      var e := cs[|cs| - 1];
      KeptFilesIff(dir, cs[..|cs| - 1], follow, c);
      assert cs == cs[..|cs| - 1] + [e];
    }
  }

  /**
   * Everything a walk yields lies strictly below the walked directory, and
   * under a depth limit at most `maxDepth - depth + 1` components below it.
   */
  lemma {:induction false} WalkStaysBelow(dir: Path, e: Entry, depth: int, recursive: bool, follow: bool, maxDepth: Option<int>)
    ensures forall c :: c in Walk(dir, e, depth, recursive, follow, maxDepth) ==>
              dir < c.path && (maxDepth.Some? ==> |c.path| <= |dir| + maxDepth.value - depth + 1)
    decreases e
  {
    if !(maxDepth.Some? && depth > maxDepth.value) && e.Dir? && e.listable {
      forall c | c in KeptFiles(dir, e.children, follow)
        ensures dir < c.path && |c.path| == |dir| + 1
      {
        KeptFilesIff(dir, e.children, follow, c);
      }
      SubdirsStayBelow(dir, e.children, depth + 1, recursive, follow, maxDepth);
    }
  }

  /** What the subdirectories of `dir` contribute lies at least two components below `dir`. */
  lemma {:induction false} SubdirsStayBelow(dir: Path, cs: seq<Entry>, depth: int, recursive: bool, follow: bool, maxDepth: Option<int>)
    ensures forall c :: c in WalkSubdirs(dir, cs, depth, recursive, follow, maxDepth) ==>
              dir < c.path && |dir| + 2 <= |c.path| && (maxDepth.Some? ==> |c.path| <= |dir| + maxDepth.value - depth + 2)
    decreases cs
  {
    if cs != [] {
      var e := cs[|cs| - 1];
      SubdirsStayBelow(dir, cs[..|cs| - 1], depth, recursive, follow, maxDepth);
      if !Skipped(e, follow) && e.Dir? && recursive {
        var sub := dir + [e.name];
        WalkStaysBelow(sub, e, depth, true, follow, maxDepth);
        forall c | c in Walk(sub, e, depth, true, follow, maxDepth)
          ensures dir < c.path
        {
          assert c.path[..|dir|] == sub[..|dir|] == dir;
        }
      }
    }
  }

  /** A directory's own files are yielded before anything found in its subdirectories. */
  lemma FilesFirst(dir: Path, e: Entry, depth: int, recursive: bool, follow: bool, maxDepth: Option<int>)
    ensures var w := Walk(dir, e, depth, recursive, follow, maxDepth);
            forall i, j :: 0 <= i < j < |w| && |w[j].path| == |dir| + 1 ==> |w[i].path| == |dir| + 1
  {
    var w := Walk(dir, e, depth, recursive, follow, maxDepth);
    if !(maxDepth.Some? && depth > maxDepth.value) && e.Dir? && e.listable {
      var files := KeptFiles(dir, e.children, follow);
      var rest := WalkSubdirs(dir, e.children, depth + 1, recursive, follow, maxDepth);
      forall c | c in files
        ensures |c.path| == |dir| + 1
      {
        KeptFilesIff(dir, e.children, follow, c);
      }
      SubdirsStayBelow(dir, e.children, depth + 1, recursive, follow, maxDepth);
      forall i, j | 0 <= i < j < |w| && |w[j].path| == |dir| + 1
        ensures |w[i].path| == |dir| + 1
      {
        assert j < |files|;
        assert w[i] == files[i];
      }
    }
  }

  lemma {:induction false} WalkSubdirsAppend(dir: Path, a: seq<Entry>, b: seq<Entry>, depth: int, recursive: bool, follow: bool, maxDepth: Option<int>)
    ensures WalkSubdirs(dir, a + b, depth, recursive, follow, maxDepth) ==
            WalkSubdirs(dir, a, depth, recursive, follow, maxDepth) + WalkSubdirs(dir, b, depth, recursive, follow, maxDepth)
    decreases |b|
  {
    if b == [] {
      assert a + b == a;
    } else {
      assert (a + b)[..|a + b| - 1] == a + b[..|b| - 1];
      WalkSubdirsAppend(dir, a, b[..|b| - 1], depth, recursive, follow, maxDepth);
    }
  }

  /** A subdirectory that cannot be listed contributes nothing, and its siblings are walked as if it were absent. */
  lemma UnlistableSibling(dir: Path, a: seq<Entry>, d: Entry, b: seq<Entry>, depth: int, recursive: bool, follow: bool, maxDepth: Option<int>)
    requires d.Dir? && !d.listable
    ensures WalkSubdirs(dir, a + [d] + b, depth, recursive, follow, maxDepth) == WalkSubdirs(dir, a + b, depth, recursive, follow, maxDepth)
  {
    WalkSubdirsAppend(dir, a + [d], b, depth, recursive, follow, maxDepth);
    WalkSubdirsAppend(dir, a, [d], depth, recursive, follow, maxDepth);
    WalkSubdirsAppend(dir, a, b, depth, recursive, follow, maxDepth);
    assert [d][..0] == [];
  }

  lemma {:induction false} FlatSubdirs(dir: Path, cs: seq<Entry>, depth: int, follow: bool, maxDepth: Option<int>)
    ensures WalkSubdirs(dir, cs, depth, false, follow, maxDepth) == []
  {
    if cs != [] {
      FlatSubdirs(dir, cs[..|cs| - 1], depth, follow, maxDepth);
    }
  }

  /** A non-recursive walk yields only the directory's own files. */
  lemma NonRecursiveWalk(dir: Path, e: Entry, depth: int, follow: bool, maxDepth: Option<int>)
    ensures Walk(dir, e, depth, false, follow, maxDepth) ==
            if (maxDepth.None? || depth <= maxDepth.value) && e.Dir? && e.listable then KeptFiles(dir, e.children, follow) else []
  {
    if e.Dir? {
      FlatSubdirs(dir, e.children, depth + 1, follow, maxDepth);
    }
  }

  lemma {:induction false} SubdirsBeyondLimit(dir: Path, cs: seq<Entry>, depth: int, recursive: bool, follow: bool, limit: int)
    requires depth > limit
    ensures WalkSubdirs(dir, cs, depth, recursive, follow, Some(limit)) == []
  {
    if cs != [] {
      SubdirsBeyondLimit(dir, cs[..|cs| - 1], depth, recursive, follow, limit);
    }
  }

  /** A walk started at the depth limit (for the root: `max_depth=0`) yields only the directory's own files. */
  lemma WalkAtLimit(dir: Path, e: Entry, depth: int, recursive: bool, follow: bool)
    ensures Walk(dir, e, depth, recursive, follow, Some(depth)) ==
            if e.Dir? && e.listable then KeptFiles(dir, e.children, follow) else []
  {
    if e.Dir? {
      SubdirsBeyondLimit(dir, e.children, depth + 1, recursive, follow, depth);
    }
  }

  /** The tree with every symbolic link below `e` removed. */
  function Prune(e: Entry): (r: Entry)
    ensures r.name == e.name && r.symlink == e.symlink && r.Dir? == e.Dir? && r.File? == e.File?
    ensures r.File? ==> r == e
    ensures r.Dir? ==> r.listable == e.listable
    decreases e
  {
    if e.Dir? then e.(children := PruneAll(e.children)) else e
  }

  function PruneAll(cs: seq<Entry>): seq<Entry>
    decreases cs
  {
    if cs == [] then []
    else
      var e := cs[|cs| - 1];
      PruneAll(cs[..|cs| - 1]) + (if e.symlink then [] else [Prune(e)])
  }

  /** No entry below `e` is a symbolic link. */
  predicate LinkFree(e: Entry)
    decreases e
  {
    e.Dir? ==> forall k :: 0 <= k < |e.children| ==> !e.children[k].symlink && LinkFree(e.children[k])
  }

  lemma {:induction false} PruneIsLinkFree(e: Entry)
    ensures LinkFree(Prune(e))
    decreases e
  {
    if e.Dir? {
      PruneAllIsLinkFree(e.children);
    }
  }

  lemma {:induction false} PruneAllIsLinkFree(cs: seq<Entry>)
    ensures forall k :: 0 <= k < |PruneAll(cs)| ==> !PruneAll(cs)[k].symlink && LinkFree(PruneAll(cs)[k])
    decreases cs
  {
    if cs != [] {
      var e := cs[|cs| - 1];
      PruneAllIsLinkFree(cs[..|cs| - 1]);
      if !e.symlink {
        PruneIsLinkFree(e);
      }
    }
  }

  /**
   * When links are not followed, a walk is the walk of the same tree with
   * every symbolic link removed: no link, and nothing reached through one,
   * contributes to what is yielded.
   */
  lemma {:induction false} WalkIgnoresLinks(dir: Path, e: Entry, depth: int, recursive: bool, maxDepth: Option<int>)
    ensures Walk(dir, e, depth, recursive, false, maxDepth) == Walk(dir, Prune(e), depth, recursive, false, maxDepth)
    decreases e
  {
    if e.Dir? {
      FilesIgnoreLinks(dir, e.children);
      SubdirsIgnoreLinks(dir, e.children, depth + 1, recursive, maxDepth);
    }
  }

  lemma {:induction false} FilesIgnoreLinks(dir: Path, cs: seq<Entry>)
    ensures KeptFiles(dir, cs, false) == KeptFiles(dir, PruneAll(cs), false)
  {
    if cs != [] {
      var e := cs[|cs| - 1];
      FilesIgnoreLinks(dir, cs[..|cs| - 1]);
      var pruned := PruneAll(cs[..|cs| - 1]);
      if !e.symlink {
        assert PruneAll(cs)[..|PruneAll(cs)| - 1] == pruned;
      } else {
        assert PruneAll(cs) == pruned;
      }
    }
  }

  lemma {:induction false} SubdirsIgnoreLinks(dir: Path, cs: seq<Entry>, depth: int, recursive: bool, maxDepth: Option<int>)
    ensures WalkSubdirs(dir, cs, depth, recursive, false, maxDepth) == WalkSubdirs(dir, PruneAll(cs), depth, recursive, false, maxDepth)
    decreases cs
  {
    if cs != [] {
      var e := cs[|cs| - 1];
      SubdirsIgnoreLinks(dir, cs[..|cs| - 1], depth, recursive, maxDepth);
      var pruned := PruneAll(cs[..|cs| - 1]);
      if !e.symlink {
        assert PruneAll(cs)[..|PruneAll(cs)| - 1] == pruned;
        WalkIgnoresLinks(dir + [e.name], e, depth, true, maxDepth);
      } else {
        assert PruneAll(cs) == pruned;
      }
    }
  }

  /** The entry reached from `e` by following the names in `p`; `None` when some name is missing. */
  function Lookup(e: Entry, p: Path): (r: Option<Entry>)
    ensures p == [] ==> r == Some(e)
    ensures p != [] && r.Some? ==> e.Dir? && r.value.name == p[|p| - 1]
    decreases |p|
  {
    if p == [] then Some(e)
    else
      match ChildNamed(e, p[0])
      case None => None
      case Some(child) => Lookup(child, p[1..])
  }

  /** The first entry of directory `e` called `name`. */
  function ChildNamed(e: Entry, name: string): (r: Option<Entry>)
    ensures r.Some? ==> e.Dir? && r.value in e.children && r.value.name == name
    ensures r.None? && e.Dir? ==> forall c :: c in e.children ==> c.name != name
  {
    if e.Dir? then FirstNamed(e.children, name) else None
  }

  function FirstNamed(cs: seq<Entry>, name: string): (r: Option<Entry>)
    ensures r.Some? ==> r.value in cs && r.value.name == name
    ensures r.None? ==> forall c :: c in cs ==> c.name != name
  {
    if cs == [] then None
    else if cs[0].name == name then Some(cs[0])
    else FirstNamed(cs[1..], name)
  }

  /**
   * What `_walk_directory(root, recursive, 0)` yields on the file system whose
   * top directory is `fs`: nothing when the root does not exist.
   */
  function RootWalk(fs: Entry, root: Path, recursive: bool, follow: bool, maxDepth: Option<int>): seq<Candidate>
  {
    match Lookup(fs, root)
    case None => []
    case Some(e) => Walk(root, e, 0, recursive, follow, maxDepth)
  }

  /** A root that is missing, is not a directory, or cannot be listed yields nothing. */
  lemma UnwalkableRoot(fs: Entry, root: Path, recursive: bool, follow: bool, maxDepth: Option<int>)
    requires Lookup(fs, root).None? || !Lookup(fs, root).value.Dir? || !Lookup(fs, root).value.listable
    ensures RootWalk(fs, root, recursive, follow, maxDepth) == []
  {
  }

  /** The number of entries in the tree `e`, counting `e`. */
  function Size(e: Entry): (n: nat)
    ensures n >= 1
    decreases e
  {
    1 + if e.Dir? then SumSizes(e.children) else 0
  }

  function SumSizes(cs: seq<Entry>): nat
    decreases cs
  {
    if cs == [] then 0 else SumSizes(cs[..|cs| - 1]) + Size(cs[|cs| - 1])
  }

  lemma {:induction false} SumSizesAppend(a: seq<Entry>, b: seq<Entry>)
    ensures SumSizes(a + b) == SumSizes(a) + SumSizes(b)
    decreases |b|
  {
    if b == [] {
      assert a + b == a;
    } else {
      assert (a + b)[..|a + b| - 1] == a + b[..|b| - 1];
      SumSizesAppend(a, b[..|b| - 1]);
    }
  }

  /** One scan keeps fewer files and subdirectory entries than the listing has entries. */
  lemma {:induction false} ScanShrinks(dir: Path, cs: seq<Entry>, follow: bool, recursive: bool)
    ensures |KeptFiles(dir, cs, follow)| + 2 * SumSizes(KeptDirs(cs, follow, recursive)) <= 2 * SumSizes(cs)
  {
    if cs != [] {
      var e := cs[|cs| - 1];
      ScanShrinks(dir, cs[..|cs| - 1], follow, recursive);
      SumSizesAppend(KeptDirs(cs[..|cs| - 1], follow, recursive), if !Skipped(e, follow) && e.Dir? && recursive then [e] else []);
      assert SumSizes([e]) == SumSizes([]) + Size(e);
    }
  }

  /**
   * One suspended `_walk_directory` call: the directory, the files of its
   * scan still to yield, the subdirectories still to walk, and its depth.
   */
  datatype Frame = Frame(dir: Path, files: seq<Candidate>, dirs: seq<Entry>, depth: int)

  /** What resuming the suspended call still yields. */
  function FrameOut(fr: Frame, follow: bool, maxDepth: Option<int>): seq<Candidate>
  {
    fr.files + WalkList(fr.dir, fr.dirs, fr.depth + 1, follow, maxDepth)
  }

  /** What a stack of suspended calls still yields, the innermost (last) call first. */
  function StackOut(stack: seq<Frame>, follow: bool, maxDepth: Option<int>): seq<Candidate>
  {
    if stack == [] then []
    else FrameOut(stack[|stack| - 1], follow, maxDepth) + StackOut(stack[..|stack| - 1], follow, maxDepth)
  }

  function StackMeasure(stack: seq<Frame>): nat
  {
    if stack == [] then 0
    else
      var top := stack[|stack| - 1];
      StackMeasure(stack[..|stack| - 1]) + 1 + |top.files| + 2 * SumSizes(top.dirs)
  }

  lemma PushFrame(below: seq<Frame>, fr: Frame, follow: bool, maxDepth: Option<int>)
    ensures StackOut(below + [fr], follow, maxDepth) == FrameOut(fr, follow, maxDepth) + StackOut(below, follow, maxDepth)
    ensures StackMeasure(below + [fr]) == StackMeasure(below) + 1 + |fr.files| + 2 * SumSizes(fr.dirs)
  {
    assert (below + [fr])[..|below|] == below;
  }

  /** Taking the first subdirectory off a frame: its walk comes first. */
  lemma {:induction false} TakeSubdir(fr: Frame, follow: bool, maxDepth: Option<int>)
    requires fr.files == [] && fr.dirs != []
    ensures var d := fr.dirs[0];
            FrameOut(fr, follow, maxDepth) ==
              Walk(fr.dir + [d.name], d, fr.depth + 1, true, follow, maxDepth) + FrameOut(fr.(dirs := fr.dirs[1..]), follow, maxDepth)
    ensures SumSizes(fr.dirs) == Size(fr.dirs[0]) + SumSizes(fr.dirs[1..])
  {
    var d := fr.dirs[0];
    assert fr.dirs == [d] + fr.dirs[1..];
    WalkListAppend(fr.dir, [d], fr.dirs[1..], fr.depth + 1, follow, maxDepth);
    assert WalkList(fr.dir, [d], fr.depth + 1, follow, maxDepth) == WalkList(fr.dir, [], fr.depth + 1, follow, maxDepth) + Walk(fr.dir + [d.name], d, fr.depth + 1, true, follow, maxDepth);
    SumSizesAppend([d], fr.dirs[1..]);
    assert SumSizes([d]) == SumSizes([]) + Size(d);
  }

  /** Entering a listable subdirectory: the walk of it is what its new frame yields, and the frame is smaller than the subtree. */
  lemma EnterSubdir(sub: Path, d: Entry, depth: int, follow: bool, maxDepth: Option<int>, files: seq<Candidate>, dirs: seq<Entry>)
    requires !(maxDepth.Some? && depth > maxDepth.value) && d.Dir? && d.listable
    requires files == KeptFiles(sub, d.children, follow) && dirs == KeptDirs(d.children, follow, true)
    ensures Walk(sub, d, depth, true, follow, maxDepth) == FrameOut(Frame(sub, files, dirs, depth), follow, maxDepth)
    ensures 1 + |files| + 2 * SumSizes(dirs) < 2 * Size(d)
  {
    WalkSubdirsIsWalkList(sub, d.children, depth + 1, true, follow, maxDepth);
    ScanShrinks(sub, d.children, follow, true);
  }

  /** A subdirectory that is beyond the limit or cannot be listed contributes nothing. */
  lemma SkipSubdir(sub: Path, d: Entry, depth: int, follow: bool, maxDepth: Option<int>)
    requires (maxDepth.Some? && depth > maxDepth.value) || !d.Dir? || !d.listable
    ensures Walk(sub, d, depth, true, follow, maxDepth) == []
  {
  }

  /** Yielding the innermost call's next file: the stack's output loses exactly that file. */
  lemma PopFile(below: seq<Frame>, top: Frame, follow: bool, maxDepth: Option<int>)
    requires top.files != []
    ensures StackOut(below + [top], follow, maxDepth) ==
              [top.files[0]] + StackOut(below + [top.(files := top.files[1..])], follow, maxDepth)
  {
    var rest := top.(files := top.files[1..]);
    PushFrame(below, top, follow, maxDepth);
    PushFrame(below, rest, follow, maxDepth);
    FrameOutPop(top, follow, maxDepth);
    SeqAssoc([top.files[0]], FrameOut(rest, follow, maxDepth), StackOut(below, follow, maxDepth));
  }

  /** Taking the innermost call's next subdirectory off the stack: that subdirectory's walk comes first. */
  lemma StackTakeSubdir(below: seq<Frame>, top: Frame, follow: bool, maxDepth: Option<int>)
    requires top.files == [] && top.dirs != []
    ensures var d := top.dirs[0];
            var rest := top.(dirs := top.dirs[1..]);
            && StackOut(below + [top], follow, maxDepth) ==
                 Walk(top.dir + [d.name], d, top.depth + 1, true, follow, maxDepth) + StackOut(below + [rest], follow, maxDepth)
            && StackMeasure(below + [top]) == StackMeasure(below + [rest]) + 2 * Size(d)
  {
    var d := top.dirs[0];
    var rest := top.(dirs := top.dirs[1..]);
    PushFrame(below, top, follow, maxDepth);
    PushFrame(below, rest, follow, maxDepth);
    TakeSubdir(top, follow, maxDepth);
    SeqAssoc(Walk(top.dir + [d.name], d, top.depth + 1, true, follow, maxDepth),
             FrameOut(rest, follow, maxDepth), StackOut(below, follow, maxDepth));
  }

  /** Concatenation is associative; stated once so the stack lemmas need not re-derive it. */
  lemma SeqAssoc<T>(xs: seq<T>, ys: seq<T>, zs: seq<T>)
    ensures (xs + ys) + zs == xs + (ys + zs)
  {
  }

  lemma FrameOutPop(fr: Frame, follow: bool, maxDepth: Option<int>)
    requires fr.files != []
    ensures FrameOut(fr, follow, maxDepth) == [fr.files[0]] + FrameOut(fr.(files := fr.files[1..]), follow, maxDepth)
  {
    assert fr.files == [fr.files[0]] + fr.files[1..];
  }

  /**
   * The generator `_walk_directory(root, recursive, 0)`: each call of `Next`
   * resumes the nested generators where they stopped and produces the next
   * file, or `None` once the walk is exhausted.
   */
  class Walker {
    const follow: bool
    const maxDepth: Option<int>
    var stack: seq<Frame>

    /** The files the generator has still to produce, in order. */
    ghost function Remaining(): seq<Candidate>
      reads this
    {
      StackOut(stack, follow, maxDepth)
    }

    /** Starts the walk of directory entry `e` found at `root`; it scans `e` at once. */
    constructor (root: Path, e: Entry, recursive: bool, follow: bool, maxDepth: Option<int>)
      ensures this.follow == follow && this.maxDepth == maxDepth
      ensures Remaining() == Walk(root, e, 0, recursive, follow, maxDepth)
    {
      this.follow := follow;
      this.maxDepth := maxDepth;
      if (maxDepth.Some? && 0 > maxDepth.value) || !e.Dir? || !e.listable {
        stack := [];
      } else {
        var files, dirs := Scan(root, e.children, recursive, follow);
        var frames := [Frame(root, files, dirs, 0)];
        stack := frames;
        WalkSubdirsIsWalkList(root, e.children, 1, recursive, follow, maxDepth);
        assert StackOut(frames, follow, maxDepth) == FrameOut(frames[0], follow, maxDepth) + StackOut([], follow, maxDepth);
      }
    }

    /** Produces the next file of the walk and drops it from what remains. */
    method Next() returns (next: Option<Candidate>)
      modifies this
      ensures old(Remaining()) == [] ==> next.None? && Remaining() == []
      ensures old(Remaining()) != [] ==> next == Some(old(Remaining())[0]) && Remaining() == old(Remaining())[1..]
    {
      var done := false;
      next := None;
      while !done
        invariant !done ==> Remaining() == old(Remaining())
        invariant done ==> (old(Remaining()) == [] ==> next.None? && Remaining() == [])
        invariant done ==> (old(Remaining()) != [] ==> next == Some(old(Remaining())[0]) && Remaining() == old(Remaining())[1..])
        decreases !done, StackMeasure(stack)
      {
        done, next := Step();
      }
    }

    /**
     * One resumption of the innermost suspended call: it either produces a
     * file, finds the walk exhausted, or moves to the next directory (leaving
     * a finished one, or entering a subdirectory) with the same files still
     * to come.
     */
    method Step() returns (done: bool, next: Option<Candidate>)
      modifies this
      ensures !done ==> Remaining() == old(Remaining()) && StackMeasure(stack) < old(StackMeasure(stack))
      ensures done && old(Remaining()) == [] ==> next.None? && Remaining() == []
      ensures done && old(Remaining()) != [] ==> next == Some(old(Remaining())[0]) && Remaining() == old(Remaining())[1..]
    {
      if stack == [] {
        return true, None;
      }
      var top := stack[|stack| - 1];
      if top.files != [] {
        var file := YieldFile();
        return true, Some(file);
      }
      done, next := false, None;
      if top.dirs == [] {
        LeaveDirectory();
      } else {
        EnterSubdirectory();
      }
    }

    /** The innermost call yields the next file of its scan. */
    method YieldFile() returns (file: Candidate)
      requires stack != [] && stack[|stack| - 1].files != []
      modifies this
      ensures old(Remaining()) == [file] + Remaining()
    {
      var top := stack[|stack| - 1];
      var below := stack[..|stack| - 1];
      assert stack == below + [top];
      PopFile(below, top, follow, maxDepth);
      stack := below + [top.(files := top.files[1..])];
      file := top.files[0];
    }

    /** The innermost call has nothing left and returns to its caller. */
    method LeaveDirectory()
      requires stack != [] && stack[|stack| - 1].files == [] && stack[|stack| - 1].dirs == []
      modifies this
      ensures Remaining() == old(Remaining()) && StackMeasure(stack) < old(StackMeasure(stack))
    {
      var top := stack[|stack| - 1];
      var below := stack[..|stack| - 1];
      assert stack == below + [top];
      PushFrame(below, top, follow, maxDepth);
      assert FrameOut(top, follow, maxDepth) == [];
      stack := below;
    }

    /** The innermost call takes its next subdirectory and, when that can be walked, scans it. */
    method EnterSubdirectory()
      requires stack != [] && stack[|stack| - 1].files == [] && stack[|stack| - 1].dirs != []
      modifies this
      ensures Remaining() == old(Remaining()) && StackMeasure(stack) < old(StackMeasure(stack))
    {
      var top := stack[|stack| - 1];
      var below := stack[..|stack| - 1];
      assert stack == below + [top];
      var d := top.dirs[0];
      var rest := top.(dirs := top.dirs[1..]);
      var sub := top.dir + [d.name];
      var depth := top.depth + 1;
      StackTakeSubdir(below, top, follow, maxDepth);
      if !(maxDepth.Some? && depth > maxDepth.value) && d.Dir? && d.listable {
        var files, dirs := Scan(sub, d.children, true, follow);
        var fr := Frame(sub, files, dirs, depth);
        EnterSubdir(sub, d, depth, follow, maxDepth, files, dirs);
        PushFrame(below + [rest], fr, follow, maxDepth);
        stack := below + [rest] + [fr];
      } else {
        SkipSubdir(sub, d, depth, follow, maxDepth);
        stack := below + [rest];
      }
    }
  }
}
