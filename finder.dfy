/**
 * `FileFinder` (core.py): the finder's settings, `search`, and the generator
 * `_search_generator` that filters the walk by a condition and stops once
 * `max_results` matches have been produced.
 */
module Finder {

  import opened Options
  import opened Paths
  import opened Predicates
  import opened Conditions
  import opened Traversal

  /** The walked files the chain accepts, in walk order. */
  function Filter(ch: Chain, ws: seq<Candidate>): (r: seq<Candidate>)
    ensures |r| <= |ws|
  {
    if ws == [] then []
    else (if Eval(ch, ws[0]) then [ws[0]] else []) + Filter(ch, ws[1..])
  }

  /** The filtered walk holds exactly the walked files the chain accepts. */
  lemma {:induction false} FilterMembers(ch: Chain, ws: seq<Candidate>)
    ensures forall c :: c in Filter(ch, ws) <==> c in ws && Eval(ch, c)
  {
    if ws != [] {
      FilterMembers(ch, ws[1..]);
      assert ws == [ws[0]] + ws[1..];
    }
  }

  /** The first `maxResults` elements of `xs`; all of them when there is no limit. */
  function Limit<T>(xs: seq<T>, maxResults: Option<int>): (r: seq<T>)
    ensures r <= xs
    ensures maxResults.None? ==> r == xs
    ensures maxResults.Some? && maxResults.value <= 0 ==> r == []
    ensures maxResults.Some? && maxResults.value > 0 ==>
              |r| == if maxResults.value < |xs| then maxResults.value else |xs|
  {
    if maxResults.None? || maxResults.value >= |xs| then xs
    else if maxResults.value <= 0 then []
    else xs[..maxResults.value]
  }

  /** The limit that remains once `count` results have been produced. */
  function Shift(maxResults: Option<int>, count: int): Option<int>
  {
    if maxResults.None? then None else Some(maxResults.value - count)
  }

  lemma LimitCons<T>(x: T, xs: seq<T>, maxResults: Option<int>, count: int)
    requires maxResults.None? || count < maxResults.value
    ensures Limit([x] + xs, Shift(maxResults, count)) == [x] + Limit(xs, Shift(maxResults, count + 1))
  {
    if maxResults.Some? && maxResults.value - count - 1 < |xs| {
      assert ([x] + xs)[..maxResults.value - count] == [x] + xs[..maxResults.value - count - 1];
    }
  }

  /** The files `search` produces: the accepted files of the walk from the root, truncated to `maxResults`. */
  function SearchResults(fs: Entry, root: Path, ch: Chain, recursive: bool, follow: bool,
                         maxDepth: Option<int>, maxResults: Option<int>): seq<Candidate>
  {
    Limit(Filter(ch, RootWalk(fs, root, recursive, follow, maxDepth)), maxResults)
  }

  /**
   * Every result is a walked file the condition accepts; without a limit
   * every such file is a result; with a limit `n` there are
   * `min(n, matches)` results, none when `n <= 0`, and they are the first
   * matches in walk order.
   */
  lemma SearchResultsMeaning(fs: Entry, root: Path, ch: Chain, recursive: bool, follow: bool,
                             maxDepth: Option<int>, maxResults: Option<int>)
    ensures var w := RootWalk(fs, root, recursive, follow, maxDepth);
            var r := SearchResults(fs, root, ch, recursive, follow, maxDepth, maxResults);
            && (forall c :: c in r ==> c in w && Eval(ch, c))
            && (maxResults.None? ==> forall c :: c in w && Eval(ch, c) ==> c in r)
            && r <= Filter(ch, w)
            && (maxResults.Some? && maxResults.value <= 0 ==> r == [])
            && (maxResults.Some? && maxResults.value > 0 ==>
                  |r| == if maxResults.value < |Filter(ch, w)| then maxResults.value else |Filter(ch, w)|)
  {
    var w := RootWalk(fs, root, recursive, follow, maxDepth);
    var r := SearchResults(fs, root, ch, recursive, follow, maxDepth, maxResults);
    FilterMembers(ch, w);
    forall c | c in r
      ensures c in w && Eval(ch, c)
    {
      var i :| 0 <= i < |r| && r[i] == c;
      assert c == Filter(ch, w)[i];
    }
  }

  /** The paths of the candidates, in order. */
  function PathsOf(cs: seq<Candidate>): (ps: seq<Path>)
    ensures |ps| == |cs| && forall i :: 0 <= i < |cs| ==> ps[i] == cs[i].path
  {
    if cs == [] then [] else [cs[0].path] + PathsOf(cs[1..])
  }

  /**
   * The generator `_search_generator`: it pulls files from the walk, stops
   * at the first pull after `count` has reached `maxResults`, and produces
   * each file the condition accepts.
   */
  class SearchStream {
    const walker: Walker
    const condition: Condition
    const maxResults: Option<int>
    var count: int
    var finished: bool

    /** The files the generator has still to produce, in order. */
    ghost function Pending(): seq<Candidate>
      reads this, walker, condition, condition.Repr
      requires condition.Valid()
    {
      PendingFor(condition.Model())
    }

    /** What the generator has still to produce when its condition denotes `ch`. */
    ghost function PendingFor(ch: Chain): seq<Candidate>
      reads this, walker
    {
      PendingOf(ch, walker.Remaining(), finished, maxResults, count)
    }

    constructor (walker: Walker, condition: Condition, maxResults: Option<int>)
      requires condition.Valid()
      ensures this.walker == walker && this.condition == condition && this.maxResults == maxResults
      ensures count == 0 && !finished
      ensures Pending() == Limit(Filter(condition.Model(), walker.Remaining()), maxResults)
    {
      this.walker := walker;
      this.condition := condition;
      this.maxResults := maxResults;
      count := 0;
      finished := false;
      new;
      assert Shift(maxResults, 0) == maxResults;
    }

    /** Produces the path of the next match, or `None` once the generator is exhausted. */
    method Next() returns (r: Option<Path>)
      requires condition.Valid()
      modifies this, walker
      ensures condition.Valid()
      ensures old(Pending()) == [] ==> r.None? && Pending() == []
      ensures old(Pending()) != [] ==> r == Some(old(Pending())[0].path) && Pending() == old(Pending())[1..]
    {
      r := Resume(condition.Model());
    }

    /** `Next` for a condition that denotes `ch`: the generator's loop, resumed until it yields or ends. */
    method Resume(ghost ch: Chain) returns (r: Option<Path>)
      requires condition.Valid() && condition.Model() == ch
      modifies this, walker
      ensures condition.Valid() && condition.Model() == ch
      ensures old(PendingFor(ch)) == [] ==> r.None? && PendingFor(ch) == []
      ensures old(PendingFor(ch)) != [] ==> r == Some(old(PendingFor(ch))[0].path) && PendingFor(ch) == old(PendingFor(ch))[1..]
    {
      ghost var before := PendingFor(ch);
      if finished {
        return None;
      }
      while true
        invariant condition.Valid() && condition.Model() == ch
        invariant !finished && PendingFor(ch) == before
        decreases |walker.Remaining()|
      {
        assert PendingOf(ch, walker.Remaining(), false, maxResults, count) == before;
        var done, next, newCount, newFinished := Pull(ch);
        ghost var post := PendingOf(ch, walker.Remaining(), newFinished, maxResults, newCount);
        count, finished := newCount, newFinished;
        assert PendingFor(ch) == post;
        if done {
          return next;
        }
      }
    }

    /**
     * One iteration of the generator's loop: pull a file from the walk, then
     * stop (at the end of the walk, or once `count` has reached the limit),
     * produce the file when the condition accepts it, or go on. It returns
     * the new `count` and whether the generator has finished.
     */
    method Pull(ghost ch: Chain) returns (done: bool, r: Option<Path>, newCount: int, newFinished: bool)
      requires condition.Valid() && condition.Model() == ch && !finished
      modifies walker
      ensures condition.Valid() && condition.Model() == ch
      ensures var before := PendingOf(ch, old(walker.Remaining()), false, maxResults, count);
              var after := PendingOf(ch, walker.Remaining(), newFinished, maxResults, newCount);
              && (!done ==> !newFinished && after == before && |walker.Remaining()| < |old(walker.Remaining())|)
              && (done && before == [] ==> r.None? && after == [])
              && (done && before != [] ==> r == Some(before[0].path) && after == before[1..])
    {
      ghost var ws := walker.Remaining();
      var file := walker.Next();
      assert condition.Valid() && condition.Model() == ch;
      if file.None? {
        return true, None, count, true;
      }
      ghost var rest := walker.Remaining();
      assert ws == [file.value] + rest;
      PullCases(ch, file.value, rest, maxResults, count);
      if maxResults.Some? && count >= maxResults.value {
        return true, None, count, true;
      }
      var accepted := condition.Evaluate(file.value);
      if accepted {
        return true, Some(file.value.path), count + 1, false;
      }
      return false, None, count, false;
    }
  }

  /** What a generator still produces: nothing once finished, otherwise the accepted rest of the walk up to the remaining limit. */
  ghost function PendingOf(ch: Chain, ws: seq<Candidate>, finished: bool, maxResults: Option<int>, count: int): seq<Candidate>
  {
    if finished then [] else Limit(Filter(ch, ws), Shift(maxResults, count))
  }

  /** The three outcomes of one iteration of the generator's loop, on the sequences involved. */
  lemma PullCases(ch: Chain, x: Candidate, rest: seq<Candidate>, maxResults: Option<int>, count: int)
    ensures var before := PendingOf(ch, [x] + rest, false, maxResults, count);
            && (maxResults.Some? && count >= maxResults.value ==> before == [])
            && (!(maxResults.Some? && count >= maxResults.value) && Eval(ch, x) ==>
                  before == [x] + PendingOf(ch, rest, false, maxResults, count + 1))
            && (!Eval(ch, x) ==> before == PendingOf(ch, rest, false, maxResults, count))
  {
    assert ([x] + rest)[0] == x && ([x] + rest)[1..] == rest;
    if !(maxResults.Some? && count >= maxResults.value) && Eval(ch, x) {
      LimitCons(x, Filter(ch, rest), maxResults, count);
    }
  }

  /** `list(generator)`: pull until the generator is exhausted. */
  method Drain(stream: SearchStream) returns (paths: seq<Path>)
    requires stream.condition.Valid()
    modifies stream, stream.walker
    ensures stream.condition.Valid()
    ensures paths == PathsOf(old(stream.Pending()))
  {
    ghost var ch := stream.condition.Model();
    ghost var all := PathsOf(stream.PendingFor(ch));
    paths := [];
    while true
      invariant stream.condition.Valid() && stream.condition.Model() == ch
      invariant paths + PathsOf(stream.PendingFor(ch)) == all
      decreases |stream.PendingFor(ch)|
    {
      ghost var pending := stream.PendingFor(ch);
      var next := stream.Resume(ch);
      if next.None? {
        assert paths + [] == paths;
        return;
      }
      DrainStep(paths, pending);
      paths := paths + [next.value];
    }
  }

  /** Moving the first pending path onto the produced ones keeps the total. */
  lemma DrainStep(paths: seq<Path>, cs: seq<Candidate>)
    requires cs != []
    ensures (paths + [cs[0].path]) + PathsOf(cs[1..]) == paths + PathsOf(cs)
  {
    assert PathsOf(cs) == [cs[0].path] + PathsOf(cs[1..]);
  }

  /** What `search` returns: the generator itself, or the list it produces. */
  datatype SearchOutput = Listed(paths: seq<Path>) | Lazy(stream: SearchStream)

  /** The absolute form of the root argument, relative to the working directory `cwd`. */
  function RootOf(rootArg: Option<string>, cwd: Path): Path
  {
    if rootArg.None? || rootArg.value == "" then cwd
    else if IsAbsolute(rootArg.value) then Components(rootArg.value)
    else cwd + Components(rootArg.value)
  }

  /**
   * An unset or empty root argument means the working directory; the string
   * form of an absolute path roots the finder at that path, whatever the
   * working directory; a relative argument lies below the working directory.
   */
  lemma RootOfMeaning(rootArg: Option<string>, cwd: Path, p: Path)
    ensures rootArg.None? || rootArg == Some("") ==> RootOf(rootArg, cwd) == cwd
    ensures WellFormed(p) ==> RootOf(Some(Str(p)), cwd) == p
    ensures rootArg.Some? && !IsAbsolute(rootArg.value) ==> cwd <= RootOf(rootArg, cwd)
  {
    if WellFormed(p) {
      StrRoundTrip(p);
    }
  }

  class FileFinder {
    const rootPath: Path
    const followSymlinks: bool
    const maxDepth: Option<int>

    /** `FileFinder(root_path, follow_symlinks, max_depth)`: an unset or empty root means the working directory. */
    constructor (rootArg: Option<string>, cwd: Path, followSymlinks: bool, maxDepth: Option<int>)
      ensures rootPath == RootOf(rootArg, cwd)
      ensures this.followSymlinks == followSymlinks && this.maxDepth == maxDepth
    {
      rootPath := RootOf(rootArg, cwd);
      this.followSymlinks := followSymlinks;
      this.maxDepth := maxDepth;
    }

    /** `search(condition, recursive, lazy, max_results)` over the file system whose top directory is `fs`. */
    method Search(fs: Entry, condition: Condition, recursive: bool, lazy: bool, maxResults: Option<int>) returns (out: SearchOutput)
      requires condition.Valid()
      ensures condition.Valid()
      ensures lazy ==> out.Lazy? && fresh(out.stream) && fresh(out.stream.walker)
                       && out.stream.condition == condition
                       && out.stream.Pending() == SearchResults(fs, rootPath, condition.Model(), recursive, followSymlinks, maxDepth, maxResults)
      ensures !lazy ==> out == Listed(PathsOf(SearchResults(fs, rootPath, condition.Model(), recursive, followSymlinks, maxDepth, maxResults)))
    {
      var stream := Open(fs, condition, recursive, maxResults);
      if lazy {
        return Lazy(stream);
      }
      var paths := Drain(stream);
      return Listed(paths);
    }

    /** The generator `search` creates: a walk from the root, filtered by the condition and limited. */
    method Open(fs: Entry, condition: Condition, recursive: bool, maxResults: Option<int>) returns (stream: SearchStream)
      requires condition.Valid()
      ensures fresh(stream) && fresh(stream.walker) && stream.condition == condition
      ensures stream.Pending() == SearchResults(fs, rootPath, condition.Model(), recursive, followSymlinks, maxDepth, maxResults)
    {
      var root := match Lookup(fs, rootPath) case None => Other("", false) case Some(e) => e;
      var walker := new Walker(rootPath, root, recursive, followSymlinks, maxDepth);
      assert walker.Remaining() == RootWalk(fs, rootPath, recursive, followSymlinks, maxDepth);
      stream := new SearchStream(walker, condition, maxResults);
    }
  }

  // A small tree: directory /t holding a.txt (100 bytes), b.py (200 bytes) and sub/c.txt (300 bytes).
  const FileA := File("a.txt", Some(Stat(100, 0, 0)), false)
  const FileB := File("b.py", Some(Stat(200, 0, 0)), false)
  const FileC := File("c.txt", Some(Stat(300, 0, 0)), false)
  const SubDir := Dir("sub", false, true, [FileC])
  const TopDir := Dir("t", false, true, [FileA, FileB, SubDir])
  const ScenarioTree := Dir("", false, true, [TopDir])
  const PathA: Path := ["t", "a.txt"]
  const PathB: Path := ["t", "b.py"]
  const PathC: Path := ["t", "sub", "c.txt"]
  const FoundA := Candidate(PathA, Some(Stat(100, 0, 0)))
  const FoundB := Candidate(PathB, Some(Stat(200, 0, 0)))
  const FoundC := Candidate(PathC, Some(Stat(300, 0, 0)))

  lemma ScenarioTopFiles()
    ensures KeptFiles(["t"], TopDir.children, false) == [FoundA, FoundB]
  {
    assert TopDir.children[..2] == [FileA, FileB] && [FileA, FileB][..1] == [FileA] && [FileA][..0] == [];
    assert ["t"] + ["a.txt"] == PathA && ["t"] + ["b.py"] == PathB;
    assert KeptFiles(["t"], [FileA], false) == [FoundA];
  }

  lemma ScenarioSubWalk()
    ensures Walk(["t", "sub"], SubDir, 1, true, false, None) == [FoundC]
  {
    assert [FileC][..0] == [];
    assert ["t", "sub"] + ["c.txt"] == PathC;
    assert KeptFiles(["t", "sub"], [FileC], false) == [FoundC];
    assert WalkSubdirs(["t", "sub"], [FileC], 2, true, false, None) == [];
  }

  lemma ScenarioTopSubdirs(recursive: bool)
    ensures WalkSubdirs(["t"], TopDir.children, 1, recursive, false, None) == if recursive then [FoundC] else []
  {
    assert TopDir.children[..2] == [FileA, FileB] && [FileA, FileB][..1] == [FileA] && [FileA][..0] == [];
    assert WalkSubdirs(["t"], [FileA], 1, recursive, false, None) == [];
    assert WalkSubdirs(["t"], [FileA, FileB], 1, recursive, false, None) == [];
    if recursive {
      assert ["t"] + ["sub"] == ["t", "sub"];
      ScenarioSubWalk();
    }
  }

  /** The walk of /t lists a.txt and b.py, then descends into sub. */
  lemma ScenarioWalk()
    ensures RootWalk(ScenarioTree, ["t"], true, false, None) == [FoundA, FoundB, FoundC]
    ensures RootWalk(ScenarioTree, ["t"], false, false, None) == [FoundA, FoundB]
  {
    assert Lookup(ScenarioTree, ["t"]) == Some(TopDir);
    ScenarioTopFiles();
    ScenarioTopSubdirs(true);
    ScenarioTopSubdirs(false);
  }

  lemma TxtSet()
    ensures ExtensionOf([".txt"]) == Extension({".txt"})
  {
    assert Lower(".txt") == ".txt";
    assert NormalizeExt(".txt") == ".txt";
  }

  /** `extension` on a file named `stem.ext`, with a non-empty stem and a dot-free lower-case extension, tests `.ext`. */
  lemma ExtensionByName(normalized: set<string>, c: Candidate, stem: string, ext: string)
    requires c.path != [] && Name(c.path) == stem + "." + ext
    requires stem != "" && ext != "" && '.' !in ext && IsLower(ext)
    ensures Holds(Extension(normalized), c) <==> "." + ext in normalized
  {
    SuffixOfStemAndExt(stem, ext);
    assert IsLower("." + ext);
    LowerIsLower("." + ext);
  }

  /** `extension('.txt')` accepts a.txt and c.txt but not b.py. */
  lemma ScenarioMatches()
    ensures Holds(ExtensionOf([".txt"]), FoundA)
    ensures !Holds(ExtensionOf([".txt"]), FoundB)
    ensures Holds(ExtensionOf([".txt"]), FoundC)
  {
    TxtSet();
    assert "a" + "." + "txt" == "a.txt" && "b" + "." + "py" == "b.py" && "c" + "." + "txt" == "c.txt";
    assert IsLower("txt") && IsLower("py");
    ExtensionByName({".txt"}, FoundA, "a", "txt");
    ExtensionByName({".txt"}, FoundB, "b", "py");
    ExtensionByName({".txt"}, FoundC, "c", "txt");
  }

  const TxtChain := Chain(ExtensionOf([".txt"]), None, None)
  const BigChain := Chain(ExtensionOf([".txt"]), Some(AND), Some(Chain(SizeGreaterThan(150), None, None)))

  /** A one-node chain is its predicate; a two-node AND chain is the conjunction of both. */
  lemma ShortChains(p: Predicate, q: Predicate, c: Candidate)
    ensures Eval(Chain(p, None, None), c) == Holds(p, c)
    ensures Eval(Chain(p, Some(AND), Some(Chain(q, None, None))), c) == (Holds(p, c) && Holds(q, c))
  {
  }

  /** `extension('.txt')` accepts a.txt and c.txt; adding `.AND(size_greater_than(150))` leaves only c.txt. */
  lemma ScenarioEvals()
    ensures Eval(TxtChain, FoundA) && !Eval(TxtChain, FoundB) && Eval(TxtChain, FoundC)
    ensures !Eval(BigChain, FoundA) && !Eval(BigChain, FoundB) && Eval(BigChain, FoundC)
  {
    var txt := ExtensionOf([".txt"]);
    var big := SizeGreaterThan(150);
    ScenarioMatches();
    assert !Holds(big, FoundA) && Holds(big, FoundC);
    ShortChains(txt, big, FoundA);
    ShortChains(txt, big, FoundB);
    ShortChains(txt, big, FoundC);
  }

  lemma FilterCons(ch: Chain, x: Candidate, rest: seq<Candidate>)
    ensures Filter(ch, [x] + rest) == (if Eval(ch, x) then [x] else []) + Filter(ch, rest)
  {
    assert ([x] + rest)[0] == x && ([x] + rest)[1..] == rest;
  }

  /** The filter of a walk of two or three files, for the acceptance patterns the scenario needs. */
  lemma FilterOfThree(ch: Chain, a: Candidate, b: Candidate, c: Candidate)
    ensures Eval(ch, a) && !Eval(ch, b) ==> Filter(ch, [a, b]) == [a]
    ensures Eval(ch, a) && !Eval(ch, b) && Eval(ch, c) ==> Filter(ch, [a, b, c]) == [a, c]
    ensures !Eval(ch, a) && !Eval(ch, b) && Eval(ch, c) ==> Filter(ch, [a, b, c]) == [c]
  {
    FilterCons(ch, b, []);
    FilterCons(ch, c, []);
    assert [b] + [] == [b] && [a] + [b] == [a, b] && [b] + [c] == [b, c] && [a] + [b, c] == [a, b, c];
    FilterCons(ch, a, [b]);
    FilterCons(ch, b, [c]);
    FilterCons(ch, a, [b, c]);
  }

  lemma ScenarioFilters()
    ensures Filter(TxtChain, [FoundA, FoundB, FoundC]) == [FoundA, FoundC]
    ensures Filter(TxtChain, [FoundA, FoundB]) == [FoundA]
    ensures Filter(BigChain, [FoundA, FoundB, FoundC]) == [FoundC]
  {
    ScenarioEvals();
    FilterOfThree(TxtChain, FoundA, FoundB, FoundC);
    FilterOfThree(BigChain, FoundA, FoundB, FoundC);
  }

  /**
   * On that tree, `extension('.txt')` finds a.txt and sub/c.txt; without
   * recursion only a.txt; and `extension('.txt').AND(size_greater_than(150))`
   * only sub/c.txt.
   */
  lemma ScenarioSearches()
    ensures SearchResults(ScenarioTree, ["t"], Chain(ExtensionOf([".txt"]), None, None), true, false, None, None) == [FoundA, FoundC]
    ensures SearchResults(ScenarioTree, ["t"], Chain(ExtensionOf([".txt"]), None, None), false, false, None, None) == [FoundA]
    ensures SearchResults(ScenarioTree, ["t"], Chain(ExtensionOf([".txt"]), Some(AND), Some(Chain(SizeGreaterThan(150), None, None))), true, false, None, None) == [FoundC]
  {
    ScenarioWalk();
    ScenarioFilters();
  }
}
