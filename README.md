# file_finder in Dafny

A model of the search engine of `file_finder` (`src/file_finder/core.py`), with proofs about it.
The engine has two parts.

- **`Condition` chains.** A `Condition` node holds a predicate over a file, plus two mutable fields: `operator` (AND/OR) and `next_condition`.
  - `AND` and `OR` overwrite those two fields on the receiver and return the receiver.
  - `evaluate` runs the node's own predicate first, then short-circuits into the rest of the chain.
  - Static factories build the predicates: extension sets, size bounds, directory membership, name tests, regex tests, modification/creation windows and media-type shortcuts.
- **`FileFinder`.**
  - `_walk_directory` walks a directory tree depth-first. It respects a depth limit, skips symbolic links unless they are followed, and yields a directory's files before anything from its subdirectories.
  - `_search_generator` filters the walk by a condition and stops after `max_results` matches.
  - `search` either returns that generator or drains it into a list.

## Modules

- `options.dfy`: `Option`.
- `paths.dfy` (`Paths`): a path is its list of components (the path is absolute and resolved; `[]` is `/`). The module also holds:
  - `Path.name` and `Path.parent`;
  - ASCII lower-casing;
  - substring search;
  - `Path.suffix`, following the rule of CPython 3.13 and earlier;
  - `str(path)` and parsing a path string into components.
- `predicates.dfy` (`Predicates`):
  - the closures the factories build, as a datatype `Predicate` evaluated by `Holds` on a `Candidate`. A candidate is a path together with what `stat` on it returns; `None` means stat fails;
  - the set-building loops of `extension` and `in_directory`, as methods;
  - the media lists.
- `conditions.dfy` (`Conditions`):
  - `Condition` as a class with a mutable `operator` and `nextCondition`, where `AND` and `OR` change the receiver in place;
  - `Evaluate`, proved equal to `Eval` on the chain value (`Model`) that the node heads;
  - the short-circuit and overwrite properties.
- `traversal.dfy` (`Traversal`):
  - the file system as a finite tree of `Entry` values;
  - `Scan`, the listing loop;
  - `Walk`, what `_walk_directory` yields, as a recursive function;
  - `Walker`, the lazy generator as an iterator over an explicit stack of suspended directory frames, proved to produce exactly `Walk`.
- `finder.dfy` (`Finder`):
  - `Filter` and `Limit`;
  - `SearchStream`, the generator `_search_generator` with its `count`;
  - `FileFinder` with `Search`;
  - a concrete tree with the searches made on it.

## Model

| member | source | states |
|---|---|---|
| Paths.Suffix | src/file_finder/core.py:115 | `path.suffix` is empty, or it is a proper ending of the name that starts with its only '.', has at least one character after the dot, and is shorter than the name |
| Paths.SuffixNonEmptyIff | src/file_finder/core.py:115 | the suffix is non-empty exactly when the last '.' of the name is neither its first nor its last character |
| Paths.SuffixOfStemAndExt | src/file_finder/core.py:115 | the suffix of `stem.ext`, with a non-empty stem and a dot-free extension, is `.ext` |
| Paths.Lower | src/file_finder/core.py:108 | lower-casing keeps the length and maps every character to its lower-case form |
| Paths.LowerIdempotent | src/file_finder/core.py:108 | lower-casing twice is lower-casing once |
| Paths.IsSubstringIff | src/file_finder/core.py:288 | Python's `in` on strings holds exactly when the substring occurs at some position |
| Paths.LowerKeepsSubstring | src/file_finder/core.py:283-288 | a substring stays a substring after both sides are lower-cased |
| Paths.StrRoundTrip | src/file_finder/core.py:207-211 | `str` of a path is absolute, and parsing it with `Path(...)` gives the same path back |
| Predicates.Holds | src/file_finder/core.py:114-381 | the closure of each factory applied to a file: lower-cased suffix in the normalised set; strict or inclusive size bounds and time cutoffs, all false when `stat` fails; lying at or under an absolute directory argument or having a proper ancestor named by a relative one, and its negation; `search` of the pattern on the path string or name; substring or equality of the name, lower-casing both sides unless case-sensitive. Its properties are the lemmas of the following rows |
| Predicates.NormalizeExt | src/file_finder/core.py:107-112 | a normalised extension starts with '.' and contains no upper-case letter |
| Predicates.NormalizeExtensions | src/file_finder/core.py:106-112 | the loop builds exactly the set of normalised arguments |
| Predicates.NormalizeExtCanonical | src/file_finder/core.py:107-112 | normalising is idempotent; it ignores case, and it ignores whether the leading dot was given (`"txt"` and `".TXT"` agree) |
| Predicates.ExtensionOf | src/file_finder/core.py:96-117 | `extension(*exts)` builds the extension test over the set of normalised arguments; `ExtensionOfIff` states what it accepts |
| Predicates.ExtensionOfIff | src/file_finder/core.py:107-117 | `extension(...)` accepts a file exactly when its lower-cased suffix is the normal form of some argument; a file with no suffix is never accepted |
| Predicates.ExtensionOfDependsOnNormalForms | src/file_finder/core.py:107-117 | two argument lists with the same normal forms accept the same files |
| Predicates.IsImage | src/file_finder/core.py:388-392 | `is_image()` is `extension` of the fixed image list; `MediaShortcutsIff` states what it accepts |
| Predicates.IsVideo | src/file_finder/core.py:395-399 | `is_video()` is `extension` of the fixed video list |
| Predicates.IsAudio | src/file_finder/core.py:402-404 | `is_audio()` is `extension` of the fixed audio list |
| Predicates.IsDocument | src/file_finder/core.py:407-411 | `is_document()` is `extension` of the fixed document list |
| Predicates.IsArchive | src/file_finder/core.py:414-416 | `is_archive()` is `extension` of the fixed archive list |
| Predicates.ImageListNormal | src/file_finder/core.py:388-392 | every extension of the image list is already in normal form |
| Predicates.VideoListNormal | src/file_finder/core.py:395-399 | every extension of the video list is already in normal form |
| Predicates.AudioListNormal | src/file_finder/core.py:402-404 | every extension of the audio list is already in normal form |
| Predicates.DocumentListNormal | src/file_finder/core.py:407-411 | every extension of the document list is already in normal form |
| Predicates.ArchiveListNormal | src/file_finder/core.py:414-416 | every extension of the archive list is already in normal form |
| Predicates.NormalFormsAreFixed | src/file_finder/core.py:107-112 | for a list already in normal form, the normalised set is the list's own elements |
| Predicates.MediaShortcutsIff | src/file_finder/core.py:387-416 | `is_image`, `is_video`, `is_audio`, `is_document` and `is_archive` each accept a file exactly when its lower-cased suffix is in their fixed list |
| Predicates.InDirectoryOf | src/file_finder/core.py:193-230 | `in_directory(*dirs)` splits its arguments into absolute paths and bare names; `InDirectoryOfIff` states what it accepts |
| Predicates.NotInDirectoryOf | src/file_finder/core.py:233-249 | `not_in_directory(*dirs)` is the negation of `in_directory` on the same arguments (`InDirectoryOfIff`) |
| Predicates.SplitDirectoryArgs | src/file_finder/core.py:204-213 | the loop puts the parsed form of every absolute argument into `dir_paths` and every other argument into `dir_names`, and nothing else |
| Predicates.ParentNamedIff | src/file_finder/core.py:228 | some entry of `path.parents` has a name in `dir_names` exactly when some proper ancestor of the path is named by an argument |
| Predicates.InDirectoryOfIff | src/file_finder/core.py:193-249 | `in_directory` holds exactly when the path equals or lies under an absolute argument, or a proper ancestor is named by a relative argument; `not_in_directory` is its negation |
| Predicates.InDirectoryOfPathString | src/file_finder/core.py:215-223 | `in_directory(str(d))` accepts every file at or below `d` |
| Predicates.NameContainsOf | src/file_finder/core.py:272-290 | `name_contains(s, case_sensitive)` keeps `s` as given when case-sensitive and lower-cased otherwise |
| Predicates.NameEqualsOf | src/file_finder/core.py:311-329 | `name_equals(n, case_sensitive)` keeps `n` as given when case-sensitive and lower-cased otherwise |
| Predicates.NameConditionsCase | src/file_finder/core.py:272-329 | case-insensitive `name_contains`/`name_equals` depend only on the lower-cased argument and name; case-insensitive `name_equals` holds exactly when lower-cased name and argument are equal |
| Predicates.NameSensitiveImpliesInsensitive | src/file_finder/core.py:272-329 | every case-sensitive `name_contains`/`name_equals` match is also a case-insensitive one |
| Predicates.ModifiedWithinDays | src/file_finder/core.py:334-357 | `modified_within_days(days)` fixes the cutoff `now - days * 86400` when it is built; `WithinDaysWindows` states what it accepts |
| Predicates.CreatedWithinDays | src/file_finder/core.py:360-383 | `created_within_days(days)` fixes the same cutoff on the creation time |
| Predicates.WithinDaysWindows | src/file_finder/core.py:334-383 | `modified_within_days`/`created_within_days` hold exactly when stat succeeds and the timestamp is no more than `days` days before the captured `now`; a wider window accepts more |
| Predicates.SizeBounds | src/file_finder/core.py:122-383 | `size_between` is inclusive: it equals the two strict tests one byte outside the bounds; every size and time predicate is false when stat fails |
| Conditions.Eval | src/file_finder/core.py:67-91 | `evaluate` on a chain value: the node's own predicate, then AND/OR with the rest of the chain, short-circuiting; `ShortCircuit` and `UniformChains` state its meaning |
| Conditions.ShortCircuit | src/file_finder/core.py:67-91 | `evaluate` runs the predicates of a prefix of the chain in order, starting with the node's own; it goes past a node only after AND with true or OR with false; it returns the last result computed |
| Conditions.UniformChains | src/file_finder/core.py:79-91 | a chain joined only by AND is the conjunction of its predicates; one joined only by OR is their disjunction |
| Conditions.Condition.constructor | src/file_finder/core.py:35-51 | a new node holds its predicate, with no operator and no next condition |
| Conditions.Condition.And | src/file_finder/core.py:53-58 | `AND` sets this node's operator to AND and its next condition to `other`, keeps the predicate, and returns the node itself; the chain then means "own predicate AND other" |
| Conditions.Condition.Or | src/file_finder/core.py:60-65 | `OR` sets the operator to OR and the next condition to `other`, and returns the node itself |
| Conditions.Condition.Evaluate | src/file_finder/core.py:67-91 | evaluating the object graph gives the value of the chain it denotes |
| Conditions.FluentCallsOverwrite | src/file_finder/core.py:53-65 | `A.AND(B).OR(C)` evaluates as `A OR C`: the second call overwrites the first |
| Conditions.RelinkAfterLinking | src/file_finder/core.py:53-91 | `A.AND(B)` and then `B.OR(C)`: A's chain sees the change made to B and evaluates as `A AND (B OR C)` |
| Conditions.NestingThroughArgument | src/file_finder/core.py:53-91 | `A.AND(B.OR(C))` evaluates as `A AND (B OR C)` |
| Traversal.Walk | src/file_finder/core.py:510-566 | `_walk_directory` as the sequence it yields: nothing beyond the depth limit or for an unlistable directory, else the kept files in listing order followed by the walks of the kept subdirectories at depth + 1; the lemmas below state its properties |
| Traversal.WalkSubdirs | src/file_finder/core.py:558-562 | the `yield from` over the collected subdirectories, each walked with `recursive=True` one level deeper |
| Traversal.Scan | src/file_finder/core.py:537-553 | the listing loop skips unfollowed links and collects the files and, when recursive, the subdirectories, in listing order |
| Traversal.KeptFilesIff | src/file_finder/core.py:541-556 | a directory yields exactly its listed regular files that are not skipped links, each at its own path |
| Traversal.WalkSubdirsIsWalkList | src/file_finder/core.py:558-562 | walking the subdirectories met in the listing is walking the collected `dirs` list in order |
| Traversal.WalkStaysBelow | src/file_finder/core.py:528-562 | every yielded file lies strictly below the walked directory; under `max_depth` it is at most `max_depth - depth + 1` components below it |
| Traversal.FilesFirst | src/file_finder/core.py:555-562 | within one directory, all its own files are yielded before anything from its subdirectories |
| Traversal.NonRecursiveWalk | src/file_finder/core.py:549-562 | `recursive=False` yields only the directory's own files |
| Traversal.WalkAtLimit | src/file_finder/core.py:528-530 | a walk started at the depth limit (`max_depth=0` for the root) yields only the directory's own files |
| Traversal.UnlistableSibling | src/file_finder/core.py:564-566 | an unlistable subdirectory contributes nothing and does not stop its siblings from being walked |
| Traversal.RootWalk | src/file_finder/core.py:497-566 | the walk `_search_generator` starts at the finder's root at depth 0; a root that is not in the tree yields nothing |
| Traversal.UnwalkableRoot | src/file_finder/core.py:533-566 | a root that does not exist, is not a directory or cannot be listed yields nothing |
| Traversal.WalkIgnoresLinks | src/file_finder/core.py:543-545 | without following links, the walk equals the walk of the tree with every link removed: no link, and nothing reached through one, is yielded |
| Traversal.PruneIsLinkFree | src/file_finder/core.py:543-545 | the tree with links removed contains no link below its top |
| Traversal.Walker.constructor | src/file_finder/core.py:510-553 | starting the generator on a directory leaves exactly the walk of that directory to be produced |
| Traversal.Walker.Next | src/file_finder/core.py:510-566 | each resumption produces the next file of the walk, or reports it exhausted |
| Traversal.Walker.Step | src/file_finder/core.py:555-562 | one resumption of the innermost suspended call yields a file, leaves a finished directory, or enters the next subdirectory, without changing what is still to come |
| Finder.Filter | src/file_finder/core.py:496-507 | the walked files the condition accepts, in walk order, never more than the walk; `FilterMembers` states which |
| Finder.FilterMembers | src/file_finder/core.py:496-507 | the filtered walk holds exactly the walked files the condition accepts |
| Finder.Limit | src/file_finder/core.py:498-502 | the truncated result is a prefix of the matches: all of them without a limit, none for a limit of 0 or less, otherwise `min(limit, matches)` |
| Finder.SearchResults | src/file_finder/core.py:489-508 | what `_search_generator` yields: the accepted walked files from the root, truncated to `max_results`; `SearchResultsMeaning` states its meaning |
| Finder.SearchResultsMeaning | src/file_finder/core.py:453-508 | every result is a walked file the condition accepts; without a limit, all of them are results; results are the first matches in walk order, `min(max_results, matches)` of them, or none when `max_results <= 0` |
| Finder.SearchStream.constructor | src/file_finder/core.py:489-496 | a new generator has produced nothing and has the truncated filtered walk to produce |
| Finder.SearchStream.Next | src/file_finder/core.py:496-508 | each pull produces the path of the next remaining match, or nothing once the generator is exhausted |
| Finder.SearchStream.Resume | src/file_finder/core.py:496-508 | for the chain the condition denotes, resuming the generator's loop produces the path of the next remaining match, or nothing once it is exhausted |
| Finder.SearchStream.Pull | src/file_finder/core.py:496-508 | one loop iteration pulls a file, then stops at the limit or at the end of the walk, yields an accepted file, or goes on with the same matches still to come |
| Finder.Drain | src/file_finder/core.py:485 | `list(generator)` gives the paths of everything the generator still had to produce, in order |
| Finder.RootOf | src/file_finder/core.py:444 | the root the finder keeps: the working directory when the argument is unset or empty, else the parsed argument, a relative one taken under the working directory; `RootOfMeaning` states its meaning |
| Finder.RootOfMeaning | src/file_finder/core.py:444 | an unset or empty root means the working directory; the string form of an absolute path roots the finder at that path |
| Finder.FileFinder.constructor | src/file_finder/core.py:430-446 | the finder keeps the resolved root, the symlink flag and the depth limit |
| Finder.FileFinder.Open | src/file_finder/core.py:483-498 | the generator `search` creates is fresh, uses the given condition, and has the accepted walked files from the root, truncated to `max_results`, to produce |
| Finder.FileFinder.Search | src/file_finder/core.py:453-487 | the lazy generator produces, and the eager list holds, the same paths: the accepted walked files truncated to `max_results` |
| Finder.ScenarioSearches | src/file_finder/core.py:453-566 | on `/t` holding `a.txt` (100 B), `b.py` (200 B) and `sub/c.txt` (300 B): `extension('.txt')` finds `a.txt` and `sub/c.txt`; without recursion only `a.txt`; `.AND(size_greater_than(150))` finds only `sub/c.txt` |

## Left out

- Logging (`logger.*`) and the `description` strings: they have no effect on results.
- `src/file_finder/config.py` (environment defaults and log setup): it is I/O plumbing. The engine does not read it.
- Real file-system access is not modelled. `os.scandir`, `stat`, `Path.resolve` and `Path.cwd` are replaced by a finite tree (`Entry`) and a working-directory parameter. A followed link appears in the tree as its target's contents, so symbolic-link cycles under `follow_symlinks=True` cannot be represented.
- The file system is fixed during a search. Changes between two pulls of a lazy generator are not modelled.
- `Walker.constructor` lists the root when the generator is created, while Python lists it at the first pull. With a fixed file system the output is the same.
- `FileFinder.constructor` keeps a relative root by its absolute form under the working directory. So the paths `search` returns are absolute where Python returns them relative to the working directory, and `path_matches` sees an absolute string where Python would see the relative one.
- `..` in a root or `in_directory` argument is kept as a component and not resolved. Symbolic links in arguments are not resolved either.
- `Predicates.InDirectoryOfIff` takes the walked path as `path.resolve()`. For a file reached through a followed link, Python resolves to the link's target location.
- `path_matches` and `name_matches`: the regex engine is foreign code, so the compiled pattern's `search` is a parameter of type `string -> bool`. The exception raised for an invalid pattern belongs to `re` and is not modelled.
- `modified_within_days` and `created_within_days`: `datetime` and float timestamps are replaced by integer seconds and a `now` parameter. The cutoff is `now - days * 86400`, captured once when the predicate is built. Two error paths are dropped: building the predicate raises `OverflowError` when `days` puts `datetime.now() - timedelta(days=days)` out of range, and evaluating it raises `OverflowError` or `ValueError` from `datetime.fromtimestamp` on an out-of-range timestamp, which the predicate's `except (OSError, PermissionError)` does not catch, so `evaluate` and `search` raise. The model builds the predicate for every `days` and always returns a boolean.
- The `DirEntry` branch in the size and time predicates is not modelled. `search` never passes an entry, so `stat` on the path is the only source.
- `str.lower` is modelled as ASCII lower-casing. Unicode case mapping is not modelled.
- `Paths.Suffix` follows the `Path.suffix` rule of CPython 3.13 and earlier.
- The POSIX root spelled `//` is not distinguished from `/`.
- Conditions.Condition.Evaluate requires `Valid()`, the ghost record that the chain from the node is finite and acyclic. After `AND`/`OR` re-links a node that another chain already points to, the heads of that chain must be refreshed with the ghost `Relink`, bottom-up, before they can be evaluated (`RelinkAfterLinking` shows the case). A chain made cyclic (`a.AND(b); b.AND(a)`), on which Python's `evaluate` recurses until `RecursionError` unless a false result before an AND or a true result before an OR stops it, is not modelled.
- Calling `AND(None)` or `OR(None)` (a `None` argument) is not modelled, because the typed `Condition` argument cannot be null.
- The per-entry `try/except` around `is_symlink`/`is_file`/`is_dir` is not modelled separately. An entry whose type query fails is an `Other` entry, which the walk skips.
