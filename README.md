# rituals: the ant-style glob engine and the tasks around it

This project is a Dafny model of the core of `rituals`, a library of
`invoke` tasks for Python projects. It covers these parts:

- **`rituals.util.antglob`.** This is the ant-style glob engine. A spec such as
  `foo/**/*.py` is split on `/`. A `**` in a directory position stands
  for zero or more leading directories, and every other directory part is a name
  glob followed by `/`. Within a name glob, `*` is any run of characters other
  than `/`, a bracket group is a set of literal characters (the `^` in `[^.]`
  and the `-` in `[a-z]` are literal), and everything else is literal. The
  resulting regex is anchored at both ends. A `FileSet` walks a tree and yields
  the root-relative, `/`-joined paths of the **files** it finds. A path is
  yielded when the last pattern in the list that matches it is an include.
  `|` and `&` are the union and intersection of what two sides yield.
- **The `clean` task (`rituals.acts.basic`).** It builds its include list and
  exclude list from its flags and walks a `FileSet`. It removes each yielded
  name as a tree when the name ends in `/`, and unlinks it otherwise.
- **`get_devpi_url` (`rituals.acts.devpi`).** It scans the output of
  `devpi use --urls` for the `simpleindex` line.
- **The `pylint` task (`rituals.acts.inspection`).** The model covers the name
  list, the relativized and sorted command line, the choice of rcfile and the
  decoding of pylint's return-code bits.
- **The release tasks (`rituals.acts.releasing`).** The model covers the
  in-place `tag_build` rewrite of `bump`, the comment-out loop of `prep` and
  the pre-release check on the names in `dist`.
- **The `deb.build` task (`rituals.acts.pkgdeb`).** The model covers the
  changelog header parse, the artifact glob, the collection of `.changes`
  files and the `dput` call. The header format is the one in section 4.4 of
  the Debian Policy Manual.
- **`rituals.util.buildsys`.** The model covers the poetry author, email and
  package derivation, `parse_copyright`, and the order in which the copyright
  sources are tried.
- **`rituals.util`.** The model covers `search_file_upwards` and
  `add_dir2pypath`.

**Modules.**

- `Text` holds the string helpers that stand for Python's `str` methods.
- `AntGlob` holds the engine: compilation, matching, the last-match vote, the
  walk and the `FileSet` class.
- `AntGlobTheory` proves what the compiled regexes accept, component by
  component.
- `AntGlobExamples` covers the examples in the `FileSet` docstring and the
  shapes used in the tests.
- `Basic`, `Devpi`, `Inspection`, `Releasing`, `PkgDeb`, `BuildSys` and
  `Util` follow the source files of the same names.

**Form of the model.** Pure code is written as functions and lemmas.
Imperative code is written as methods: `FileSet.Included`, `FileSet.Walk`,
`SpecLists`, `RemoveSelected`, `GetDevpiUrl`, `NameList`, `FindRcFile`,
`Bump`, `CommentOut`, `CheckDist`, `ChangesFiles` and `SearchFileUpwards`.
Each `ensures` ties the result to a specification function of the inputs or the old state, or, for `NameList`, `FindRcFile`, `SearchFileUpwards`, `CommentOut` and `CheckDist`, states the result by a quantified property; lemmas then state what those functions mean. `bump` and `prep` rewrite
the lines of `setup.cfg` in place, so they work on an `array<string>`.

**Regex semantics.**

- The glob regex is not built as text. `AntGlob.FullMatch` states directly
  which strings it accepts.
- Python's `$` also accepts one line feed after the end, and `AntGlob.Matches`
  keeps that behaviour (see `TrailingLineFeed`).
- The `.` in `(|.+/)` does not match a line feed. Lemmas about whole paths
  therefore assume file and directory names without `/` or line feeds (the
  `Ordinary` names).

**A consequence of the code as written.** The walk yields only files, never
directories, and it never prunes (the TODO at `src/rituals/util/antglob.py:37`).
So, for paths of ordinary names (no `/` and no line feed inside a name), a
glob that ends in `/` matches nothing that is yielded. In `clean`, the globs
`build/`, `dist/`, `docs/_build/`, `**/__pycache__/`, `.tox/`, the virtualenv
directories and every exclude are such globs. For paths of ordinary names,
`Basic.CleanRemoves` states exactly what `clean` removes:

- `pip-selfcheck.json` at the top;
- `~` backups, `.pyc` and `.pyo` files, and the egg-info matches, when their
  flags are set;
- whatever the extra tokens match.

A file name that ends in a line feed is the exception: Python's `$` lets
`build/` match `build/` followed by a line feed. Every removal is still an
unlink, for every listing (`Basic.OnlyUnlinks`), because a yielded path never
ends in `/`; the `rmtree` branch at `src/rituals/acts/basic.py:96-97` is never
taken.

**Where the description and the code disagree, the model follows the code.**

- A `devpi` line whose key is empty or all blanks makes `line.split()[-1]`
  raise `IndexError`. The model keeps this as an outcome of its own.
- A dist file that does not contain `-<version>` makes `split(...)[1]` raise.
  The model keeps this as `VersionMissing`.
- `add_dir2pypath` is not idempotent when the directory itself contains `:`.
  See `Util.AddDirWithSeparatorTwice`.

## Model

| member | source | states |
|---|---|---|
| AntGlob.Globify | src/rituals/util/antglob.py:40-41 | a `/`-free name glob compiles to tokens none of which can match `/` |
| AntGlob.Lits | src/rituals/util/antglob.py:41 | an escaped literal run is one literal token per character, in order |
| AntGlob.CharsOf | src/rituals/util/antglob.py:41 | a bracket group is exactly the set of characters listed in it |
| AntGlob.DirGlobs | src/rituals/util/antglob.py:64-69 | each directory part becomes "any directories" exactly when it is `**`, and otherwise the glob of that part followed by `/`; the result has one entry per part and can never match a `/` inside a name |
| AntGlob.Compile | src/rituals/util/antglob.py:52-71 | the compiled regex has one directory glob per `/` in the spec, and its file glob is the glob of the last part |
| AntGlob.Includes | src/rituals/util/antglob.py:138-139 | `includes(spec)` is the compiled spec with the inclusive flag set |
| AntGlob.Excludes | src/rituals/util/antglob.py:141-142 | `excludes(spec)` is the compiled spec with the inclusive flag cleared |
| AntGlob.Matches | src/rituals/util/antglob.py:73-74 | `Pattern.matches`: the anchored regex accepts the path, or the path less one final line feed, as Python's `$` allows; what it accepts is stated by `AntGlobTheory.MatchesOrdinaryPath` and `AntGlobTheory.TrailingLineFeed` |
| AntGlob.Verdict | src/rituals/util/antglob.py:102-110 | what `included` returns; `VerdictIsLastMatch` proves it is the vote of the last matching pattern, false when none matches, and `FileSet.Included` computes it |
| AntGlob.VerdictIsLastMatch | src/rituals/util/antglob.py:102-110 | a path is included if and only if some pattern matches it and includes, and no later pattern matches it |
| AntGlob.VoteShift | src/rituals/util/antglob.py:105-107 | a last pattern that does not match leaves the vote of the earlier ones unchanged |
| AntGlob.NoMatchNotIncluded | src/rituals/util/antglob.py:104-110 | when no pattern matches, the path is not included (the default is `False`) |
| AntGlob.VerdictAppend | src/rituals/util/antglob.py:105-107 | appending patterns decides a path by the appended ones whenever one of them matches it, and by the original list otherwise |
| AntGlob.SelectFiles | src/rituals/util/antglob.py:133-136 | the included paths of one directory's files, in listing order; `SelectFilesMembers` states which paths these are |
| AntGlob.Selected | src/rituals/util/antglob.py:128-136 | what `walk` yields, directory by directory; `FileSet.Walk` computes it and `SelectedMembers` states its members |
| AntGlob.SelectFilesMembers | src/rituals/util/antglob.py:133-136 | from one directory, a path is yielded if and only if it is one of that directory's files joined to its relative directory and it is included |
| AntGlob.InDirSnoc | src/rituals/util/antglob.py:133-134 | one more file name adds exactly its own joined path to what the directory lists |
| AntGlob.SelectedMembers | src/rituals/util/antglob.py:128-136 | the walk yields a path if and only if some directory lists it as a file and it is included |
| AntGlob.ListedSnoc | src/rituals/util/antglob.py:129-134 | one more directory adds exactly the paths of its files to what the listing holds |
| AntGlob.NoPatternsSelectNothing | src/rituals/util/antglob.py:104-110 | a `FileSet` with no patterns yields nothing from any tree |
| AntGlob.SelectFilesEmpty | src/rituals/util/antglob.py:133-136 | with no patterns, no file of a directory is yielded |
| AntGlob.PathComponents | src/rituals/util/antglob.py:134 | splitting a `/`-joined path of `/`-free names gives the names back |
| AntGlob.ComponentsOfPath | src/rituals/util/antglob.py:131-134 | the relative directory and the file name are recovered from the joined path |
| AntGlob.SelectFilesFrom | src/rituals/util/antglob.py:133-136 | every path yielded from a directory is one of that directory's files |
| AntGlob.SelectedFrom | src/rituals/util/antglob.py:128-136 | every yielded path is a file of some listed directory |
| AntGlob.SelectFilesDistinct | src/rituals/util/antglob.py:133-136 | distinct file names in one directory yield distinct paths |
| AntGlob.DistinctConcat | src/rituals/util/antglob.py:129-136 | two duplicate-free sequences with no element in common concatenate to a duplicate-free one |
| AntGlob.SelectedDistinct | src/rituals/util/antglob.py:128-136 | over a well-formed walk in which every directory is visited once, no path is yielded twice |
| AntGlob.WellFormedInit | src/rituals/util/antglob.py:129 | a prefix of a well-formed walk is well formed, and the last directory's names are proper, distinct components |
| AntGlob.AcrossDirs | src/rituals/util/antglob.py:129-136 | a path yielded from the last directory differs from every path yielded earlier |
| AntGlob.PathsOfDirsDiffer | src/rituals/util/antglob.py:131-134 | files in two different relative directories have different joined paths |
| AntGlob.YieldsOnlyFiles | src/rituals/util/antglob.py:133-136 | every yielded path is a listed file, and over a well-formed walk it never ends in `/` |
| AntGlob.SelectedStep | src/rituals/util/antglob.py:129-136 | the paths of the walk up to one more directory are those before it, followed by that directory's paths |
| AntGlob.SelectFilesStep | src/rituals/util/antglob.py:133-136 | the paths of a directory's first j+1 files are those of its first j files, followed by the path of file j if that path is included |
| AntGlob.FileSet.constructor | src/rituals/util/antglob.py:98-100 | the root and the pattern list are kept as given |
| AntGlob.FileSet.Included | src/rituals/util/antglob.py:102-110 | the loop over all patterns returns the last-match-wins verdict |
| AntGlob.FileSet.Walk | src/rituals/util/antglob.py:112-136 | iteration yields exactly the selected paths, directory by directory and file by file in listing order |
| AntGlob.FileSet.Members | src/rituals/util/antglob.py:112-114 | `set(self)` holds a path if and only if some directory of the listing lists it as a file and the last matching pattern includes it |
| AntGlob.FileSet.Or | src/rituals/util/antglob.py:116-117 | the union is `set(self)` and `other`: it holds a path if and only if `self` yields it or `other` holds it |
| AntGlob.FileSet.ROr | src/rituals/util/antglob.py:119-120 | the reflected union gives the same set, so union is commutative |
| AntGlob.FileSet.And | src/rituals/util/antglob.py:122-123 | `self & other` is `set(self)` cut to `other`: it holds a path if and only if `self` yields it and `other` holds it |
| AntGlob.FileSet.RAnd | src/rituals/util/antglob.py:125-126 | the reflected `&` gives the same set, so intersection is commutative |
| AntGlobTheory.StarRun | src/rituals/util/antglob.py:41 | `*` followed by more tokens matches a string if and only if some `/`-free prefix is followed by a match of the rest |
| AntGlobTheory.StarUnfold | src/rituals/util/antglob.py:41 | `[^/]*` either matches nothing or eats one non-`/` character and matches again |
| AntGlobTheory.StarShift | src/rituals/util/antglob.py:41 | eating one character and then a `/`-free run equals one longer `/`-free run |
| AntGlobTheory.StarAlone | src/rituals/util/antglob.py:41 | a lone `*` matches exactly the strings without `/`, dot-files included |
| AntGlobTheory.FinalDoubleStar | src/rituals/util/antglob.py:71 | a final `**` is two stars and matches exactly one `/`-free name |
| AntGlobTheory.LitsPrefix | src/rituals/util/antglob.py:41 | a literal run followed by tokens matches if and only if the string starts with that text and the rest matches |
| AntGlobTheory.LitsExact | src/rituals/util/antglob.py:41 | a literal glob matches only its own text |
| AntGlobTheory.LiteralPart | src/rituals/util/antglob.py:41 | a part without `*` or `[` compiles to literals only, so `...` is just three dots |
| AntGlobTheory.BracketGroup | src/rituals/util/antglob.py:41 | a bracket group matches exactly one character, one of those listed |
| AntGlobTheory.CaretIsLiteral | src/rituals/util/antglob.py:41 | `[^.]` matches exactly `^` or `.`, not a negated class |
| AntGlobTheory.DashIsLiteral | src/rituals/util/antglob.py:41 | `[a-z]` matches exactly `a`, `-` or `z`, not a range |
| AntGlobTheory.TwoCharGroup | src/rituals/util/antglob.py:41 | a two-character group matches exactly either of its characters |
| AntGlobTheory.ThreeCharGroup | src/rituals/util/antglob.py:41 | a three-character group matches exactly one of its characters |
| AntGlobTheory.TokensNoSlash | src/rituals/util/antglob.py:40-41 | a glob of one name never matches across a directory level |
| AntGlobTheory.JoinSplitAt | src/rituals/util/antglob.py:134 | a joined path is its first m components joined, a `/`, and the rest joined |
| AntGlobTheory.SlashFreeJoin | src/rituals/util/antglob.py:134 | a joined path without `/` has a single component |
| AntGlobTheory.CharNotInPath | src/rituals/util/antglob.py:134 | a character other than `/` that is in no component is not in the joined path |
| AntGlobTheory.SlashAtJoint | src/rituals/util/antglob.py:134 | every `/` of a joined path sits at a joint between components |
| AntGlobTheory.PathStartsWithFirst | src/rituals/util/antglob.py:134 | a joined path is at least as long as its first component |
| AntGlobTheory.MatchByComponents | src/rituals/util/antglob.py:52-71 | the anchored regex matches a joined path exactly when its directory globs match the leading components and its file glob matches the last |
| AntGlobTheory.TailOrdinary | src/rituals/util/antglob.py:64-69 | dropping one directory glob and some leading components keeps both side conditions |
| AntGlobTheory.MatchByComponentsName | src/rituals/util/antglob.py:68-69 | a name glob followed by `/` consumes exactly the first component |
| AntGlobTheory.FirstJoint | src/rituals/util/antglob.py:134 | the first `/` of a path of several components ends the first component, and the rest is the remaining components joined |
| AntGlobTheory.NameCut | src/rituals/util/antglob.py:69 | a name glob can only be followed by the `/` that ends the first component |
| AntGlobTheory.MatchByComponentsAny | src/rituals/util/antglob.py:65-66 | the group of an empty alternative and `.+/` skips any number of whole leading components, including none |
| AntGlobTheory.AnyDirsSkip | src/rituals/util/antglob.py:66 | a match of that group that gobbles text ends at a component boundary |
| AntGlobTheory.AnyDirsTake | src/rituals/util/antglob.py:66 | skipping whole leading components is a regex match of `.+/` |
| AntGlobTheory.MatchesOrdinaryPath | src/rituals/util/antglob.py:52-74 | `Pattern.matches` on a path of ordinary names is matching component by component |
| AntGlobTheory.TrailingLineFeed | src/rituals/util/antglob.py:54-74 | a pattern that matches a path also matches that path followed by one line feed, because of Python's `$` |
| AntGlobTheory.ComponentsMatchLast | src/rituals/util/antglob.py:71 | a match needs a last component, and the file glob matches it |
| AntGlobTheory.DirectorySpecMatchesNoFile | src/rituals/util/antglob.py:36-71 | a spec ending in `/` matches no path of ordinary names, so `foo/` selects no file |
| AntGlobTheory.StarSuffix | src/rituals/util/antglob.py:41 | `*w` matches exactly the `/`-free names that end in `w` |
| AntGlobTheory.StarThenLits | src/rituals/util/antglob.py:41 | `*w` compiles to a star followed by the literals of `w` |
| AntGlobTheory.SlashFreeName | src/rituals/util/antglob.py:41 | a `/`-free run followed by `/`-free `w` is a `/`-free name ending in `w` |
| AntGlobTheory.PlainName | src/rituals/util/antglob.py:52-71 | an exact name such as `zero.py` matches only the top-level file of that name |
| AntGlobExamples.CompileSplit | src/rituals/util/antglob.py:61-71 | the compiled spec is the directory globs of all parts but the last, then the glob of the last |
| AntGlobExamples.CompileParts | src/rituals/util/antglob.py:61-71 | joining well-formed parts with `/` and compiling gives the same regex as compiling the parts |
| AntGlobExamples.SplitTwo | src/rituals/util/antglob.py:61 | a two-part spec splits into its two parts |
| AntGlobExamples.SplitThree | src/rituals/util/antglob.py:61 | a three-part spec splits into its three parts |
| AntGlobExamples.LastEndsWith | src/rituals/util/antglob.py:41 | the glob `*w` accepts a last component exactly when it ends in `w` |
| AntGlobExamples.AnyDepth | src/rituals/util/antglob.py:65-66 | `**/` followed by a file glob accepts a path at any depth whose last component the file glob accepts |
| AntGlobExamples.AnyDepthName | src/rituals/util/antglob.py:61-71 | `**/n` matches a path exactly when the glob of `n` accepts its last component |
| AntGlobExamples.AnyDepthSuffix | src/rituals/util/antglob.py:61-71 | `**/*w` matches exactly the paths whose last component ends in `w` |
| AntGlobExamples.RecursiveSuffix | src/rituals/util/antglob.py:92 | `**/*` followed by a literal suffix matches exactly the files whose name ends in that suffix, at any depth |
| AntGlobExamples.RecursivePython | src/rituals/util/antglob.py:92 | `**/*.py` matches every Python file, top-level `zero.py` included |
| AntGlobExamples.NameThenAnyDepth | src/rituals/util/antglob.py:64-69 | `w/**/` needs `w` as the first component and at least one more component, at any depth |
| AntGlobExamples.CompileBelow | src/rituals/util/antglob.py:61-71 | `d/**/*w` compiles to the literal directory `d`, any directories, then star and `w` |
| AntGlobExamples.BelowDirs | src/rituals/util/antglob.py:64-69 | the directory parts `d`, `**` compile to a literal name and "any directories" |
| AntGlobExamples.BelowSuffix | src/rituals/util/antglob.py:61-71 | `d/**/*w` matches exactly the paths below `d`, at any depth, whose last component ends in `w` |
| AntGlobExamples.SplitBelowFoo | src/rituals/util/antglob.py:93 | `foo/**/*.py` splits into its three parts |
| AntGlobExamples.PythonBelowFooSpec | src/rituals/util/antglob.py:93 | a spec splitting into `foo`, `**`, `*.py` matches exactly the Python files below `foo` |
| AntGlobExamples.PythonBelowFoo | src/rituals/util/antglob.py:93 | `foo/**/*.py` matches exactly the Python files anywhere below `foo/` |
| AntGlobExamples.TopSuffix | src/rituals/util/antglob.py:61-71 | `*w` as a whole spec matches exactly the top-level names ending in `w` |
| AntGlobExamples.TopPythonSpec | src/rituals/util/antglob.py:94 | a spec splitting into `*.py` alone matches exactly the top-level Python files |
| AntGlobExamples.TopLevelPython | src/rituals/util/antglob.py:94 | `*.py` matches exactly the Python files in the root directory |
| AntGlobExamples.OneDirectory | src/rituals/util/antglob.py:68-71 | one name directory glob accepts exactly two-component paths whose parts match |
| AntGlobExamples.ChildSuffix | src/rituals/util/antglob.py:61-71 | `*/*w` matches exactly the files one directory down whose names end in `w` |
| AntGlobExamples.SplitTextInChildren | src/rituals/util/antglob.py:95 | `*/*.txt` splits into `*` and `*.txt` |
| AntGlobExamples.ChildTextSpec | src/rituals/util/antglob.py:95 | a spec splitting into `*`, `*.txt` matches exactly the text files in child directories |
| AntGlobExamples.TextInChildren | src/rituals/util/antglob.py:95 | `*/*.txt` matches exactly the text files in child directories |
| Basic.DirSpecs | src/rituals/acts/basic.py:78-90 | each virtualenv directory name becomes the name followed by `/`, in order |
| Basic.Compiled | src/rituals/acts/basic.py:87-90 | the list comprehension compiles each spec, in order, with the one inclusive flag |
| Basic.SpecLists | src/rituals/acts/basic.py:62-84 | growing the two lists under the flag tests gives exactly the specified include list and exclude list |
| Basic.CleanPatternList | src/rituals/acts/basic.py:86-90 | the final pattern list is the includes, then the excludes, then (without `venv`) the virtualenv excludes |
| Basic.RemovalOf | src/rituals/acts/basic.py:96-99 | a name ending in `/` is removed as a tree, and any other name is unlinked |
| Basic.Removals | src/rituals/acts/basic.py:94-99 | one removal per yielded name, in the order of the walk |
| Basic.Clean | src/rituals/acts/basic.py:62-99 | `clean` removes exactly the names the walk of its pattern list yields, each in its own way |
| Basic.RemoveSelected | src/rituals/acts/basic.py:91-99 | the loop over the file set produces the removals of exactly the selected paths |
| Basic.OnlyUnlinks | src/rituals/acts/basic.py:94-99 | since the walk yields only files, every removal is an unlink of the yielded name |
| Basic.PlainPart | src/rituals/acts/basic.py:64-84 | a part without `[` is well formed |
| Basic.PlainBefore | src/rituals/acts/basic.py:74 | bracket-free text before a well-formed part stays well formed |
| Basic.PlainSpec | src/rituals/acts/basic.py:64-84 | a non-empty spec without `[` is well formed |
| Basic.PlainSpecs | src/rituals/acts/basic.py:64-84 | a list of such specs is well formed |
| Basic.BytecodeSpec | src/rituals/acts/basic.py:74 | `**/*.py[co]` is well formed |
| Basic.BytecodeParts | src/rituals/acts/basic.py:74 | a spec splitting into `**` and `*.py[co]` is well formed |
| Basic.VenvSpecsWellFormed | src/rituals/acts/basic.py:63-78 | the virtualenv directory specs are well formed |
| Basic.ConcatWellFormed | src/rituals/acts/basic.py:67-84 | extending a well-formed list with a well-formed list keeps it well formed |
| Basic.FlagIncludesWellFormed | src/rituals/acts/basic.py:64-82 | every flag-driven include is well formed when the egg-info glob is |
| Basic.ExcludesWellFormed | src/rituals/acts/basic.py:65-90 | every exclude `clean` can use is well formed |
| Basic.ListsWellFormed | src/rituals/acts/basic.py:62-90 | both final lists are well formed for well-formed inputs |
| Basic.CompiledConcat | src/rituals/acts/basic.py:87 | compiling a concatenation is concatenating the compiled lists |
| Basic.CompiledLists | src/rituals/acts/basic.py:87-90 | the late virtualenv excludes extend the exclude part of the list |
| Basic.UniformVerdict | src/rituals/acts/basic.py:87 | a list of includes alone includes exactly the paths one of its specs matches, and a list of excludes alone includes nothing |
| Basic.CompiledMatches | src/rituals/acts/basic.py:87 | each compiled entry has the list's flag and matches what `includes` of its spec matches |
| Basic.LastMatch | src/rituals/util/antglob.py:105-107 | a pattern that matches has a last matching pattern at or after it |
| Basic.IncludesThenExcludes | src/rituals/acts/basic.py:87 | in the combined list every include comes before every exclude |
| Basic.CleanVerdict | src/rituals/acts/basic.py:87-90 | `clean` selects a path if and only if some include matches it and no exclude does, so an exclude always overrides an include |
| Basic.ListVerdict | src/rituals/acts/basic.py:87 | includes followed by excludes select what some include matches and no exclude matches |
| Basic.SomeMatchConcat | src/rituals/acts/basic.py:67-84 | some spec of a concatenation matches exactly when some spec of either part does |
| Basic.DirectoriesMatchNoFile | src/rituals/acts/basic.py:64-90 | a list of directory specs matches no file path |
| Basic.LitsThenClass | src/rituals/util/antglob.py:41 | literals then a class match the literal text followed by one listed character |
| Basic.ClassAlone | src/rituals/util/antglob.py:41 | a class alone matches exactly one listed character |
| Basic.StarLitsClassMatch | src/rituals/util/antglob.py:41 | what `*w[cs]` matches is a `/`-free name ending in `w` and a listed character |
| Basic.StarLitsClassAccepts | src/rituals/util/antglob.py:41 | every `/`-free name ending in `w` and a listed character matches `*w[cs]` |
| Basic.StarLitsClass | src/rituals/util/antglob.py:41 | `*w[cs]` matches exactly the `/`-free names ending in `w` and a listed character |
| Basic.EndsWithEither | src/rituals/util/antglob.py:41 | ending in `w` and one of two characters is ending in either completed suffix |
| Basic.GlobifyLitsBefore | src/rituals/util/antglob.py:41 | a literal prefix compiles to its literals before the rest of the glob |
| Basic.PlainAfterLit | src/rituals/util/antglob.py:41 | a plain character before a well-formed part stays well formed |
| Basic.GlobifyAfterLit | src/rituals/util/antglob.py:41 | a plain character compiles to one literal before the rest |
| Basic.LitsCons | src/rituals/util/antglob.py:41 | the literals of a character and a text are its literal followed by the text's |
| Basic.StarLitsGroupGlob | src/rituals/util/antglob.py:41 | `*a[w]` compiles to a star, the literals of `a` and the class of `w` |
| Basic.GroupPart | src/rituals/acts/basic.py:74 | `*a[cd]` is a well-formed, `/`-free part compiling to star, literals and a two-character class |
| Basic.GroupSlashFree | src/rituals/acts/basic.py:74 | `*a[cd]` holds no `/` |
| Basic.GroupName | src/rituals/util/antglob.py:41 | `*a[cd]` matches exactly the `/`-free names ending in `ac` or `ad` |
| Basic.AnyDepthGroup | src/rituals/acts/basic.py:74 | `**/*a[cd]` matches exactly the paths whose last component ends in `ac` or `ad` |
| Basic.SplitBytecode | src/rituals/acts/basic.py:74 | `**/*.py[co]` splits into `**` and `*.py[co]` |
| Basic.BytecodeName | src/rituals/acts/basic.py:74 | `*.py[co]` is a star, `.py` and the group of `c` and `o` |
| Basic.BytecodeGlob | src/rituals/acts/basic.py:74 | a spec splitting into `**`, `*.py[co]` removes exactly `.pyc` and `.pyo` files at any depth |
| Basic.BytecodeFiles | src/rituals/acts/basic.py:74 | `**/*.py[co]` matches exactly the `.pyc` and `.pyo` files at any depth |
| Basic.SingleMatch | src/rituals/acts/basic.py:87 | a one-spec list matches what its include matches |
| Basic.DirectoryAndName | src/rituals/acts/basic.py:64 | of a directory spec and an exact name, only the top-level file of that name is matched |
| Basic.BaseFiles | src/rituals/acts/basic.py:64 | of the two fixed includes, only `pip-selfcheck.json` at the top matches a file |
| Basic.BackupFiles | src/rituals/acts/basic.py:70-71 | the backup include matches exactly the `~` files, and only with `backups` or `all` |
| Basic.BytecodeDirectories | src/rituals/acts/basic.py:74 | `**/__pycache__/` and `*.egg-info/` are well-formed directory specs |
| Basic.PlainDirectories | src/rituals/acts/basic.py:64-82 | bracket-free directory specs are well formed and end in `/` |
| Basic.BytecodeSections | src/rituals/acts/basic.py:72-76 | with `bytecode` or `all`, the fixed globs and then the egg-info glob are added, in that order |
| Basic.BytecodeIncludedFiles | src/rituals/acts/basic.py:72-76 | the bytecode includes match exactly `.pyc`, `.pyo` and egg-info matches, and only with `bytecode` or `all` |
| Basic.DirectoryIncludes | src/rituals/acts/basic.py:66-80 | the docs, dist, venv and tox includes match no file |
| Basic.VenvDirectories | src/rituals/acts/basic.py:78-90 | every virtualenv spec ends in `/` |
| Basic.ExcludesMatchNoFile | src/rituals/acts/basic.py:65-90 | no exclude of `clean` matches a file, so none ever overrides |
| Basic.CleanRemoves | src/rituals/acts/basic.py:62-99 | `clean` removes exactly `pip-selfcheck.json`, the flagged backup, bytecode and egg-info files, and the matches of the extra tokens |
| Basic.FlagIncludes | src/rituals/acts/basic.py:64-80 | the includes the flags add, in order; `CleanFixed`, `CleanFlagged` and `CleanTox` state what each flag adds |
| Basic.IncludeSpecs | src/rituals/acts/basic.py:64-84 | `patterns` once the extra tokens are appended |
| Basic.ExcludeSpecs | src/rituals/acts/basic.py:65-82 | `excludes`: the four fixed globs, then `.tox/` without `tox` (`CleanFixed`, `CleanTox`) |
| Basic.AllExcludes | src/rituals/acts/basic.py:65-90 | every exclude, the virtualenv directories last when `venv` is off |
| Basic.CleanPatterns | src/rituals/acts/basic.py:87-90 | the fileset's pattern list, includes then excludes; `CleanVerdict` and `CleanRemoves` state what it selects |
| Basic.CleanFixed | src/rituals/acts/basic.py:64-65 | the include list always starts with `build/`, `pip-selfcheck.json`, and the exclude list with `.git/`, `.hg/`, `.svn/`, `debian/*/` |
| Basic.PrefixStays | src/rituals/acts/basic.py:66-84 | extending a list keeps its prefix |
| Basic.CleanFlagged | src/rituals/acts/basic.py:66-76 | each of `docs`, `dist`, `backups` and `bytecode` (or `all`) adds its fixed globs |
| Basic.CleanExtraLast | src/rituals/acts/basic.py:83-84 | the extra tokens come after all the flag-driven includes, unchanged |
| Basic.CleanVenv | src/rituals/acts/basic.py:63-90 | with `venv` the virtualenv dirs are includes, and without it they are the very last excludes |
| Basic.CleanTox | src/rituals/acts/basic.py:79-82 | with `tox`, `.tox/` is an include and no exclude; without it, `.tox/` is an exclude, and a path it matches is never removed, even when an extra token includes `.tox/` as well |
| Devpi.CleanUrl | src/rituals/acts/devpi.py:46 | the URL is cut before any escape character, has no leading blank and no trailing `/` |
| Devpi.Examine | src/rituals/acts/devpi.py:40-46 | a line without `:` is skipped; otherwise it is decided by the last word of the text before the first `:`, and an accepted line yields the cleaned rest |
| Devpi.Scan | src/rituals/acts/devpi.py:39-50 | the outcome of the loop over the output lines; `ScanOutcome` states it and `GetDevpiUrl` computes it |
| Devpi.ScanOutcome | src/rituals/acts/devpi.py:39-50 | the result is `LookupError` exactly when no line is decisive, and else it is the outcome of the first decisive line |
| Devpi.GetDevpiUrl | src/rituals/acts/devpi.py:35-50 | the loop with its early return computes the scan of the output lines |
| Devpi.ValueWithColons | src/rituals/acts/devpi.py:41 | only the first `:` separates, so the value may hold more colons |
| Devpi.SimpleIndexKey | src/rituals/acts/devpi.py:45 | `simpleindex` after a label and before blanks is the key's last word |
| Devpi.NotSoSimple | src/rituals/acts/devpi.py:45 | a key whose last word is `notsosimpleindex` is rejected |
| Devpi.EscapeCut | src/rituals/acts/devpi.py:46 | whatever follows the first escape character is dropped |
| Devpi.CleanPlain | src/rituals/acts/devpi.py:46 | without an escape character the URL is the stripped value with trailing `/` removed |
| Devpi.CleanUrlOf | src/rituals/acts/devpi.py:46 | blanks before and slashes after a URL are removed, and the URL is kept |
| Devpi.StripBlanks | src/rituals/acts/devpi.py:46 | stripping removes the leading blanks and keeps the trailing slashes |
| Devpi.VisibleEnd | src/rituals/acts/devpi.py:46 | a value ending in slashes after a visible character is not changed by stripping trailing blanks |
| Inspection.NameList | src/rituals/acts/inspection.py:44-60 | the name set holds exactly the packages without a `.` (joined to the source dir), the modules with `.py`, the test files unless skipped and the root files unless skipped |
| Inspection.Relativize | src/rituals/acts/inspection.py:62 | a name below `cwd/` loses exactly that prefix, and any other name is unchanged |
| Inspection.RelativizeKeeps | src/rituals/acts/inspection.py:62 | relativizing adds no character, so unquoted names stay unquoted |
| Inspection.RelativizeBelow | src/rituals/acts/inspection.py:62 | a name built as `cwd/rel` is relativized to `rel` |
| Inspection.BelowIrreflexive | src/rituals/acts/inspection.py:64 | the string order used by `sorted` is irreflexive |
| Inspection.BelowTransitive | src/rituals/acts/inspection.py:64 | the string order is transitive |
| Inspection.BelowTotal | src/rituals/acts/inspection.py:64 | any two different strings are ordered |
| Inspection.BelowAsymmetric | src/rituals/acts/inspection.py:64 | the string order is asymmetric |
| Inspection.LeastExists | src/rituals/acts/inspection.py:64 | a non-empty name set has a least element |
| Inspection.LeastUnique | src/rituals/acts/inspection.py:64 | the least element is unique |
| Inspection.Least | src/rituals/acts/inspection.py:64 | picks the least name of a non-empty set |
| Inspection.SortSet | src/rituals/acts/inspection.py:64 | `sorted(namelist)` is strictly increasing, holds exactly the set's names and has one entry per name |
| Inspection.SortedUnique | src/rituals/acts/inspection.py:64 | two strictly increasing sequences with the same elements are equal, so the sorted list is determined by the set |
| Inspection.FindRcFile | src/rituals/acts/inspection.py:66-69 | at most one rcfile is chosen: the first existing of the four candidates, in order, and none when none exists |
| Inspection.Fields | src/rituals/acts/inspection.py:64 | the quoted list alternates the names and single blanks |
| Inspection.FieldsJoin | src/rituals/acts/inspection.py:64 | joining the fields with `"` is joining the names with `" "` |
| Inspection.FieldsUnquoted | src/rituals/acts/inspection.py:64 | names without `"` give fields without `"` |
| Inspection.Options | src/rituals/acts/inspection.py:65-69 | the `--reports` option and the optional `--rcfile`, stated by `ReportsOption` |
| Inspection.Command | src/rituals/acts/inspection.py:63-69 | the command for sorted names, stated by `CommandJoin` |
| Inspection.PylintCommand | src/rituals/acts/inspection.py:62-69 | the command of the task, stated by `PylintNames` |
| Inspection.CommandJoin | src/rituals/acts/inspection.py:63-69 | the command is `pylint `, the quoted names and the options, separated by quotes |
| Inspection.CommandSplit | src/rituals/acts/inspection.py:63-69 | splitting the command at its quotes gives back `pylint `, each name and the options |
| Inspection.PartsUnquoted | src/rituals/acts/inspection.py:63-69 | no part of the command holds a quote |
| Inspection.OptionsUnquoted | src/rituals/acts/inspection.py:65-68 | the options hold no quote when the rcfile name holds none |
| Inspection.ReportsOption | src/rituals/acts/inspection.py:65-68 | the options start with `--reports=y` exactly when `reports` is set, and with `--reports=n` otherwise; an rcfile follows only when one was found |
| Inspection.PylintNames | src/rituals/acts/inspection.py:62-69 | the command lists exactly the relativized names, sorted and each quoted, then the options |
| Inspection.LowBits | src/rituals/acts/inspection.py:90 | `rc & 3` is set exactly when the fatal or the error bit is set |
| Inspection.SetBits | src/rituals/acts/inspection.py:88 | the comprehension names exactly the table entries whose bit is set |
| Inspection.React | src/rituals/acts/inspection.py:70-92 | return code 0 passes; bit 32 is a usage error whatever the other bits; otherwise the warning names exactly the set bits among fatal, error, warning, refactor and convention, and the failure is re-raised exactly when bit 1 or 2 is set |
| Inspection.ReraiseIfSevere | src/rituals/acts/inspection.py:88-92 | the failure is re-raised exactly when `fatal` or `error` is among the reported kinds |
| Inspection.UsageWins | src/rituals/acts/inspection.py:75-78 | any code with bit 32 set is a usage error, whatever its low bits |
| Inspection.UsageBit | src/rituals/acts/inspection.py:75 | such a code is not zero and has bit 32 set |
| Releasing.TagBuildIsGood | src/rituals/acts/releasing.py:63 | `tag_build` holds no blank, `#` or `=` |
| Releasing.Blanks | src/rituals/acts/releasing.py:63 | a run of n blanks |
| Releasing.DropBlanks | src/rituals/acts/releasing.py:63 | ` *` takes the leading blanks; what remains does not start with one |
| Releasing.DropBlanksAfter | src/rituals/acts/releasing.py:63 | ` *` takes exactly the blanks before a non-blank rest |
| Releasing.DropBlanksSplit | src/rituals/acts/releasing.py:63 | any text is its leading blanks followed by the rest |
| Releasing.VerbHasNoEquals | src/rituals/acts/releasing.py:63-64 | the text before `=` of a matched line holds no `=` |
| Releasing.UncommentVerb | src/rituals/acts/releasing.py:63 | dropping the optional `#` leaves the blanks, the key and the blanks |
| Releasing.KeyThenBlanksOf | src/rituals/acts/releasing.py:63 | the key followed by blanks is the key then blanks |
| Releasing.VerbKeyed | src/rituals/acts/releasing.py:63 | every `#? *key *` form is recognized |
| Releasing.TagBuildLine | src/rituals/acts/releasing.py:63 | the `tag_build` regex test, characterised in both directions by `TagBuildLineOf` and `TagBuildLineForm` |
| Releasing.TagBuildLineOf | src/rituals/acts/releasing.py:63 | every line of the form `#? *tag_build *=` and anything matches the regex |
| Releasing.KeyedForm | src/rituals/acts/releasing.py:63 | every recognized text before `=` is of the form `#? *key *` |
| Releasing.VerbFrom | src/rituals/acts/releasing.py:63 | the parts found by the match reassemble to the form |
| Releasing.UncommentedSplit | src/rituals/acts/releasing.py:63 | a text is its optional `#` followed by the rest |
| Releasing.BlankTail | src/rituals/acts/releasing.py:63 | the key followed by only blanks is the key and a blank run |
| Releasing.TagBuildLineForm | src/rituals/acts/releasing.py:63 | every matching line is `#? *tag_build *=` followed by anything: the regex matches exactly these lines |
| Releasing.KeyedLength | src/rituals/acts/releasing.py:63 | a recognized text is at least as long as its key |
| Releasing.Rewrite | src/rituals/acts/releasing.py:64-65 | the rewritten line keeps the text before the first `=` verbatim, then `= `, the version and a line end |
| Releasing.RewriteKeeps | src/rituals/acts/releasing.py:64-65 | the rewrite keeps the first `=` in its place and every character before it |
| Releasing.RewriteKey | src/rituals/acts/releasing.py:64-65 | the first `=` of the rewritten line is where it was |
| Releasing.RewriteStable | src/rituals/acts/releasing.py:62-66 | a rewritten line still matches, and rewriting it again changes nothing |
| Releasing.RewriteKeepsComment | src/rituals/acts/releasing.py:64-65 | a commented `#tag_build` line stays commented |
| Releasing.MapLines | src/rituals/acts/releasing.py:62-66 | mapping keeps the length and transforms each line in place |
| Releasing.AnyLine | src/rituals/acts/releasing.py:62-66 | some line satisfies the test exactly when one at some index does |
| Releasing.Bump | src/rituals/acts/releasing.py:56-75 | an empty suffix reports a release version and a missing `setup.cfg` is reported, both leaving the lines alone; otherwise the lines become the bumped lines, and the file is rewritten exactly when some line matched |
| Releasing.RewriteLines | src/rituals/acts/releasing.py:61-66 | the in-place loop leaves the bumped lines and sets `changed` exactly when some line matched |
| Releasing.BumpStep | src/rituals/acts/releasing.py:62-66 | one more line adds its bumped form and its match to what the loop has seen |
| Releasing.BumpLine | src/rituals/acts/releasing.py:63-65 | one line of the `bump` loop: a matching line is rewritten, any other is kept (`BumpMeaning`, `RewriteKeeps`) |
| Releasing.BumpLines | src/rituals/acts/releasing.py:62-66 | the lines after the `bump` loop; `Bump` leaves the array holding them, and `BumpMeaning` states which lines change |
| Releasing.BumpMeaning | src/rituals/acts/releasing.py:62-66 | exactly the matching lines are rewritten, and every other line is unchanged |
| Releasing.BumpIdempotent | src/rituals/acts/releasing.py:62-66 | bumping twice with the same suffix is bumping once |
| Releasing.Tagged | src/rituals/acts/releasing.py:151 | the `prep` test: the line starts with `tag_build` or `tag_date`; `CommentLine` proves its result never passes it |
| Releasing.CommentLine | src/rituals/acts/releasing.py:151-152 | a line starting with `tag_build` or `tag_date` gets a `#` in front, any other is unchanged, and the result starts with neither |
| Releasing.CommentOut | src/rituals/acts/releasing.py:149-153 | every line is commented in place, none starts with either key afterwards, and `changed` is set exactly when some line did |
| Releasing.CommentLineIdempotent | src/rituals/acts/releasing.py:150-153 | commenting out twice is commenting out once |
| Releasing.PrepSetupCfg | src/rituals/acts/releasing.py:145-162 | with a `setup.cfg` the lines are commented out; it is rewritten only when something changed and `commit` is set, and only reported when something changed without `commit` |
| Releasing.Find | src/rituals/acts/releasing.py:171 | the first occurrence of the separator |
| Releasing.Trailer | src/rituals/acts/releasing.py:171 | there is no text after `-<version>` exactly when the name does not contain `-<version>` |
| Releasing.RFind | src/rituals/acts/releasing.py:172 | the last occurrence of a character, or -1 |
| Releasing.SplitExtRoot | src/rituals/acts/releasing.py:172 | `splitext` keeps the text or cuts it just before a `.`; the definition cuts at the last `.` only when that dot lies in the base name and something other than a dot comes before it there, so the leading dots of a base name are modelled (`DotFileKept`) |
| Releasing.DotFileKept | src/rituals/acts/releasing.py:172 | a base name of leading dots and a dotless rest, such as `.bashrc`, has no extension and is kept whole |
| Releasing.SplitExtKeepsFirst | src/rituals/acts/releasing.py:172-173 | removing the extension keeps the first character of a non-empty trailer |
| Releasing.CheckFile | src/rituals/acts/releasing.py:171-175 | the verdict on one dist file: no `-<version>` in the name, a pre-release trailer, or final; `PreReleaseByFirst` states when it is a pre-release |
| Releasing.PreReleaseByFirst | src/rituals/acts/releasing.py:171-175 | a file is a pre-release exactly when its trailer is non-empty and does not start with `.` or `-` |
| Releasing.CheckDist | src/rituals/acts/releasing.py:170-175 | all files pass exactly when each is final; otherwise the first file that is not final decides the outcome |
| PkgDeb.Cut | src/rituals/acts/pkgdeb.py:43 | a cut gives a non-empty head without the separator's first character, the separator and the rest |
| PkgDeb.ParseHeader | src/rituals/acts/pkgdeb.py:43 | a parsed header has a blank-free name, a version without `)`, distributions without `;` and a non-empty urgency |
| PkgDeb.ParseVersion | src/rituals/acts/pkgdeb.py:43 | the rest after `name (` parses to a valid header with that name |
| PkgDeb.ParseDists | src/rituals/acts/pkgdeb.py:43 | the rest after `name (version) ` parses to a valid header with that name and version |
| PkgDeb.Separated | src/rituals/acts/pkgdeb.py:43 | a text free of the separator's first character is found again before the separator |
| PkgDeb.Unseparated | src/rituals/acts/pkgdeb.py:43 | a text holding the separator at a place is cut there |
| PkgDeb.CutSeparated | src/rituals/acts/pkgdeb.py:43 | the cut gives back the text and the rest |
| PkgDeb.FormatHeader | src/rituals/acts/pkgdeb.py:43 | the top line the changelog regex expects of a header; `ParseFormatted` and `ParsedIsFormatted` make it the inverse of parsing |
| PkgDeb.ChangelogHeader | src/rituals/acts/pkgdeb.py:43-45 | the header of the stripped top line, or `None` for the badly-formatted failure; `HeaderLine`, `ParseFormatted` and `ParsedIsFormatted` state it |
| PkgDeb.ParseFormatted | src/rituals/acts/pkgdeb.py:43-46 | formatting a valid header and parsing it gives the header back |
| PkgDeb.ParsedIsFormatted | src/rituals/acts/pkgdeb.py:43-46 | every line that parses is the formatted form of its header, so any other line leads to the badly-formatted failure |
| PkgDeb.HeaderLine | src/rituals/acts/pkgdeb.py:43 | trailing blanks or a line end after a header do not matter |
| PkgDeb.Sanitize | src/rituals/acts/pkgdeb.py:54 | each character outside `[-_.a-zA-Z0-9]` becomes `?`, any other is kept, and the length is kept |
| PkgDeb.SanitizeIdempotent | src/rituals/acts/pkgdeb.py:54 | sanitizing twice is sanitizing once, and a version of kept characters is unchanged |
| PkgDeb.ArtifactPattern | src/rituals/acts/pkgdeb.py:54 | the glob is the name, `?`, the sanitized version and `*` |
| PkgDeb.ChangesFiles | src/rituals/acts/pkgdeb.py:55-59 | the loop collects the `.changes` artifacts as `dist/<basename>`, in glob order |
| PkgDeb.ChangesOf | src/rituals/acts/pkgdeb.py:55-59 | the `.changes` files as `dist/<basename>`, in glob order; `ChangesFiles` computes it and `ChangesOfMembers` states its members |
| PkgDeb.ChangesOfMembers | src/rituals/acts/pkgdeb.py:55-59 | a name is collected exactly when it is `dist/` and the base name of a moved `.changes` artifact |
| PkgDeb.ShiftCollected | src/rituals/acts/pkgdeb.py:56-59 | the artifacts after the first are collected as they would be on their own |
| PkgDeb.ChangesName | src/rituals/acts/pkgdeb.py:58-59 | a collected name ends in `.changes` like its artifact |
| PkgDeb.DputCommand | src/rituals/acts/pkgdeb.py:62-63 | `dput` runs exactly when a host is given, with that host first |
| BuildSys.FirstAuthor | src/rituals/util/buildsys.py:58 | the author is the first entry of `authors`, or `''` when there are none |
| BuildSys.AuthorName | src/rituals/util/buildsys.py:62 | the name is stripped and holds no `<` |
| BuildSys.AuthorEmail | src/rituals/util/buildsys.py:63 | the email holds no `>`, and it is `''` without a `<` |
| BuildSys.FormatAuthor | src/rituals/util/buildsys.py:62-63 | an author entry `name <email>`; `AuthorRoundTrip` shows the split gives the parts back |
| BuildSys.AuthorRoundTrip | src/rituals/util/buildsys.py:62-63 | `name <email>` gives back the name and the email |
| BuildSys.StripTrailingSpace | src/rituals/util/buildsys.py:62 | the blank before `<` is stripped off the name |
| BuildSys.AuthorWithoutEmail | src/rituals/util/buildsys.py:62-63 | an author without `<` is the whole stripped text, with an empty email |
| BuildSys.PackageName | src/rituals/util/buildsys.py:65 | the package has every `-` replaced by `_` and every other character kept |
| BuildSys.PoetryProject | src/rituals/util/buildsys.py:55-70 | a poetry backend gives the project from the first author; any other backend raises `NotImplementedError('Unknown build system')` |
| BuildSys.CopyrightLine | src/rituals/util/buildsys.py:76 | the first line containing `Copyright` |
| BuildSys.ParseCopyright | src/rituals/util/buildsys.py:74-77 | it fails exactly when no line contains `Copyright`, and otherwise strips the first such line of every `Copyright` and of blanks |
| BuildSys.ReplaceLeading | src/rituals/util/buildsys.py:77 | removing `Copyright` from the start of a line leaves the rest |
| BuildSys.CopyrightNotice | src/rituals/util/buildsys.py:74-77 | the first `Copyright` line gives the stripped holder |
| BuildSys.LeadingWord | src/rituals/util/buildsys.py:77 | `Copyright` before a holder is found and removed |
| BuildSys.FirstCopyright | src/rituals/util/buildsys.py:76-77 | the first line containing `Copyright` decides |
| BuildSys.Copyright | src/rituals/util/buildsys.py:79-86 | `long_description` is used if present, else the LICENSE text, else `NotImplementedError`, and a source without a `Copyright` line raises `IndexError` |
| Util.DirName | src/rituals/util/__init__.py:31-34 | the parent drops the last component, and only the root is its own parent |
| Util.StartDir | src/rituals/util/__init__.py:30 | where the search starts: the given base, or the working directory when there is none (an empty base string is `None`); `SearchFileUpwards` searches up from it |
| Util.SearchFileUpwards | src/rituals/util/__init__.py:26-36 | the result is the nearest of the start directory and its ancestors below the root in which the file exists, and `None` when there is none; the start is the cwd when no base is given |
| Util.AddDirToPyPath | src/rituals/util/__init__.py:39-44 | the value is unchanged exactly when the path is already an entry, and otherwise the path is prepended to the old value |
| Util.PyPathEntries | src/rituals/util/__init__.py:43 | after a prepend the entries are the new one and then the old ones in order, with a separator only when the old value was not empty |
| Util.AddDirToPyPathIdempotent | src/rituals/util/__init__.py:42-44 | a second prepend of the same single-entry directory changes nothing |
| Util.AddDirWithSeparatorTwice | src/rituals/util/__init__.py:42-43 | a directory holding `:` is prepended a second time |
| Text.Split | src/rituals/util/antglob.py:61 | `str.split` on one character gives at least one part, none holding the separator, which join back to the text |
| Text.SplitJoin | src/rituals/util/__init__.py:42 | splitting a join of separator-free parts gives the parts back |
| Text.Strip | src/rituals/acts/devpi.py:46 | `strip` leaves no blank at either end, and keeps a text that has none |
| Text.LStrip | src/rituals/acts/devpi.py:46 | `lstrip` removes exactly the leading blanks |
| Text.RStrip | src/rituals/acts/pkgdeb.py:43 | `rstrip` removes exactly the trailing blanks |
| Text.RStripChar | src/rituals/acts/devpi.py:46 | `rstrip('/')` removes exactly the trailing slashes |
| Text.IndexOf | src/rituals/acts/devpi.py:41 | the index of the first occurrence, or the length when there is none |
| Text.LastWord | src/rituals/acts/devpi.py:45 | `split()[-1]` fails exactly on a blank text, and is otherwise a non-empty word without blanks |
| Text.BaseName | src/rituals/acts/pkgdeb.py:59 | `basename` is the text after the last `/` |
| Text.ReplaceAll | src/rituals/util/buildsys.py:77 | `replace` leaves a text without the pattern unchanged |
| Text.ReplaceAllFirst | src/rituals/util/buildsys.py:77 | the first occurrence is replaced, the text before it is kept, and the replacement goes on after that occurrence; with `ReplaceAll`, this accounts for every occurrence, left to right |
| Text.ReplaceChar | src/rituals/util/buildsys.py:65 | `replace` of one character replaces exactly its occurrences |

## Left out

- The real file system is not modelled. `os.walk` is replaced by a listing of (relative directory, file names) steps. The prefix slicing at `src/rituals/util/antglob.py:130-131` is left out: the listing already gives each directory as its list of components. The order of the walk is whatever the listing says, and only membership, uniqueness and file-ness are promised.
- Paths use `/` as the separator; `os.sep` is taken to be `/`.
- Removals are returned as values: `shutil.rmtree` and `os.unlink` are not performed. They are named relative to the project root, and the `os.path.join` with the root is left out.
- `glob.glob`, `shutil.move`, the reading and writing of `setup.cfg`, `debian/changelog` and `LICENSE`, and `scm.add_file` are left out. Their inputs and outputs are parameters.
- Python's regex engine and `re.escape` are not modelled; globs are matched directly.
- Malformed bracket groups (unbalanced, empty, or holding `*`, `[` or `/`) are excluded by precondition. For them `re.compile` would build a different regex or raise.
- The empty spec is excluded by precondition. Its `raise StopIteration` inside a generator is a `RuntimeError` on Python 3.7 and later (PEP 479), so its behaviour depends on the interpreter.
- Names with a line feed are left out of the component-wise matching lemmas; `AntGlobTheory.TrailingLineFeed` shows how `$` treats one final line feed.
- `inspection.py:52,58` passes a bare string to `FileSet`, which the shown class would iterate character by character. `Inspection.NameList` takes the test and root Python files as given sets instead.
- `shlex.split` of `extra`, `str.splitlines` of command output and files, and `cfg.srcjoin`/`cfg.testjoin` are taken as inputs or as functions passed in.
- `config.load`, `notify` output (the text of every warning and failure message), `ctx.run` and `shell.run` are left out. The clock-based `pep440` suffix of `bump` and the version for the dist check are inputs.
- `os.path.exists` is replaced by a predicate passed in (`SearchFileUpwards`, `FindRcFile`), and `os.environ` by the string passed to `AddDirToPyPath`.
- The concrete fixture results of the glob tests are not reproduced; the example lemmas state the general shape of each glob instead.
- Util.AddDirToPyPathIdempotent: holds only for a directory without `:`. A directory holding the separator is split into several entries and is prepended again (`Util.AddDirWithSeparatorTwice`).
- Devpi.CleanUrl: does not state that cleaning is idempotent, because it is not (stripping after the slashes are removed can expose more blanks).
- The remaining modules of the repository (documentation, testing, jenkins, github, scm, shell, notify, config, easy, filesys, `_compat`, `setup.py`, `bootstrap.py`, `invoke_tasks.py`, `tasks.py`) are not part of this model.
