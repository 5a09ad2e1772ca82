/** The ant-style glob engine of `rituals.util.antglob`.

    A glob spec is split on `/`. Every position but the last is a directory
    position: `**` there stands for "zero or more leading directories"
    (the regex `(|.+/)`), anything else is a name glob followed by `/`. The
    last position is the file-name glob. A name glob is a run of literal
    characters, `*` (the regex `[^/]*`) and bracket groups, where a bracket
    group is a plain set of literal characters (`re.escape` has already
    escaped `^` and `-` when the brackets are put back). The compiled regex
    is anchored at both ends.

    The regex is not built as text: `FullMatch` states directly which
    strings the concatenated, anchored regex accepts, and `Matches` adds the
    behaviour of Python's `$`, which also accepts a single line feed after
    the end. */
module AntGlob {
  import opened Text

  /** One element of a name glob after `globify`. */
  datatype Token = Lit(c: char) | Star | Class(chars: set<char>)

  /** One directory position of a glob. */
  datatype DirGlob = AnyDirs | Name(tokens: seq<Token>)

  /** The compiled, anchored regex of a glob spec. */
  datatype Regex = Regex(dirs: seq<DirGlob>, file: seq<Token>)

  /** A `Pattern`: the compiled regex and whether a match includes or excludes. */
  datatype Pattern = Pattern(compiled: Regex, inclusive: bool)

  // ---------------------------------------------------------------------
  // Compiling a spec

  /** The bracket groups of one `/`-free part of a spec are the ones this
      model covers: every `[` opens a group that is closed by the next `]`,
      holds at least one character, and holds no `[` and no `*`. A `]`
      outside a group is an ordinary character, as it is for Python's `re`. */
  predicate WellFormedPart(s: string)
    decreases |s|
  {
    if s == [] then true
    else if s[0] == '[' then
      var j := IndexOf(s[1..], ']');
      0 < j < |s| - 1 && '[' !in s[1..j + 1] && '*' !in s[1..j + 1] && WellFormedPart(s[j + 2..])
    else WellFormedPart(s[1..])
  }

  /** A spec whose every part is well formed. The empty spec is left out
      (see README). */
  predicate WellFormedSpec(spec: string) {
    var parts := Split(spec, '/');
    spec != [] && forall i :: 0 <= i < |parts| ==> WellFormedPart(parts[i])
  }

  /** No token can match a `/`. */
  predicate SlashFree(ts: seq<Token>) {
    forall i :: 0 <= i < |ts| ==> ts[i] != Lit('/') && (ts[i].Class? ==> '/' !in ts[i].chars)
  }

  predicate SlashFreeDirs(ds: seq<DirGlob>) {
    forall i :: 0 <= i < |ds| ==> ds[i].Name? ==> SlashFree(ds[i].tokens)
  }

  predicate SlashFreeRegex(rx: Regex) {
    SlashFreeDirs(rx.dirs) && SlashFree(rx.file)
  }

  /** The literal tokens of a word. */
  function Lits(w: string): (ts: seq<Token>)
    ensures |ts| == |w| && forall i :: 0 <= i < |w| ==> ts[i] == Lit(w[i])
  {
    if w == [] then [] else [Lit(w[0])] + Lits(w[1..])
  }

  /** The characters of a word, as a set. */
  function CharsOf(w: string): (cs: set<char>)
    ensures forall c :: c in cs <==> c in w
  {
    if w == [] then {} else {w[0]} + CharsOf(w[1..])
  }

  /** `globify(part)`: each `*` becomes `[^/]*`, each bracket group a set of
      literal characters, every other character a literal. Splitting on `*`
      and joining with `[^/]*` is the same as reading the `*`s one by one,
      since no well-formed group holds a `*`. */
  function Globify(s: string): (ts: seq<Token>)
    requires WellFormedPart(s)
    ensures '/' !in s ==> SlashFree(ts)
    decreases |s|
  {
    if s == [] then []
    else if s[0] == '*' then [Star] + Globify(s[1..])
    else if s[0] == '[' then
      var j := IndexOf(s[1..], ']');
      [Class(CharsOf(s[1..j + 1]))] + Globify(s[j + 2..])
    else [Lit(s[0])] + Globify(s[1..])
  }

  /** The directory positions of `Pattern.parse`: `**` or `globify(dir) + "/"`. */
  function DirGlobs(parts: seq<string>): (ds: seq<DirGlob>)
    requires forall i :: 0 <= i < |parts| ==> WellFormedPart(parts[i]) && '/' !in parts[i]
    ensures |ds| == |parts|
    ensures forall i :: 0 <= i < |parts| ==> (ds[i] == AnyDirs <==> parts[i] == "**")
    ensures forall i :: 0 <= i < |parts| && parts[i] != "**" ==> ds[i] == Name(Globify(parts[i]))
    ensures SlashFreeDirs(ds)
  {
    if parts == [] then []
    else [if parts[0] == "**" then AnyDirs else Name(Globify(parts[0]))] + DirGlobs(parts[1..])
  }

  /** `Pattern.compile(spec)`: the directory positions are all parts but the
      last, and the last part is always a file-name glob, even when it is
      `**` (then it is two stars). */
  function Compile(spec: string): (rx: Regex)
    requires WellFormedSpec(spec)
    ensures |rx.dirs| == |Split(spec, '/')| - 1
    ensures rx.file == Globify(Split(spec, '/')[|Split(spec, '/')| - 1])
    ensures SlashFreeRegex(rx)
  {
    var parts := Split(spec, '/');
    Regex(DirGlobs(parts[..|parts| - 1]), Globify(parts[|parts| - 1]))
  }

  /** `includes(spec)` */
  function Includes(spec: string): (p: Pattern)
    requires WellFormedSpec(spec)
    ensures p.inclusive && p.compiled == Compile(spec)
  {
    Pattern(Compile(spec), true)
  }

  /** `excludes(spec)` */
  function Excludes(spec: string): (p: Pattern)
    requires WellFormedSpec(spec)
    ensures !p.inclusive && p.compiled == Compile(spec)
  {
    Pattern(Compile(spec), false)
  }

  // ---------------------------------------------------------------------
  // What the compiled regex accepts

  /** The strings a name glob accepts as a whole. */
  predicate TokensMatch(ts: seq<Token>, s: string)
    decreases |s|, |ts|
  {
    if ts == [] then s == []
    else match ts[0]
      case Lit(c) => |s| > 0 && s[0] == c && TokensMatch(ts[1..], s[1..])
      case Class(cs) => |s| > 0 && s[0] in cs && TokensMatch(ts[1..], s[1..])
      case Star => TokensMatch(ts[1..], s) || (|s| > 0 && s[0] != '/' && TokensMatch(ts, s[1..]))
  }

  /** The strings the anchored regex `^dirs file$` accepts as a whole:
      regex concatenation, with `(|.+/)` for `**` (Python's `.` does not
      match a line feed). */
  predicate PathMatch(dirs: seq<DirGlob>, file: seq<Token>, s: string)
    decreases |dirs|
  {
    if dirs == [] then TokensMatch(file, s)
    else match dirs[0]
      case Name(ts) =>
        exists k :: 0 <= k < |s| && s[k] == '/' && TokensMatch(ts, s[..k]) && PathMatch(dirs[1..], file, s[k + 1..])
      case AnyDirs =>
        PathMatch(dirs[1..], file, s) ||
        exists k :: 0 < k < |s| && s[k] == '/' && '\n' !in s[..k] && PathMatch(dirs[1..], file, s[k + 1..])
  }

  predicate FullMatch(rx: Regex, s: string) {
    PathMatch(rx.dirs, rx.file, s)
  }

  /** `Pattern.matches(path)`: `re.match` of `^...$`, where Python's `$`
      also matches just before a line feed that ends the string. */
  predicate Matches(p: Pattern, path: string) {
    FullMatch(p.compiled, path) ||
    (|path| > 0 && path[|path| - 1] == '\n' && FullMatch(p.compiled, path[..|path| - 1]))
  }

  // ---------------------------------------------------------------------
  // Last match wins

  /** What `FileSet.included` computes: the `inclusive` flag of the last
      pattern that matches, and false when none does. */
  function Verdict(ps: seq<Pattern>, path: string): bool {
    if ps == [] then false
    else if Matches(ps[|ps| - 1], path) then ps[|ps| - 1].inclusive
    else Verdict(ps[..|ps| - 1], path)
  }

  /** The pattern at `i` matches, includes, and no later one matches. */
  predicate LastVote(ps: seq<Pattern>, path: string, i: int) {
    0 <= i < |ps| && Matches(ps[i], path) && ps[i].inclusive &&
    forall j :: i < j < |ps| ==> !Matches(ps[j], path)
  }

  /** The verdict is the vote of the last matching pattern, in both directions. */
  lemma {:induction false} VerdictIsLastMatch(ps: seq<Pattern>, path: string)
    ensures Verdict(ps, path) <==> exists i :: LastVote(ps, path, i)
  {
    if ps != [] {
      var n := |ps| - 1;
      var init := ps[..n];
      if !Matches(ps[n], path) {
        VerdictIsLastMatch(init, path);
        if exists i :: LastVote(init, path, i) {
          var i :| LastVote(init, path, i);
          VoteShift(ps, path, i);
        }
        if exists i :: LastVote(ps, path, i) {
          var i :| LastVote(ps, path, i);
          VoteShift(ps, path, i);
        }
      } else if ps[n].inclusive {
        assert LastVote(ps, path, n);
      } else {
        forall i ensures !LastVote(ps, path, i) {
          if 0 <= i < n {
            assert Matches(ps[n], path);
          }
        }
      }
    }
  }

  /** A last pattern that does not match leaves the votes of the others. */
  lemma VoteShift(ps: seq<Pattern>, path: string, i: int)
    requires ps != [] && !Matches(ps[|ps| - 1], path)
    ensures LastVote(ps, path, i) <==> LastVote(ps[..|ps| - 1], path, i)
  {
    var init := ps[..|ps| - 1];
    if 0 <= i < |init| {
      assert ps[i] == init[i];
      assert (forall j :: i < j < |ps| ==> !Matches(ps[j], path)) <==>
        (forall j :: i < j < |init| ==> !Matches(init[j], path)) by {
        assert forall j :: i < j < |init| ==> init[j] == ps[j];
      }
    }
  }

  /** When no pattern matches, the path is not included. */
  lemma NoMatchNotIncluded(ps: seq<Pattern>, path: string)
    requires forall i :: 0 <= i < |ps| ==> !Matches(ps[i], path)
    ensures !Verdict(ps, path)
  {
    VerdictIsLastMatch(ps, path);
  }

  /** Appending patterns: if one of the appended ones matches, they alone
      decide; otherwise the earlier ones do. */
  lemma {:induction false} VerdictAppend(ps: seq<Pattern>, qs: seq<Pattern>, path: string)
    ensures Verdict(ps + qs, path) ==
      if exists j :: 0 <= j < |qs| && Matches(qs[j], path) then Verdict(qs, path) else Verdict(ps, path)
  {
    if qs == [] {
      assert ps + qs == ps;
    } else {
      var n := |qs| - 1;
      assert (ps + qs)[..|ps + qs| - 1] == ps + qs[..n];
      assert (ps + qs)[|ps + qs| - 1] == qs[n];
      VerdictAppend(ps, qs[..n], path);
      if !Matches(qs[n], path) {
        if exists j :: 0 <= j < |qs| && Matches(qs[j], path) {
          var j :| 0 <= j < |qs| && Matches(qs[j], path);
          assert j < n && qs[..n][j] == qs[j];
        }
        if exists j :: 0 <= j < n && Matches(qs[..n][j], path) {
          var j :| 0 <= j < n && Matches(qs[..n][j], path);
          assert qs[j] == qs[..n][j];
        }
      }
    }
  }

  // ---------------------------------------------------------------------
  // The walk

  /** A name as `os.walk` reports it: never empty, never holding `/`. */
  predicate Component(n: string) {
    n != [] && '/' !in n
  }

  /** One `(base, dirs, files)` triple of `os.walk(root)`, with `base` given
      by its components below the root (the `bits` of `FileSet.walk`). */
  datatype Step = Step(bits: seq<string>, files: seq<string>)

  /** `'/'.join(bits + [filename])` */
  function PathOf(comps: seq<string>): string {
    Join(comps, "/")
  }

  /** A listing `os.walk` can produce: every directory visited once, every
      file listed once in its directory, every name a `Component`. */
  predicate WellFormedListing(listing: seq<Step>) {
    (forall i, n :: 0 <= i < |listing| && 0 <= n < |listing[i].bits| ==> Component(listing[i].bits[n])) &&
    (forall i, j :: 0 <= i < |listing| && 0 <= j < |listing[i].files| ==> Component(listing[i].files[j])) &&
    (forall i, i' :: 0 <= i < i' < |listing| ==> listing[i].bits != listing[i'].bits) &&
    (forall i, j, j' :: 0 <= i < |listing| && 0 <= j < j' < |listing[i].files| ==>
       listing[i].files[j] != listing[i].files[j'])
  }

  /** `path` is the path of one of `files` in the directory `bits`. */
  predicate InDir(bits: seq<string>, files: seq<string>, path: string) {
    exists j :: 0 <= j < |files| && path == PathOf(bits + [files[j]])
  }

  /** `path` is the path of some file of the listing. */
  predicate Listed(listing: seq<Step>, path: string) {
    exists i :: 0 <= i < |listing| && InDir(listing[i].bits, listing[i].files, path)
  }

  /** The included paths of the files of one directory, in listing order. */
  function SelectFiles(bits: seq<string>, files: seq<string>, ps: seq<Pattern>): seq<string> {
    if files == [] then []
    else
      var path := PathOf(bits + [files[|files| - 1]]);
      SelectFiles(bits, files[..|files| - 1], ps) + (if Verdict(ps, path) then [path] else [])
  }

  /** The paths `FileSet.walk` yields for a listing, in order. */
  function Selected(listing: seq<Step>, ps: seq<Pattern>): seq<string> {
    if listing == [] then []
    else
      var last := listing[|listing| - 1];
      Selected(listing[..|listing| - 1], ps) + SelectFiles(last.bits, last.files, ps)
  }

  lemma {:induction false} SelectFilesMembers(bits: seq<string>, files: seq<string>, ps: seq<Pattern>, path: string)
    ensures path in SelectFiles(bits, files, ps) <==> Verdict(ps, path) && InDir(bits, files, path)
  {
    if files != [] {
      var n := |files| - 1;
      var init := files[..n];
      var last := PathOf(bits + [files[n]]);
      SelectFilesMembers(bits, init, ps, path);
      InConcat(SelectFiles(bits, init, ps), if Verdict(ps, last) then [last] else [], path);
      InDirSnoc(bits, files, path);
    }
  }

  /** A directory's files are its earlier files and its last one. */
  lemma InDirSnoc(bits: seq<string>, files: seq<string>, path: string)
    requires files != []
    ensures InDir(bits, files, path) <==>
      InDir(bits, files[..|files| - 1], path) || path == PathOf(bits + [files[|files| - 1]])
  {
    var init := files[..|files| - 1];
    if InDir(bits, files, path) {
      var j :| 0 <= j < |files| && path == PathOf(bits + [files[j]]);
      if j < |init| { assert init[j] == files[j]; }
    }
    if InDir(bits, init, path) {
      var j :| 0 <= j < |init| && path == PathOf(bits + [init[j]]);
      assert init[j] == files[j];
    }
  }

  /** The walk yields exactly the listed files that `included` accepts. */
  /** Every path the walk yields, as one statement. */
  lemma SelectedAll(listing: seq<Step>, ps: seq<Pattern>)
    ensures forall p :: p in Selected(listing, ps) <==> Listed(listing, p) && Verdict(ps, p)
  {
    forall p ensures p in Selected(listing, ps) <==> Listed(listing, p) && Verdict(ps, p) {
      SelectedMembers(listing, ps, p);
    }
  }

  lemma {:induction false} SelectedMembers(listing: seq<Step>, ps: seq<Pattern>, path: string)
    ensures path in Selected(listing, ps) <==> Listed(listing, path) && Verdict(ps, path)
  {
    if listing != [] {
      var n := |listing| - 1;
      var init := listing[..n];
      var last := listing[n];
      SelectedMembers(init, ps, path);
      SelectFilesMembers(last.bits, last.files, ps, path);
      InConcat(Selected(init, ps), SelectFiles(last.bits, last.files, ps), path);
      ListedSnoc(listing, path);
    }
  }

  /** A listing is its earlier directories and its last one. */
  lemma ListedSnoc(listing: seq<Step>, path: string)
    requires listing != []
    ensures Listed(listing, path) <==>
      Listed(listing[..|listing| - 1], path) ||
      InDir(listing[|listing| - 1].bits, listing[|listing| - 1].files, path)
  {
    var init := listing[..|listing| - 1];
    if Listed(listing, path) {
      var i :| 0 <= i < |listing| && InDir(listing[i].bits, listing[i].files, path);
      if i < |init| { assert init[i] == listing[i]; }
    }
    if Listed(init, path) {
      var i :| 0 <= i < |init| && InDir(init[i].bits, init[i].files, path);
      assert init[i] == listing[i];
    }
  }

  /** With no patterns, nothing is yielded. */
  lemma {:induction false} NoPatternsSelectNothing(listing: seq<Step>)
    ensures Selected(listing, []) == []
  {
    if listing != [] {
      var last := listing[|listing| - 1];
      NoPatternsSelectNothing(listing[..|listing| - 1]);
      SelectFilesEmpty(last.bits, last.files);
    }
  }

  lemma {:induction false} SelectFilesEmpty(bits: seq<string>, files: seq<string>)
    ensures SelectFiles(bits, files, []) == []
  {
    if files != [] { SelectFilesEmpty(bits, files[..|files| - 1]); }
  }

  /** The components of a joined path come back by splitting on `/`. */
  lemma PathComponents(comps: seq<string>)
    requires |comps| >= 1 && forall n :: 0 <= n < |comps| ==> '/' !in comps[n]
    ensures Split(PathOf(comps), '/') == comps
  {
    SplitJoin(comps, '/');
  }

  /** Every path of `SelectFiles` names a file of that directory. */
  lemma SelectFilesFrom(bits: seq<string>, files: seq<string>, ps: seq<Pattern>, k: int)
    requires 0 <= k < |SelectFiles(bits, files, ps)|
    ensures InDir(bits, files, SelectFiles(bits, files, ps)[k])
  {
    SelectFilesMembers(bits, files, ps, SelectFiles(bits, files, ps)[k]);
  }

  /** Within one directory, distinct file names give distinct paths. */
  lemma {:induction false} SelectFilesDistinct(bits: seq<string>, files: seq<string>, ps: seq<Pattern>)
    requires forall n :: 0 <= n < |bits| ==> Component(bits[n])
    requires forall j :: 0 <= j < |files| ==> Component(files[j])
    requires forall j, j' :: 0 <= j < j' < |files| ==> files[j] != files[j']
    ensures Distinct(SelectFiles(bits, files, ps))
  {
    if files != [] {
      var n := |files| - 1;
      var init := files[..n];
      SelectFilesDistinct(bits, init, ps);
      var head := SelectFiles(bits, init, ps);
      var path := PathOf(bits + [files[n]]);
      if Verdict(ps, path) {
        forall k | 0 <= k < |head| ensures head[k] != path {
          SelectFilesFrom(bits, init, ps, k);
          var j :| 0 <= j < |init| && head[k] == PathOf(bits + [init[j]]);
          assert init[j] == files[j];
          ComponentsOfPath(bits, init[j]);
          ComponentsOfPath(bits, files[n]);
          assert (bits + [init[j]])[|bits|] != (bits + [files[n]])[|bits|];
        }
      }
    }
  }

  lemma ComponentsOfPath(bits: seq<string>, name: string)
    requires forall n :: 0 <= n < |bits| ==> Component(bits[n])
    requires Component(name)
    ensures Split(PathOf(bits + [name]), '/') == bits + [name]
  {
    var comps := bits + [name];
    forall n | 0 <= n < |comps| ensures '/' !in comps[n] {
      if n < |bits| { assert comps[n] == bits[n]; }
    }
    PathComponents(comps);
  }

  /** Every path of `Selected` belongs to a file of one of the listed directories. */
  lemma SelectedFrom(listing: seq<Step>, ps: seq<Pattern>, k: int)
    requires 0 <= k < |Selected(listing, ps)|
    ensures Listed(listing, Selected(listing, ps)[k])
  {
    SelectedMembers(listing, ps, Selected(listing, ps)[k]);
  }

  /** No element occurs twice. */
  predicate Distinct(s: seq<string>) {
    forall k, k' :: 0 <= k < k' < |s| ==> s[k] != s[k']
  }

  lemma DistinctConcat(a: seq<string>, b: seq<string>)
    requires Distinct(a) && Distinct(b)
    requires forall k, k' :: 0 <= k < |a| && 0 <= k' < |b| ==> a[k] != b[k']
    ensures Distinct(a + b)
  {
    var r := a + b;
    forall k, k' | 0 <= k < k' < |r| ensures r[k] != r[k'] {
      if k' < |a| { assert r[k] == a[k] && r[k'] == a[k']; }
      else if k >= |a| { assert r[k] == b[k - |a|] && r[k'] == b[k' - |a|]; }
      else { assert r[k] == a[k] && r[k'] == b[k' - |a|]; }
    }
  }

  /** Over a listing `os.walk` can produce, no path is yielded twice. */
  lemma {:induction false} SelectedDistinct(listing: seq<Step>, ps: seq<Pattern>)
    requires WellFormedListing(listing)
    ensures Distinct(Selected(listing, ps))
  {
    if listing != [] {
      var n := |listing| - 1;
      var init := listing[..n];
      var last := listing[n];
      WellFormedInit(listing);
      SelectedDistinct(init, ps);
      SelectFilesDistinct(last.bits, last.files, ps);
      var head := Selected(init, ps);
      var tail := SelectFiles(last.bits, last.files, ps);
      forall k, k' | 0 <= k < |head| && 0 <= k' < |tail| ensures head[k] != tail[k'] {
        AcrossDirs(listing, ps, k, k');
      }
      DistinctConcat(head, tail);
    }
  }

  /** The directories before the last still form a listing `os.walk` can
      produce, and the last one's names are components. */
  lemma WellFormedInit(listing: seq<Step>)
    requires WellFormedListing(listing) && listing != []
    ensures WellFormedListing(listing[..|listing| - 1])
    ensures var last := listing[|listing| - 1];
      (forall j :: 0 <= j < |last.files| ==> Component(last.files[j])) &&
      (forall b :: 0 <= b < |last.bits| ==> Component(last.bits[b])) &&
      (forall j, j' :: 0 <= j < j' < |last.files| ==> last.files[j] != last.files[j'])
  {
    var init := listing[..|listing| - 1];
    forall i | 0 <= i < |init| ensures init[i] == listing[i] { }
  }

  /** A path yielded from an earlier directory differs from one yielded
      from the last: the directories differ. */
  lemma AcrossDirs(listing: seq<Step>, ps: seq<Pattern>, k: int, k': int)
    requires WellFormedListing(listing) && listing != []
    requires 0 <= k < |Selected(listing[..|listing| - 1], ps)|
    requires 0 <= k' < |SelectFiles(listing[|listing| - 1].bits, listing[|listing| - 1].files, ps)|
    ensures Selected(listing[..|listing| - 1], ps)[k] !=
      SelectFiles(listing[|listing| - 1].bits, listing[|listing| - 1].files, ps)[k']
  {
    var n := |listing| - 1;
    var init := listing[..n];
    var last := listing[n];
    var head := Selected(init, ps);
    var tail := SelectFiles(last.bits, last.files, ps);
    SelectedFrom(init, ps, k);
    SelectFilesFrom(last.bits, last.files, ps, k');
    var i :| 0 <= i < |init| && InDir(init[i].bits, init[i].files, head[k]);
    var j :| 0 <= j < |init[i].files| && head[k] == PathOf(init[i].bits + [init[i].files[j]]);
    var j' :| 0 <= j' < |last.files| && tail[k'] == PathOf(last.bits + [last.files[j']]);
    assert init[i] == listing[i];
    PathsOfDirsDiffer(listing[i].bits, listing[i].files[j], last.bits, last.files[j']);
  }

  /** Files of two different directories have different paths. */
  lemma PathsOfDirsDiffer(b1: seq<string>, f1: string, b2: seq<string>, f2: string)
    requires forall n :: 0 <= n < |b1| ==> Component(b1[n])
    requires forall n :: 0 <= n < |b2| ==> Component(b2[n])
    requires Component(f1) && Component(f2) && b1 != b2
    ensures PathOf(b1 + [f1]) != PathOf(b2 + [f2])
  {
    ComponentsOfPath(b1, f1);
    ComponentsOfPath(b2, f2);
    AppendSplit(b1, [f1]);
    AppendSplit(b2, [f2]);
  }

  /** Only files are ever yielded: every yielded path is that of a listed
      file, and over a listing `os.walk` can produce it never ends with `/`,
      the mark of a directory. */
  lemma YieldsOnlyFiles(listing: seq<Step>, ps: seq<Pattern>, path: string)
    requires path in Selected(listing, ps)
    ensures Listed(listing, path)
    ensures WellFormedListing(listing) ==> path == [] || path[|path| - 1] != '/'
  {
    SelectedMembers(listing, ps, path);
    if WellFormedListing(listing) {
      var i, j :| 0 <= i < |listing| && 0 <= j < |listing[i].files| &&
        path == PathOf(listing[i].bits + [listing[i].files[j]]);
      var name := listing[i].files[j];
      var comps := listing[i].bits + [name];
      JoinEndsWithLast(comps, "/");
      assert comps[|comps| - 1] == name;
      assert path == PathOf(comps);
      assert PathOf(comps) == Join(comps, "/");
      assert EndsWith(path, name);
      assert Component(name);
      assert path[|path| - |name|..] == name;
      assert path[|path| - |name|..][|name| - 1] == path[|path| - 1];
    }
  }

  /** One more directory of the listing. */
  lemma SelectedStep(listing: seq<Step>, i: int, ps: seq<Pattern>)
    requires 0 <= i < |listing|
    ensures Selected(listing[..i + 1], ps) ==
      Selected(listing[..i], ps) + SelectFiles(listing[i].bits, listing[i].files, ps)
  {
    assert listing[..i + 1][..i] == listing[..i];
  }

  /** One more file of the directory. */
  lemma SelectFilesStep(bits: seq<string>, files: seq<string>, j: int, ps: seq<Pattern>)
    requires 0 <= j < |files|
    ensures var path := PathOf(bits + [files[j]]);
      SelectFiles(bits, files[..j + 1], ps) ==
      SelectFiles(bits, files[..j], ps) + (if Verdict(ps, path) then [path] else [])
  {
    assert files[..j + 1][..j] == files[..j];
  }

  // ---------------------------------------------------------------------
  // FileSet

  /** `FileSet(root, patterns)`: both fields are set once by the constructor.
      The file system is not read here: what `os.walk(root)` reports at the
      time of iteration is passed to `Walk` as a listing. */
  class FileSet {
    const root: string
    const patterns: seq<Pattern>

    constructor (root: string, patterns: seq<Pattern>)
      ensures this.root == root && this.patterns == patterns
    {
      this.root := root;
      this.patterns := patterns;
    }

    /** `FileSet.included`: every pattern is evaluated, in order, and the last
        one that matches decides. */
    method Included(path: string) returns (inclusive: bool)
      ensures inclusive == Verdict(patterns, path)
    {
      inclusive := false;
      for k := 0 to |patterns|
        invariant inclusive == Verdict(patterns[..k], path)
      {
        assert patterns[..k + 1][..k] == patterns[..k];
        if Matches(patterns[k], path) {
          inclusive := patterns[k].inclusive;
        }
      }
      assert patterns[..|patterns|] == patterns;
    }

    /** `FileSet.walk` (and `__iter__`, which yields what `walk` yields): for
        each directory of the listing, for each of its files, the joined path
        when it is included. */
    method Walk(listing: seq<Step>) returns (paths: seq<string>)
      ensures paths == Selected(listing, patterns)
    {
      paths := [];
      for i := 0 to |listing|
        invariant paths == Selected(listing[..i], patterns)
      {
        var step := listing[i];
        ghost var before := paths;
        SelectedStep(listing, i, patterns);
        for j := 0 to |step.files|
          invariant paths == before + SelectFiles(step.bits, step.files[..j], patterns)
        {
          var path := PathOf(step.bits + [step.files[j]]);
          SelectFilesStep(step.bits, step.files, j, patterns);
          Assoc(before, SelectFiles(step.bits, step.files[..j], patterns), if Verdict(patterns, path) then [path] else []);
          var inc := Included(path);
          if inc {
            paths := paths + [path];
          } else {
            assert paths + [] == paths;
          }
        }
        assert step.files[..|step.files|] == step.files;
      }
      assert listing[..|listing|] == listing;
    }

    /** `set(self)`: what one iteration yields. */
    function Members(listing: seq<Step>): (m: set<string>)
      ensures forall p :: p in m <==> Listed(listing, p) && Verdict(patterns, p)
    {
      SelectedAll(listing, patterns);
      set p | p in Selected(listing, patterns)
    }

    /** `self | other`: the union of this set's files and `other`'s. */
    method Or(listing: seq<Step>, other: set<string>) returns (r: set<string>)
      ensures r == Members(listing) + other
      ensures forall p :: p in r <==> (Listed(listing, p) && Verdict(patterns, p)) || p in other
    {
      var mine := Walk(listing);
      r := (set p | p in mine) + other;
    }

    /** `other | self` delegates to `self | other`. */
    method ROr(listing: seq<Step>, other: set<string>) returns (r: set<string>)
      ensures r == Members(listing) + other
      ensures forall p :: p in r <==> (Listed(listing, p) && Verdict(patterns, p)) || p in other
    {
      r := Or(listing, other);
    }

    /** `self & other`: the files of this set that `other` also holds. */
    method And(listing: seq<Step>, other: set<string>) returns (r: set<string>)
      ensures r == Members(listing) * other
      ensures forall p :: p in r <==> Listed(listing, p) && Verdict(patterns, p) && p in other
    {
      var mine := Walk(listing);
      r := (set p | p in mine) * other;
    }

    /** `other & self` delegates to `self & other`. */
    method RAnd(listing: seq<Step>, other: set<string>) returns (r: set<string>)
      ensures r == Members(listing) * other
      ensures forall p :: p in r <==> Listed(listing, p) && Verdict(patterns, p) && p in other
    {
      r := And(listing, other);
    }
  }
}
