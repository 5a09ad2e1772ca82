/** The house-keeping task `clean` of `rituals.acts.basic`: the include and
    exclude lists it builds from its flags, the `FileSet` it walks over the
    project root, and the removal it performs for every name the walk
    yields. Reading the configuration, the console output and the removal
    itself are left out: `Clean` returns the removals, in order, as values. */
module Basic {
  import opened Text
  import opened AntGlob
  import opened AntGlobTheory
  import opened AntGlobExamples

  /** The flags of `clean`. The `extra` string is passed on as its
      `shlex.split` tokens, and the project-relative egg-info glob of the
      source directory (`cfg.srcjoin('*.egg-info/')` below the root) as the
      string `eggInfo`. */
  datatype Flags = Flags(docs: bool, backups: bool, bytecode: bool, dist: bool,
                         all: bool, venv: bool, tox: bool)

  /** `venv_dirs` */
  const VenvDirs: seq<string> := ["bin", "include", "lib", "share", "local", ".venv"]

  /** `[i + '/' for i in names]` */
  function DirSpecs(names: seq<string>): (specs: seq<string>)
    ensures |specs| == |names|
    ensures forall k :: 0 <= k < |names| ==> specs[k] == names[k] + "/"
  {
    seq(|names|, k requires 0 <= k < |names| => names[k] + "/")
  }

  // ---------------------------------------------------------------------
  // The two lists

  /** The two globs every `clean` removes. */
  const BaseIncludes: seq<string> := ["build/", "pip-selfcheck.json"]

  /** What `docs` or `all` adds. */
  function DocsIncludes(f: Flags): seq<string> {
    if f.docs || f.all then ["docs/_build/", "doc/_build/"] else []
  }

  /** What `dist` or `all` adds. */
  function DistIncludes(f: Flags): seq<string> {
    if f.dist || f.all then ["dist/"] else []
  }

  /** What `backups` or `all` adds. */
  function BackupIncludes(f: Flags): seq<string> {
    if f.backups || f.all then ["**/*~"] else []
  }

  /** What `bytecode` or `all` adds. */
  function BytecodeIncludes(f: Flags, eggInfo: string): seq<string> {
    if f.bytecode || f.all then ["**/*.py[co]", "**/__pycache__/", "*.egg-info/", eggInfo] else []
  }

  /** What `venv` adds. */
  function VenvIncludes(f: Flags): seq<string> {
    if f.venv then DirSpecs(VenvDirs) else []
  }

  /** What `tox` adds. */
  function ToxIncludes(f: Flags): seq<string> {
    if f.tox then [".tox/"] else []
  }

  /** The flag-driven part of `patterns`, in the order `clean` appends it. */
  function FlagIncludes(f: Flags, eggInfo: string): seq<string> {
    BaseIncludes + DocsIncludes(f) + DistIncludes(f) + BackupIncludes(f)
    + BytecodeIncludes(f, eggInfo) + VenvIncludes(f) + ToxIncludes(f)
  }

  /** `patterns` once the extra tokens are appended. */
  function IncludeSpecs(f: Flags, eggInfo: string, extra: seq<string>): seq<string> {
    FlagIncludes(f, eggInfo) + extra
  }

  /** `excludes` */
  function ExcludeSpecs(f: Flags): seq<string> {
    [".git/", ".hg/", ".svn/", "debian/*/"] + ToxExcludes(f)
  }

  /** What `clean` excludes without `tox`. */
  function ToxExcludes(f: Flags): seq<string> {
    if f.tox then [] else [".tox/"]
  }

  /** The excludes appended after the fileset list is built, when the
      virtualenv is not cleaned. */
  function LateExcludes(f: Flags): seq<string> {
    if f.venv then [] else DirSpecs(VenvDirs)
  }

  /** Every exclude, in order. */
  function AllExcludes(f: Flags): seq<string> {
    ExcludeSpecs(f) + LateExcludes(f)
  }

  predicate SpecsWellFormed(specs: seq<string>) {
    forall k :: 0 <= k < |specs| ==> WellFormedSpec(specs[k])
  }

  /** What `clean` needs of its inputs: the globs it compiles are well
      formed (the egg-info glob only when it is used). */
  predicate InputsWellFormed(f: Flags, eggInfo: string, extra: seq<string>) {
    ((f.bytecode || f.all) ==> WellFormedSpec(eggInfo)) && SpecsWellFormed(extra)
  }

  /** `[antglob.includes(i) for i in specs]`, or with `excludes`. */
  function Compiled(specs: seq<string>, inclusive: bool): (ps: seq<Pattern>)
    requires SpecsWellFormed(specs)
    ensures |ps| == |specs|
    ensures forall k :: 0 <= k < |specs| ==> ps[k] == Pattern(Compile(specs[k]), inclusive)
  {
    seq(|specs|, k requires 0 <= k < |specs| => Pattern(Compile(specs[k]), inclusive))
  }

  /** The pattern list of the fileset: every include, then every exclude. */
  function CleanPatterns(f: Flags, eggInfo: string, extra: seq<string>): (ps: seq<Pattern>)
    requires InputsWellFormed(f, eggInfo, extra)
  {
    ListsWellFormed(f, eggInfo, extra);
    Compiled(IncludeSpecs(f, eggInfo, extra), true) + Compiled(AllExcludes(f), false)
  }

  // ---------------------------------------------------------------------
  // Well-formedness of the fixed globs

  /** A bracket-free text is a well-formed part. */
  lemma {:induction false} PlainPart(s: string)
    requires '[' !in s
    ensures WellFormedPart(s)
    decreases |s|
  {
    if s != [] {
      PlainPart(s[1..]);
    }
  }

  /** Bracket-free characters in front of a well-formed part keep it well formed. */
  lemma {:induction false} PlainBefore(a: string, b: string)
    requires '[' !in a && WellFormedPart(b)
    ensures WellFormedPart(a + b)
    decreases |a|
  {
    if a != [] {
      assert (a + b)[0] == a[0] && (a + b)[1..] == a[1..] + b;
      assert forall x :: x in a[1..] ==> x in a;
      PlainBefore(a[1..], b);
    } else {
      assert a + b == b;
    }
  }

  /** A non-empty bracket-free spec is well formed. */
  lemma PlainSpec(s: string)
    requires s != [] && '[' !in s
    ensures WellFormedSpec(s)
  {
    var parts := Split(s, '/');
    forall i | 0 <= i < |parts| ensures WellFormedPart(parts[i]) {
      SplitInside(s, '/', i);
      PlainPart(parts[i]);
    }
  }

  /** A list of non-empty bracket-free specs is well formed. */
  lemma PlainSpecs(specs: seq<string>)
    requires forall k :: 0 <= k < |specs| ==> specs[k] != [] && '[' !in specs[k]
    ensures SpecsWellFormed(specs)
  {
    forall k | 0 <= k < |specs| ensures WellFormedSpec(specs[k]) {
      PlainSpec(specs[k]);
    }
  }

  /** The bytecode glob, with its bracket group, is well formed. */
  lemma BytecodeSpec()
    ensures WellFormedSpec("**/*.py[co]")
  {
    SplitBytecode();
    BytecodeParts("**/*.py[co]");
  }

  lemma BytecodeParts(spec: string)
    requires spec != [] && Split(spec, '/') == ["**", "*.py[co]"]
    ensures WellFormedSpec(spec)
  {
    assert WellFormedPart("**");
    assert WellFormedPart("*.py[co]");
  }

  lemma VenvSpecsWellFormed()
    ensures SpecsWellFormed(DirSpecs(VenvDirs))
  {
    var specs := DirSpecs(VenvDirs);
    forall k | 0 <= k < |specs| ensures specs[k] != [] && '[' !in specs[k] {
      assert '[' !in VenvDirs[k];
    }
    PlainSpecs(specs);
  }

  lemma ConcatWellFormed(a: seq<string>, b: seq<string>)
    requires SpecsWellFormed(a) && SpecsWellFormed(b)
    ensures SpecsWellFormed(a + b)
  {
    forall k | 0 <= k < |a + b| ensures WellFormedSpec((a + b)[k]) {
      if k < |a| { assert (a + b)[k] == a[k]; } else { assert (a + b)[k] == b[k - |a|]; }
    }
  }

  lemma FlagIncludesWellFormed(f: Flags, eggInfo: string)
    requires (f.bytecode || f.all) ==> WellFormedSpec(eggInfo)
    ensures SpecsWellFormed(FlagIncludes(f, eggInfo))
  {
    var s0 := BaseIncludes;
    var s1 := DocsIncludes(f);
    var s2 := DistIncludes(f);
    var s3 := BackupIncludes(f);
    var s4 := BytecodeIncludes(f, eggInfo);
    var s5 := VenvIncludes(f);
    var s6 := ToxIncludes(f);
    assert SpecsWellFormed(s0) by { PlainSpecs(s0); }
    assert SpecsWellFormed(s1) by { PlainSpecs(s1); }
    assert SpecsWellFormed(s2) by { PlainSpecs(s2); }
    assert SpecsWellFormed(s3) by { PlainSpecs(s3); }
    assert SpecsWellFormed(s4) by {
      if f.bytecode || f.all {
        BytecodeSpec();
        PlainSpec("**/__pycache__/");
        PlainSpec("*.egg-info/");
      }
    }
    assert SpecsWellFormed(s5) by { VenvSpecsWellFormed(); }
    assert SpecsWellFormed(s6) by { PlainSpecs(s6); }
    ConcatWellFormed(s0, s1);
    ConcatWellFormed(s0 + s1, s2);
    ConcatWellFormed(s0 + s1 + s2, s3);
    ConcatWellFormed(s0 + s1 + s2 + s3, s4);
    ConcatWellFormed(s0 + s1 + s2 + s3 + s4, s5);
    ConcatWellFormed(s0 + s1 + s2 + s3 + s4 + s5, s6);
  }

  lemma ExcludesWellFormed(f: Flags)
    ensures SpecsWellFormed(ExcludeSpecs(f))
    ensures SpecsWellFormed(AllExcludes(f))
  {
    assert SpecsWellFormed(ExcludeSpecs(f)) by { PlainSpecs(ExcludeSpecs(f)); }
    assert SpecsWellFormed(LateExcludes(f)) by { VenvSpecsWellFormed(); }
    ConcatWellFormed(ExcludeSpecs(f), LateExcludes(f));
  }

  /** Every glob `clean` compiles is well formed. */
  lemma ListsWellFormed(f: Flags, eggInfo: string, extra: seq<string>)
    requires InputsWellFormed(f, eggInfo, extra)
    ensures SpecsWellFormed(IncludeSpecs(f, eggInfo, extra))
    ensures SpecsWellFormed(AllExcludes(f))
  {
    FlagIncludesWellFormed(f, eggInfo);
    ConcatWellFormed(FlagIncludes(f, eggInfo), extra);
    ExcludesWellFormed(f);
  }

  // ---------------------------------------------------------------------
  // Building the list

  lemma CompiledConcat(a: seq<string>, b: seq<string>, inclusive: bool)
    requires SpecsWellFormed(a) && SpecsWellFormed(b)
    ensures SpecsWellFormed(a + b)
    ensures Compiled(a + b, inclusive) == Compiled(a, inclusive) + Compiled(b, inclusive)
  {
    ConcatWellFormed(a, b);
    var l := Compiled(a + b, inclusive);
    var r := Compiled(a, inclusive) + Compiled(b, inclusive);
    forall k | 0 <= k < |l| ensures l[k] == r[k] {
      if k < |a| { assert (a + b)[k] == a[k]; } else { assert (a + b)[k] == b[k - |a|]; }
    }
  }

  /** The list with the late excludes appended is the list of includes and
      all excludes. */
  lemma CompiledLists(incl: seq<string>, excl: seq<string>, late: seq<string>, ps: seq<Pattern>)
    requires SpecsWellFormed(incl) && SpecsWellFormed(excl) && SpecsWellFormed(late)
    requires ps == Compiled(incl, true) + Compiled(excl, false) + Compiled(late, false)
    ensures SpecsWellFormed(excl + late)
    ensures ps == Compiled(incl, true) + Compiled(excl + late, false)
  {
    CompiledConcat(excl, late, false);
  }

  /** Lines 63-84 of `clean`: the two lists grown under the flag tests. */
  method SpecLists(f: Flags, eggInfo: string, extra: seq<string>)
    returns (patterns: seq<string>, excludes: seq<string>)
    ensures patterns == IncludeSpecs(f, eggInfo, extra)
    ensures excludes == ExcludeSpecs(f)
  {
    var venvDirs := VenvDirs;
    patterns := ["build/", "pip-selfcheck.json"];
    excludes := [".git/", ".hg/", ".svn/", "debian/*/"];
    ghost var before := patterns;
    if f.docs || f.all {
      patterns := patterns + ["docs/_build/", "doc/_build/"];
    }
    assert patterns == before + DocsIncludes(f);
    before := patterns;
    if f.dist || f.all {
      patterns := patterns + ["dist/"];
    }
    assert patterns == before + DistIncludes(f);
    before := patterns;
    if f.backups || f.all {
      patterns := patterns + ["**/*~"];
    }
    assert patterns == before + BackupIncludes(f);
    before := patterns;
    if f.bytecode || f.all {
      patterns := patterns + ["**/*.py[co]", "**/__pycache__/", "*.egg-info/", eggInfo];
    }
    assert patterns == before + BytecodeIncludes(f, eggInfo);
    before := patterns;
    if f.venv {
      patterns := patterns + DirSpecs(venvDirs);
    }
    assert patterns == before + VenvIncludes(f);
    before := patterns;
    if f.tox {
      patterns := patterns + [".tox/"];
    } else {
      excludes := excludes + [".tox/"];
    }
    assert patterns == before + ToxIncludes(f);
    assert patterns == FlagIncludes(f, eggInfo);
    if extra != [] {
      patterns := patterns + extra;
    } else {
      assert patterns + extra == patterns;
    }
  }

  /** Lines 63-90 of `clean`: the two lists compiled into includes followed
      by excludes, and the virtualenv excludes appended last when the
      virtualenv is kept. */
  method CleanPatternList(f: Flags, eggInfo: string, extra: seq<string>) returns (ps: seq<Pattern>)
    requires InputsWellFormed(f, eggInfo, extra)
    ensures ps == CleanPatterns(f, eggInfo, extra)
  {
    var patterns, excludes := SpecLists(f, eggInfo, extra);
    ListsWellFormed(f, eggInfo, extra);
    ExcludesWellFormed(f);
    VenvSpecsWellFormed();
    ps := Compiled(patterns, true) + Compiled(excludes, false);
    if !f.venv {
      ps := ps + Compiled(DirSpecs(VenvDirs), false);
    } else {
      assert ps == ps + Compiled(LateExcludes(f), false);
    }
    CompiledLists(patterns, excludes, LateExcludes(f), ps);
  }

  // ---------------------------------------------------------------------
  // Removal

  /** What `clean` does with one yielded name, relative to the project root. */
  datatype Removal = RemoveTree(name: string) | Unlink(name: string)

  /** A name ending in `/` is removed as a tree, any other is unlinked. */
  function RemovalOf(name: string): (r: Removal)
    ensures r.name == name
    ensures r.RemoveTree? <==> EndsWith(name, "/")
  {
    if EndsWith(name, "/") then RemoveTree(name) else Unlink(name)
  }

  /** The removals for the yielded names, in order. */
  function Removals(names: seq<string>): (rs: seq<Removal>)
    ensures |rs| == |names|
    ensures forall k :: 0 <= k < |names| ==> rs[k] == RemovalOf(names[k])
  {
    seq(|names|, k requires 0 <= k < |names| => RemovalOf(names[k]))
  }

  /** Lines 63-99 of `clean`: the fileset over the root, walked once, and
      one removal per yielded name. The listing stands for what `os.walk`
      reports of the root. */
  method Clean(root: string, f: Flags, eggInfo: string, extra: seq<string>, listing: seq<Step>)
    returns (removals: seq<Removal>)
    requires InputsWellFormed(f, eggInfo, extra)
    ensures removals == Removals(Selected(listing, CleanPatterns(f, eggInfo, extra)))
  {
    var ps := CleanPatternList(f, eggInfo, extra);
    removals := RemoveSelected(root, ps, listing);
  }

  /** Lines 91-99 of `clean`: the removal loop over the walk of a fileset. */
  method RemoveSelected(root: string, ps: seq<Pattern>, listing: seq<Step>) returns (removals: seq<Removal>)
    ensures removals == Removals(Selected(listing, ps))
  {
    var fileset := new FileSet(root, ps);
    var names := fileset.Walk(listing);
    removals := [];
    for k := 0 to |names|
      invariant |removals| == k
      invariant forall m :: 0 <= m < k ==> removals[m] == RemovalOf(names[m])
    {
      removals := removals + [RemovalOf(names[k])];
    }
  }

  /** The walk yields only files, so over a listing `os.walk` can produce
      every removal is an unlink and the tree branch is never taken. */
  lemma OnlyUnlinks(listing: seq<Step>, ps: seq<Pattern>, k: int)
    requires WellFormedListing(listing)
    requires 0 <= k < |Removals(Selected(listing, ps))|
    ensures Removals(Selected(listing, ps))[k].Unlink?
    ensures Removals(Selected(listing, ps))[k].name == Selected(listing, ps)[k]
  {
    var names := Selected(listing, ps);
    YieldsOnlyFiles(listing, ps, names[k]);
  }

  // ---------------------------------------------------------------------
  // Last match wins over the clean list

  /** Some glob of `specs` matches `path`. */
  predicate SomeMatch(specs: seq<string>, path: string)
    requires SpecsWellFormed(specs)
  {
    exists k :: 0 <= k < |specs| && Matches(Includes(specs[k]), path)
  }

  /** A list whose patterns all vote the same way: its verdict is that vote
      when one of them matches, and false otherwise. */
  lemma {:induction false} UniformVerdict(specs: seq<string>, inclusive: bool, path: string)
    requires SpecsWellFormed(specs)
    ensures Verdict(Compiled(specs, inclusive), path) <==> inclusive && SomeMatch(specs, path)
  {
    var ps := Compiled(specs, inclusive);
    VerdictIsLastMatch(ps, path);
    CompiledMatches(specs, inclusive, path);
    if inclusive && SomeMatch(specs, path) {
      var k :| 0 <= k < |specs| && Matches(Includes(specs[k]), path);
      var last := LastMatch(ps, path, k);
      assert LastVote(ps, path, last);
    }
    if Verdict(ps, path) {
      var i :| LastVote(ps, path, i);
      assert Matches(Includes(specs[i]), path);
    }
  }

  /** A compiled pattern matches where the glob's include does. */
  lemma CompiledMatches(specs: seq<string>, inclusive: bool, path: string)
    requires SpecsWellFormed(specs)
    ensures forall k :: 0 <= k < |specs| ==>
      Compiled(specs, inclusive)[k].inclusive == inclusive &&
      (Matches(Compiled(specs, inclusive)[k], path) <==> Matches(Includes(specs[k]), path))
  {
    var ps := Compiled(specs, inclusive);
    forall k | 0 <= k < |specs|
      ensures ps[k].inclusive == inclusive && (Matches(ps[k], path) <==> Matches(Includes(specs[k]), path))
    {
      assert ps[k].compiled == Includes(specs[k]).compiled;
    }
  }

  /** The last index at or after `k` whose pattern matches. */
  lemma LastMatch(ps: seq<Pattern>, path: string, k: int) returns (last: int)
    requires 0 <= k < |ps| && Matches(ps[k], path)
    ensures k <= last < |ps| && Matches(ps[last], path)
    ensures forall j :: last < j < |ps| ==> !Matches(ps[j], path)
    decreases |ps| - k
  {
    if exists j :: k < j < |ps| && Matches(ps[j], path) {
      var j :| k < j < |ps| && Matches(ps[j], path);
      last := LastMatch(ps, path, j);
    } else {
      last := k;
    }
  }

  /** In the final list every include comes before every exclude: the
      includes of the collected globs in their order, then the excludes
      (`CleanPatterns` is this list for the globs of `clean`). */
  lemma IncludesThenExcludes(incl: seq<string>, excl: seq<string>)
    requires SpecsWellFormed(incl) && SpecsWellFormed(excl)
    ensures var ps := Compiled(incl, true) + Compiled(excl, false);
      |ps| == |incl| + |excl| &&
      (forall k :: 0 <= k < |incl| ==> ps[k] == Includes(incl[k])) &&
      (forall k :: |incl| <= k < |ps| ==> ps[k] == Excludes(excl[k - |incl|]))
  {
  }

  /** A path is removed exactly when some include matches it and no
      exclude does: an exclude overrides any include for the same path. */
  lemma CleanVerdict(f: Flags, eggInfo: string, extra: seq<string>, path: string)
    requires InputsWellFormed(f, eggInfo, extra)
    ensures SpecsWellFormed(IncludeSpecs(f, eggInfo, extra)) && SpecsWellFormed(AllExcludes(f))
    ensures Verdict(CleanPatterns(f, eggInfo, extra), path) <==>
      SomeMatch(IncludeSpecs(f, eggInfo, extra), path) && !SomeMatch(AllExcludes(f), path)
  {
    ListsWellFormed(f, eggInfo, extra);
    ListVerdict(IncludeSpecs(f, eggInfo, extra), AllExcludes(f), path);
  }

  /** Includes followed by excludes: some include and no exclude. */
  lemma ListVerdict(incl: seq<string>, excl: seq<string>, path: string)
    requires SpecsWellFormed(incl) && SpecsWellFormed(excl)
    ensures Verdict(Compiled(incl, true) + Compiled(excl, false), path) <==>
      SomeMatch(incl, path) && !SomeMatch(excl, path)
  {
    var qs := Compiled(excl, false);
    VerdictAppend(Compiled(incl, true), qs, path);
    UniformVerdict(incl, true, path);
    UniformVerdict(excl, false, path);
    assert (exists j :: 0 <= j < |qs| && Matches(qs[j], path)) <==> SomeMatch(excl, path) by {
      if SomeMatch(excl, path) {
        var j :| 0 <= j < |excl| && Matches(Includes(excl[j]), path);
        assert Matches(qs[j], path);
      }
    }
  }

  // ---------------------------------------------------------------------
  // What the clean list removes

  lemma SomeMatchConcat(a: seq<string>, b: seq<string>, path: string)
    requires SpecsWellFormed(a) && SpecsWellFormed(b)
    ensures SpecsWellFormed(a + b)
    ensures SomeMatch(a + b, path) <==> SomeMatch(a, path) || SomeMatch(b, path)
  {
    ConcatWellFormed(a, b);
    if SomeMatch(a + b, path) {
      var k :| 0 <= k < |a + b| && Matches(Includes((a + b)[k]), path);
      if k < |a| { assert (a + b)[k] == a[k]; } else { assert (a + b)[k] == b[k - |a|]; }
    }
    if SomeMatch(a, path) {
      var k :| 0 <= k < |a| && Matches(Includes(a[k]), path);
      assert (a + b)[k] == a[k];
    }
    if SomeMatch(b, path) {
      var k :| 0 <= k < |b| && Matches(Includes(b[k]), path);
      assert (a + b)[|a| + k] == b[k];
    }
  }

  /** Directory globs (ending in `/`) match no file path. */
  lemma DirectoriesMatchNoFile(specs: seq<string>, comps: seq<string>)
    requires SpecsWellFormed(specs) && OrdinaryPath(comps)
    requires forall k :: 0 <= k < |specs| ==> EndsWith(specs[k], "/")
    ensures !SomeMatch(specs, PathOf(comps))
  {
    forall k | 0 <= k < |specs| ensures !Matches(Includes(specs[k]), PathOf(comps)) {
      DirectorySpecMatchesNoFile(specs[k], true, comps);
    }
  }



  /** Literal characters and then one bracket group: exactly the word and
      one of the group's characters. */
  lemma LitsThenClass(w: string, cs: set<char>, t: string)
    ensures TokensMatch(Lits(w) + [Class(cs)], t) <==> |t| == |w| + 1 && t[..|w|] == w && t[|w|] in cs
  {
    LitsPrefix(w, [Class(cs)], t);
    if |w| <= |t| {
      ClassAlone(cs, t[|w|..]);
    }
  }

  /** A lone bracket group: one of its characters. */
  lemma ClassAlone(cs: set<char>, u: string)
    ensures TokensMatch([Class(cs)], u) <==> |u| == 1 && u[0] in cs
  {
    assert [Class(cs)][1..] == [];
  }

  /** The names a `*` and then literal characters and a bracket group accept. */
  predicate EndsWithGroup(s: string, w: string, cs: set<char>) {
    |s| >= |w| + 1 && s[|s| - |w| - 1..|s| - 1] == w && s[|s| - 1] in cs
  }

  lemma StarLitsClassMatch(w: string, cs: set<char>, s: string)
    requires '/' !in w && '/' !in cs
    requires TokensMatch([Star] + (Lits(w) + [Class(cs)]), s)
    ensures '/' !in s && EndsWithGroup(s, w, cs)
  {
    var ts := Lits(w) + [Class(cs)];
    StarRun(ts, s);
    var k :| 0 <= k <= |s| && '/' !in s[..k] && TokensMatch(ts, s[k..]);
    var t := s[k..];
    LitsThenClass(w, cs, t);
    assert k == |s| - |w| - 1;
    assert t[..|w|] == s[k..|s| - 1];
    assert t[|w|] == s[|s| - 1];
    forall i | 0 <= i < |s| ensures s[i] != '/' {
      if i < k { assert s[i] == s[..k][i]; }
      else if i < |s| - 1 { assert s[i] == t[..|w|][i - k]; }
    }
  }

  lemma StarLitsClassAccepts(w: string, cs: set<char>, s: string)
    requires '/' !in s && EndsWithGroup(s, w, cs)
    ensures TokensMatch([Star] + (Lits(w) + [Class(cs)]), s)
  {
    var ts := Lits(w) + [Class(cs)];
    var k := |s| - |w| - 1;
    var t := s[k..];
    assert forall c :: c in s[..k] ==> c in s;
    assert t[..|w|] == s[k..|s| - 1];
    assert t[|w|] == s[|s| - 1];
    LitsThenClass(w, cs, t);
    StarRun(ts, s);
  }

  /** `*`, literal characters and a bracket group: the names ending in the
      word and one of the group's characters. */
  lemma StarLitsClass(w: string, cs: set<char>, s: string)
    requires '/' !in w && '/' !in cs
    ensures TokensMatch([Star] + (Lits(w) + [Class(cs)]), s) <==> '/' !in s && EndsWithGroup(s, w, cs)
  {
    if TokensMatch([Star] + (Lits(w) + [Class(cs)]), s) {
      StarLitsClassMatch(w, cs, s);
    }
    if '/' !in s && EndsWithGroup(s, w, cs) {
      StarLitsClassAccepts(w, cs, s);
    }
  }

  /** Ending in a group of two characters is ending in either of two words. */
  lemma EndsWithEither(s: string, w: string, c: char, d: char)
    ensures EndsWithGroup(s, w, {c, d}) <==> EndsWith(s, w + [c]) || EndsWith(s, w + [d])
  {
    if |s| >= |w| + 1 {
      var n := |s| - |w| - 1;
      assert s[n..] == s[n..|s| - 1] + [s[|s| - 1]];
      if EndsWith(s, w + [c]) { assert s[n..][..|w|] == s[n..|s| - 1]; }
      if EndsWith(s, w + [d]) { assert s[n..][..|w|] == s[n..|s| - 1]; }
    }
  }

  /** Literal characters in front of a well-formed part globify to literals. */
  lemma {:induction false} GlobifyLitsBefore(a: string, b: string)
    requires '[' !in a && '*' !in a && WellFormedPart(b)
    ensures WellFormedPart(a + b) && Globify(a + b) == Lits(a) + Globify(b)
    decreases |a|
  {
    if a != [] {
      var r := a[1..];
      var t := r + b;
      assert '[' !in r && '*' !in r by { assert forall x :: x in r ==> x in a; }
      GlobifyLitsBefore(r, b);
      ConsAppend(a, b);
      PlainAfterLit(a[0], t);
      GlobifyAfterLit(a[0], t);
      LitsCons(a[0], r);
      Assoc([Lit(a[0])], Lits(r), Globify(b));
    } else {
      assert a + b == b;
    }
  }

  lemma PlainAfterLit(x: char, t: string)
    requires x != '*' && x != '[' && WellFormedPart(t)
    ensures WellFormedPart([x] + t)
  {
    assert ([x] + t)[0] == x && ([x] + t)[1..] == t;
  }

  lemma GlobifyAfterLit(x: char, t: string)
    requires x != '*' && x != '[' && WellFormedPart(t) && WellFormedPart([x] + t)
    ensures Globify([x] + t) == [Lit(x)] + Globify(t)
  {
    assert ([x] + t)[0] == x && ([x] + t)[1..] == t;
  }

  lemma LitsCons(x: char, r: string)
    ensures Lits([x] + r) == [Lit(x)] + Lits(r)
  {
    assert ([x] + r)[0] == x && ([x] + r)[1..] == r;
  }

  /** A star, literal characters and a bracket group. */
  lemma StarLitsGroupGlob(a: string, w: string)
    requires '*' !in a && '[' !in a && w != [] && '[' !in w && ']' !in w && '*' !in w
    ensures WellFormedPart("*" + (a + ("[" + w + "]")))
    ensures Globify("*" + (a + ("[" + w + "]"))) == [Star] + (Lits(a) + [Class(CharsOf(w))])
  {
    var g := "[" + w + "]";
    BracketGroup(w, "");
    GlobifyLitsBefore(a, g);
    var t := "*" + (a + g);
    assert t[0] == '*' && t[1..] == a + g;
  }

  /** `*`, literal characters and a group of two characters, as a part. */
  lemma GroupPart(a: string, c: char, d: char, n: string)
    requires '*' !in a && '[' !in a && '/' !in a
    requires c !in "[]*/" && d !in "[]*/"
    requires n == "*" + (a + ("[" + [c, d] + "]"))
    ensures WellFormedPart(n) && '/' !in n
    ensures Globify(n) == [Star] + (Lits(a) + [Class({c, d})])
  {
    StarLitsGroupGlob(a, [c, d]);
    assert CharsOf([c, d]) == {c, d};
    GroupSlashFree(a, c, d, n);
  }

  lemma GroupSlashFree(a: string, c: char, d: char, n: string)
    requires '/' !in a && c != '/' && d != '/'
    requires n == "*" + (a + ("[" + [c, d] + "]"))
    ensures '/' !in n
  {
    assert forall x :: x in n ==> x == '*' || x in a || x == '[' || x == ']' || x == c || x == d;
  }

  /** The names such a part accepts. */
  lemma GroupName(a: string, c: char, d: char, s: string)
    requires '/' !in a && c != '/' && d != '/'
    ensures TokensMatch([Star] + (Lits(a) + [Class({c, d})]), s) <==>
      '/' !in s && (EndsWith(s, a + [c]) || EndsWith(s, a + [d]))
  {
    StarLitsClass(a, {c, d}, s);
    EndsWithEither(s, a, c, d);
  }

  /** `**`, then `*`, literal characters and a group of two characters: the
      files whose name ends in the characters and one of the two. */
  lemma AnyDepthGroup(a: string, c: char, d: char, n: string, spec: string, comps: seq<string>)
    requires '*' !in a && '[' !in a && '/' !in a && OrdinaryPath(comps)
    requires c !in "[]*/" && d !in "[]*/"
    requires n == "*" + (a + ("[" + [c, d] + "]"))
    requires spec != [] && Split(spec, '/') == ["**", n]
    ensures WellFormedSpec(spec)
    ensures Matches(Includes(spec), PathOf(comps)) <==>
      EndsWith(comps[|comps| - 1], a + [c]) || EndsWith(comps[|comps| - 1], a + [d])
  {
    var last := comps[|comps| - 1];
    GroupPart(a, c, d, n);
    AnyDepthName(n, spec, comps);
    GroupName(a, c, d, last);
    assert '/' !in last;
  }

  lemma SplitBytecode()
    ensures Split("**/*.py[co]", '/') == ["**", "*.py[co]"]
  {
    SplitTwo("**", "*.py[co]", "**/*.py[co]");
  }

  lemma BytecodeName()
    ensures "*.py[co]" == "*" + (".py" + ("[" + ['c', 'o'] + "]"))
    ensures ".py" + ['c'] == ".pyc" && ".py" + ['o'] == ".pyo"
  {
  }

  /** A spec that splits into `**` and `*.py[co]`: the compiled Python
      files, at any depth. */
  lemma BytecodeGlob(spec: string, comps: seq<string>)
    requires spec != [] && Split(spec, '/') == ["**", "*.py[co]"] && OrdinaryPath(comps)
    ensures WellFormedSpec(spec)
    ensures Matches(Includes(spec), PathOf(comps)) <==>
      EndsWith(comps[|comps| - 1], ".pyc") || EndsWith(comps[|comps| - 1], ".pyo")
  {
    BytecodeName();
    AnyDepthGroup(".py", 'c', 'o', "*.py[co]", spec, comps);
  }

  /** The bytecode glob: the compiled Python files, at any depth. */
  lemma BytecodeFiles(comps: seq<string>)
    requires OrdinaryPath(comps)
    ensures WellFormedSpec("**/*.py[co]")
    ensures Matches(Includes("**/*.py[co]"), PathOf(comps)) <==>
      EndsWith(comps[|comps| - 1], ".pyc") || EndsWith(comps[|comps| - 1], ".pyo")
  {
    SplitBytecode();
    BytecodeGlob("**/*.py[co]", comps);
  }

  lemma SingleMatch(spec: string, path: string)
    requires WellFormedSpec(spec)
    ensures SpecsWellFormed([spec])
    ensures SomeMatch([spec], path) <==> Matches(Includes(spec), path)
  {
    assert [spec][0] == spec;
  }

  /** A directory glob and a plain name: only the name, at the top. */
  lemma DirectoryAndName(d: string, w: string, comps: seq<string>)
    requires d != [] && '[' !in d && EndsWith(d, "/")
    requires Ordinary(w) && '*' !in w && '[' !in w && OrdinaryPath(comps)
    ensures SpecsWellFormed([d, w])
    ensures SomeMatch([d, w], PathOf(comps)) <==> comps == [w]
  {
    var path := PathOf(comps);
    PlainName(w, true, comps);
    PlainSpec(d);
    DirectorySpecMatchesNoFile(d, true, comps);
    assert [d, w] == [d] + [w];
    SingleMatch(d, path);
    SingleMatch(w, path);
    SomeMatchConcat([d], [w], path);
  }

  lemma BaseFiles(comps: seq<string>)
    requires OrdinaryPath(comps)
    ensures SpecsWellFormed(BaseIncludes)
    ensures SomeMatch(BaseIncludes, PathOf(comps)) <==> comps == ["pip-selfcheck.json"]
  {
    DirectoryAndName("build/", "pip-selfcheck.json", comps);
  }

  lemma BackupFiles(f: Flags, comps: seq<string>)
    requires OrdinaryPath(comps)
    ensures SpecsWellFormed(BackupIncludes(f))
    ensures SomeMatch(BackupIncludes(f), PathOf(comps)) <==>
      (f.backups || f.all) && EndsWith(comps[|comps| - 1], "~")
  {
    assert "**/*" + "~" == "**/*~";
    RecursiveSuffix("~", comps);
    if f.backups || f.all {
      SingleMatch("**/*~", PathOf(comps));
    }
  }

  /** The two directory globs of the bytecode flag. */
  lemma BytecodeDirectories()
    ensures SpecsWellFormed(["**/__pycache__/", "*.egg-info/"])
    ensures forall k :: 0 <= k < |["**/__pycache__/", "*.egg-info/"]| ==>
      EndsWith(["**/__pycache__/", "*.egg-info/"][k], "/")
  {
    PlainDirectories(["**/__pycache__/", "*.egg-info/"]);
  }

  lemma PlainDirectories(specs: seq<string>)
    requires forall k :: 0 <= k < |specs| ==> specs[k] != [] && '[' !in specs[k] && EndsWith(specs[k], "/")
    ensures SpecsWellFormed(specs)
    ensures forall k :: 0 <= k < |specs| ==> EndsWith(specs[k], "/")
  {
    PlainSpecs(specs);
  }

  lemma BytecodeSections(f: Flags, eggInfo: string)
    requires f.bytecode || f.all
    ensures BytecodeIncludes(f, eggInfo) == ["**/*.py[co]"] + ["**/__pycache__/", "*.egg-info/"] + [eggInfo]
  {
  }

  lemma BytecodeIncludedFiles(f: Flags, eggInfo: string, comps: seq<string>)
    requires (f.bytecode || f.all) ==> WellFormedSpec(eggInfo)
    requires OrdinaryPath(comps)
    ensures SpecsWellFormed(BytecodeIncludes(f, eggInfo))
    ensures SomeMatch(BytecodeIncludes(f, eggInfo), PathOf(comps)) <==>
      (f.bytecode || f.all) &&
      (EndsWith(comps[|comps| - 1], ".pyc") || EndsWith(comps[|comps| - 1], ".pyo") ||
       Matches(Includes(eggInfo), PathOf(comps)))
  {
    if f.bytecode || f.all {
      var path := PathOf(comps);
      var dirs := ["**/__pycache__/", "*.egg-info/"];
      BytecodeFiles(comps);
      BytecodeDirectories();
      DirectoriesMatchNoFile(dirs, comps);
      SingleMatch("**/*.py[co]", path);
      SingleMatch(eggInfo, path);
      SomeMatchConcat(["**/*.py[co]"], dirs, path);
      SomeMatchConcat(["**/*.py[co]"] + dirs, [eggInfo], path);
      BytecodeSections(f, eggInfo);
    }
  }

  /** The docs, dist, virtualenv and tox globs name directories. */
  lemma DirectoryIncludes(f: Flags, comps: seq<string>)
    requires OrdinaryPath(comps)
    ensures SpecsWellFormed(DocsIncludes(f)) && SpecsWellFormed(DistIncludes(f))
    ensures SpecsWellFormed(VenvIncludes(f)) && SpecsWellFormed(ToxIncludes(f))
    ensures !SomeMatch(DocsIncludes(f), PathOf(comps)) && !SomeMatch(DistIncludes(f), PathOf(comps))
    ensures !SomeMatch(VenvIncludes(f), PathOf(comps)) && !SomeMatch(ToxIncludes(f), PathOf(comps))
  {
    assert SpecsWellFormed(DocsIncludes(f)) && !SomeMatch(DocsIncludes(f), PathOf(comps)) by {
      PlainSpecs(DocsIncludes(f));
      DirectoriesMatchNoFile(DocsIncludes(f), comps);
    }
    assert SpecsWellFormed(DistIncludes(f)) && !SomeMatch(DistIncludes(f), PathOf(comps)) by {
      PlainSpecs(DistIncludes(f));
      DirectoriesMatchNoFile(DistIncludes(f), comps);
    }
    assert SpecsWellFormed(ToxIncludes(f)) && !SomeMatch(ToxIncludes(f), PathOf(comps)) by {
      PlainSpecs(ToxIncludes(f));
      DirectoriesMatchNoFile(ToxIncludes(f), comps);
    }
    assert SpecsWellFormed(VenvIncludes(f)) && !SomeMatch(VenvIncludes(f), PathOf(comps)) by {
      VenvSpecsWellFormed();
      VenvDirectories();
      DirectoriesMatchNoFile(VenvIncludes(f), comps);
    }
  }

  lemma VenvDirectories()
    ensures forall k :: 0 <= k < |DirSpecs(VenvDirs)| ==> EndsWith(DirSpecs(VenvDirs)[k], "/")
  {
    forall k | 0 <= k < |DirSpecs(VenvDirs)| ensures EndsWith(DirSpecs(VenvDirs)[k], "/") {
      var d := VenvDirs[k];
      assert (d + "/")[|d + "/"| - 1..] == "/";
    }
  }

  /** Every exclude of `clean` names a directory, so on a file path none
      of them matches. */
  lemma ExcludesMatchNoFile(f: Flags, comps: seq<string>)
    requires OrdinaryPath(comps)
    ensures SpecsWellFormed(AllExcludes(f))
    ensures !SomeMatch(AllExcludes(f), PathOf(comps))
  {
    ExcludesWellFormed(f);
    assert !SomeMatch(ExcludeSpecs(f), PathOf(comps)) by {
      assert forall k :: 0 <= k < |ExcludeSpecs(f)| ==> EndsWith(ExcludeSpecs(f)[k], "/");
      DirectoriesMatchNoFile(ExcludeSpecs(f), comps);
    }
    assert SpecsWellFormed(LateExcludes(f)) && !SomeMatch(LateExcludes(f), PathOf(comps)) by {
      VenvSpecsWellFormed();
      VenvDirectories();
      DirectoriesMatchNoFile(LateExcludes(f), comps);
    }
    SomeMatchConcat(ExcludeSpecs(f), LateExcludes(f), PathOf(comps));
  }

  /** On a file path `clean` removes exactly: a top-level
      `pip-selfcheck.json`; with `backups` or `all`, every name ending in
      `~`; with `bytecode` or `all`, every name ending in `.pyc` or `.pyo`
      and whatever the egg-info glob matches; and whatever an extra glob
      matches. The directory globs (`build/`, `dist/`, the virtualenv and
      tox directories, every exclude) take no part: the walk yields files. */
  lemma CleanRemoves(f: Flags, eggInfo: string, extra: seq<string>, comps: seq<string>)
    requires InputsWellFormed(f, eggInfo, extra) && OrdinaryPath(comps)
    ensures Verdict(CleanPatterns(f, eggInfo, extra), PathOf(comps)) <==>
      comps == ["pip-selfcheck.json"] ||
      ((f.backups || f.all) && EndsWith(comps[|comps| - 1], "~")) ||
      ((f.bytecode || f.all) &&
       (EndsWith(comps[|comps| - 1], ".pyc") || EndsWith(comps[|comps| - 1], ".pyo") ||
        Matches(Includes(eggInfo), PathOf(comps)))) ||
      SomeMatch(extra, PathOf(comps))
  {
    var path := PathOf(comps);
    CleanVerdict(f, eggInfo, extra, path);
    ExcludesMatchNoFile(f, comps);
    BaseFiles(comps);
    BackupFiles(f, comps);
    BytecodeIncludedFiles(f, eggInfo, comps);
    DirectoryIncludes(f, comps);
    var s0 := BaseIncludes;
    var s1 := s0 + DocsIncludes(f);
    var s2 := s1 + DistIncludes(f);
    var s3 := s2 + BackupIncludes(f);
    var s4 := s3 + BytecodeIncludes(f, eggInfo);
    var s5 := s4 + VenvIncludes(f);
    var s6 := s5 + ToxIncludes(f);
    SomeMatchConcat(s0, DocsIncludes(f), path);
    SomeMatchConcat(s1, DistIncludes(f), path);
    SomeMatchConcat(s2, BackupIncludes(f), path);
    SomeMatchConcat(s3, BytecodeIncludes(f, eggInfo), path);
    SomeMatchConcat(s4, VenvIncludes(f), path);
    SomeMatchConcat(s5, ToxIncludes(f), path);
    SomeMatchConcat(s6, extra, path);
  }

  // ---------------------------------------------------------------------
  // The globs the flags contribute

  /** `build/` and `pip-selfcheck.json` are always the first two includes,
      and the version-control directories and the Debian build directories
      the first four excludes. */
  lemma CleanFixed(f: Flags, eggInfo: string, extra: seq<string>)
    ensures |IncludeSpecs(f, eggInfo, extra)| >= 2 && |AllExcludes(f)| >= 4
    ensures IncludeSpecs(f, eggInfo, extra)[..2] == ["build/", "pip-selfcheck.json"]
    ensures AllExcludes(f)[..4] == [".git/", ".hg/", ".svn/", "debian/*/"]
  {
    var s0 := BaseIncludes;
    var s1 := s0 + DocsIncludes(f);
    var s2 := s1 + DistIncludes(f);
    var s3 := s2 + BackupIncludes(f);
    var s4 := s3 + BytecodeIncludes(f, eggInfo);
    var s5 := s4 + VenvIncludes(f);
    var s6 := s5 + ToxIncludes(f);
    PrefixStays(s0, DocsIncludes(f), 2);
    PrefixStays(s1, DistIncludes(f), 2);
    PrefixStays(s2, BackupIncludes(f), 2);
    PrefixStays(s3, BytecodeIncludes(f, eggInfo), 2);
    PrefixStays(s4, VenvIncludes(f), 2);
    PrefixStays(s5, ToxIncludes(f), 2);
    PrefixStays(s6, extra, 2);
    var e := [".git/", ".hg/", ".svn/", "debian/*/"];
    PrefixStays(e, ToxExcludes(f), 4);
    PrefixStays(e + ToxExcludes(f), LateExcludes(f), 4);
  }

  lemma PrefixStays(a: seq<string>, b: seq<string>, n: int)
    requires 0 <= n <= |a|
    ensures |a + b| >= n && (a + b)[..n] == a[..n]
  {
  }

  /** Each of `docs`, `dist`, `backups` and `bytecode` adds its globs when
      it or `all` is set. */
  lemma CleanFlagged(f: Flags, eggInfo: string, extra: seq<string>)
    ensures f.docs || f.all ==>
      "docs/_build/" in IncludeSpecs(f, eggInfo, extra) && "doc/_build/" in IncludeSpecs(f, eggInfo, extra)
    ensures f.dist || f.all ==> "dist/" in IncludeSpecs(f, eggInfo, extra)
    ensures f.backups || f.all ==> "**/*~" in IncludeSpecs(f, eggInfo, extra)
    ensures f.bytecode || f.all ==>
      "**/*.py[co]" in IncludeSpecs(f, eggInfo, extra) && "**/__pycache__/" in IncludeSpecs(f, eggInfo, extra) &&
      "*.egg-info/" in IncludeSpecs(f, eggInfo, extra) && eggInfo in IncludeSpecs(f, eggInfo, extra)
  {
    var s0 := BaseIncludes;
    var s1 := s0 + DocsIncludes(f);
    var s2 := s1 + DistIncludes(f);
    var s3 := s2 + BackupIncludes(f);
    var s4 := s3 + BytecodeIncludes(f, eggInfo);
    var all := IncludeSpecs(f, eggInfo, extra);
    assert all == s4 + (VenvIncludes(f) + ToxIncludes(f) + extra);
    assert forall x :: x in s4 ==> x in all;
    assert forall x :: x in DocsIncludes(f) ==> x in s1;
    assert forall x :: x in DistIncludes(f) ==> x in s2;
    assert forall x :: x in BackupIncludes(f) ==> x in s3;
    assert forall x :: x in BytecodeIncludes(f, eggInfo) ==> x in s4;
    assert forall x :: x in s1 ==> x in s4;
    assert forall x :: x in s2 ==> x in s4;
    assert forall x :: x in s3 ==> x in s4;
  }

  /** The extra globs are the last includes, after every flag-driven one. */
  lemma CleanExtraLast(f: Flags, eggInfo: string, extra: seq<string>)
    ensures |IncludeSpecs(f, eggInfo, extra)| == |FlagIncludes(f, eggInfo)| + |extra|
    ensures IncludeSpecs(f, eggInfo, extra)[|FlagIncludes(f, eggInfo)|..] == extra
  {
  }

  /** With `venv` each virtualenv directory is included; without it each is
      excluded, at the very end of the list. */
  lemma CleanVenv(f: Flags, eggInfo: string, extra: seq<string>)
    ensures f.venv ==> LateExcludes(f) == []
    ensures f.venv ==> forall k :: 0 <= k < |VenvDirs| ==> VenvDirs[k] + "/" in IncludeSpecs(f, eggInfo, extra)
    ensures !f.venv ==> |AllExcludes(f)| >= |VenvDirs|
    ensures !f.venv ==> AllExcludes(f)[|AllExcludes(f)| - |VenvDirs|..] == DirSpecs(VenvDirs)
  {
    if f.venv {
      var a := BaseIncludes + DocsIncludes(f) + DistIncludes(f) + BackupIncludes(f) + BytecodeIncludes(f, eggInfo);
      assert IncludeSpecs(f, eggInfo, extra) == a + (DirSpecs(VenvDirs) + (ToxIncludes(f) + extra));
      forall k | 0 <= k < |VenvDirs| ensures VenvDirs[k] + "/" in IncludeSpecs(f, eggInfo, extra) {
        assert IncludeSpecs(f, eggInfo, extra)[|a| + k] == DirSpecs(VenvDirs)[k];
      }
    }
  }

  /** `.tox/` is included with `tox` and then not excluded; without `tox`
      it is excluded, and then nothing it matches is removed, whatever an
      include says. */
  lemma CleanTox(f: Flags, eggInfo: string, extra: seq<string>, path: string)
    requires InputsWellFormed(f, eggInfo, extra)
    ensures f.tox ==> ".tox/" in IncludeSpecs(f, eggInfo, extra) && ".tox/" !in AllExcludes(f)
    ensures !f.tox ==> ".tox/" in AllExcludes(f)
    ensures WellFormedSpec(".tox/")
    ensures !f.tox && Matches(Includes(".tox/"), path) ==>
      !Verdict(CleanPatterns(f, eggInfo, extra), path)
  {
    var e := [".git/", ".hg/", ".svn/", "debian/*/"];
    assert AllExcludes(f) == e + (ToxExcludes(f) + LateExcludes(f));
    assert ".tox/" !in e;
    if f.tox {
      var a := FlagIncludes(f, eggInfo)[..|FlagIncludes(f, eggInfo)| - 1];
      assert FlagIncludes(f, eggInfo) == a + [".tox/"];
      assert ".tox/" in FlagIncludes(f, eggInfo);
      assert ".tox/" in IncludeSpecs(f, eggInfo, extra);
      assert ".tox/" !in LateExcludes(f);
      PlainSpec(".tox/");
    } else {
      assert AllExcludes(f)[4] == ".tox/";
      PlainSpec(".tox/");
      CleanVerdict(f, eggInfo, extra, path);
      if Matches(Includes(".tox/"), path) {
        assert Matches(Includes(AllExcludes(f)[4]), path);
      }
    }
  }
}
