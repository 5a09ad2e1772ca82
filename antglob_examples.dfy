/** The four examples of the `FileSet` documentation, each proved to select
    exactly the ordinary paths it describes. Each is first proved for any
    spec that splits into the example's pieces (a literal directory name,
    a literal suffix), and then for the spec as the documentation spells
    it. */
module AntGlobExamples {
  import opened Text
  import opened AntGlob
  import opened AntGlobTheory

  /** A spec compiles from the pieces it splits into. */
  lemma CompileSplit(spec: string, parts: seq<string>)
    requires |parts| >= 1 && forall i :: 0 <= i < |parts| ==> '/' !in parts[i] && WellFormedPart(parts[i])
    requires spec != [] && Split(spec, '/') == parts
    ensures WellFormedSpec(spec)
    ensures Compile(spec) == Regex(DirGlobs(parts[..|parts| - 1]), Globify(parts[|parts| - 1]))
  {
  }

  /** A spec made of `/`-free well-formed parts compiles part by part. */
  lemma CompileParts(parts: seq<string>)
    requires |parts| >= 1 && forall i :: 0 <= i < |parts| ==> '/' !in parts[i] && WellFormedPart(parts[i])
    requires Join(parts, "/") != []
    ensures WellFormedSpec(Join(parts, "/"))
    ensures Compile(Join(parts, "/")) == Regex(DirGlobs(parts[..|parts| - 1]), Globify(parts[|parts| - 1]))
  {
    SplitJoin(parts, '/');
    CompileSplit(Join(parts, "/"), parts);
  }

  lemma SplitTwo(a: string, b: string, spec: string)
    requires '/' !in a && '/' !in b && spec == a + "/" + b
    ensures Split(spec, '/') == [a, b]
  {
    assert spec == a + ['/'] + b;
    SplitAt(a, '/', b);
    SplitNone(b, '/');
  }

  lemma SplitThree(a: string, b: string, c: string, spec: string)
    requires '/' !in a && '/' !in b && '/' !in c && spec == a + "/" + b + "/" + c
    ensures Split(spec, '/') == [a, b, c]
  {
    assert spec == a + ['/'] + (b + "/" + c);
    SplitAt(a, '/', b + "/" + c);
    SplitTwo(b, c, b + "/" + c);
  }

  /** A name glob that is `*` and a literal suffix, with a file path's last
      component. */
  lemma LastEndsWith(w: string, comps: seq<string>)
    requires '*' !in w && '[' !in w && '/' !in w && OrdinaryPath(comps)
    ensures WellFormedPart("*" + w) && '/' !in "*" + w
    ensures Globify("*" + w) == [Star] + Lits(w)
    ensures TokensMatch(Globify("*" + w), comps[|comps| - 1]) <==> EndsWith(comps[|comps| - 1], w)
  {
    StarSuffix(w, comps[|comps| - 1]);
    assert forall x :: x in "*" + w ==> x == '*' || x in w;
  }

  /** `**` followed by a file glob: the last component matches, at any depth. */
  lemma AnyDepth(file: seq<Token>, comps: seq<string>)
    requires |comps| >= 1
    ensures ComponentsMatch([AnyDirs], file, comps) <==> TokensMatch(file, comps[|comps| - 1])
  {
    var m := |comps| - 1;
    assert [AnyDirs][1..] == [];
    assert comps[m..] == [comps[m]];
  }

  /** `**` and then a name glob: the files whose last component the name
      glob accepts, at any depth. */
  lemma AnyDepthName(n: string, spec: string, comps: seq<string>)
    requires WellFormedPart(n) && '/' !in n && OrdinaryPath(comps)
    requires spec != [] && Split(spec, '/') == ["**", n]
    ensures WellFormedSpec(spec)
    ensures Matches(Includes(spec), PathOf(comps)) <==> TokensMatch(Globify(n), comps[|comps| - 1])
  {
    var parts := ["**", n];
    assert WellFormedPart("**");
    CompileSplit(spec, parts);
    assert parts[..1] == ["**"];
    assert Compile(spec).dirs == [AnyDirs];
    MatchesOrdinaryPath(spec, true, comps);
    AnyDepth(Globify(n), comps);
  }

  /** `**` followed by `*` and a literal suffix: the files whose name ends
      in the suffix, at any depth. */
  lemma AnyDepthSuffix(w: string, spec: string, comps: seq<string>)
    requires '*' !in w && '[' !in w && '/' !in w && OrdinaryPath(comps)
    requires spec != [] && Split(spec, '/') == ["**", "*" + w]
    ensures WellFormedSpec(spec)
    ensures Matches(Includes(spec), PathOf(comps)) <==> EndsWith(comps[|comps| - 1], w)
  {
    LastEndsWith(w, comps);
    AnyDepthName("*" + w, spec, comps);
  }

  /** `**`, then `*` and a literal suffix: the files with that suffix, at any depth. */
  lemma RecursiveSuffix(w: string, comps: seq<string>)
    requires '*' !in w && '[' !in w && '/' !in w && OrdinaryPath(comps)
    ensures WellFormedSpec("**/*" + w)
    ensures Matches(Includes("**/*" + w), PathOf(comps)) <==> EndsWith(comps[|comps| - 1], w)
  {
    assert "**/*" + w == "**" + "/" + ("*" + w);
    assert '/' !in "*" + w by {
      assert forall x :: x in "*" + w ==> x == '*' || x in w;
    }
    SplitTwo("**", "*" + w, "**/*" + w);
    AnyDepthSuffix(w, "**/*" + w, comps);
  }

  // `**/*.py` selects every Python file, at any depth.
  lemma RecursivePython(comps: seq<string>)
    requires OrdinaryPath(comps)
    ensures WellFormedSpec("**/*.py")
    ensures Matches(Includes("**/*.py"), PathOf(comps)) <==> EndsWith(comps[|comps| - 1], ".py")
  {
    assert "**/*" + ".py" == "**/*.py";
    RecursiveSuffix(".py", comps);
  }

  /** A literal directory and then `**`: that directory first, any depth below. */
  lemma NameThenAnyDepth(w: string, file: seq<Token>, comps: seq<string>)
    requires |comps| >= 1
    ensures ComponentsMatch([Name(Lits(w)), AnyDirs], file, comps) <==>
      |comps| >= 2 && comps[0] == w && TokensMatch(file, comps[|comps| - 1])
  {
    LitsExact(w, comps[0]);
    assert [Name(Lits(w)), AnyDirs][1..] == [AnyDirs];
    if |comps| >= 2 {
      AnyDepth(file, comps[1..]);
      assert comps[1..][|comps[1..]| - 1] == comps[|comps| - 1];
    }
  }

  /** A literal directory, `**` and `*` with a literal suffix compile to a
      name, any depth, and a star with the suffix. */
  lemma CompileBelow(d: string, w: string, spec: string)
    requires d != [] && '*' !in d && '[' !in d && '/' !in d
    requires '*' !in w && '[' !in w && '/' !in w
    requires spec != [] && Split(spec, '/') == [d, "**", "*" + w]
    ensures WellFormedSpec(spec)
    ensures Compile(spec) == Regex([Name(Lits(d)), AnyDirs], [Star] + Lits(w))
  {
    var n := "*" + w;
    StarThenLits(w);
    assert '/' !in n by {
      assert forall x :: x in n ==> x == '*' || x in w;
    }
    LiteralPart(d);
    assert WellFormedPart("**");
    CompileSplit(spec, [d, "**", n]);
    assert [d, "**", n][..2] == [d, "**"];
    BelowDirs(d);
  }

  /** A literal directory and `**` as directory globs. */
  lemma BelowDirs(d: string)
    requires d != [] && '*' !in d && '[' !in d && '/' !in d
    ensures WellFormedPart(d) && WellFormedPart("**")
    ensures DirGlobs([d, "**"]) == [Name(Lits(d)), AnyDirs]
  {
    LiteralPart(d);
    assert d != "**" by { assert d[0] != '*'; }
    assert WellFormedPart("**");
  }

  /** A literal directory, `**` and `*` with a literal suffix: the files
      with that suffix at any depth below the directory. */
  lemma BelowSuffix(d: string, w: string, spec: string, comps: seq<string>)
    requires d != [] && '*' !in d && '[' !in d && '/' !in d
    requires '*' !in w && '[' !in w && '/' !in w && OrdinaryPath(comps)
    requires spec != [] && Split(spec, '/') == [d, "**", "*" + w]
    ensures WellFormedSpec(spec)
    ensures Matches(Includes(spec), PathOf(comps)) <==>
      |comps| >= 2 && comps[0] == d && EndsWith(comps[|comps| - 1], w)
  {
    CompileBelow(d, w, spec);
    MatchesOrdinaryPath(spec, true, comps);
    StarSuffix(w, comps[|comps| - 1]);
    NameThenAnyDepth(d, [Star] + Lits(w), comps);
  }

  lemma SplitBelowFoo()
    ensures Split("foo/**/*.py", '/') == ["foo", "**", "*.py"]
  {
    SplitThree("foo", "**", "*.py", "foo/**/*.py");
  }

  /** A spec that splits into `foo`, `**` and `*.py` selects the Python
      files below `foo`. */
  lemma PythonBelowFooSpec(spec: string, comps: seq<string>)
    requires spec != [] && Split(spec, '/') == ["foo", "**", "*.py"] && OrdinaryPath(comps)
    ensures WellFormedSpec(spec)
    ensures Matches(Includes(spec), PathOf(comps)) <==>
      |comps| >= 2 && comps[0] == "foo" && EndsWith(comps[|comps| - 1], ".py")
  {
    assert "*" + ".py" == "*.py";
    BelowSuffix("foo", ".py", spec, comps);
  }

  // `foo/**/*.py` selects the Python files at any depth below `foo`.
  lemma PythonBelowFoo(comps: seq<string>)
    requires OrdinaryPath(comps)
    ensures WellFormedSpec("foo/**/*.py")
    ensures Matches(Includes("foo/**/*.py"), PathOf(comps)) <==>
      |comps| >= 2 && comps[0] == "foo" && EndsWith(comps[|comps| - 1], ".py")
  {
    SplitBelowFoo();
    PythonBelowFooSpec("foo/**/*.py", comps);
  }

  /** `*` with a literal suffix: the files of the top directory with that
      suffix. */
  lemma TopSuffix(w: string, spec: string, comps: seq<string>)
    requires '*' !in w && '[' !in w && '/' !in w && OrdinaryPath(comps)
    requires spec != [] && Split(spec, '/') == ["*" + w]
    ensures WellFormedSpec(spec)
    ensures Matches(Includes(spec), PathOf(comps)) <==> |comps| == 1 && EndsWith(comps[0], w)
  {
    LastEndsWith(w, comps);
    CompileSplit(spec, ["*" + w]);
    MatchesOrdinaryPath(spec, true, comps);
  }

  /** A spec that is `*.py` once split selects the top Python files. */
  lemma TopPythonSpec(spec: string, comps: seq<string>)
    requires spec != [] && Split(spec, '/') == ["*.py"] && OrdinaryPath(comps)
    ensures WellFormedSpec(spec)
    ensures Matches(Includes(spec), PathOf(comps)) <==> |comps| == 1 && EndsWith(comps[0], ".py")
  {
    assert "*" + ".py" == "*.py";
    TopSuffix(".py", spec, comps);
  }

  // `*.py` selects the Python files of the top directory only.
  lemma TopLevelPython(comps: seq<string>)
    requires OrdinaryPath(comps)
    ensures WellFormedSpec("*.py")
    ensures Matches(Includes("*.py"), PathOf(comps)) <==> |comps| == 1 && EndsWith(comps[0], ".py")
  {
    SplitNone("*.py", '/');
    TopPythonSpec("*.py", comps);
  }

  /** One name glob directory position: exactly two components. */
  lemma OneDirectory(ts: seq<Token>, file: seq<Token>, comps: seq<string>)
    ensures ComponentsMatch([Name(ts)], file, comps) <==>
      |comps| == 2 && TokensMatch(ts, comps[0]) && TokensMatch(file, comps[1])
  {
    assert [Name(ts)][1..] == [];
  }

  /** A lone `*` directory and then `*` with a literal suffix: the files
      with that suffix one directory down. */
  lemma ChildSuffix(w: string, spec: string, comps: seq<string>)
    requires '*' !in w && '[' !in w && '/' !in w && OrdinaryPath(comps)
    requires spec != [] && Split(spec, '/') == ["*", "*" + w]
    ensures WellFormedSpec(spec)
    ensures Matches(Includes(spec), PathOf(comps)) <==> |comps| == 2 && EndsWith(comps[1], w)
  {
    var parts := ["*", "*" + w];
    LastEndsWith(w, comps);
    assert WellFormedPart("*") && Globify("*") == [Star];
    CompileSplit(spec, parts);
    assert parts[..1] == ["*"];
    assert DirGlobs(["*"]) == [Name([Star])];
    MatchesOrdinaryPath(spec, true, comps);
    StarAlone(comps[0]);
    OneDirectory([Star], [Star] + Lits(w), comps);
  }

  lemma SplitTextInChildren()
    ensures Split("*/*.txt", '/') == ["*", "*.txt"]
  {
    SplitTwo("*", "*.txt", "*/*.txt");
  }

  /** A spec that splits into `*` and `*.txt` selects the text files one
      directory down. */
  lemma ChildTextSpec(spec: string, comps: seq<string>)
    requires spec != [] && Split(spec, '/') == ["*", "*.txt"] && OrdinaryPath(comps)
    ensures WellFormedSpec(spec)
    ensures Matches(Includes(spec), PathOf(comps)) <==> |comps| == 2 && EndsWith(comps[1], ".txt")
  {
    assert "*" + ".txt" == "*.txt";
    ChildSuffix(".txt", spec, comps);
  }

  // `*/*.txt` selects the text files one directory down.
  lemma TextInChildren(comps: seq<string>)
    requires OrdinaryPath(comps)
    ensures WellFormedSpec("*/*.txt")
    ensures Matches(Includes("*/*.txt"), PathOf(comps)) <==> |comps| == 2 && EndsWith(comps[1], ".txt")
  {
    SplitTextInChildren();
    ChildTextSpec("*/*.txt", comps);
  }
}
