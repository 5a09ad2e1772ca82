/** What the compiled globs of `rituals.util.antglob` accept: `*` stays
    inside one path component, every other character is literal, a bracket
    group is one of its listed characters, `**` in a directory position is
    zero or more whole leading directories, and only whole paths match. */
module AntGlobTheory {
  import opened Text
  import opened AntGlob

  // ---------------------------------------------------------------------
  // Name globs

  /** `*` accepts exactly the runs of characters without `/`. */
  lemma {:induction false} StarRun(ts: seq<Token>, s: string)
    ensures TokensMatch([Star] + ts, s) <==>
      exists k :: 0 <= k <= |s| && '/' !in s[..k] && TokensMatch(ts, s[k..])
    decreases |s|
  {
    StarUnfold(ts, s);
    assert s[..0] == [] && s[0..] == s;
    if s != [] {
      StarRun(ts, s[1..]);
      if TokensMatch([Star] + ts, s[1..]) && s[0] != '/' {
        var k :| 0 <= k <= |s[1..]| && '/' !in s[1..][..k] && TokensMatch(ts, s[1..][k..]);
        StarShift(ts, s, k);
      }
      if exists k :: 0 < k <= |s| && '/' !in s[..k] && TokensMatch(ts, s[k..]) {
        var k :| 0 < k <= |s| && '/' !in s[..k] && TokensMatch(ts, s[k..]);
        StarShift(ts, s, k - 1);
      }
    }
  }

  /** One step of `*`: stop here or take a non-`/` character. */
  lemma StarUnfold(ts: seq<Token>, s: string)
    ensures TokensMatch([Star] + ts, s) <==>
      TokensMatch(ts, s) || (|s| > 0 && s[0] != '/' && TokensMatch([Star] + ts, s[1..]))
  {
    assert ([Star] + ts)[0] == Star && ([Star] + ts)[1..] == ts;
  }

  /** A run after the first character is a run one longer from the start. */
  lemma StarShift(ts: seq<Token>, s: string, k: nat)
    requires s != [] && k < |s|
    ensures (s[0] != '/' && '/' !in s[1..][..k] && TokensMatch(ts, s[1..][k..])) <==>
      ('/' !in s[..k + 1] && TokensMatch(ts, s[k + 1..]))
  {
    assert s[..k + 1] == [s[0]] + s[1..][..k];
    assert s[k + 1..] == s[1..][k..];
  }

  /** A single `*` is any name: any string without `/`, a leading dot included. */
  lemma StarAlone(s: string)
    ensures TokensMatch([Star], s) <==> '/' !in s
  {
    StarRun([], s);
    assert s[..|s|] == s;
  }

  /** A final `**` is two stars, and two stars accept what one star accepts. */
  lemma FinalDoubleStar(s: string)
    ensures WellFormedPart("**") && Globify("**") == [Star, Star]
    ensures TokensMatch([Star, Star], s) <==> '/' !in s
  {
    StarRun([Star], s);
    assert [Star] + [Star] == [Star, Star];
    if '/' !in s {
      StarAlone(s);
      assert s[..0] == [] && s[0..] == s;
    } else {
      forall k | 0 <= k <= |s| && '/' !in s[..k] ensures !TokensMatch([Star], s[k..]) {
        StarAlone(s[k..]);
        var i :| 0 <= i < |s| && s[i] == '/';
        assert i >= k;
        assert s[k..][i - k] == '/';
      }
    }
  }

  /** Literal tokens accept exactly their word, and then hand the rest on. */
  lemma {:induction false} LitsPrefix(w: string, ts: seq<Token>, s: string)
    ensures TokensMatch(Lits(w) + ts, s) <==> StartsWith(s, w) && TokensMatch(ts, s[|w|..])
  {
    if w == [] {
      assert Lits(w) + ts == ts;
    } else {
      assert (Lits(w) + ts)[0] == Lit(w[0]) && (Lits(w) + ts)[1..] == Lits(w[1..]) + ts;
      if s != [] {
        LitsPrefix(w[1..], ts, s[1..]);
        if |w| <= |s| {
          assert s[1..][|w| - 1..] == s[|w|..];
          assert s[..|w|] == [s[0]] + s[1..][..|w| - 1];
          assert w == [w[0]] + w[1..];
        }
      }
    }
  }

  lemma LitsExact(w: string, s: string)
    ensures TokensMatch(Lits(w), s) <==> s == w
  {
    LitsPrefix(w, [], s);
    assert Lits(w) + [] == Lits(w);
  }

  /** A part without `*` and `[` globifies to its own characters as literals
      (so `...` is three literal dots, and a lone `]` is literal). */
  lemma {:induction false} LiteralPart(w: string)
    requires '*' !in w && '[' !in w
    ensures WellFormedPart(w) && Globify(w) == Lits(w)
  {
    if w != [] {
      LiteralPart(w[1..]);
    }
  }

  /** A bracket group accepts exactly one of its listed characters; `^`
      and `-` inside it are listed characters like any other. */
  lemma BracketGroup(w: string, s: string)
    requires w != [] && '[' !in w && ']' !in w && '*' !in w
    ensures WellFormedPart("[" + w + "]")
    ensures Globify("[" + w + "]") == [Class(CharsOf(w))]
    ensures TokensMatch(Globify("[" + w + "]"), s) <==> |s| == 1 && s[0] in w
  {
    var g := "[" + w + "]";
    assert g[1..] == w + "]";
    IndexOfPrefix(w, ']', []);
    assert w + "]" == w + [']'] + [];
    assert g[1..|w| + 1] == w;
    assert g[|w| + 2..] == [];
  }

  /** `[^.]` is `^` or `.`: the caret does not negate. */
  lemma CaretIsLiteral(s: string)
    ensures WellFormedPart("[^.]")
    ensures TokensMatch(Globify("[^.]"), s) <==> s == "^" || s == "."
  {
    TwoCharGroup("[^.]", '^', '.', s);
  }

  /** `[a-z]` is `a`, `-` or `z`: the dash does not make a range. */
  lemma DashIsLiteral(s: string)
    ensures WellFormedPart("[a-z]")
    ensures TokensMatch(Globify("[a-z]"), s) <==> s == "a" || s == "-" || s == "z"
  {
    ThreeCharGroup("[a-z]", 'a', '-', 'z', s);
  }

  /** A character a bracket group can list. */
  predicate Plain(c: char) {
    c != '[' && c != ']' && c != '*'
  }

  lemma TwoCharGroup(g: string, a: char, b: char, s: string)
    requires Plain(a) && Plain(b)
    requires g == "[" + [a, b] + "]"
    ensures WellFormedPart(g)
    ensures TokensMatch(Globify(g), s) <==> s == [a] || s == [b]
  {
    BracketGroup([a, b], s);
    assert |s| == 1 ==> s == [s[0]];
  }

  lemma ThreeCharGroup(g: string, a: char, b: char, c: char, s: string)
    requires Plain(a) && Plain(b) && Plain(c)
    requires g == "[" + [a, b, c] + "]"
    ensures WellFormedPart(g)
    ensures TokensMatch(Globify(g), s) <==> s == [a] || s == [b] || s == [c]
  {
    var w := [a, b, c];
    assert '[' !in w && ']' !in w && '*' !in w;
    BracketGroup(w, s);
    if |s| == 1 {
      assert s == [s[0]];
    }
  }

  /** A slash-free name glob never accepts a `/`. */
  lemma {:induction false} TokensNoSlash(ts: seq<Token>, s: string)
    requires SlashFree(ts)
    ensures TokensMatch(ts, s) ==> '/' !in s
    decreases |s|, |ts|
  {
    if ts != [] {
      assert SlashFree(ts[1..]) by {
        forall i | 0 <= i < |ts[1..]| ensures ts[1..][i] == ts[i + 1] { }
      }
      if s != [] {
        assert s == [s[0]] + s[1..];
        match ts[0]
        case Lit(c) => TokensNoSlash(ts[1..], s[1..]);
        case Class(cs) => TokensNoSlash(ts[1..], s[1..]);
        case Star => TokensNoSlash(ts[1..], s); TokensNoSlash(ts, s[1..]);
      }
    }
  }

  // ---------------------------------------------------------------------
  // Paths, component by component

  /** An ordinary path component: non-empty, without `/` and without a line
      feed (the two characters the regex treats specially). */
  predicate Ordinary(n: string) {
    n != [] && '/' !in n && '\n' !in n
  }

  predicate OrdinaryPath(comps: seq<string>) {
    |comps| >= 1 && forall n :: 0 <= n < |comps| ==> Ordinary(comps[n])
  }

  /** Matching one path component at a time: a name glob takes exactly one
      component, `**` takes any number of leading ones, and the file glob
      takes the last one. */
  predicate ComponentsMatch(dirs: seq<DirGlob>, file: seq<Token>, comps: seq<string>)
    decreases |dirs|
  {
    if dirs == [] then |comps| == 1 && TokensMatch(file, comps[0])
    else match dirs[0]
      case Name(ts) => |comps| > 1 && TokensMatch(ts, comps[0]) && ComponentsMatch(dirs[1..], file, comps[1..])
      case AnyDirs => exists m :: 0 <= m < |comps| && ComponentsMatch(dirs[1..], file, comps[m..])
  }

  lemma {:induction false} JoinSplitAt(comps: seq<string>, m: int)
    requires 1 <= m < |comps|
    ensures PathOf(comps) == PathOf(comps[..m]) + "/" + PathOf(comps[m..])
  {
    if m > 1 {
      JoinSplitAt(comps[1..], m - 1);
      assert comps[1..][..m - 1] == comps[..m][1..];
      assert comps[1..][m - 1..] == comps[m..];
    } else {
      assert comps[..1] == [comps[0]];
    }
  }

  /** A path of two or more components has a `/`. */
  lemma SlashFreeJoin(cs: seq<string>)
    requires |cs| >= 1
    ensures '/' !in PathOf(cs) ==> |cs| == 1
  {
    if |cs| > 1 {
      assert PathOf(cs)[|cs[0]|] == '/';
    }
  }

  /** A character that no component holds is not in the path, unless it is `/`. */
  lemma {:induction false} CharNotInPath(cs: seq<string>, c: char)
    requires c != '/' && forall n :: 0 <= n < |cs| ==> c !in cs[n]
    ensures c !in PathOf(cs)
  {
    if |cs| > 1 {
      CharNotInPath(cs[1..], c);
    }
  }

  /** Every `/` of a joined path sits between two components. */
  lemma {:induction false} SlashAtJoint(comps: seq<string>)
    requires |comps| >= 1 && forall n :: 0 <= n < |comps| ==> '/' !in comps[n]
    ensures forall k :: 0 <= k < |PathOf(comps)| && PathOf(comps)[k] == '/' ==>
      exists m :: 1 <= m < |comps| && k == |PathOf(comps[..m])|
  {
    if |comps| > 1 {
      var c0 := comps[0];
      var rest := comps[1..];
      SlashAtJoint(rest);
      forall k | 0 <= k < |PathOf(comps)| && PathOf(comps)[k] == '/'
        ensures exists m :: 1 <= m < |comps| && k == |PathOf(comps[..m])|
      {
        assert PathOf(comps) == c0 + "/" + PathOf(rest);
        if k < |c0| {
          assert false;
        } else if k == |c0| {
          assert comps[..1] == [c0];
        } else {
          var k' := k - |c0| - 1;
          assert PathOf(rest)[k'] == '/';
          var m' :| 1 <= m' < |rest| && k' == |PathOf(rest[..m'])|;
          assert comps[..m' + 1][1..] == rest[..m'];
          assert k == |PathOf(comps[..m' + 1])|;
        }
      }
    }
  }

  lemma PathStartsWithFirst(comps: seq<string>)
    requires |comps| >= 1
    ensures |PathOf(comps)| >= |comps[0]|
  {
  }

  /** The bridge between the regex and the components: for an ordinary
      path, the anchored regex accepts the `/`-joined path exactly when the
      glob matches it component by component. */
  lemma {:induction false} MatchByComponents(dirs: seq<DirGlob>, file: seq<Token>, comps: seq<string>)
    requires SlashFreeDirs(dirs) && SlashFree(file) && OrdinaryPath(comps)
    ensures PathMatch(dirs, file, PathOf(comps)) <==> ComponentsMatch(dirs, file, comps)
    decreases |dirs|, 2
  {
    var s := PathOf(comps);
    if dirs == [] {
      TokensNoSlash(file, s);
      SlashFreeJoin(comps);
    } else if dirs[0].Name? {
      MatchByComponentsName(dirs, file, comps);
    } else {
      MatchByComponentsAny(dirs, file, comps);
    }
  }

  lemma TailOrdinary(dirs: seq<DirGlob>, comps: seq<string>, m: int)
    requires SlashFreeDirs(dirs) && dirs != [] && OrdinaryPath(comps) && 0 <= m < |comps|
    ensures SlashFreeDirs(dirs[1..]) && OrdinaryPath(comps[m..])
  {
    assert forall i :: 0 <= i < |dirs[1..]| ==> dirs[1..][i] == dirs[i + 1];
    assert forall n :: 0 <= n < |comps[m..]| ==> comps[m..][n] == comps[n + m];
  }

  lemma {:induction false} MatchByComponentsName(dirs: seq<DirGlob>, file: seq<Token>, comps: seq<string>)
    requires SlashFreeDirs(dirs) && SlashFree(file) && OrdinaryPath(comps)
    requires dirs != [] && dirs[0].Name?
    ensures PathMatch(dirs, file, PathOf(comps)) <==> ComponentsMatch(dirs, file, comps)
    decreases |dirs|, 1
  {
    var s := PathOf(comps);
    var ts := dirs[0].tokens;
    assert SlashFree(ts);
    if |comps| > 1 {
      FirstJoint(comps);
      TailOrdinary(dirs, comps, 1);
      MatchByComponents(dirs[1..], file, comps[1..]);
    }
    if PathMatch(dirs, file, s) {
      var k :| 0 <= k < |s| && s[k] == '/' && TokensMatch(ts, s[..k]) && PathMatch(dirs[1..], file, s[k + 1..]);
      NameCut(comps, ts, k);
    }
  }

  /** The first component and the rest of a joined path. */
  lemma FirstJoint(comps: seq<string>)
    requires |comps| > 1
    ensures var s := PathOf(comps); var k := |comps[0]|;
      k < |s| && s[k] == '/' && s[..k] == comps[0] && s[k + 1..] == PathOf(comps[1..])
  {
    JoinSplitAt(comps, 1);
    assert comps[..1] == [comps[0]];
  }

  /** A name glob matched before a `/` of an ordinary path took exactly
      the first component. */
  lemma NameCut(comps: seq<string>, ts: seq<Token>, k: int)
    requires OrdinaryPath(comps) && SlashFree(ts)
    requires 0 <= k < |PathOf(comps)| && PathOf(comps)[k] == '/' && TokensMatch(ts, PathOf(comps)[..k])
    ensures |comps| > 1 && k == |comps[0]|
  {
    var s := PathOf(comps);
    SlashAtJoint(comps);
    var m :| 1 <= m < |comps| && k == |PathOf(comps[..m])|;
    JoinSplitAt(comps, m);
    assert s[..k] == PathOf(comps[..m]);
    TokensNoSlash(ts, s[..k]);
    SlashFreeJoin(comps[..m]);
    assert comps[..m] == [comps[0]];
  }

  lemma {:induction false} MatchByComponentsAny(dirs: seq<DirGlob>, file: seq<Token>, comps: seq<string>)
    requires SlashFreeDirs(dirs) && SlashFree(file) && OrdinaryPath(comps)
    requires dirs != [] && dirs[0].AnyDirs?
    ensures PathMatch(dirs, file, PathOf(comps)) <==> ComponentsMatch(dirs, file, comps)
    decreases |dirs|, 1
  {
    assert comps[0..] == comps;
    TailOrdinary(dirs, comps, 0);
    MatchByComponents(dirs[1..], file, comps);
    if PathMatch(dirs, file, PathOf(comps)) && !PathMatch(dirs[1..], file, PathOf(comps)) {
      AnyDirsSkip(dirs, file, comps);
    }
    if ComponentsMatch(dirs, file, comps) && !ComponentsMatch(dirs[1..], file, comps) {
      AnyDirsTake(dirs, file, comps);
    }
  }

  /** `(|.+/)` that takes some leading text takes whole components. */
  lemma {:induction false} AnyDirsSkip(dirs: seq<DirGlob>, file: seq<Token>, comps: seq<string>)
    requires SlashFreeDirs(dirs) && SlashFree(file) && OrdinaryPath(comps)
    requires dirs != [] && dirs[0].AnyDirs?
    requires PathMatch(dirs, file, PathOf(comps)) && !PathMatch(dirs[1..], file, PathOf(comps))
    ensures ComponentsMatch(dirs, file, comps)
    decreases |dirs|, 0
  {
    var s := PathOf(comps);
    var k :| 0 < k < |s| && s[k] == '/' && '\n' !in s[..k] && PathMatch(dirs[1..], file, s[k + 1..]);
    SlashAtJoint(comps);
    var m :| 1 <= m < |comps| && k == |PathOf(comps[..m])|;
    JoinSplitAt(comps, m);
    assert s[k + 1..] == PathOf(comps[m..]);
    TailOrdinary(dirs, comps, m);
    MatchByComponents(dirs[1..], file, comps[m..]);
  }

  /** When `**` takes `m > 0` whole components, `(|.+/)` takes their join and a `/`. */
  lemma {:induction false} AnyDirsTake(dirs: seq<DirGlob>, file: seq<Token>, comps: seq<string>)
    requires SlashFreeDirs(dirs) && SlashFree(file) && OrdinaryPath(comps)
    requires dirs != [] && dirs[0].AnyDirs?
    requires ComponentsMatch(dirs, file, comps) && !ComponentsMatch(dirs[1..], file, comps)
    ensures PathMatch(dirs, file, PathOf(comps))
    decreases |dirs|, 0
  {
    var s := PathOf(comps);
    var m :| 0 <= m < |comps| && ComponentsMatch(dirs[1..], file, comps[m..]);
    assert comps[0..] == comps;
    assert m != 0;
    var k := |PathOf(comps[..m])|;
    JoinSplitAt(comps, m);
    assert s[..k] == PathOf(comps[..m]) && s[k] == '/' && s[k + 1..] == PathOf(comps[m..]);
    PathStartsWithFirst(comps[..m]);
    assert comps[..m][0] == comps[0];
    CharNotInPath(comps[..m], '\n');
    TailOrdinary(dirs, comps, m);
    MatchByComponents(dirs[1..], file, comps[m..]);
  }

  // ---------------------------------------------------------------------
  // Whole patterns on ordinary paths

  /** On an ordinary path a compiled spec matches exactly when it matches
      component by component: the trailing line feed allowed by `$` never
      comes into play. */
  lemma MatchesOrdinaryPath(spec: string, inclusive: bool, comps: seq<string>)
    requires WellFormedSpec(spec) && OrdinaryPath(comps)
    ensures Matches(Pattern(Compile(spec), inclusive), PathOf(comps)) <==>
      ComponentsMatch(Compile(spec).dirs, Compile(spec).file, comps)
  {
    var path := PathOf(comps);
    CharNotInPath(comps, '\n');
    assert |path| > 0 ==> path[|path| - 1] in path;
    MatchByComponents(Compile(spec).dirs, Compile(spec).file, comps);
  }

  /** Python's `$` also matches before a final line feed, so a pattern that
      matches a path also matches that path followed by `\n`. */
  lemma TrailingLineFeed(p: Pattern, path: string)
    ensures FullMatch(p.compiled, path) ==> Matches(p, path + "\n")
  {
    assert (path + "\n")[..|path|] == path;
  }

  /** The file glob always takes the last component. */
  lemma {:induction false} ComponentsMatchLast(dirs: seq<DirGlob>, file: seq<Token>, comps: seq<string>)
    ensures ComponentsMatch(dirs, file, comps) ==> |comps| >= 1 && TokensMatch(file, comps[|comps| - 1])
    decreases |dirs|
  {
    if dirs != [] && ComponentsMatch(dirs, file, comps) {
      match dirs[0]
      case Name(ts) =>
        ComponentsMatchLast(dirs[1..], file, comps[1..]);
      case AnyDirs =>
        var m :| 0 <= m < |comps| && ComponentsMatch(dirs[1..], file, comps[m..]);
        ComponentsMatchLast(dirs[1..], file, comps[m..]);
    }
  }

  /** A spec that ends with `/` (the directory specs `build/`, `.git/` and
      so on) has an empty file glob, and so matches no file path. */
  lemma DirectorySpecMatchesNoFile(spec: string, inclusive: bool, comps: seq<string>)
    requires WellFormedSpec(spec) && EndsWith(spec, "/") && OrdinaryPath(comps)
    ensures !Matches(Pattern(Compile(spec), inclusive), PathOf(comps))
  {
    SplitEndsWithSeparator(spec, '/');
    assert Compile(spec).file == [];
    MatchesOrdinaryPath(spec, inclusive, comps);
    ComponentsMatchLast(Compile(spec).dirs, Compile(spec).file, comps);
    assert comps[|comps| - 1] != [];
  }

  /** `*` followed by a literal suffix: the names without `/` that end in it. */
  lemma StarSuffix(w: string, s: string)
    requires '*' !in w && '[' !in w && '/' !in w
    ensures WellFormedPart("*" + w) && Globify("*" + w) == [Star] + Lits(w)
    ensures TokensMatch(Globify("*" + w), s) <==> '/' !in s && EndsWith(s, w)
  {
    StarThenLits(w);
    StarRun(Lits(w), s);
    if TokensMatch([Star] + Lits(w), s) {
      var k :| 0 <= k <= |s| && '/' !in s[..k] && TokensMatch(Lits(w), s[k..]);
      LitsExact(w, s[k..]);
      SlashFreeName(s, k, w);
    }
    if '/' !in s && EndsWith(s, w) {
      var k := |s| - |w|;
      LitsExact(w, s[k..]);
      assert forall c :: c in s[..k] ==> c in s;
    }
  }

  lemma StarThenLits(w: string)
    requires '*' !in w && '[' !in w
    ensures WellFormedPart("*" + w) && Globify("*" + w) == [Star] + Lits(w)
  {
    LiteralPart(w);
    assert ("*" + w)[1..] == w;
  }

  /** A slash-free run and a slash-free suffix make a slash-free name. */
  lemma SlashFreeName(s: string, k: nat, w: string)
    requires k <= |s| && '/' !in s[..k] && '/' !in w && s[k..] == w
    ensures '/' !in s && EndsWith(s, w)
  {
    assert s == s[..k] + w;
    InConcat(s[..k], w, '/');
  }

  /** A spec that is one plain name matches that name at the top and
      nothing else: the regex is anchored at both ends. */
  lemma PlainName(w: string, inclusive: bool, comps: seq<string>)
    requires Ordinary(w) && '*' !in w && '[' !in w && OrdinaryPath(comps)
    ensures WellFormedSpec(w)
    ensures Matches(Pattern(Compile(w), inclusive), PathOf(comps)) <==> comps == [w]
  {
    SplitJoin([w], '/');
    LiteralPart(w);
    MatchesOrdinaryPath(w, inclusive, comps);
    LitsExact(w, comps[0]);
  }
}
