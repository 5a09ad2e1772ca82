/** The `setup.cfg` rewrites of `rituals.acts.releasing` (`bump` sets the
    `tag_build` suffix, `prep` comments it out) and the pre-release check
    of `prep` on the names of the built distribution files. */
module Releasing {
  import opened Text

  // ---------------------------------------------------------------------
  // `bump`

  /** The text after the leading blanks (`' '` only, as the regex's ` *`). */
  function DropBlanks(s: string): (r: string)
    ensures |r| <= |s|
    ensures r == [] || r[0] != ' '
  {
    if s != [] && s[0] == ' ' then DropBlanks(s[1..]) else s
  }

  const TagBuild := "tag_build"

  /** A key the regex's ` *` and `#?` cannot eat into. */
  predicate GoodKey(key: string) {
    key != [] && key[0] != ' ' && key[0] != '#' && '=' !in key
  }

  lemma TagBuildIsGood()
    ensures GoodKey(TagBuild)
  {
  }

  /** The text before the `=` of a line for `key`: `#? *key *`. */
  predicate KeyedBy(verb: string, key: string) {
    KeyThenBlanks(DropBlanks(Uncommented(verb)), key)
  }

  /** The text after `#?`. */
  function Uncommented(verb: string): string {
    if StartsWith(verb, "#") then verb[1..] else verb
  }

  /** `key *` */
  predicate KeyThenBlanks(u: string, key: string) {
    StartsWith(u, key) && forall i :: |key| <= i < |u| ==> u[i] == ' '
  }

  /** `re.match(r"#? *tag_build *= *.*", line)`. The text the regex wants
      before its `=` holds no `=`, so the `=` it matches is the first one of
      the line, and the line matches exactly when the text before its first
      `=` is `#? *tag_build *`. */
  predicate TagBuildLine(line: string) {
    var k := IndexOf(line, '=');
    k < |line| && KeyedBy(line[..k], TagBuild)
  }

  /** `n` blanks. */
  function Blanks(n: nat): (b: string)
    ensures |b| == n && forall i :: 0 <= i < n ==> b[i] == ' '
  {
    if n == 0 then [] else [' '] + Blanks(n - 1)
  }

  lemma {:induction false} DropBlanksAfter(n: nat, s: string)
    requires s == [] || s[0] != ' '
    ensures DropBlanks(Blanks(n) + s) == s
  {
    if n > 0 {
      var t := Blanks(n - 1);
      assert Blanks(n) == [' '] + t;
      ConsTail(' ', t, s);
      DropBlanksAfter(n - 1, s);
    } else {
      assert Blanks(n) + s == s;
    }
  }

  /** The text before the `=`: an optional `#`, blanks, the key, blanks. */
  function Verb(hash: bool, n1: nat, key: string, n2: nat): string {
    (if hash then "#" else "") + (Blanks(n1) + (key + Blanks(n2)))
  }

  /** A line of the regex's language: `Verb`, `=` and anything. */
  function Form(hash: bool, n1: nat, n2: nat, rest: string): string {
    Verb(hash, n1, TagBuild, n2) + ("=" + rest)
  }

  lemma VerbHasNoEquals(hash: bool, n1: nat, key: string, n2: nat)
    requires GoodKey(key)
    ensures '=' !in Verb(hash, n1, key, n2)
  {
    assert '=' !in Blanks(n1) && '=' !in Blanks(n2);
  }

  lemma UncommentVerb(hash: bool, n1: nat, key: string, n2: nat)
    requires GoodKey(key)
    ensures Uncommented(Verb(hash, n1, key, n2)) == Blanks(n1) + (key + Blanks(n2))
  {
    var verb := Verb(hash, n1, key, n2);
    var t := Blanks(n1) + (key + Blanks(n2));
    assert t[0] != '#' by {
      if n1 > 0 { assert t[0] == ' '; } else { assert t[0] == key[0]; }
    }
    if hash {
      assert verb[..1] == "#" && verb[1..] == t;
    } else {
      assert verb == t;
    }
  }

  lemma KeyThenBlanksOf(key: string, n: nat)
    ensures KeyThenBlanks(key + Blanks(n), key)
  {
    var u := key + Blanks(n);
    assert u[..|key|] == key;
    forall i | |key| <= i < |u|
      ensures u[i] == ' '
    {
      assert u[i] == Blanks(n)[i - |key|];
    }
  }

  lemma VerbKeyed(hash: bool, n1: nat, key: string, n2: nat)
    requires GoodKey(key)
    ensures KeyedBy(Verb(hash, n1, key, n2), key)
  {
    var rest := key + Blanks(n2);
    UncommentVerb(hash, n1, key, n2);
    assert rest[0] == key[0];
    DropBlanksAfter(n1, rest);
    KeyThenBlanksOf(key, n2);
  }

  /** Every line of the regex's language is a `tag_build` line. */
  lemma TagBuildLineOf(hash: bool, n1: nat, n2: nat, rest: string)
    ensures TagBuildLine(Form(hash, n1, n2, rest))
  {
    var verb := Verb(hash, n1, TagBuild, n2);
    var line := Form(hash, n1, n2, rest);
    TagBuildIsGood();
    assert IndexOf(line, '=') == |verb| && line[..|verb|] == verb by {
      VerbHasNoEquals(hash, n1, TagBuild, n2);
      IndexOfPrefix(verb, '=', rest);
      assert line == verb + ['='] + rest;
    }
    VerbKeyed(hash, n1, TagBuild, n2);
  }

  /** The parts of a key's text. */
  lemma KeyedForm(verb: string, key: string)
    requires KeyedBy(verb, key)
    ensures exists hash: bool, n1: nat, n2: nat :: verb == Verb(hash, n1, key, n2)
  {
    var t := Uncommented(verb);
    var u := DropBlanks(t);
    UncommentedSplit(verb);
    DropBlanksSplit(t);
    BlankTail(u, key);
    VerbFrom(verb, StartsWith(verb, "#"), t, |t| - |u|, u, key, |u| - |key|);
  }

  /** The text, cut into its parts, is their `Verb`. */
  lemma VerbFrom(verb: string, hash: bool, t: string, n1: nat, u: string, key: string, n2: nat)
    requires verb == (if hash then "#" else "") + t
    requires t == Blanks(n1) + u && u == key + Blanks(n2)
    ensures verb == Verb(hash, n1, key, n2)
  {
    Substitute(verb, if hash then "#" else "", t, Blanks(n1), u, key, Blanks(n2));
  }

  lemma UncommentedSplit(verb: string)
    ensures verb == (if StartsWith(verb, "#") then "#" else "") + Uncommented(verb)
  {
    if StartsWith(verb, "#") {
      assert verb == verb[..1] + verb[1..];
    }
  }

  /** What `DropBlanks` drops is a run of blanks. */
  lemma {:induction false} DropBlanksSplit(t: string)
    ensures t == Blanks(|t| - |DropBlanks(t)|) + DropBlanks(t)
  {
    if t != [] && t[0] == ' ' {
      var m := |t[1..]| - |DropBlanks(t[1..])|;
      DropBlanksSplit(t[1..]);
      ConsTail(' ', Blanks(m), DropBlanks(t));
      assert Blanks(m + 1) == [' '] + Blanks(m);
      assert t == [' '] + t[1..];
    } else {
      assert t == Blanks(0) + t;
    }
  }

  lemma BlankTail(u: string, key: string)
    requires KeyThenBlanks(u, key)
    ensures u == key + Blanks(|u| - |key|)
  {
    var b := Blanks(|u| - |key|);
    assert u[..|key|] == key;
    assert u[|key|..] == b by {
      forall i | 0 <= i < |b|
        ensures u[|key|..][i] == b[i]
      {
        assert u[|key|..][i] == u[|key| + i];
      }
    }
    assert u == u[..|key|] + u[|key|..];
  }

  /** Every `tag_build` line is of the regex's language. */
  lemma TagBuildLineForm(line: string)
    requires TagBuildLine(line)
    ensures exists hash: bool, n1: nat, n2: nat, rest: string :: line == Form(hash, n1, n2, rest)
  {
    var k := IndexOf(line, '=');
    KeyedForm(line[..k], TagBuild);
    var hash: bool, n1: nat, n2: nat :| line[..k] == Verb(hash, n1, TagBuild, n2);
    var rest := line[k + 1..];
    CutAt(line, k);
    assert [line[k]] == "=";
    assert Form(hash, n1, n2, rest) == line[..k] + ("=" + rest);
  }

  /** A key's text is at least as long as the key. */
  lemma KeyedLength(verb: string, key: string)
    ensures KeyedBy(verb, key) ==> |verb| >= |key|
  {
  }

  /** `'{}= {}\n'.format(verb, pep440)` with `verb` the text before the
      first `=`. */
  function Rewrite(line: string, pep440: string): (r: string)
    ensures |r| == IndexOf(line, '=') + |pep440| + 3
    ensures var k := IndexOf(line, '=');
      r[..k] == line[..k] && r[k..] == "= " + pep440 + "\n"
  {
    var k := IndexOf(line, '=');
    var r := line[..k] + ("= " + pep440 + "\n");
    assert r[k..] == "= " + pep440 + "\n";
    r
  }

  /** The new value of one line. */
  function BumpLine(line: string, pep440: string): string {
    if TagBuildLine(line) then Rewrite(line, pep440) else line
  }

  /** The rewritten line keeps the text before the `=` and its `=`. */
  lemma RewriteKeeps(line: string, pep440: string)
    requires IndexOf(line, '=') < |line|
    ensures var k := IndexOf(line, '='); var r := Rewrite(line, pep440);
      k < |r| && r[k] == '=' && forall j :: 0 <= j < k ==> r[j] == line[j]
  {
    var k := IndexOf(line, '=');
    var r := Rewrite(line, pep440);
    assert r[k] == '=' by {
      assert r[k] == r[k..][0];
    }
    forall j | 0 <= j < k
      ensures r[j] == line[j]
    {
      assert r[j] == r[..k][j];
    }
  }

  lemma RewriteKey(line: string, pep440: string)
    requires IndexOf(line, '=') < |line|
    ensures IndexOf(Rewrite(line, pep440), '=') == IndexOf(line, '=')
  {
    RewriteKeeps(line, pep440);
    IndexOfAt(Rewrite(line, pep440), '=', IndexOf(line, '='));
  }

  /** A rewritten line still is a `tag_build` line, and rewriting it again
      changes nothing: bumping twice to the same version is bumping once. */
  lemma RewriteStable(line: string, pep440: string)
    requires TagBuildLine(line)
    ensures TagBuildLine(Rewrite(line, pep440))
    ensures Rewrite(Rewrite(line, pep440), pep440) == Rewrite(line, pep440)
    ensures BumpLine(BumpLine(line, pep440), pep440) == BumpLine(line, pep440)
  {
    var k := IndexOf(line, '=');
    RewriteKey(line, pep440);
    var r := Rewrite(line, pep440);
    assert r[..k] == line[..k];
    assert r == r[..k] + r[k..];
  }

  /** A commented `#tag_build` line stays commented. */
  lemma RewriteKeepsComment(line: string, pep440: string)
    requires TagBuildLine(line) && StartsWith(line, "#")
    ensures StartsWith(Rewrite(line, pep440), "#")
  {
    KeyedLength(line[..IndexOf(line, '=')], TagBuild);
    RewriteKeeps(line, pep440);
  }

  datatype BumpOutcome =
    | ReleaseVersion   // no dev version: nothing to do
    | NoSetupCfg
    | NoTagBuild       // nothing matched: the file is not written
    | Rewritten        // something matched: the file is written

  /** `f` on every line, in order. */
  function MapLines(f: string -> string, lines: seq<string>): (r: seq<string>)
    ensures |r| == |lines|
    ensures forall i :: 0 <= i < |lines| ==> r[i] == f(lines[i])
  {
    if lines == [] then [] else MapLines(f, lines[..|lines| - 1]) + [f(lines[|lines| - 1])]
  }

  /** `p` holds of some line. */
  predicate AnyLine(p: string -> bool, lines: seq<string>)
    ensures AnyLine(p, lines) <==> exists i :: 0 <= i < |lines| && p(lines[i])
  {
    lines != [] && (AnyLine(p, lines[..|lines| - 1]) || p(lines[|lines| - 1]))
  }

  /** Every line bumped. */
  function BumpLines(lines: seq<string>, pep440: string): seq<string> {
    MapLines(line => BumpLine(line, pep440), lines)
  }

  /** Some line is a `tag_build` line. */
  predicate AnyTagBuild(lines: seq<string>) {
    AnyLine(TagBuildLine, lines)
  }

  /** The `tag_build` loop of `bump` over the lines of `setup.cfg`; the
      version comes from the SCM and the file's existence is an input. */
  method Bump(data: array<string>, pep440: string, hasSetupCfg: bool) returns (outcome: BumpOutcome)
    modifies data
    ensures pep440 == "" ==> outcome == ReleaseVersion
    ensures pep440 != "" && !hasSetupCfg ==> outcome == NoSetupCfg
    ensures pep440 == "" || !hasSetupCfg ==> data[..] == old(data[..])
    ensures pep440 != "" && hasSetupCfg ==>
      data[..] == BumpLines(old(data[..]), pep440) &&
      (outcome == Rewritten <==> AnyTagBuild(old(data[..]))) &&
      (outcome == Rewritten || outcome == NoTagBuild)
  {
    if pep440 == "" {
      return ReleaseVersion;
    }
    if !hasSetupCfg {
      return NoSetupCfg;
    }
    var changed := RewriteLines(data, pep440);
    outcome := if changed then Rewritten else NoTagBuild;
  }

  /** The loop over the lines: every `tag_build` line rewritten in place. */
  method RewriteLines(data: array<string>, pep440: string) returns (changed: bool)
    modifies data
    ensures data[..] == BumpLines(old(data[..]), pep440)
    ensures changed <==> AnyTagBuild(old(data[..]))
  {
    ghost var lines := data[..];
    changed := false;
    for i := 0 to data.Length
      invariant data[..i] == BumpLines(lines[..i], pep440)
      invariant data[i..] == lines[i..]
      invariant changed <==> AnyTagBuild(lines[..i])
    {
      BumpStep(lines, i, pep440);
      assert data[i] == lines[i] by {
        assert data[i] == data[i..][0];
      }
      if TagBuildLine(data[i]) {
        data[i] := Rewrite(data[i], pep440);
        changed := true;
      }
      assert data[..i + 1] == data[..i] + [data[i]];
      assert data[i + 1..] == lines[i + 1..];
    }
    assert lines[..data.Length] == lines;
  }

  /** One more line bumped. */
  lemma BumpStep(lines: seq<string>, i: nat, pep440: string)
    requires i < |lines|
    ensures BumpLines(lines[..i + 1], pep440) == BumpLines(lines[..i], pep440) + [BumpLine(lines[i], pep440)]
    ensures AnyTagBuild(lines[..i + 1]) <==> AnyTagBuild(lines[..i]) || TagBuildLine(lines[i])
  {
    assert lines[..i + 1][..i] == lines[..i];
  }

  /** What `bump` does to the lines: every `tag_build` line rewritten, every
      other line kept, and the file written exactly when a line matched. */
  lemma BumpMeaning(lines: seq<string>, pep440: string)
    ensures forall i :: 0 <= i < |lines| ==>
      (TagBuildLine(lines[i]) ==> BumpLines(lines, pep440)[i] == Rewrite(lines[i], pep440)) &&
      (!TagBuildLine(lines[i]) ==> BumpLines(lines, pep440)[i] == lines[i])
    ensures AnyTagBuild(lines) <==> exists i :: 0 <= i < |lines| && TagBuildLine(lines[i])
  {
  }

  /** Bumping a second time to the same version changes nothing. */
  lemma BumpIdempotent(lines: seq<string>, pep440: string)
    ensures BumpLines(BumpLines(lines, pep440), pep440) == BumpLines(lines, pep440)
  {
    var once := BumpLines(lines, pep440);
    forall i | 0 <= i < |lines|
      ensures BumpLine(once[i], pep440) == once[i]
    {
      if TagBuildLine(lines[i]) {
        RewriteStable(lines[i], pep440);
      }
    }
  }

  // ---------------------------------------------------------------------
  // `prep`

  /** A line that starts with `tag_build` or `tag_date`. */
  predicate Tagged(line: string) {
    StartsWith(line, TagBuild) || StartsWith(line, "tag_date")
  }

  /** A line commented out by `prep`. */
  function CommentLine(line: string): (r: string)
    ensures !Tagged(r)
    ensures !Tagged(line) ==> r == line
    ensures Tagged(line) ==> r == "#" + line
  {
    if Tagged(line) then
      var r := "#" + line;
      assert r[0] == '#';
      r
    else line
  }

  /** The loop of `prep`: `#` before every `tag_build` and `tag_date` line. */
  method CommentOut(data: array<string>) returns (changed: bool)
    modifies data
    ensures forall i :: 0 <= i < data.Length ==> data[i] == CommentLine(old(data[i]))
    ensures forall i :: 0 <= i < data.Length ==> !Tagged(data[i])
    ensures changed <==> exists i :: 0 <= i < data.Length && Tagged(old(data[i]))
  {
    changed := false;
    for i := 0 to data.Length
      invariant forall j :: 0 <= j < i ==> data[j] == CommentLine(old(data[j]))
      invariant forall j :: i <= j < data.Length ==> data[j] == old(data[j])
      invariant changed <==> exists j :: 0 <= j < i && Tagged(old(data[j]))
    {
      if Tagged(data[i]) {
        data[i] := "#" + data[i];
        changed := true;
      }
    }
  }

  /** Commenting out twice is commenting out once. */
  lemma CommentLineIdempotent(line: string)
    ensures CommentLine(CommentLine(line)) == CommentLine(line)
  {
  }

  datatype PrepOutcome =
    | PrepNoSetupCfg
    | Unchanged
    | WouldRewrite     // changed, but `--no-commit`: the file is not written
    | RewriteAndAdd    // changed and committing: written and added to the SCM

  /** The `setup.cfg` step of `prep`. */
  method PrepSetupCfg(data: array<string>, hasSetupCfg: bool, commit: bool) returns (outcome: PrepOutcome)
    modifies data
    ensures !hasSetupCfg ==> outcome == PrepNoSetupCfg && data[..] == old(data[..])
    ensures hasSetupCfg ==> forall i :: 0 <= i < data.Length ==> data[i] == CommentLine(old(data[i]))
    ensures outcome == RewriteAndAdd <==>
      hasSetupCfg && commit && exists i :: 0 <= i < data.Length && Tagged(old(data[i]))
    ensures outcome == WouldRewrite <==>
      hasSetupCfg && !commit && exists i :: 0 <= i < data.Length && Tagged(old(data[i]))
  {
    if !hasSetupCfg {
      return PrepNoSetupCfg;
    }
    var changed := CommentOut(data);
    outcome := if changed && commit then RewriteAndAdd else if changed then WouldRewrite else Unchanged;
  }

  // ---------------------------------------------------------------------
  // The pre-release check

  /** Where `pat` first occurs in `s`, or `|s|`. */
  function Find(s: string, pat: string): (i: nat)
    requires pat != []
    ensures i <= |s|
    ensures i < |s| ==> StartsWith(s[i..], pat)
    ensures forall j :: 0 <= j < i ==> !StartsWith(s[j..], pat)
    decreases |s|
  {
    if s == [] || StartsWith(s, pat) then 0
    else
      var i := 1 + Find(s[1..], pat);
      assert forall j :: 1 <= j <= |s| ==> s[j..] == s[1..][j - 1..];
      i
  }

  /** `distfile.split('-' + version)[1]`: from the end of the first
      occurrence up to the next one; None where `[1]` raises IndexError. */
  function Trailer(distfile: string, version: string): (t: Option<string>)
    ensures t.None? <==> forall j :: 0 <= j < |distfile| ==> !StartsWith(distfile[j..], "-" + version)
  {
    var pat := "-" + version;
    var i := Find(distfile, pat);
    if i == |distfile| then None
    else
      var rest := distfile[i + |pat|..];
      Some(rest[..Find(rest, pat)])
  }

  /** The last index of `c` in `s`, or -1 (`str.rfind`). */
  function RFind(s: string, c: char): (i: int)
    ensures -1 <= i < |s|
    ensures i >= 0 ==> s[i] == c
    ensures forall j :: i < j < |s| ==> s[j] != c
  {
    if s == [] then -1
    else if s[|s| - 1] == c then |s| - 1
    else RFind(s[..|s| - 1], c)
  }

  /** The root that `os.path.splitext` returns: the path without its last
      `.` suffix, unless that dot is in a directory part or only dots come
      before it in the last part. */
  function SplitExtRoot(p: string): (root: string)
    ensures root == p || (|root| < |p| && root == p[..|root|] && p[|root|] == '.')
  {
    var sepIndex := RFind(p, '/');
    var dotIndex := RFind(p, '.');
    if dotIndex > sepIndex && exists k :: sepIndex + 1 <= k < dotIndex && p[k] != '.' then p[..dotIndex]
    else p
  }

  /** A base name of leading dots and a dotless rest, such as `.bashrc`,
      has no extension: the root is the whole name. */
  lemma DotFileKept(dots: string, w: string)
    requires dots != [] && (forall c :: c in dots ==> c == '.') && '.' !in w && '/' !in w
    ensures SplitExtRoot(dots + w) == dots + w
  {
    var p := dots + w;
    var n := |dots|;
    assert p[n - 1] == dots[n - 1] && dots[n - 1] in dots;
    forall j | n <= j < |p| ensures p[j] != '.' {
      assert p[j] == w[j - n] && w[j - n] in w;
    }
    var dotIndex := RFind(p, '.');
    assert dotIndex == n - 1;
    forall k | 0 <= k < |p| ensures p[k] != '/' {
      if k < n {
        assert p[k] == dots[k] && dots[k] in dots;
      } else {
        assert p[k] == w[k - n] && w[k - n] in w;
      }
    }
    forall k | 0 <= k < dotIndex ensures p[k] == '.' {
      assert p[k] == dots[k] && dots[k] in dots;
    }
  }

  /** The first character decides the pre-release check: splitting off
      the extension keeps it, or leaves the text whole. */
  lemma SplitExtKeepsFirst(t: string)
    requires t != []
    ensures SplitExtRoot(t) != [] && SplitExtRoot(t)[0] == t[0]
  {
    var root := SplitExtRoot(t);
    if root != t {
      var sepIndex := RFind(t, '/');
      var dotIndex := RFind(t, '.');
      var k :| sepIndex + 1 <= k < dotIndex && t[k] != '.';
      if sepIndex == -1 {
        assert |root| == dotIndex;
        assert t[0] != '.' ==> dotIndex > 0;
      }
    }
  }

  /** What one file says about the release. */
  datatype DistVerdict = Final | PreRelease(trailer: string) | NoVersion

  /** One file of `dist`: the trailer after the version, without its
      extension, must be empty or start with `.` or `-`. */
  function CheckFile(distfile: string, version: string): DistVerdict {
    match Trailer(distfile, version)
    case None => NoVersion
    case Some(t) =>
      var root := SplitExtRoot(t);
      if root != [] && root[0] != '.' && root[0] != '-' then PreRelease(root) else Final
  }

  /** A file is a pre-release one exactly when the text after the version
      starts with something else than `.` or `-`: `-1.0.tar.gz` and
      `-1.0-py3-none-any.whl` pass, `-1.0rc1.tar.gz` does not. */
  lemma PreReleaseByFirst(distfile: string, version: string)
    requires Trailer(distfile, version).Some?
    ensures var t := Trailer(distfile, version).value;
      CheckFile(distfile, version).PreRelease? <==> t != [] && t[0] != '.' && t[0] != '-'
  {
    var t := Trailer(distfile, version).value;
    if t != [] {
      SplitExtKeepsFirst(t);
    } else {
      assert SplitExtRoot(t) == [];
    }
  }

  datatype DistOutcome = AllFinal | PreReleaseFound(distfile: string, trailer: string) | VersionMissing(distfile: string)

  /** The loop of `prep` over `dist`: `notify.failure` ends it at the first
      pre-release file, and a file without the version raises. */
  method CheckDist(distfiles: seq<string>, version: string) returns (r: DistOutcome)
    ensures r.AllFinal? <==> forall i :: 0 <= i < |distfiles| ==> CheckFile(distfiles[i], version).Final?
    ensures !r.AllFinal? ==> exists i :: (0 <= i < |distfiles| &&
      (forall j :: 0 <= j < i ==> CheckFile(distfiles[j], version).Final?) &&
      (r.PreReleaseFound? <==> CheckFile(distfiles[i], version).PreRelease?) &&
      (r.PreReleaseFound? ==> r == PreReleaseFound(distfiles[i], CheckFile(distfiles[i], version).trailer)) &&
      (r.VersionMissing? ==> r == VersionMissing(distfiles[i]) && CheckFile(distfiles[i], version).NoVersion?))
  {
    for i := 0 to |distfiles|
      invariant forall j :: 0 <= j < i ==> CheckFile(distfiles[j], version).Final?
    {
      match CheckFile(distfiles[i], version)
      case NoVersion =>
        return VersionMissing(distfiles[i]);
      case PreRelease(t) =>
        return PreReleaseFound(distfiles[i], t);
      case Final =>
    }
    return AllFinal;
  }
}
