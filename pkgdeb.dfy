/** The string work of the `deb.build` task in `rituals.acts.pkgdeb`: the
    top line of `debian/changelog` (the changelog header of section 4.4 of
    the Debian Policy Manual), the artifact glob, the list of `.changes`
    files and the `dput` call. */
module PkgDeb {
  import opened Text

  /** `name (version) dists; urgency=urgency` */
  datatype Header = Header(name: string, version: string, dists: string, urgency: string)

  /** The fields the header regex `^([^ ]+) \(([^)]+)\) ([^;]+); urgency=(.+)$`
      can capture. */
  predicate ValidHeader(h: Header) {
    h.name != [] && ' ' !in h.name &&
    h.version != [] && ')' !in h.version &&
    h.dists != [] && ';' !in h.dists &&
    h.urgency != [] && '\n' !in h.urgency
  }

  function FormatHeader(h: Header): string {
    h.name + (" (" + (h.version + (") " + (h.dists + (UrgencyTag + h.urgency)))))
  }

  const UrgencyTag := "; urgency="

  /** Cut `s` at the first occurrence of the separator's first character,
      where the whole separator must follow and some text must precede. */
  function Cut(s: string, t: string): (r: Option<(string, string)>)
    requires t != []
    ensures r.Some? ==> r.value.0 != [] && t[0] !in r.value.0 && s == r.value.0 + (t + r.value.1)
  {
    var i := IndexOf(s, t[0]);
    if i == 0 || !StartsWith(s[i..], t) then None
    else
      Unseparated(s, i, t);
      Some((s[..i], s[i + |t|..]))
  }

  /** The header regex on one line. The name runs to the first space, the
      version to the first `)`, the distributions to the first `;`: no
      shorter capture could be followed by the literal text that comes
      next, so the match is the only one. */
  function ParseHeader(line: string): (r: Option<Header>)
    ensures r.Some? ==> ValidHeader(r.value)
  {
    match Cut(line, " (")
    case None => None
    case Some((name, rest)) => ParseVersion(name, rest)
  }

  /** The rest of the header after `name (`. */
  function ParseVersion(name: string, rest: string): (r: Option<Header>)
    requires name != [] && ' ' !in name
    ensures r.Some? ==> ValidHeader(r.value) && r.value.name == name
  {
    match Cut(rest, ") ")
    case None => None
    case Some((version, more)) => ParseDists(name, version, more)
  }

  /** The rest of the header after `name (version) `. */
  function ParseDists(name: string, version: string, rest: string): (r: Option<Header>)
    requires name != [] && ' ' !in name && version != [] && ')' !in version
    ensures r.Some? ==> ValidHeader(r.value) && r.value.name == name && r.value.version == version
  {
    match Cut(rest, UrgencyTag)
    case None => None
    case Some((dists, u)) =>
      if u == [] || '\n' in u then None
      else Some(Header(name, version, dists, u))
  }

  /** `re.match(…, changes.readline().rstrip())`; None is the
      `notify.failure` branch: badly formatted top entry. */
  function ChangelogHeader(topLine: string): Option<Header> {
    ParseHeader(RStrip(topLine))
  }

  /** A separator `t` that starts with `c`, after a text without `c`:
      the text, the separator and what follows are recovered. */
  lemma Separated(a: string, t: string, b: string)
    requires t != [] && t[0] !in a
    ensures IndexOf(a + (t + b), t[0]) == |a|
    ensures (a + (t + b))[..|a|] == a
    ensures StartsWith((a + (t + b))[|a|..], t)
    ensures (a + (t + b))[|a| + |t|..] == b
  {
    var s := a + (t + b);
    assert s == a + [t[0]] + (t[1..] + b);
    IndexOfPrefix(a, t[0], t[1..] + b);
    assert s[|a|..] == t + b;
    assert (t + b)[..|t|] == t;
  }

  /** The converse: a text holding `t` at `i` is cut there. */
  lemma Unseparated(s: string, i: nat, t: string)
    requires i <= |s| && StartsWith(s[i..], t)
    ensures s == s[..i] + (t + s[i + |t|..])
  {
    assert s[i..][..|t|] == s[i..i + |t|];
    assert s == s[..i] + (s[i..i + |t|] + s[i + |t|..]);
  }

  /** A text without the separator's first character, the separator and
      anything: the cut gives back the text and the rest. */
  lemma CutSeparated(a: string, t: string, b: string)
    requires t != [] && a != [] && t[0] !in a
    ensures Cut(a + (t + b), t) == Some((a, b))
  {
    Separated(a, t, b);
  }

  /** Formatting a valid header and parsing it gives the header back. */
  lemma ParseFormatted(h: Header)
    requires ValidHeader(h)
    ensures ParseHeader(FormatHeader(h)) == Some(h)
  {
    var tail := h.dists + (UrgencyTag + h.urgency);
    var rest := h.version + (") " + tail);
    CutSeparated(h.name, " (", rest);
    CutSeparated(h.version, ") ", tail);
    CutSeparated(h.dists, UrgencyTag, h.urgency);
  }

  /** Whatever parses is a formatted valid header: the regex accepts
      exactly the lines `FormatHeader` produces. */
  lemma ParsedIsFormatted(line: string)
    requires ParseHeader(line).Some?
    ensures FormatHeader(ParseHeader(line).value) == line
  {
    var (name, rest) := Cut(line, " (").value;
    var (version, more) := Cut(rest, ") ").value;
    var (dists, u) := Cut(more, UrgencyTag).value;
  }

  /** A trailing line end or blanks after a header do not matter, as long
      as the urgency ends in a visible character. */
  lemma HeaderLine(h: Header, tail: string)
    requires ValidHeader(h) && !IsSpace(h.urgency[|h.urgency| - 1])
    requires forall i :: 0 <= i < |tail| ==> IsSpace(tail[i])
    ensures ChangelogHeader(FormatHeader(h) + tail) == Some(h)
  {
    RStripBlanks(FormatHeader(h), tail);
    ParseFormatted(h);
  }

  // ---------------------------------------------------------------------
  // Artifacts

  /** The characters the artifact glob keeps: `[-_.a-zA-Z0-9]`. */
  predicate Kept(c: char) {
    c == '-' || c == '_' || c == '.' || ('a' <= c <= 'z') || ('A' <= c <= 'Z') || ('0' <= c <= '9')
  }

  /** `re.sub(r'[^-_.a-zA-Z0-9]', '?', version)` */
  function Sanitize(version: string): (r: string)
    ensures |r| == |version|
    ensures forall i :: 0 <= i < |r| ==> r[i] == if Kept(version[i]) then version[i] else '?'
  {
    if version == [] then [] else [if Kept(version[0]) then version[0] else '?'] + Sanitize(version[1..])
  }

  /** Sanitizing twice is sanitizing once, and a version made of kept
      characters is its own glob. */
  lemma SanitizeIdempotent(version: string)
    ensures Sanitize(Sanitize(version)) == Sanitize(version)
    ensures (forall i :: 0 <= i < |version| ==> Kept(version[i])) ==> Sanitize(version) == version
  {
  }

  /** `'{}?{}*'.format(name, sanitized version)` */
  function ArtifactPattern(name: string, version: string): (p: string)
    ensures |p| == |name| + |version| + 2
    ensures StartsWith(p, name) && p[|name|] == '?' && p[|p| - 1] == '*'
    ensures p[|name| + 1..|p| - 1] == Sanitize(version)
  {
    var p := name + "?" + Sanitize(version) + "*";
    assert p[..|name|] == name;
    p
  }

  /** The `.changes` files among the moved artifacts, as `dist/<basename>`,
      in the order of the glob. */
  function ChangesOf(debfiles: seq<string>): seq<string> {
    if debfiles == [] then []
    else
      var rest := ChangesOf(debfiles[1..]);
      if EndsWith(debfiles[0], ".changes") then ["dist/" + BaseName(debfiles[0])] + rest else rest
  }

  /** The loop of `build` that moves the artifacts and collects the
      `.changes` files; the move itself is left out. */
  method ChangesFiles(debfiles: seq<string>) returns (changes: seq<string>)
    ensures changes == ChangesOf(debfiles)
  {
    changes := [];
    var k := |debfiles|;
    while k > 0
      invariant 0 <= k <= |debfiles|
      invariant changes == ChangesOf(debfiles[k..])
      decreases k
    {
      k := k - 1;
      assert debfiles[k..][1..] == debfiles[k + 1..];
      if EndsWith(debfiles[k], ".changes") {
        changes := ["dist/" + BaseName(debfiles[k])] + changes;
      }
    }
    assert debfiles[0..] == debfiles;
  }

  /** Every collected name is `dist/` and the base name of a moved
      `.changes` artifact, and every such artifact is collected. */
  lemma {:induction false} ChangesOfMembers(debfiles: seq<string>, x: string)
    ensures x in ChangesOf(debfiles) <==> exists i :: CollectedFrom(debfiles, i, x)
  {
    if debfiles != [] {
      var rest := debfiles[1..];
      var head := if EndsWith(debfiles[0], ".changes") then ["dist/" + BaseName(debfiles[0])] else [];
      assert ChangesOf(debfiles) == head + ChangesOf(rest);
      InConcat(head, ChangesOf(rest), x);
      assert x in head <==> CollectedFrom(debfiles, 0, x);
      ChangesOfMembers(rest, x);
      ShiftCollected(debfiles, x);
    }
  }

  /** The artifacts after the first are the rest's, one place later. */
  lemma ShiftCollected(debfiles: seq<string>, x: string)
    requires debfiles != []
    ensures (exists i :: CollectedFrom(debfiles, i, x)) <==>
      CollectedFrom(debfiles, 0, x) || exists i :: CollectedFrom(debfiles[1..], i, x)
  {
    var rest := debfiles[1..];
    if exists i :: CollectedFrom(debfiles, i, x) {
      var i :| CollectedFrom(debfiles, i, x);
      if i > 0 { assert debfiles[i] == rest[i - 1]; assert CollectedFrom(rest, i - 1, x); }
    }
    if exists i :: CollectedFrom(rest, i, x) {
      var i :| CollectedFrom(rest, i, x);
      assert debfiles[i + 1] == rest[i];
      assert CollectedFrom(debfiles, i + 1, x);
    }
  }

  /** `x` is the collected name of the artifact at `i`. */
  predicate CollectedFrom(debfiles: seq<string>, i: int, x: string) {
    0 <= i < |debfiles| && EndsWith(debfiles[i], ".changes") && x == "dist/" + BaseName(debfiles[i])
  }

  /** A collected name ends in `.changes` like its artifact. */
  lemma ChangesName(debfile: string)
    requires EndsWith(debfile, ".changes")
    ensures EndsWith("dist/" + BaseName(debfile), ".changes")
  {
    BaseNameKeepsSuffix(debfile, ".changes");
    EndsWithAfter("dist/", BaseName(debfile), ".changes");
  }

  /** `dput` runs only with a host, on the collected `.changes` files. */
  function DputCommand(host: string, changes: seq<string>): (cmd: Option<string>)
    ensures cmd.Some? <==> host != ""
    ensures cmd.Some? ==> StartsWith(cmd.value, "dput " + host + " ")
  {
    if host == "" then None
    else
      var c := "dput " + host + " " + Join(changes, " ");
      assert c[..|"dput " + host + " "|] == "dput " + host + " ";
      Some(c)
  }
}
