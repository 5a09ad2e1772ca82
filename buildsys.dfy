/** Project metadata of `rituals.util.buildsys.project_meta` for a
    poetry-built project, and the search for its copyright line. */
module BuildSys {
  import opened Text

  /** What `project_meta` ends with: a value, or the exception it raises. */
  datatype Outcome<T> = Ok(value: T) | IndexError | NotImplemented(reason: string)

  /** The `[tool.poetry]` table; a missing key reads as `""` or `[]`, as
      through the `defaultdict(str)`. */
  datatype Poetry = Poetry(name: string, version: string, authors: seq<string>,
                           license: string, homepage: string, description: string)

  datatype Project = Project(name: string, version: string, author: string, authorEmail: string,
                             license: string, packages: seq<string>, url: string, description: string)

  /** `(authors or [''])[0]` */
  function FirstAuthor(authors: seq<string>): (a: string)
    ensures authors != [] ==> a == authors[0]
    ensures authors == [] ==> a == ""
  {
    if authors == [] then "" else authors[0]
  }

  /** `author.split('<')[0].strip()` */
  function AuthorName(author: string): (n: string)
    ensures |n| <= |author|
    ensures '<' !in n
    ensures n == [] || (!IsSpace(n[0]) && !IsSpace(n[|n| - 1]))
  {
    var i := IndexOf(author, '<');
    var n := Strip(author[..i]);
    assert forall c :: c in n ==> c in author[..i] by {
      StripInside(author[..i]);
    }
    n
  }

  /** `(re.findall(r'<([^>]*?)>', author or '<>') or [''])[0]`: the text
      from the first `<` up to the next `>`, or `""` when there is none. */
  function AuthorEmail(author: string): (e: string)
    ensures '>' !in e
    ensures '<' !in author ==> e == ""
  {
    var a := if author == "" then "<>" else author;
    var i := IndexOf(a, '<');
    if i == |a| then ""
    else
      var rest := a[i + 1..];
      var j := IndexOf(rest, '>');
      if j == |rest| then "" else rest[..j]
  }

  /** An author entry of the form `name <email>`. */
  function FormatAuthor(name: string, email: string): string {
    name + " <" + email + ">"
  }

  /** The name goes before the angle brackets and the email inside. */
  lemma AuthorRoundTrip(name: string, email: string)
    requires '<' !in name && '>' !in email
    requires name == [] || (!IsSpace(name[0]) && !IsSpace(name[|name| - 1]))
    ensures AuthorName(FormatAuthor(name, email)) == name
    ensures AuthorEmail(FormatAuthor(name, email)) == email
  {
    var a := FormatAuthor(name, email);
    assert a == name + [' '] + ['<'] + email + ['>'];
    IndexOfPrefix(name + [' '], '<', email + ['>']);
    assert a == (name + [' ']) + ['<'] + (email + ['>']);
    assert a[..|name| + 1] == name + [' '];
    StripTrailingSpace(name);
    assert a[|name| + 2..] == email + ['>'];
    IndexOfPrefix(email, '>', []);
    assert email + ['>'] == email + ['>'] + [];
    assert (email + ['>'])[..|email|] == email;
  }

  /** A name, then one space, strips back to the name. */
  lemma StripTrailingSpace(name: string)
    requires name == [] || (!IsSpace(name[0]) && !IsSpace(name[|name| - 1]))
    ensures Strip(name + [' ']) == name
  {
    var s := name + [' '];
    if name == [] {
      assert LStrip(s) == LStrip([]);
    } else {
      assert LStrip(s) == s;
      assert s[..|s| - 1] == name;
      assert RStrip(s) == RStrip(name);
    }
  }

  /** An author entry without brackets is all name and no email. */
  lemma AuthorWithoutEmail(author: string)
    requires '<' !in author
    ensures AuthorName(author) == Strip(author)
    ensures AuthorEmail(author) == ""
  {
    assert author[..IndexOf(author, '<')] == author;
  }

  /** `poetry['name'].replace('-', '_')` */
  function PackageName(name: string): (p: string)
    ensures |p| == |name| && '-' !in p
    ensures forall i :: 0 <= i < |name| && name[i] != '-' ==> p[i] == name[i]
    ensures '-' !in name ==> p == name
  {
    ReplaceChar(name, '-', '_')
  }

  /** The project record `project_meta` derives from `pyproject.toml`;
      only a poetry build backend is known. */
  function PoetryProject(backend: string, poetry: Poetry): (r: Outcome<Project>)
    ensures r.Ok? <==> StartsWith(backend, "poetry.")
    ensures r.Ok? ==>
      var author := FirstAuthor(poetry.authors);
      r.value.author == AuthorName(author) && r.value.authorEmail == AuthorEmail(author) &&
      r.value.packages == [PackageName(poetry.name)] && r.value.name == poetry.name &&
      r.value.version == poetry.version && r.value.url == poetry.homepage
    ensures !r.Ok? ==> r == NotImplemented("Unknown build system")
  {
    if StartsWith(backend, "poetry.") then
      var author := FirstAuthor(poetry.authors);
      Ok(Project(poetry.name, poetry.version, AuthorName(author), AuthorEmail(author),
                 poetry.license, [PackageName(poetry.name)], poetry.homepage, poetry.description))
    else NotImplemented("Unknown build system")
  }

  // ---------------------------------------------------------------------
  // The copyright line

  const Word := "Copyright"

  /** The index of the first line that holds `Copyright`, or `|lines|`. */
  function CopyrightLine(lines: seq<string>): (i: nat)
    ensures i <= |lines|
    ensures i < |lines| ==> Contains(lines[i], Word)
    ensures forall j :: 0 <= j < i ==> !Contains(lines[j], Word)
  {
    if lines == [] then 0
    else if Contains(lines[0], Word) then 0
    else 1 + CopyrightLine(lines[1..])
  }

  /** `parse_copyright` over the lines of a text: the first line that
      holds `Copyright`, with every `Copyright` taken out and stripped;
      None where the `[0]` raises IndexError. */
  function ParseCopyright(lines: seq<string>): (r: Option<string>)
    ensures r.None? <==> forall i :: 0 <= i < |lines| ==> !Contains(lines[i], Word)
    ensures r.Some? ==> exists i :: (0 <= i < |lines| && Contains(lines[i], Word) &&
      (forall j :: 0 <= j < i ==> !Contains(lines[j], Word)) &&
      r.value == Strip(ReplaceAll(lines[i], Word, "")))
  {
    var i := CopyrightLine(lines);
    if i == |lines| then None else Some(Strip(ReplaceAll(lines[i], Word, "")))
  }

  /** Removing every occurrence: a leading one goes, and a text without
      one is kept. */
  lemma ReplaceLeading(rest: string)
    requires !Contains(rest, Word)
    ensures ReplaceAll(Word + rest, Word, "") == rest
  {
    assert (Word + rest)[..|Word|] == Word;
    assert (Word + rest)[|Word|..] == rest;
  }

  /** A plain notice `Copyright <holder>` parses to the holder. */
  lemma CopyrightNotice(before: seq<string>, holder: string, after: seq<string>)
    requires forall i :: 0 <= i < |before| ==> !Contains(before[i], Word)
    requires !Contains(holder, Word)
    ensures ParseCopyright(before + [Word + holder] + after) == Some(Strip(holder))
  {
    var lines := before + [Word + holder] + after;
    Middle(before, Word + holder, after);
    LeadingWord(holder);
    FirstCopyright(lines, |before|);
  }

  /** A line that starts with the word holds it. */
  lemma LeadingWord(holder: string)
    requires !Contains(holder, Word)
    ensures Contains(Word + holder, Word) && ReplaceAll(Word + holder, Word, "") == holder
  {
    assert StartsWith(Word + holder, Word) by {
      assert (Word + holder)[..|Word|] == Word;
    }
    ReplaceLeading(holder);
  }

  /** The copyright comes from the first line that holds the word. */
  lemma FirstCopyright(lines: seq<string>, k: nat)
    requires k < |lines| && Contains(lines[k], Word)
    requires forall j :: 0 <= j < k ==> !Contains(lines[j], Word)
    ensures ParseCopyright(lines) == Some(Strip(ReplaceAll(lines[k], Word, "")))
  {
    assert CopyrightLine(lines) == k;
  }

  /** Where `project_meta` takes the copyright from: `long_description`
      first, else the LICENSE file (both as their lines), else a copyright
      the project already carries; otherwise NotImplementedError. */
  function Copyright(longDescription: Option<seq<string>>, license: Option<seq<string>>,
                     existing: Option<string>): (r: Outcome<string>)
    ensures longDescription.Some? ==>
      (r.Ok? <==> ParseCopyright(longDescription.value).Some?) &&
      (r.Ok? ==> r.value == ParseCopyright(longDescription.value).value)
    ensures longDescription.None? && license.Some? ==>
      (r.Ok? <==> ParseCopyright(license.value).Some?) &&
      (r.Ok? ==> r.value == ParseCopyright(license.value).value)
    ensures r.NotImplemented? <==> longDescription.None? && license.None? && existing.None?
    ensures !r.NotImplemented? && !r.Ok? ==> r.IndexError?
  {
    var text := if longDescription.Some? then longDescription else license;
    if text.Some? then
      match ParseCopyright(text.value)
      case Some(c) => Ok(c)
      case None => IndexError
    else if existing.Some? then Ok(existing.value)
    else NotImplemented("Cannot determine copyright for this project")
  }
}
