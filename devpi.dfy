/** `get_devpi_url` of `rituals.acts.devpi`: the scan of the lines that
    `devpi use --urls` prints for the `simpleindex` URL. */
module Devpi {
  import opened Text

  /** What one line contributes to the scan. */
  datatype LineVerdict =
    | Skipped              // no `:`; the `ValueError` branch that only warns
    | Rejected             // a key whose last word is not `simpleindex`
    | Accepted(url: string)
    | KeyIndexError        // a key of blanks only: `split()[-1]` raises IndexError

  /** The end of the scan. */
  datatype Outcome = Url(url: string) | NotFound | IndexError

  /** `value.split('\x1b')[0].strip().rstrip('/')`: the value up to the
      first escape character, stripped, without trailing slashes. */
  function CleanUrl(value: string): (u: string)
    ensures '\U{1B}' !in u
    ensures u == [] || u[|u| - 1] != '/'
    ensures u == [] || !IsSpace(u[0])
  {
    var k := IndexOf(value, '\U{1B}');
    var s := Strip(value[..k]);
    StripInside(value[..k]);
    var u := RStripChar(s, '/');
    assert forall c :: c in u ==> c in s;
    u
  }

  /** One line: split at its first `:`; the key's last word decides. */
  function Examine(line: string): (v: LineVerdict)
    ensures v.Skipped? <==> ':' !in line
    ensures !v.Skipped? ==>
      var i := IndexOf(line, ':');
      (v.KeyIndexError? <==> LastWord(line[..i]).None?) &&
      (v.Accepted? <==> LastWord(line[..i]) == Some("simpleindex")) &&
      (v.Accepted? ==> v.url == CleanUrl(line[i + 1..]))
  {
    var i := IndexOf(line, ':');
    if i == |line| then Skipped
    else
      match LastWord(line[..i])
      case None => KeyIndexError
      case Some(w) => if w == "simpleindex" then Accepted(CleanUrl(line[i + 1..])) else Rejected
  }

  /** A line that ends the scan: an accepted one, or one that raises. */
  predicate Decisive(v: LineVerdict) {
    v.Accepted? || v.KeyIndexError?
  }

  /** Line `i` is the first decisive line. */
  predicate FirstDecisive(lines: seq<string>, i: int) {
    0 <= i < |lines| && Decisive(Examine(lines[i])) &&
    forall j :: 0 <= j < i ==> !Decisive(Examine(lines[j]))
  }

  /** The scan ends at line `i` with `r`: the line's URL when it was
      accepted, IndexError when its key was blank. */
  predicate EndsAt(lines: seq<string>, i: int, r: Outcome) {
    FirstDecisive(lines, i) &&
    (r.Url? <==> Examine(lines[i]).Accepted?) &&
    (r.Url? ==> r.url == Examine(lines[i]).url)
  }

  /** The outcome of the scan: the first decisive line's, or NotFound. */
  function Scan(lines: seq<string>): Outcome {
    if lines == [] then NotFound
    else
      match Examine(lines[0])
      case Accepted(url) => Url(url)
      case KeyIndexError => IndexError
      case _ => Scan(lines[1..])
  }

  /** The scan finds nothing exactly when no line is decisive; otherwise it
      ends at the first decisive line, with its URL when that line was
      accepted and with IndexError when its key was blank. */
  lemma {:induction false} ScanOutcome(lines: seq<string>)
    ensures Scan(lines).NotFound? <==> forall i :: 0 <= i < |lines| ==> !Decisive(Examine(lines[i]))
    ensures !Scan(lines).NotFound? ==> exists i :: EndsAt(lines, i, Scan(lines))
  {
    if lines != [] {
      var v := Examine(lines[0]);
      if Decisive(v) {
        assert EndsAt(lines, 0, Scan(lines));
      } else {
        var rest := lines[1..];
        ScanOutcome(rest);
        assert forall i :: 1 <= i < |lines| ==> lines[i] == rest[i - 1];
        if !Scan(rest).NotFound? {
          var i :| EndsAt(rest, i, Scan(rest));
          assert EndsAt(lines, i + 1, Scan(lines));
        }
      }
    }
  }

  /** The loop of `get_devpi_url`: the first decisive line gives the
      result, and LookupError follows when there is none. */
  method GetDevpiUrl(lines: seq<string>) returns (r: Outcome)
    ensures r == Scan(lines)
  {
    var n := 0;
    while n < |lines|
      invariant 0 <= n <= |lines|
      invariant Scan(lines[n..]) == Scan(lines)
    {
      assert lines[n..][1..] == lines[n + 1..];
      var v := Examine(lines[n]);
      match v
      case Accepted(url) =>
        return Url(url);
      case KeyIndexError =>
        return IndexError;
      case _ =>
      n := n + 1;
    }
    return NotFound;
  }

  /** Only the first `:` separates, so the value may hold more of them,
      as in `simpleindex: http://localhost:3141/root/pypi/+simple/`. */
  lemma ValueWithColons(key: string, value: string)
    requires ':' !in key && LastWord(key) == Some("simpleindex")
    ensures Examine(key + ":" + value) == Accepted(CleanUrl(value))
  {
    IndexOfPrefix(key, ':', value);
    Around(key, ":", value);
  }

  /** A key after blanks or a label: `   simpleindex`, `simpleindex `,
      `  pypi simpleindex`. */
  lemma SimpleIndexKey(lead: string, tail: string)
    requires lead == [] || IsSpace(lead[|lead| - 1])
    requires forall i :: 0 <= i < |tail| ==> IsSpace(tail[i])
    ensures LastWord(lead + "simpleindex" + tail) == Some("simpleindex")
  {
    LastWordOf(lead, "simpleindex", tail);
  }

  /** A longer word ending in `simpleindex` is not `simpleindex`. */
  lemma NotSoSimple(key: string, value: string)
    requires ':' !in key && LastWord(key) == Some("notsosimpleindex")
    ensures Examine(key + ":" + value) == Rejected
  {
    IndexOfPrefix(key, ':', value);
    Around(key, ":", value);
    assert |"notsosimpleindex"| != |"simpleindex"|;
  }

  /** The escape sequence a colouring terminal adds after the URL is cut
      off with everything that follows it. */
  lemma EscapeCut(url: string, rest: string)
    requires '\U{1B}' !in url
    ensures CleanUrl(url + "\U{1B}" + rest) == CleanUrl(url)
  {
    IndexOfPrefix(url, '\U{1B}', rest);
    assert (url + "\U{1B}" + rest)[..|url|] == url;
    assert url[..IndexOf(url, '\U{1B}')] == url;
  }

  /** Without an escape character the whole value is cleaned. */
  lemma CleanPlain(value: string)
    requires '\U{1B}' !in value
    ensures CleanUrl(value) == RStripChar(Strip(value), '/')
  {
    assert value[..IndexOf(value, '\U{1B}')] == value;
  }

  /** Blanks before the URL and slashes after it go: a URL with visible
      ends and no trailing slash comes out as it is. */
  lemma CleanUrlOf(blanks: string, url: string, slashes: string)
    requires forall i :: 0 <= i < |blanks| ==> IsSpace(blanks[i])
    requires url != [] && !IsSpace(url[0]) && !IsSpace(url[|url| - 1]) && url[|url| - 1] != '/'
    requires '\U{1B}' !in url
    requires forall i :: 0 <= i < |slashes| ==> slashes[i] == '/'
    ensures CleanUrl(blanks + (url + slashes)) == url
  {
    var w := url + slashes;
    assert '\U{1B}' !in w by {
      forall i | 0 <= i < |w| ensures w[i] != '\U{1B}' {
        if i < |url| { assert w[i] == url[i]; } else { assert w[i] == slashes[i - |url|]; }
      }
    }
    var v := blanks + w;
    assert '\U{1B}' !in v by {
      forall i | 0 <= i < |v| ensures v[i] != '\U{1B}' {
        if i < |blanks| { assert !IsSpace('\U{1B}') && v[i] == blanks[i]; } else { assert v[i] == w[i - |blanks|]; }
      }
    }
    CleanPlain(v);
    StripBlanks(blanks, url, slashes);
    RStripCharRun(url, '/', slashes);
  }

  lemma StripBlanks(blanks: string, url: string, slashes: string)
    requires forall i :: 0 <= i < |blanks| ==> IsSpace(blanks[i])
    requires url != [] && !IsSpace(url[0]) && !IsSpace(url[|url| - 1])
    requires forall i :: 0 <= i < |slashes| ==> slashes[i] == '/'
    ensures Strip(blanks + (url + slashes)) == url + slashes
  {
    var w := url + slashes;
    assert w[0] == url[0];
    LStripBlanks(blanks, w);
    VisibleEnd(url, slashes);
  }

  lemma VisibleEnd(url: string, slashes: string)
    requires url != [] && !IsSpace(url[|url| - 1])
    requires forall i :: 0 <= i < |slashes| ==> slashes[i] == '/'
    ensures RStrip(url + slashes) == url + slashes
  {
    var w := url + slashes;
    if slashes == [] {
      assert w == url;
    } else {
      SnocAppend(url, slashes);
    }
  }
}
