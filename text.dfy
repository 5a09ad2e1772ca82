/** Python string operations the rituals sources rely on (`strip`, `split`,
    `startswith`, `replace`, `'/'.join`), written out over `seq<char>` so that
    the other modules can state exactly which slice of a string they use. */
module Text {

  datatype Option<T> = None | Some(value: T)

  /** The characters for which Python's `str.isspace()` holds: those that
      `str.strip()` removes and `str.split()` splits on. */
  predicate IsSpace(c: char) {
    ('\t' <= c <= '\r') || ('\U{1C}' <= c <= ' ') || c == '\U{85}' || c == '\U{A0}'
    || c == '\U{1680}' || ('\U{2000}' <= c <= '\U{200A}') || c == '\U{2028}'
    || c == '\U{2029}' || c == '\U{202F}' || c == '\U{205F}' || c == '\U{3000}'
  }

  predicate StartsWith(s: string, prefix: string) {
    |prefix| <= |s| && s[..|prefix|] == prefix
  }

  predicate EndsWith(s: string, suffix: string) {
    |suffix| <= |s| && s[|s| - |suffix|..] == suffix
  }

  /** `sub in s` for strings. */
  predicate Contains(s: string, sub: string)
    decreases |s|
  {
    StartsWith(s, sub) || (s != [] && Contains(s[1..], sub))
  }

  /** `s.lstrip()`. */
  function LStrip(s: string): (r: string)
    ensures |r| <= |s| && r == s[|s| - |r|..]
    ensures forall i :: 0 <= i < |s| - |r| ==> IsSpace(s[i])
    ensures r == [] || !IsSpace(r[0])
  {
    if s != [] && IsSpace(s[0]) then LStrip(s[1..]) else s
  }

  /** `s.rstrip()`. */
  function RStrip(s: string): (r: string)
    ensures |r| <= |s| && r == s[..|r|]
    ensures forall i :: |r| <= i < |s| ==> IsSpace(s[i])
    ensures r == [] || !IsSpace(r[|r| - 1])
  {
    if s != [] && IsSpace(s[|s| - 1]) then RStrip(s[..|s| - 1]) else s
  }

  /** `s.strip()`. */
  function Strip(s: string): (r: string)
    ensures |r| <= |s|
    ensures r == [] || (!IsSpace(r[0]) && !IsSpace(r[|r| - 1]))
    ensures s == [] || (!IsSpace(s[0]) && !IsSpace(s[|s| - 1])) ==> r == s
  {
    RStrip(LStrip(s))
  }

  /** Stripping keeps a slice of the string. */
  lemma StripInside(s: string)
    ensures forall c :: c in Strip(s) ==> c in s
  {
    var l := LStrip(s);
    assert forall c :: c in RStrip(l) ==> c in l;
    assert forall c :: c in l ==> c in s;
  }

  /** `s.rstrip(c)` for a single character `c`. */
  function RStripChar(s: string, c: char): (r: string)
    ensures |r| <= |s| && r == s[..|r|]
    ensures forall i :: |r| <= i < |s| ==> s[i] == c
    ensures r == [] || r[|r| - 1] != c
  {
    if s != [] && s[|s| - 1] == c then RStripChar(s[..|s| - 1], c) else s
  }

  /** The index of the first `c` in `s`, or `|s|` when there is none. */
  function IndexOf(s: string, c: char): (i: nat)
    ensures i <= |s|
    ensures i < |s| ==> s[i] == c
    ensures forall j :: 0 <= j < i ==> s[j] != c
  {
    if s == [] then 0 else if s[0] == c then 0 else 1 + IndexOf(s[1..], c)
  }

  /** `sep.join(parts)`. */
  function Join(parts: seq<string>, sep: string): string {
    if |parts| == 0 then ""
    else if |parts| == 1 then parts[0]
    else parts[0] + sep + Join(parts[1..], sep)
  }

  /** `s.split(c)` for a single-character separator: never empty, no piece
      contains `c`, and joining the pieces with `c` gives `s` back. */
  function Split(s: string, c: char): (parts: seq<string>)
    ensures |parts| >= 1
    ensures forall i :: 0 <= i < |parts| ==> c !in parts[i]
    ensures Join(parts, [c]) == s
    decreases |s|
  {
    var i := IndexOf(s, c);
    if i == |s| then [s]
    else
      var rest := Split(s[i + 1..], c);
      assert s == s[..i] + [c] + s[i + 1..];
      [s[..i]] + rest
  }

  /** A text without the separator is one piece. */
  lemma SplitNone(a: string, c: char)
    requires c !in a
    ensures Split(a, c) == [a]
  {
    IndexOfPrefix(a, c, []);
  }

  /** The first separator ends the first piece. */
  lemma SplitAt(a: string, c: char, b: string)
    requires c !in a
    ensures Split(a + [c] + b, c) == [a] + Split(b, c)
  {
    var s := a + [c] + b;
    IndexOfPrefix(a, c, b);
    assert s[..|a|] == a;
    assert s[|a| + 1..] == b;
  }

  /** Every character of a piece is a character of the text. */
  lemma {:induction false} SplitInside(s: string, c: char, i: int)
    requires 0 <= i < |Split(s, c)|
    ensures forall x :: x in Split(s, c)[i] ==> x in s
    decreases |s|
  {
    var j := IndexOf(s, c);
    if j < |s| {
      assert forall x :: x in s[..j] ==> x in s;
      if i > 0 {
        SplitInside(s[j + 1..], c, i - 1);
        assert forall x :: x in s[j + 1..] ==> x in s;
      }
    }
  }

  /** Splitting a join on the same separator gives the pieces back, as long
      as no piece contains the separator. */
  lemma {:induction false} SplitJoin(parts: seq<string>, c: char)
    requires |parts| >= 1
    requires forall i :: 0 <= i < |parts| ==> c !in parts[i]
    ensures Split(Join(parts, [c]), c) == parts
  {
    if |parts| > 1 {
      var rest := Join(parts[1..], [c]);
      assert Join(parts, [c]) == parts[0] + [c] + rest;
      assert c !in parts[0];
      SplitAt(parts[0], c, rest);
      SplitJoin(parts[1..], c);
      assert [parts[0]] + parts[1..] == parts;
    } else {
      assert c !in parts[0];
      SplitNone(parts[0], c);
    }
  }

  /** A string that ends with the separator splits into a last piece that is empty. */
  lemma SplitEndsWithSeparator(s: string, c: char)
    requires s != [] && s[|s| - 1] == c
    ensures Split(s, c)[|Split(s, c)| - 1] == []
  {
    var a := s[..|s| - 1];
    assert s == a + [c] + [];
    SplitAround(a, c, []);
    SplitNone([], c);
  }

  /** A join ends with its last piece. */
  lemma {:induction false} JoinEndsWithLast(parts: seq<string>, sep: string)
    requires |parts| >= 1
    ensures EndsWith(Join(parts, sep), parts[|parts| - 1])
  {
    if |parts| > 1 {
      JoinEndsWithLast(parts[1..], sep);
      var j := Join(parts[1..], sep);
      var s := parts[0] + sep + j;
      assert s[|s| - |j|..] == j;
      assert parts[1..][|parts[1..]| - 1] == parts[|parts| - 1];
    }
  }

  /** The first `c` in `a + [c] + b` is the one after `a` when `a` has none. */
  lemma {:induction false} IndexOfPrefix(a: string, c: char, b: string)
    requires c !in a
    ensures IndexOf(a + [c] + b, c) == |a|
    ensures IndexOf(a, c) == |a|
  {
    if a != [] {
      assert (a + [c] + b)[1..] == a[1..] + [c] + b;
      IndexOfPrefix(a[1..], c, b);
    }
  }

  /** The maximal run of non-space characters at the end of `s`. */
  function TrailingWord(s: string): (w: string)
    ensures |w| <= |s| && w == s[|s| - |w|..]
    ensures forall i :: 0 <= i < |w| ==> !IsSpace(w[i])
    ensures |w| < |s| ==> IsSpace(s[|s| - |w| - 1])
  {
    if s == [] || IsSpace(s[|s| - 1]) then []
    else TrailingWord(s[..|s| - 1]) + [s[|s| - 1]]
  }

  /** `s.split()[-1]`: the last whitespace-separated word, or None where
      Python's `[-1]` raises IndexError because `s` is all whitespace. */
  function LastWord(s: string): (w: Option<string>)
    ensures w.None? <==> forall i :: 0 <= i < |s| ==> IsSpace(s[i])
    ensures w.Some? ==> w.value != [] && forall i :: 0 <= i < |w.value| ==> !IsSpace(w.value[i])
  {
    var t := RStrip(s);
    if t == [] then None
    else
      assert !IsSpace(t[|t| - 1]);
      Some(TrailingWord(t))
  }

  /** Leading blanks go, up to a visible character. */
  lemma {:induction false} LStripBlanks(blanks: string, s: string)
    requires forall i :: 0 <= i < |blanks| ==> IsSpace(blanks[i])
    requires s != [] && !IsSpace(s[0])
    ensures LStrip(blanks + s) == s
  {
    if blanks != [] {
      assert (blanks + s)[1..] == blanks[1..] + s;
      LStripBlanks(blanks[1..], s);
    } else {
      assert blanks + s == s;
    }
  }

  /** A run of `c` at the end goes, up to another character. */
  lemma {:induction false} RStripCharRun(s: string, c: char, run: string)
    requires s == [] || s[|s| - 1] != c
    requires forall i :: 0 <= i < |run| ==> run[i] == c
    ensures RStripChar(s + run, c) == s
  {
    if run == [] {
      assert s + run == s;
    } else {
      var r := run[..|run| - 1];
      assert (s + run)[..|s + run| - 1] == s + r;
      RStripCharRun(s, c, r);
    }
  }

  /** A word after a space (or at the start) and before blanks is the
      last word. */
  lemma {:induction false} LastWordOf(a: string, w: string, tail: string)
    requires w != [] && forall i :: 0 <= i < |w| ==> !IsSpace(w[i])
    requires a == [] || IsSpace(a[|a| - 1])
    requires forall i :: 0 <= i < |tail| ==> IsSpace(tail[i])
    ensures LastWord(a + w + tail) == Some(w)
  {
    RStripBlanks(a + w, tail);
    TrailingWordOf(a, w);
  }

  lemma {:induction false} RStripBlanks(s: string, tail: string)
    requires s != [] && !IsSpace(s[|s| - 1])
    requires forall i :: 0 <= i < |tail| ==> IsSpace(tail[i])
    ensures RStrip(s + tail) == s
  {
    if tail == [] {
      assert s + tail == s;
    } else {
      var t := tail[..|tail| - 1];
      SnocAppend(s, tail);
      RStripBlanks(s, t);
    }
  }

  lemma {:induction false} TrailingWordOf(a: string, w: string)
    requires forall i :: 0 <= i < |w| ==> !IsSpace(w[i])
    requires a == [] || IsSpace(a[|a| - 1])
    ensures TrailingWord(a + w) == w
  {
    if w == [] {
      assert a + w == a;
    } else {
      var v := w[..|w| - 1];
      SnocAppend(a, w);
      TrailingWordOf(a, v);
    }
  }

  /** `s.replace(pat, rep)`: left to right, non-overlapping occurrences. */
  function ReplaceAll(s: string, pat: string, rep: string): (r: string)
    requires pat != []
    ensures !Contains(s, pat) ==> r == s
    decreases |s|
  {
    if StartsWith(s, pat) then rep + ReplaceAll(s[|pat|..], pat, rep)
    else if s == [] then []
    else [s[0]] + ReplaceAll(s[1..], pat, rep)
  }

  /** The first occurrence is replaced, the text before it is kept, and the
      replacement goes on after the occurrence. */
  lemma ReplaceAllFirst(s: string, pat: string, rep: string, i: nat)
    requires pat != [] && i <= |s| && StartsWith(s[i..], pat)
    requires forall j :: 0 <= j < i ==> !StartsWith(s[j..], pat)
    ensures ReplaceAll(s, pat, rep) == s[..i] + rep + ReplaceAll(s[i + |pat|..], pat, rep)
  {
    assert NoneBetween(s, pat, 0, i);
    ReplaceAllFrom(s, pat, rep, 0, i);
    assert s[0..] == s && s[0..i] == s[..i];
  }

  /** The same from position `k` on, where no occurrence starts between `k` and `i`. */
  lemma {:induction false} ReplaceAllFrom(s: string, pat: string, rep: string, k: nat, i: nat)
    requires pat != [] && k <= i <= |s| && StartsWith(s[i..], pat)
    requires NoneBetween(s, pat, k, i)
    ensures ReplaceAll(s[k..], pat, rep) == s[k..i] + rep + ReplaceAll(s[i + |pat|..], pat, rep)
    decreases i - k
  {
    if k == i {
      ReplaceAllHere(s, pat, rep, i);
    } else {
      NoneBetweenNext(s, pat, k, i);
      ReplaceAllFrom(s, pat, rep, k + 1, i);
      ReplaceAllStep(s, pat, rep, k, i, ReplaceAll(s[i + |pat|..], pat, rep));
    }
  }

  lemma ReplaceAllHere(s: string, pat: string, rep: string, i: nat)
    requires pat != [] && i <= |s| && StartsWith(s[i..], pat)
    ensures ReplaceAll(s[i..], pat, rep) == s[i..i] + rep + ReplaceAll(s[i + |pat|..], pat, rep)
  {
    var t, u := s[i..], s[i + |pat|..];
    assert t[|pat|..] == u;
    ReplaceAllAt(t, pat, rep);
    assert ReplaceAll(t[|pat|..], pat, rep) == ReplaceAll(u, pat, rep);
    assert s[i..i] + rep == rep;
  }

  /** No occurrence of `pat` starts at a position from `k` up to before `i`. */
  predicate NoneBetween(s: string, pat: string, k: nat, i: nat)
    requires i <= |s|
  {
    forall j {:trigger StartsWith(s[j..], pat)} :: k <= j < i ==> !StartsWith(s[j..], pat)
  }

  lemma NoneBetweenNext(s: string, pat: string, k: nat, i: nat)
    requires k < i <= |s| && NoneBetween(s, pat, k, i)
    ensures !StartsWith(s[k..], pat) && NoneBetween(s, pat, k + 1, i)
  {
  }

  lemma ReplaceAllStep(s: string, pat: string, rep: string, k: nat, i: nat, after: string)
    requires pat != [] && k < i <= |s| && !StartsWith(s[k..], pat)
    requires ReplaceAll(s[k + 1..], pat, rep) == s[k + 1..i] + rep + after
    ensures ReplaceAll(s[k..], pat, rep) == s[k..i] + rep + after
  {
    DropOne(s, k, i);
    ReplaceAllShift(s[k..], pat, rep, s[k + 1..i], after);
  }

  /** Where the pattern starts, it is replaced and the rest follows. */
  lemma ReplaceAllAt(s: string, pat: string, rep: string)
    requires pat != [] && StartsWith(s, pat)
    ensures ReplaceAll(s, pat, rep) == rep + ReplaceAll(s[|pat|..], pat, rep)
  {
  }

  lemma DropOne(s: string, k: nat, i: nat)
    requires k < i <= |s|
    ensures s[k..][1..] == s[k + 1..] && s[k..][0] == s[k]
    ensures s[k..i] == [s[k]] + s[k + 1..i]
  {
  }

  /** Where the pattern does not start, the first character is kept and the
      replacement goes on one character later. */
  lemma ReplaceAllShift(s: string, pat: string, rep: string, x: string, y: string)
    requires pat != [] && s != [] && !StartsWith(s, pat)
    requires ReplaceAll(s[1..], pat, rep) == x + rep + y
    ensures ReplaceAll(s, pat, rep) == [s[0]] + x + rep + y
  {
    ReplaceAllSkip(s, pat, rep);
  }

  /** Where the pattern does not start, the first character is kept. */
  lemma ReplaceAllSkip(s: string, pat: string, rep: string)
    requires pat != [] && s != [] && !StartsWith(s, pat)
    ensures ReplaceAll(s, pat, rep) == [s[0]] + ReplaceAll(s[1..], pat, rep)
  {
  }

  /** Splitting at one separator splits the two sides independently. */
  lemma SplitAround(a: string, c: char, b: string)
    ensures Split(a + [c] + b, c) == Split(a, c) + Split(b, c)
  {
    var p := Split(a, c);
    var q := Split(b, c);
    JoinConcat(p, q, [c]);
    FreeOfConcat(p, q, c);
    SplitJoin(p + q, c);
  }

  /** Pieces without `c`, from two lists of pieces without `c`. */
  lemma FreeOfConcat(p: seq<string>, q: seq<string>, c: char)
    requires forall i :: 0 <= i < |p| ==> c !in p[i]
    requires forall i :: 0 <= i < |q| ==> c !in q[i]
    ensures forall i :: 0 <= i < |p + q| ==> c !in (p + q)[i]
  {
    forall i | 0 <= i < |p + q| ensures c !in (p + q)[i] {
      if i < |p| { assert (p + q)[i] == p[i]; } else { assert (p + q)[i] == q[i - |p|]; }
    }
  }

  /** Joining two non-empty lists of pieces puts one separator between them. */
  lemma {:induction false} JoinConcat(p: seq<string>, q: seq<string>, sep: string)
    requires |p| >= 1 && |q| >= 1
    ensures Join(p + q, sep) == Join(p, sep) + sep + Join(q, sep)
  {
    if |p| == 1 {
      assert (p + q)[1..] == q;
    } else {
      assert (p + q)[1..] == p[1..] + q;
      JoinConcat(p[1..], q, sep);
    }
  }

  /** A first occurrence found in a prefix is the first occurrence of the whole. */
  lemma {:induction false} IndexOfAppend(a: string, b: string, c: char)
    requires IndexOf(a, c) < |a|
    ensures IndexOf(a + b, c) == IndexOf(a, c)
  {
    if a[0] != c {
      assert (a + b)[1..] == a[1..] + b;
      IndexOfAppend(a[1..], b, c);
    }
  }

  /** The text after the last `/` (`os.path.basename`). */
  function BaseName(p: string): (b: string)
    ensures |b| <= |p| && b == p[|p| - |b|..]
    ensures '/' !in b
    ensures |b| < |p| ==> p[|p| - |b| - 1] == '/'
  {
    if p == [] then []
    else if p[|p| - 1] == '/' then []
    else BaseName(p[..|p| - 1]) + [p[|p| - 1]]
  }

  /** A base name keeps a suffix of the path that holds no `/`. */
  lemma BaseNameKeepsSuffix(p: string, ext: string)
    requires EndsWith(p, ext) && '/' !in ext
    ensures EndsWith(BaseName(p), ext)
  {
    var b := BaseName(p);
    var n := |p| - |ext|;
    assert forall j :: n <= j < |p| ==> p[j] != '/' by {
      forall j | n <= j < |p| ensures p[j] != '/' {
        assert p[j] == p[n..][j - n];
      }
    }
    assert |b| >= |ext|;
    assert b[|b| - |ext|..] == p[n..];
  }

  /** A suffix survives a prefix. */
  lemma EndsWithAfter(pre: string, s: string, ext: string)
    requires EndsWith(s, ext)
    ensures EndsWith(pre + s, ext)
  {
    assert (pre + s)[|pre + s| - |ext|..] == s[|s| - |ext|..];
  }

  /** `s.replace(a, b)` for single characters. */
  function ReplaceChar(s: string, a: char, b: char): (r: string)
    ensures |r| == |s|
    ensures forall i :: 0 <= i < |s| ==> r[i] == if s[i] == a then b else s[i]
  {
    if s == [] then [] else [if s[0] == a then b else s[0]] + ReplaceChar(s[1..], a, b)
  }

  // Sequence algebra for any element type: cheaper for the solver than the
  // same equalities on strings or token lists.

  lemma ConsAppend<T>(a: seq<T>, b: seq<T>)
    requires a != []
    ensures a + b == [a[0]] + (a[1..] + b) && [a[0]] + a[1..] == a
  {
  }

  lemma Assoc<T>(x: seq<T>, y: seq<T>, z: seq<T>)
    ensures x + (y + z) == (x + y) + z
  {
  }

  lemma SnocAppend<T>(a: seq<T>, w: seq<T>)
    requires w != []
    ensures (a + w)[..|a + w| - 1] == a + w[..|w| - 1]
    ensures (a + w)[|a + w| - 1] == w[|w| - 1]
    ensures w[..|w| - 1] + [w[|w| - 1]] == w
  {
  }

  lemma AppendSplit<T>(a: seq<T>, b: seq<T>)
    ensures (a + b)[..|a|] == a && (a + b)[|a|..] == b && |a + b| == |a| + |b|
  {
  }

  lemma Around<T>(a: seq<T>, m: seq<T>, b: seq<T>)
    ensures (a + m + b)[..|a|] == a && (a + m + b)[|a| + |m|..] == b
  {
    assert a + m + b == a + (m + b);
  }

  lemma InConcat<T>(a: seq<T>, b: seq<T>, x: T)
    ensures x in a + b <==> x in a || x in b
  {
  }

  lemma ConsTail<T>(x: T, a: seq<T>, b: seq<T>)
    ensures ([x] + a) + b == [x] + (a + b) && ([x] + (a + b))[1..] == a + b
  {
  }

  lemma Middle<T>(a: seq<T>, x: T, b: seq<T>)
    ensures |a + [x] + b| == |a| + 1 + |b| && (a + [x] + b)[|a|] == x
    ensures forall j :: 0 <= j < |a| ==> (a + [x] + b)[j] == a[j]
  {
  }

  /** The first `c` is where `c` stands after a text without one. */
  lemma IndexOfAt(s: string, c: char, k: nat)
    requires k < |s| && s[k] == c
    requires forall j :: 0 <= j < k ==> s[j] != c
    ensures IndexOf(s, c) == k
  {
  }

  lemma CutAt<T>(s: seq<T>, k: nat)
    requires k < |s|
    ensures s == s[..k] + ([s[k]] + s[k + 1..])
  {
    assert s == s[..k] + s[k..];
  }

  lemma Substitute<T>(v: seq<T>, pre: seq<T>, t: seq<T>, b1: seq<T>, u: seq<T>, key: seq<T>, b2: seq<T>)
    requires v == pre + t && t == b1 + u && u == key + b2
    ensures v == pre + (b1 + (key + b2))
  {
  }
}
