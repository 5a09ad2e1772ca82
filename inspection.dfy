/** The `pylint` task of `rituals.acts.inspection`: the set of names to
    check, the command line built from them, and the reaction to the bit
    flags of pylint's return code. Paths are POSIX paths (`os.sep` is `/`). */
module Inspection {
  import opened Text

  // ---------------------------------------------------------------------
  // The names to check

  /** The loops that fill `namelist`: packages without a `.` through
      `srcjoin`, every module with `.py` appended, the test modules through
      `testjoin` unless skipped, and the root scripts unless skipped. The
      globs that list the test modules and the root scripts are inputs. */
  method NameList(packages: seq<string>, pyModules: seq<string>, srcjoin: string -> string,
                  skipTests: bool, testPy: seq<string>, testjoin: string -> string,
                  skipRoot: bool, rootPy: seq<string>)
    returns (names: set<string>)
    ensures forall x :: x in names <==>
      (exists p :: p in packages && '.' !in p && x == srcjoin(p)) ||
      (exists m :: m in pyModules && x == m + ".py") ||
      (!skipTests && exists t :: t in testPy && x == testjoin(t)) ||
      (!skipRoot && x in rootPy)
  {
    names := {};
    for i := 0 to |packages|
      invariant forall x :: x in names <==>
        exists p :: p in packages[..i] && '.' !in p && x == srcjoin(p)
    {
      assert packages[..i + 1] == packages[..i] + [packages[i]];
      if '.' !in packages[i] {
        names := names + {srcjoin(packages[i])};
      }
    }
    assert packages[..|packages|] == packages;
    ghost var fromPackages := names;
    for i := 0 to |pyModules|
      invariant forall x :: x in fromPackages <==>
        exists p :: p in packages && '.' !in p && x == srcjoin(p)
      invariant forall x :: x in names <==>
        x in fromPackages || exists m :: m in pyModules[..i] && x == m + ".py"
    {
      assert pyModules[..i + 1] == pyModules[..i] + [pyModules[i]];
      names := names + {pyModules[i] + ".py"};
    }
    assert pyModules[..|pyModules|] == pyModules;
    if !skipTests {
      var tests := set t | t in testPy :: testjoin(t);
      assert forall t :: t in testPy ==> testjoin(t) in tests;
      assert forall x :: x in tests <==> exists t :: t in testPy && x == testjoin(t);
      if tests != {} {
        names := names + tests;
      }
    }
    if !skipRoot {
      var roots := set r | r in rootPy;
      assert forall r :: r in rootPy <==> r in roots;
      if roots != {} {
        names := names + roots;
      }
    }
  }

  /** A name below the working directory loses that prefix and its
      separator; every other name is kept. */
  function Relativize(name: string, cwd: string): (r: string)
    ensures StartsWith(name, cwd + "/") ==> name == cwd + "/" + r
    ensures !StartsWith(name, cwd + "/") ==> r == name
  {
    if StartsWith(name, cwd + "/") then
      var r := name[|cwd| + 1..];
      assert name == name[..|cwd| + 1] + r;
      r
    else name
  }

  /** A character missing from a name is missing from its relative name. */
  lemma RelativizeKeeps(name: string, cwd: string, c: char)
    requires c !in name
    ensures c !in Relativize(name, cwd)
  {
    if StartsWith(name, cwd + "/") {
      var r := Relativize(name, cwd);
      assert forall k :: 0 <= k < |r| ==> r[k] == name[|cwd| + 1 + k];
    }
  }

  /** The relative name of a path below the working directory. */
  lemma RelativizeBelow(cwd: string, rel: string)
    ensures Relativize(cwd + "/" + rel, cwd) == rel
  {
    var name := cwd + "/" + rel;
    assert name[..|cwd + "/"|] == cwd + "/";
  }

  // ---------------------------------------------------------------------
  // `sorted` on strings

  /** Python's `<` on strings: code point by code point, a proper prefix
      before the longer string. */
  predicate Below(a: string, b: string)
    decreases |a|
  {
    b != [] && (a == [] || a[0] < b[0] || (a[0] == b[0] && Below(a[1..], b[1..])))
  }

  lemma {:induction false} BelowIrreflexive(a: string)
    ensures !Below(a, a)
    decreases |a|
  {
    if a != [] {
      BelowIrreflexive(a[1..]);
    }
  }

  lemma {:induction false} BelowTransitive(a: string, b: string, c: string)
    requires Below(a, b) && Below(b, c)
    ensures Below(a, c)
    decreases |a|
  {
    if a != [] && a[0] == b[0] && b[0] == c[0] {
      BelowTransitive(a[1..], b[1..], c[1..]);
    }
  }

  lemma {:induction false} BelowTotal(a: string, b: string)
    ensures a == b || Below(a, b) || Below(b, a)
    decreases |a|
  {
    if a != [] && b != [] && a[0] == b[0] {
      BelowTotal(a[1..], b[1..]);
      if a[1..] == b[1..] {
        assert a == [a[0]] + a[1..] && b == [b[0]] + b[1..];
      }
    }
  }

  lemma BelowAsymmetric(a: string, b: string)
    requires Below(a, b)
    ensures !Below(b, a)
  {
    if Below(b, a) {
      BelowTransitive(a, b, a);
      BelowIrreflexive(a);
    }
  }

  /** `m` is the smallest string of `s`. */
  predicate IsLeast(m: string, s: set<string>) {
    m in s && forall x :: x in s && x != m ==> Below(m, x)
  }

  lemma {:induction false} LeastExists(s: set<string>)
    requires s != {}
    ensures exists m :: IsLeast(m, s)
    decreases |s|
  {
    var y :| y in s;
    if s - {y} == {} {
      assert s == {y};
      assert IsLeast(y, s);
    } else {
      LeastExists(s - {y});
      var m :| IsLeast(m, s - {y});
      BelowTotal(m, y);
      if Below(m, y) {
        assert IsLeast(m, s);
      } else {
        forall x | x in s && x != y
          ensures Below(y, x)
        {
          if x != m {
            BelowTransitive(y, m, x);
          }
        }
        assert IsLeast(y, s);
      }
    }
  }

  lemma LeastUnique(m: string, n: string, s: set<string>)
    requires IsLeast(m, s) && IsLeast(n, s)
    ensures m == n
  {
    if m != n {
      BelowAsymmetric(m, n);
    }
  }

  predicate StrictlySorted(xs: seq<string>) {
    forall i, j :: 0 <= i < j < |xs| ==> Below(xs[i], xs[j])
  }

  /** The smallest string of a non-empty set. */
  function Least(s: set<string>): (m: string)
    requires s != {}
    ensures IsLeast(m, s)
  {
    LeastExists(s);
    assert forall a, b :: IsLeast(a, s) && IsLeast(b, s) ==> a == b by {
      forall a, b | IsLeast(a, s) && IsLeast(b, s)
        ensures a == b
      {
        LeastUnique(a, b, s);
      }
    }
    var m :| m in s && IsLeast(m, s);
    m
  }

  /** `sorted(s)` for a set of strings: its elements in increasing order,
      each once. */
  function SortSet(s: set<string>): (xs: seq<string>)
    ensures StrictlySorted(xs)
    ensures forall x :: x in xs <==> x in s
    ensures |xs| == |s|
    decreases |s|
  {
    if s == {} then []
    else
      var m := Least(s);
      var rest := SortSet(s - {m});
      assert forall x :: x in [m] + rest <==> x in s by {
        forall x
          ensures x in [m] + rest <==> x in s
        {
          assert x in [m] + rest <==> x == m || x in rest;
          assert x in rest <==> x in s - {m};
        }
      }
      [m] + rest
  }

  /** There is only one sorted list of a set's elements, so `SortSet` is
      the one Python's `sorted` returns. */
  lemma {:induction false} SortedUnique(xs: seq<string>, ys: seq<string>)
    requires StrictlySorted(xs) && StrictlySorted(ys)
    requires forall x :: x in xs <==> x in ys
    ensures xs == ys
    decreases |xs|
  {
    if xs != [] && ys != [] {
      if xs[0] != ys[0] {
        assert ys[0] in xs;
        var i :| 0 <= i < |xs| && xs[i] == ys[0];
        assert xs[0] in ys;
        var j :| 0 <= j < |ys| && ys[j] == xs[0];
        assert Below(xs[0], ys[0]);
        assert Below(ys[0], xs[0]);
        BelowAsymmetric(xs[0], ys[0]);
      }
      forall x
        ensures x in xs[1..] <==> x in ys[1..]
      {
        BelowIrreflexive(x);
        if x in xs[1..] {
          var i :| 0 <= i < |xs[1..]| && xs[1..][i] == x;
          assert Below(xs[0], xs[i + 1]);
          assert x in ys;
          var j :| 0 <= j < |ys| && ys[j] == x;
          assert j != 0;
          assert ys[1..][j - 1] == x;
        }
        if x in ys[1..] {
          var j :| 0 <= j < |ys[1..]| && ys[1..][j] == x;
          assert Below(ys[0], ys[j + 1]);
          assert x in xs;
          var i :| 0 <= i < |xs| && xs[i] == x;
          assert i != 0;
          assert xs[1..][i - 1] == x;
        }
      }
      SortedUnique(xs[1..], ys[1..]);
      assert xs == [xs[0]] + xs[1..] && ys == [ys[0]] + ys[1..];
    } else if xs != [] {
      HeadIn(xs);
      assert false;
    } else if ys != [] {
      HeadIn(ys);
      assert false;
    }
  }

  lemma HeadIn(xs: seq<string>)
    requires xs != []
    ensures xs[0] in xs
  {
  }

  // ---------------------------------------------------------------------
  // The command line

  const Quote := '"'

  /** The config files looked for, in this order. */
  const RcFiles: seq<string> := [".pylintrc", "pylint.rc", "pylint.cfg", "project.d/pylint.cfg"]

  /** The loop over the config files: the first one that exists, if any. */
  method FindRcFile(present: string -> bool) returns (rc: Option<string>)
    ensures rc.None? <==> forall i :: 0 <= i < |RcFiles| ==> !present(RcFiles[i])
    ensures rc.Some? ==> exists i :: (0 <= i < |RcFiles| && RcFiles[i] == rc.value &&
      present(rc.value) && forall j :: 0 <= j < i ==> !present(RcFiles[j]))
  {
    for i := 0 to |RcFiles|
      invariant forall j :: 0 <= j < i ==> !present(RcFiles[j])
    {
      if present(RcFiles[i]) {
        return Some(RcFiles[i]);
      }
    }
    return None;
  }

  /** What follows the names: `--reports=y` or `--reports=n`, then the
      config file when one was found. */
  function Options(reports: bool, rc: Option<string>): string {
    " --reports=" + [if reports then 'y' else 'n'] + (if rc.Some? then " --rcfile=" + rc.value else "")
  }

  /** `pylint "a" "b" …` and the options, for names already sorted. */
  function Command(names: seq<string>, reports: bool, rc: Option<string>): string {
    "pylint " + ([Quote] + (Join(names, [Quote, ' ', Quote]) + ([Quote] + Options(reports, rc))))
  }

  /** The command of the task: the relative names, sorted. */
  function PylintCommand(names: set<string>, cwd: string, reports: bool, rc: Option<string>): string {
    Command(SortSet(set x | x in names :: Relativize(x, cwd)), reports, rc)
  }

  /** The pieces between the double quotes around the names: each name,
      with a blank piece between two of them; one empty piece for none. */
  function Fields(names: seq<string>): (f: seq<string>)
    ensures |f| == if names == [] then 1 else 2 * |names| - 1
    ensures forall i :: 0 <= i < |names| ==> f[2 * i] == names[i]
    ensures forall i :: 0 <= i < |names| - 1 ==> f[2 * i + 1] == " "
  {
    if |names| <= 1 then (if names == [] then [""] else names)
    else
      var g := Fields(names[1..]);
      var f := [names[0], " "] + g;
      assert forall i :: 1 <= i < |names| ==> f[2 * i] == names[i] by {
        forall i | 1 <= i < |names|
          ensures f[2 * i] == names[i]
        {
          assert f[2 * i] == g[2 * (i - 1)];
          assert g[2 * (i - 1)] == names[1..][i - 1];
        }
      }
      assert forall i :: 1 <= i < |names| - 1 ==> f[2 * i + 1] == " " by {
        forall i | 1 <= i < |names| - 1
          ensures f[2 * i + 1] == " "
        {
          assert f[2 * i + 1] == g[2 * (i - 1) + 1];
        }
      }
      f
  }

  lemma {:induction false} FieldsJoin(names: seq<string>)
    ensures Join(Fields(names), [Quote]) == Join(names, [Quote, ' ', Quote])
  {
    if |names| >= 2 {
      FieldsJoin(names[1..]);
      JoinConcat([names[0], " "], Fields(names[1..]), [Quote]);
      assert [names[0], " "][1..] == [" "];
    }
  }

  lemma FieldsUnquoted(names: seq<string>)
    requires forall i :: 0 <= i < |names| ==> Quote !in names[i]
    ensures forall i :: 0 <= i < |Fields(names)| ==> Quote !in Fields(names)[i]
  {
    var f := Fields(names);
    forall i | 0 <= i < |f|
      ensures Quote !in f[i]
    {
      if names == [] {
      } else if i % 2 == 0 {
        assert f[2 * (i / 2)] == names[i / 2];
      } else {
        assert f[2 * (i / 2) + 1] == " ";
      }
    }
  }

  lemma CommandJoin(names: seq<string>, reports: bool, rc: Option<string>)
    ensures Command(names, reports, rc) == Join(["pylint "] + Fields(names) + [Options(reports, rc)], [Quote])
  {
    var o := Options(reports, rc);
    var f := Fields(names);
    FieldsJoin(names);
    JoinConcat(f, [o], [Quote]);
    JoinConcat(["pylint "], f + [o], [Quote]);
    Assoc(["pylint "], f, [o]);
    Assoc([Quote], Join(names, [Quote, ' ', Quote]), [Quote] + o);
  }

  /** Splitting the command at its double quotes gives back `pylint `,
      every name in order and the options: the command quotes each name,
      as long as no name holds a double quote itself. */
  lemma CommandSplit(names: seq<string>, reports: bool, rc: Option<string>)
    requires forall i :: 0 <= i < |names| ==> Quote !in names[i]
    requires rc.Some? ==> Quote !in rc.value
    ensures Split(Command(names, reports, rc), Quote) == ["pylint "] + Fields(names) + [Options(reports, rc)]
  {
    var parts := ["pylint "] + Fields(names) + [Options(reports, rc)];
    CommandJoin(names, reports, rc);
    PartsUnquoted(names, reports, rc);
    SplitJoin(parts, Quote);
  }

  lemma PartsUnquoted(names: seq<string>, reports: bool, rc: Option<string>)
    requires forall i :: 0 <= i < |names| ==> Quote !in names[i]
    requires rc.Some? ==> Quote !in rc.value
    ensures var parts := ["pylint "] + Fields(names) + [Options(reports, rc)];
      forall i :: 0 <= i < |parts| ==> Quote !in parts[i]
  {
    var f := Fields(names);
    var o := Options(reports, rc);
    FieldsUnquoted(names);
    OptionsUnquoted(reports, rc);
    FreeOfConcat(["pylint "], f, Quote);
    FreeOfConcat(["pylint "] + f, [o], Quote);
  }

  lemma OptionsUnquoted(reports: bool, rc: Option<string>)
    requires rc.Some? ==> Quote !in rc.value
    ensures Quote !in Options(reports, rc)
  {
  }

  /** The report option says `y` exactly when reports are asked for. */
  lemma ReportsOption(reports: bool, rc: Option<string>)
    ensures StartsWith(Options(reports, rc), " --reports=y") <==> reports
    ensures StartsWith(Options(reports, rc), " --reports=n") <==> !reports
    ensures rc.None? ==> |Options(reports, rc)| == 12
    ensures rc.Some? ==> Options(reports, rc)[12..] == " --rcfile=" + rc.value
  {
    var head := " --reports=" + [if reports then 'y' else 'n'];
    var tail := if rc.Some? then " --rcfile=" + rc.value else "";
    AppendSplit(head, tail);
    assert " --reports=" + ['y'] == " --reports=y" && " --reports=" + ['n'] == " --reports=n";
  }

  /** The names of the task's command: the relative names, sorted, each
      between double quotes. */
  lemma PylintNames(names: set<string>, cwd: string, reports: bool, rc: Option<string>)
    requires forall x :: x in names ==> Quote !in x
    requires rc.Some? ==> Quote !in rc.value
    ensures var quoted := SortSet(set x | x in names :: Relativize(x, cwd));
      Split(PylintCommand(names, cwd, reports, rc), Quote) == ["pylint "] + Fields(quoted) + [Options(reports, rc)] &&
      StrictlySorted(quoted) &&
      forall y :: y in quoted <==> exists x :: x in names && y == Relativize(x, cwd)
  {
    var rel := set x | x in names :: Relativize(x, cwd);
    var quoted := SortSet(rel);
    forall i | 0 <= i < |quoted|
      ensures Quote !in quoted[i]
    {
      assert quoted[i] in rel;
      var x :| x in names && quoted[i] == Relativize(x, cwd);
      RelativizeKeeps(x, cwd, Quote);
    }
    CommandSplit(quoted, reports, rc);
  }

  // ---------------------------------------------------------------------
  // The return code

  /** `rc & b` is not zero, for a power of two `b`: bits of Python's
      unbounded two's complement, which floor division exposes. */
  predicate Bit(rc: int, b: nat)
    requires b > 0
  {
    (rc / b) % 2 == 1
  }

  /** `rc & 3` is not zero exactly when the fatal or the error bit is set. */
  lemma LowBits(rc: int)
    ensures rc % 4 != 0 <==> Bit(rc, 1) || Bit(rc, 2)
  {
    var k := rc / 4;
    var r := rc % 4;
    assert rc == 4 * k + r;
    assert rc / 2 == 2 * k + r / 2;
    assert rc % 2 == r % 2;
    assert (rc / 2) % 2 == r / 2;
  }

  /** The message kinds of the bit table, in the table's order. */
  const BitNames: seq<(nat, string)> :=
    [(1, "fatal"), (2, "error"), (4, "warning"), (8, "refactor"), (16, "convention")]

  /** The comprehension over the bit table: the names of the set bits. */
  function SetBits(rc: int, table: seq<(nat, string)>): (ks: seq<string>)
    requires forall i :: 0 <= i < |table| ==> table[i].0 > 0
    ensures |ks| <= |table|
    ensures forall k :: k in ks <==> exists i :: 0 <= i < |table| && table[i].1 == k && Bit(rc, table[i].0)
  {
    if table == [] then []
    else
      var rest := SetBits(rc, table[1..]);
      assert forall i :: 1 <= i < |table| ==> table[i] == table[1..][i - 1];
      (if Bit(rc, table[0].0) then [table[0].1] else []) + rest
  }

  /** How the task ends for a return code. */
  datatype Reaction =
    | Passed                                   // rc 0: no Failure is raised
    | UsageError                               // reported, then re-raised
    | Messages(kinds: seq<string>, reraise: bool)

  /** The `except Failure` branch, decoded from the return code. */
  function React(rc: int): (r: Reaction)
    ensures r.Passed? <==> rc == 0
    ensures r.UsageError? <==> rc != 0 && Bit(rc, 32)
    ensures r.Messages? ==> (r.reraise <==> Bit(rc, 1) || Bit(rc, 2))
    ensures r.Messages? ==>
      forall i :: 0 <= i < |BitNames| ==> (BitNames[i].1 in r.kinds <==> Bit(rc, BitNames[i].0))
  {
    if rc == 0 then Passed
    else if Bit(rc, 32) then UsageError
    else
      LowBits(rc);
      Messages(SetBits(rc, BitNames), rc % 4 != 0)
  }

  /** A failure is passed on exactly when the warning names `fatal` or
      `error`; warnings, refactorings and conventions alone are swallowed. */
  lemma ReraiseIfSevere(rc: int)
    requires React(rc).Messages?
    ensures React(rc).reraise <==> "fatal" in React(rc).kinds || "error" in React(rc).kinds
  {
    var r := React(rc);
    assert BitNames[0].1 == "fatal" && BitNames[1].1 == "error";
    assert BitNames[0].0 == 1 && BitNames[1].0 == 2;
  }

  /** The usage bit wins over every other bit. */
  lemma UsageWins(rc: int, low: int)
    requires 0 <= low < 32
    ensures React(64 * rc + 32 + low) == UsageError
  {
    UsageBit(rc, low);
  }

  lemma UsageBit(rc: int, low: int)
    requires 0 <= low < 32
    ensures 64 * rc + 32 + low != 0 && Bit(64 * rc + 32 + low, 32)
  {
    var q := 2 * rc + 1;
    var c := 64 * rc + 32 + low;
    assert c == 32 * q + low;
    assert c / 32 == q;
    assert q % 2 == 1;
  }
}
