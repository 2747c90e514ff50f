/**
 * The target-list loader: the configured course titles, one per line, are
 * stripped and upper-cased; duplicates and empty entries are dropped and the
 * rest is sorted. A file that cannot be read gives the empty list.
 */
module TargetCourses {
  import opened Options
  import opened Text

  /** line.strip().upper() */
  function Normalise(line: string): (r: string)
    ensures HasNoOuterSpace(r)
    ensures |r| <= |line|
  {
    var s := Strip(line);
    var r := Upper(s);
    assert r != [] ==> r[0] == ToUpper(s[0]) && r[|r| - 1] == ToUpper(s[|s| - 1]);
    r
  }

  /** Normalising a normalised entry changes nothing. */
  lemma NormaliseIdempotent(line: string)
    ensures Normalise(Normalise(line)) == Normalise(line)
  {
    var n := Normalise(line);
    StripFixed(n);
    assert Upper(n) == n by {
      assert forall i :: 0 <= i < |n| ==> ToUpper(n[i]) == n[i];
    }
  }

  /** Every element is below every later one: sorted and without duplicates. */
  predicate StrictlyAscending(s: seq<string>) {
    forall i, j :: 0 <= i < j < |s| ==> LexLess(s[i], s[j])
  }

  /** The entries the file stands for: the non-empty normalised lines; a read
      failure stands for none. */
  ghost function TargetSet(file: Option<seq<string>>): (targets: set<string>)
  {
    match file
    case None => {}
    case Some(lines) => set l | l in lines && Normalise(l) != "" :: Normalise(l)
  }

  /** Putting `x` between the entries below it and those above it keeps a
      list ascending. */
  lemma InsertAscending(r: seq<string>, x: string, p: nat)
    requires StrictlyAscending(r) && p <= |r|
    requires forall k :: 0 <= k < p ==> LexLess(r[k], x)
    requires forall k :: p <= k < |r| ==> LexLess(x, r[k])
    ensures StrictlyAscending(r[..p] + [x] + r[p..])
  {
    var out := r[..p] + [x] + r[p..];
    assert forall k :: 0 <= k < p ==> out[k] == r[k];
    assert out[p] == x;
    assert forall k :: p < k < |out| ==> out[k] == r[k - 1];
    forall i, j | 0 <= i < j < |out| ensures LexLess(out[i], out[j]) {
      if j < p {
        assert LexLess(r[i], r[j]);
      } else if j == p {
      } else if i < p {
        assert LexLess(r[i], r[j - 1]);
      } else if i == p {
      } else {
        assert LexLess(r[i - 1], r[j - 1]);
      }
    }
  }

  /** The list comprehension of stripped, upper-cased lines. */
  function NormaliseAll(lines: seq<string>): (r: seq<string>)
    ensures |r| == |lines|
    ensures forall i :: 0 <= i < |lines| ==> r[i] == Normalise(lines[i])
  {
    seq(|lines|, i requires 0 <= i < |lines| => Normalise(lines[i]))
  }

  lemma NormalisedTargets(lines: seq<string>)
    ensures (set c | c in NormaliseAll(lines) && c != "") == TargetSet(Some(lines))
  {
    var contents := NormaliseAll(lines);
    forall c ensures c in contents && c != "" <==> c in TargetSet(Some(lines)) {
      if c in contents && c != "" {
        var i :| 0 <= i < |contents| && contents[i] == c;
        assert lines[i] in lines;
      }
      if c in TargetSet(Some(lines)) {
        var l :| l in lines && Normalise(l) != "" && Normalise(l) == c;
        var i :| 0 <= i < |lines| && lines[i] == l;
        assert contents[i] == c;
      }
    }
  }

  /** Inserts `x` into an ascending list that lacks it. */
  method InsertSorted(r: seq<string>, x: string) returns (out: seq<string>)
    requires StrictlyAscending(r) && x !in r
    ensures StrictlyAscending(out)
    ensures forall y :: y in out <==> y in r || y == x
    ensures |out| == |r| + 1
  {
    var p := |r|;
    while p > 0 && LexLess(x, r[p - 1])
      invariant 0 <= p <= |r|
      invariant forall k :: p <= k < |r| ==> LexLess(x, r[k])
    {
      p := p - 1;
    }
    if p > 0 {
      LexTotal(x, r[p - 1]);
      forall k | 0 <= k < p - 1 ensures LexLess(r[k], x) {
        LexTransitive(r[k], r[p - 1], x);
      }
    }
    InsertAscending(r, x, p);
    out := r[..p] + [x] + r[p..];
    assert r == r[..p] + r[p..];
  }

  /** list.sort() of the elements of a set. */
  method SortedFromSet(s: set<string>) returns (r: seq<string>)
    ensures StrictlyAscending(r)
    ensures forall x :: x in r <==> x in s
    ensures |r| == |s|
  {
    r := [];
    var rest := s;
    while rest != {}
      invariant rest <= s
      invariant StrictlyAscending(r)
      invariant forall x :: x in r <==> x in s && x !in rest
      invariant |r| + |rest| == |s|
      decreases |rest|
    {
      var x :| x in rest;
      r := InsertSorted(r, x);
      rest := rest - {x};
    }
  }

  /** The loader. `file` holds the file's lines, or None when it cannot be read. */
  method LoadTargets(file: Option<seq<string>>) returns (targets: seq<string>)
    ensures file.None? ==> targets == []
    ensures StrictlyAscending(targets)
    ensures forall t :: t in targets <==> t in TargetSet(file)
    ensures "" !in targets
  {
    match file {
      case None =>
        targets := [];
      case Some(lines) =>
        var contents := NormaliseAll(lines);
        var distinct := set c | c in contents && c != "";
        NormalisedTargets(lines);
        targets := SortedFromSet(distinct);
    }
  }

  /** An empty file loads as the empty list. */
  lemma EmptyFileNoTargets(targets: seq<string>)
    requires forall t :: t in targets <==> t in TargetSet(Some([]))
    ensures targets == []
  {
    FirstIsElement(targets);
  }

  lemma FirstIsElement(s: seq<string>)
    ensures s == [] || s[0] in s
  {
  }

  lemma AscendingHead(a: seq<string>, x: string)
    requires StrictlyAscending(a) && x in a
    ensures x == a[0] || LexLess(a[0], x)
  {
    var i :| 0 <= i < |a| && a[i] == x;
  }

  /** An ascending list is determined by its elements: whichever order the
      set is walked in, the loader returns the same list. */
  lemma {:induction false} AscendingUnique(a: seq<string>, b: seq<string>)
    requires StrictlyAscending(a) && StrictlyAscending(b)
    requires forall x :: x in a <==> x in b
    ensures a == b
    decreases |a|
  {
    if a == [] || b == [] {
      FirstIsElement(a);
      FirstIsElement(b);
    } else {
      AscendingHead(a, b[0]);
      AscendingHead(b, a[0]);
      if LexLess(a[0], b[0]) {
        LexAsymmetric(a[0], b[0]);
      }
      assert a[0] == b[0];
      forall x ensures x in a[1..] <==> x in b[1..] {
        LexIrreflexive(x);
        if x in a[1..] {
          var i :| 1 <= i < |a| && a[i] == x;
          assert LexLess(a[0], a[i]);
          assert x in b;
          var j :| 0 <= j < |b| && b[j] == x;
          assert j != 0;
          assert b[1..][j - 1] == x;
        }
        if x in b[1..] {
          var j :| 1 <= j < |b| && b[j] == x;
          assert LexLess(b[0], b[j]);
          assert x in a;
          var i :| 0 <= i < |a| && a[i] == x;
          assert i != 0;
          assert a[1..][i - 1] == x;
        }
      }
      AscendingUnique(a[1..], b[1..]);
      assert a == [a[0]] + a[1..] && b == [b[0]] + b[1..];
    }
  }

  lemma NormaliseExamples()
    ensures Normalise(" abc ") == "ABC" && Normalise("abc") == "ABC"
    ensures Normalise("DEF") == "DEF" && Normalise("ghi") == "GHI"
    ensures Normalise("z z z") == "Z Z Z"
  {
    StripExample();
    StripFixed("abc");
    StripFixed("DEF");
    StripFixed("ghi");
    StripFixed("z z z");
    UpperExamples();
  }

  lemma UpperExamples()
    ensures Upper("abc") == "ABC" && Upper("DEF") == "DEF"
    ensures Upper("ghi") == "GHI" && Upper("z z z") == "Z Z Z"
  {
  }

  lemma StripExample()
    ensures Strip(" abc ") == "abc"
  {
    var s := " abc ";
    assert SpacesFrom(s, 1) == 0;
    assert SpacesFrom(s, 0) == 1;
    assert SpacesBefore(s, 4) == 0;
    assert SpacesBefore(s, 5) == 1;
    assert s[1..4] == "abc";
  }

  lemma ExampleAscending()
    ensures StrictlyAscending(["ABC", "DEF", "GHI", "Z Z Z"])
  {
    var e := ["ABC", "DEF", "GHI", "Z Z Z"];
    assert LexLess(e[0], e[1]) && LexLess(e[1], e[2]) && LexLess(e[2], e[3]);
    LexTransitive(e[0], e[1], e[2]);
    LexTransitive(e[0], e[2], e[3]);
    LexTransitive(e[1], e[2], e[3]);
  }

  lemma ExampleNormalised()
    ensures NormaliseAll([" abc ", "DEF", "ghi", "z z z", "abc"]) == ["ABC", "DEF", "GHI", "Z Z Z", "ABC"]
  {
    NormaliseExamples();
  }

  lemma ExampleTargetSet()
    ensures TargetSet(Some([" abc ", "DEF", "ghi", "z z z", "abc"])) == {"ABC", "DEF", "GHI", "Z Z Z"}
  {
    var lines := [" abc ", "DEF", "ghi", "z z z", "abc"];
    ExampleNormalised();
    NormalisedTargets(lines);
    var contents := ["ABC", "DEF", "GHI", "Z Z Z", "ABC"];
    assert (set c | c in contents && c != "") == {"ABC", "DEF", "GHI", "Z Z Z"};
  }

  /** The cleaning example: " abc ", "DEF", "ghi", "z z z" and a repeated
      "abc" load as ["ABC", "DEF", "GHI", "Z Z Z"]. */
  lemma CleanedExample(targets: seq<string>)
    requires StrictlyAscending(targets)
    requires forall t :: t in targets <==> t in TargetSet(Some([" abc ", "DEF", "ghi", "z z z", "abc"]))
    ensures targets == ["ABC", "DEF", "GHI", "Z Z Z"]
  {
    ExampleTargetSet();
    ExampleAscending();
    AscendingUnique(targets, ["ABC", "DEF", "GHI", "Z Z Z"]);
  }
}
