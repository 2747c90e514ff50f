/**
 * The name extractor. The owner's name is printed on the line above each
 * page footer "Page N of M" (a no-break space, U+00A0, and a space after
 * "Page"); the text of every such line is a candidate,
 * the most frequent candidate wins (the cover page's line is often a
 * different string), and the winner is title-cased.
 *
 * The pattern `(.*)\nPage\u00a0 \d+ of \d+` is read on lines: `.` stops at a line
 * break, so a match captures the rest of a line whose next line begins with
 * a footer, and the next search starts right after the footer's last digit,
 * on that footer line.
 */
module NameExtractor {
  import opened Options
  import opened Text

  /** Number of consecutive digits of `s` from index `k` on (`\d+` is greedy). */
  function DigitRun(s: string, k: nat): (n: nat)
    requires k <= |s|
    ensures k + n <= |s|
    ensures forall i :: k <= i < k + n ==> IsDigit(s[i])
    ensures k + n == |s| || !IsDigit(s[k + n])
    decreases |s| - k
  {
    if k < |s| && IsDigit(s[k]) then 1 + DigitRun(s, k + 1) else 0
  }

  /** How a footer begins: "Page", a no-break space (U+00A0) and a space. */
  const FooterStart: string := "Page\U{00A0} "

  /** The line begins with a footer "Page N of M". */
  predicate IsFooter(l: string) {
    StartsWith(l, FooterStart)
    && DigitRun(l, 6) > 0
    && OccursAt(l, " of ", 6 + DigitRun(l, 6))
    && DigitRun(l, 10 + DigitRun(l, 6)) > 0
  }

  /** How much of a footer line the pattern consumes. */
  function FooterLength(l: string): (k: nat)
    requires IsFooter(l)
    ensures 12 <= k <= |l|
    ensures IsDigit(l[k - 1]) && (k == |l| || !IsDigit(l[k]))
  {
    10 + DigitRun(l, 6) + DigitRun(l, 10 + DigitRun(l, 6))
  }

  /** Line `i` is immediately followed by a footer line. */
  predicate FollowedByFooter(ls: seq<string>, i: int) {
    0 <= i && i + 1 < |ls| && IsFooter(ls[i + 1])
  }

  /** re.findall from column `o` of line `i`: the captures, in order. */
  function CandidatesFrom(ls: seq<string>, i: nat, o: nat): (cands: seq<string>)
    requires i < |ls| && o <= |ls[i]|
    decreases |ls| - i
  {
    if i + 1 >= |ls| then []
    else if IsFooter(ls[i + 1]) then [ls[i][o..]] + CandidatesFrom(ls, i + 1, FooterLength(ls[i + 1]))
    else CandidatesFrom(ls, i + 1, 0)
  }

  function Candidates(text: string): (cands: seq<string>)
  {
    CandidatesFrom(Lines(text), 0, 0)
  }

  /** Some line of the text is immediately followed by a footer line. */
  ghost predicate HasFooter(text: string) {
    exists i :: FollowedByFooter(Lines(text), i)
  }

  /** Number of footer lines among lines j, j+1, ... */
  function FooterCount(ls: seq<string>, j: nat): nat
    decreases |ls| - j
  {
    if j >= |ls| then 0 else (if IsFooter(ls[j]) then 1 else 0) + FooterCount(ls, j + 1)
  }

  lemma {:induction false} CandidatesFromEmpty(ls: seq<string>, i: nat, o: nat)
    requires i < |ls| && o <= |ls[i]|
    ensures CandidatesFrom(ls, i, o) == [] <==> forall k :: i <= k ==> !FollowedByFooter(ls, k)
    decreases |ls| - i
  {
    if i + 1 >= |ls| {
      assert forall k :: i <= k ==> !FollowedByFooter(ls, k);
    } else if IsFooter(ls[i + 1]) {
      assert FollowedByFooter(ls, i);
    } else {
      CandidatesFromEmpty(ls, i + 1, 0);
      assert !FollowedByFooter(ls, i);
      assert (forall k :: i <= k ==> !FollowedByFooter(ls, k))
        <==> (forall k :: i + 1 <= k ==> !FollowedByFooter(ls, k));
    }
  }

  /** There are no candidates exactly when no line is followed by a footer. */
  lemma CandidatesEmptyIff(text: string)
    ensures Candidates(text) == [] <==> !HasFooter(text)
  {
    CandidatesFromEmpty(Lines(text), 0, 0);
  }

  lemma {:induction false} CandidatesFromCount(ls: seq<string>, i: nat, o: nat)
    requires i < |ls| && o <= |ls[i]|
    ensures |CandidatesFrom(ls, i, o)| == FooterCount(ls, i + 1)
    decreases |ls| - i
  {
    if i + 1 < |ls| {
      if IsFooter(ls[i + 1]) {
        CandidatesFromCount(ls, i + 1, FooterLength(ls[i + 1]));
      } else {
        CandidatesFromCount(ls, i + 1, 0);
      }
    }
  }

  /** One candidate per footer line below the first line. */
  lemma CandidatesCount(text: string)
    ensures |Candidates(text)| == FooterCount(Lines(text), 1)
  {
    CandidatesFromCount(Lines(text), 0, 0);
  }

  lemma {:induction false} WholeLineCandidateFrom(ls: seq<string>, i: nat, o: nat, k: nat)
    requires i < |ls| && o <= |ls[i]|
    requires FollowedByFooter(ls, k)
    requires i < k || (i == k && o == 0)
    requires k == 0 || !IsFooter(ls[k])
    ensures ls[k] in CandidatesFrom(ls, i, o)
    decreases |ls| - i
  {
    if i == k {
      assert ls[k][0..] == ls[k];
    } else if IsFooter(ls[i + 1]) {
      WholeLineCandidateFrom(ls, i + 1, FooterLength(ls[i + 1]), k);
    } else {
      WholeLineCandidateFrom(ls, i + 1, 0, k);
    }
  }

  /** A line that is above a footer and is not itself a footer is a
      candidate in full; so a name repeated above every footer is counted
      once per page. */
  lemma WholeLineCandidate(text: string, k: nat)
    requires FollowedByFooter(Lines(text), k)
    requires k == 0 || !IsFooter(Lines(text)[k])
    ensures Lines(text)[k] in Candidates(text)
  {
    WholeLineCandidateFrom(Lines(text), 0, 0, k);
  }

  /** `c` is the tail of line `k`, and line `k` is followed by a footer. */
  predicate IsTailAboveFooter(ls: seq<string>, k: int, c: string) {
    FollowedByFooter(ls, k) && |c| <= |ls[k]| && c == ls[k][|ls[k]| - |c|..]
  }

  lemma {:induction false} CandidateFromSource(ls: seq<string>, i: nat, o: nat, c: string)
    requires i < |ls| && o <= |ls[i]|
    requires c in CandidatesFrom(ls, i, o)
    ensures exists k :: i <= k && IsTailAboveFooter(ls, k, c)
    decreases |ls| - i
  {
    if IsFooter(ls[i + 1]) {
      if c == ls[i][o..] {
        assert IsTailAboveFooter(ls, i, c);
      } else {
        CandidateFromSource(ls, i + 1, FooterLength(ls[i + 1]), c);
      }
    } else {
      CandidateFromSource(ls, i + 1, 0, c);
    }
  }

  /** Every candidate is the tail of a line that a footer follows. */
  lemma CandidateSource(text: string, c: string)
    requires c in Candidates(text)
    ensures exists k :: IsTailAboveFooter(Lines(text), k, c)
  {
    CandidateFromSource(Lines(text), 0, 0, c);
  }

  // ---------------------------------------------------------------------
  // The footer pattern and the scan, characterised

  predicate AllDigits(s: string) {
    forall k :: 0 <= k < |s| ==> IsDigit(s[k])
  }

  /** The line begins with "Page", U+00A0, a space, the digits p, " of "
      and the digits q. */
  predicate IsFooterPrefix(l: string, p: string, q: string) {
    p != "" && q != "" && AllDigits(p) && AllDigits(q) && StartsWith(l, FooterStart + p + " of " + q)
  }

  /** A run of digits stopped by a non-digit is exactly what `DigitRun` takes. */
  lemma DigitRunOf(s: string, k: nat, p: string)
    requires AllDigits(p) && k + |p| < |s| && s[k..k + |p|] == p && !IsDigit(s[k + |p|])
    ensures DigitRun(s, k) == |p|
  {
  }

  /** A footer line begins with its two greedy digit runs. */
  lemma FooterHasParts(l: string)
    requires IsFooter(l)
    ensures IsFooterPrefix(l, l[6..6 + DigitRun(l, 6)], l[10 + DigitRun(l, 6)..FooterLength(l)])
  {
    var d := DigitRun(l, 6);
    var p, q := l[6..6 + d], l[10 + d..FooterLength(l)];
    assert l[..FooterLength(l)] == l[..6] + p + l[6 + d..10 + d] + q;
  }

  /** A line that begins with the footer's text is a footer line. */
  lemma FooterFromParts(l: string, p: string, q: string)
    requires IsFooterPrefix(l, p, q)
    ensures IsFooter(l)
  {
    var w := FooterStart + p + " of " + q;
    assert l[..|w|] == w;
    assert l[..6] == FooterStart && l[6..6 + |p|] == p && l[6 + |p|..10 + |p|] == " of ";
    DigitRunOf(l, 6, p);
    assert l[10 + |p|] == q[0];
    assert OccursAt(l, " of ", 6 + |p|);
  }

  /** `IsFooter` is `Page\u00a0 \d+ of \d+` at the start of a line: some
      non-empty digit strings p and q make the line begin with
      FooterStart + p + " of " + q. */
  lemma FooterIff(l: string)
    ensures IsFooter(l) <==> exists p, q :: IsFooterPrefix(l, p, q)
  {
    if IsFooter(l) {
      FooterHasParts(l);
    }
    if exists p, q :: IsFooterPrefix(l, p, q) {
      var p, q :| IsFooterPrefix(l, p, q);
      FooterFromParts(l, p, q);
    }
  }

  /** The lines below line i that are footers, in order: the line below
      each candidate of the scan from line i. */
  ghost function FooterLinesFrom(ls: seq<string>, i: nat, o: nat): seq<nat>
    requires i < |ls| && o <= |ls[i]|
    decreases |ls| - i
  {
    if i + 1 >= |ls| then []
    else if IsFooter(ls[i + 1]) then [i + 1] + FooterLinesFrom(ls, i + 1, FooterLength(ls[i + 1]))
    else FooterLinesFrom(ls, i + 1, 0)
  }

  /** No line strictly between lines r and f is a footer. */
  predicate NoFooterBetween(ls: seq<string>, r: int, f: int) {
    forall j :: 0 <= r < j < f && j < |ls| ==> !IsFooter(ls[j])
  }

  lemma NoFooterBetweenGrow(ls: seq<string>, r: int, f: int)
    requires 0 <= r && (r + 1 < |ls| ==> !IsFooter(ls[r + 1])) && NoFooterBetween(ls, r + 1, f)
    ensures NoFooterBetween(ls, r, f)
  {
    forall j | 0 <= r < j < f && j < |ls| ensures !IsFooter(ls[j]) {
      if j != r + 1 {
        assert r + 1 < j;
      }
    }
  }

  /** A search resumed at column c of line r captures `cand` above the
      footer on line f: no line between r and f is a footer, and the
      capture is the whole line above f, or the rest of line r when f
      directly follows it. */
  predicate CaptureFrom(ls: seq<string>, r: int, c: nat, f: int, cand: string) {
    0 <= r < f < |ls| && IsFooter(ls[f])
    && NoFooterBetween(ls, r, f)
    && (f == r + 1 ==> c <= |ls[r]|)
    && cand == (if f == r + 1 then ls[r][c..] else ls[f - 1])
  }

  /** The search for capture n resumes on line i for the first, and on the
      previous capture's footer line for the others ... */
  function CaptureLine(i: int, fs: seq<nat>, n: int): int
    requires n < |fs|
  {
    if n <= 0 then i else fs[n - 1]
  }

  /** ... at column o, or right after the previous footer's last digit. */
  function CaptureColumn(ls: seq<string>, o: nat, fs: seq<nat>, n: int): nat
    requires n < |fs|
  {
    if n <= 0 then o
    else if fs[n - 1] < |ls| && IsFooter(ls[fs[n - 1]]) then FooterLength(ls[fs[n - 1]])
    else 0
  }

  /** cands are all that `re.findall` captures from column o of line i,
      one per footer line fs[n], and no footer follows the last one. */
  predicate CapturesComplete(ls: seq<string>, i: int, o: nat, fs: seq<nat>, cands: seq<string>) {
    |fs| == |cands|
    && (forall n :: 0 <= n < |cands| ==>
          CaptureFrom(ls, CaptureLine(i, fs, n), CaptureColumn(ls, o, fs, n), fs[n], cands[n]))
    && NoFooterBetween(ls, if fs == [] then i else fs[|fs| - 1], |ls|)
  }

  /** Capture n of the longer scan is capture n - 1 of the scan resumed
      on footer line f. */
  lemma ConsCaptureStep(ls: seq<string>, i: int, o: nat, f: nat, fs: seq<nat>, n: nat)
    requires 0 < n <= |fs| && f < |ls| && IsFooter(ls[f])
    ensures CaptureLine(i, [f] + fs, n) == CaptureLine(f, fs, n - 1)
    ensures CaptureColumn(ls, o, [f] + fs, n) == CaptureColumn(ls, FooterLength(ls[f]), fs, n - 1)
  {
    var fs1 := [f] + fs;
    if n > 1 {
      assert fs1[n - 1] == fs[n - 2];
    }
  }

  lemma ConsCapture(ls: seq<string>, i: int, o: nat, f: nat, cand: string, fs: seq<nat>, cands: seq<string>)
    requires CaptureFrom(ls, i, o, f, cand)
    requires CapturesComplete(ls, f, FooterLength(ls[f]), fs, cands)
    ensures CapturesComplete(ls, i, o, [f] + fs, [cand] + cands)
  {
    var fl := FooterLength(ls[f]);
    var fs1, cands1 := [f] + fs, [cand] + cands;
    forall n | 0 <= n < |cands1|
      ensures CaptureFrom(ls, CaptureLine(i, fs1, n), CaptureColumn(ls, o, fs1, n), fs1[n], cands1[n])
    {
      if n > 0 {
        assert CaptureFrom(ls, CaptureLine(f, fs, n - 1), CaptureColumn(ls, fl, fs, n - 1), fs[n - 1], cands[n - 1]);
        ConsCaptureStep(ls, i, o, f, fs, n);
        assert fs1[n] == fs[n - 1] && cands1[n] == cands[n - 1];
      }
    }
    assert NoFooterBetween(ls, if fs == [] then f else fs[|fs| - 1], |ls|);
    assert fs1[|fs1| - 1] == if fs == [] then f else fs[|fs| - 1];
  }

  lemma SkipCapture(ls: seq<string>, i: nat, o: nat, fs: seq<nat>, cands: seq<string>)
    requires i + 1 < |ls| && !IsFooter(ls[i + 1])
    requires CapturesComplete(ls, i + 1, 0, fs, cands)
    ensures CapturesComplete(ls, i, o, fs, cands)
  {
    forall n | 0 <= n < |cands|
      ensures CaptureFrom(ls, CaptureLine(i, fs, n), CaptureColumn(ls, o, fs, n), fs[n], cands[n])
    {
      assert CaptureFrom(ls, CaptureLine(i + 1, fs, n), CaptureColumn(ls, 0, fs, n), fs[n], cands[n]);
      if n == 0 {
        SkipFirstCapture(ls, i, o, fs[0], cands[0]);
      }
    }
    if fs == [] {
      NoFooterBetweenGrow(ls, i, |ls|);
    }
  }

  lemma SkipFirstCapture(ls: seq<string>, i: nat, o: nat, f: nat, cand: string)
    requires i + 1 < |ls| && !IsFooter(ls[i + 1])
    requires CaptureFrom(ls, i + 1, 0, f, cand)
    ensures CaptureFrom(ls, i, o, f, cand)
  {
    assert ls[f - 1][0..] == ls[f - 1];
    NoFooterBetweenGrow(ls, i, f);
  }

  lemma {:induction false} CandidatesFromComplete(ls: seq<string>, i: nat, o: nat)
    requires i < |ls| && o <= |ls[i]|
    ensures CapturesComplete(ls, i, o, FooterLinesFrom(ls, i, o), CandidatesFrom(ls, i, o))
    decreases |ls| - i
  {
    if i + 1 >= |ls| {
    } else if IsFooter(ls[i + 1]) {
      var fl := FooterLength(ls[i + 1]);
      CandidatesFromComplete(ls, i + 1, fl);
      ConsCapture(ls, i, o, i + 1, ls[i][o..], FooterLinesFrom(ls, i + 1, fl), CandidatesFrom(ls, i + 1, fl));
    } else {
      CandidatesFromComplete(ls, i + 1, 0);
      SkipCapture(ls, i, o, FooterLinesFrom(ls, i + 1, 0), CandidatesFrom(ls, i + 1, 0));
    }
  }

  /** The candidates of a text are exactly the `re.findall` captures: one
      per footer line, in order, each the line above it (cut where the
      previous footer match ended when that line is itself a footer). */
  lemma CandidatesComplete(text: string)
    ensures CapturesComplete(Lines(text), 0, 0, FooterLinesFrom(Lines(text), 0, 0), Candidates(text))
  {
    CandidatesFromComplete(Lines(text), 0, 0);
  }

  /** `w` occurs in `data` at least as often as any other element. */
  predicate IsMostCommon(data: seq<string>, w: string) {
    w in data && forall c :: c in data ==> multiset(data)[c] <= multiset(data)[w]
  }

  /** max(set(data), key=data.count): walks the distinct candidates in an
      unspecified order and keeps the first one with the highest count. */
  method MostCommon(data: seq<string>) returns (w: string)
    requires data != []
    ensures IsMostCommon(data, w)
  {
    var rest := set c | c in data;
    assert data[0] in rest;
    w :| w in rest;
    var best := multiset(data)[w];
    rest := rest - {w};
    while rest != {}
      invariant rest <= set c | c in data
      invariant w in data && best == multiset(data)[w]
      invariant forall c :: c in data && c !in rest ==> multiset(data)[c] <= best
      decreases |rest|
    {
      var c :| c in rest;
      var n := multiset(data)[c];
      if n > best {
        w, best := c, n;
      }
      rest := rest - {c};
    }
  }

  /** What __get_name_from_text may return for `text`: None exactly when
      there is no candidate, otherwise the title-cased form of a most
      frequent candidate. */
  ghost predicate IsNameOf(text: string, name: Option<string>) {
    (name.None? <==> Candidates(text) == [])
    && (name.Some? ==> exists w :: IsMostCommon(Candidates(text), w) && name.value == Title(w))
  }

  method GetNameFromText(text: string) returns (name: Option<string>)
    ensures IsNameOf(text, name)
    ensures name.None? <==> !HasFooter(text)
  {
    CandidatesEmptyIff(text);
    var data := Candidates(text);
    if data != [] {
      var w := MostCommon(data);
      name := Some(Title(w));
    } else {
      name := None;
    }
  }

  // ---------------------------------------------------------------------
  // The cover-page example: the first page's line differs, the name above
  // the two later footers wins.

  const CoverLines: seq<string> :=
    ["X", "Page\U{00A0} 1 of 3", "JOHN DOE", "Page\U{00A0} 2 of 3", "JOHN DOE", "Page\U{00A0} 3 of 3"]

  lemma FooterExample(l: string, d: char)
    requires l == FooterStart + [d] + " of 3" && IsDigit(d)
    ensures IsFooter(l) && FooterLength(l) == 12
  {
    assert l[6] == d && l[7] == ' ' && l[11] == '3';
    assert DigitRun(l, 7) == 0;
    assert DigitRun(l, 6) == 1;
    assert l[6 + 1..6 + 1 + 4] == " of ";
    assert DigitRun(l, 12) == 0;
    assert DigitRun(l, 11) == 1;
  }

  lemma FirstFooter()
    ensures IsFooter("Page\U{00A0} 1 of 3") && FooterLength("Page\U{00A0} 1 of 3") == 12
  {
    FooterExample("Page\U{00A0} 1 of 3", '1');
  }

  lemma SecondFooter()
    ensures IsFooter("Page\U{00A0} 2 of 3") && FooterLength("Page\U{00A0} 2 of 3") == 12
  {
    FooterExample("Page\U{00A0} 2 of 3", '2');
  }

  lemma LastFooter()
    ensures IsFooter("Page\U{00A0} 3 of 3") && FooterLength("Page\U{00A0} 3 of 3") == 12
  {
    FooterExample("Page\U{00A0} 3 of 3", '3');
  }

  lemma NameIsNoFooter()
    ensures !IsFooter("JOHN DOE")
  {
    assert "JOHN DOE"[0] != FooterStart[0];
  }

  /** "Page" followed by two ordinary spaces is not a footer. */
  lemma AsciiSpacesNoFooter()
    ensures !IsFooter("Page  1 of 3")
  {
    assert "Page  1 of 3"[4] != FooterStart[4];
  }

  lemma CoverTail()
    ensures CandidatesFrom(CoverLines, 2, 0) == ["JOHN DOE", "JOHN DOE"]
  {
    var ls := CoverLines;
    SecondFooter();
    LastFooter();
    NameIsNoFooter();
    assert CandidatesFrom(ls, 5, 12) == [];
    assert CandidatesFrom(ls, 4, 0) == ["JOHN DOE"];
    assert CandidatesFrom(ls, 3, 12) == ["JOHN DOE"];
  }

  lemma CoverCandidateLines()
    ensures CandidatesFrom(CoverLines, 0, 0) == ["X", "JOHN DOE", "JOHN DOE"]
  {
    var ls := CoverLines;
    FirstFooter();
    NameIsNoFooter();
    CoverTail();
    assert CandidatesFrom(ls, 1, 12) == ["JOHN DOE", "JOHN DOE"];
  }

  lemma CoverCandidates()
    ensures Candidates(Join(CoverLines)) == ["X", "JOHN DOE", "JOHN DOE"]
  {
    LinesJoin(CoverLines);
    CoverCandidateLines();
  }

  lemma TitleExample()
    ensures Title("JOHN DOE") == "John Doe"
  {
    var s := "JOHN DOE";
    TitleIsPointwise(s);
    assert forall i :: 0 <= i < |s| ==> Title(s)[i] == "John Doe"[i];
  }

  /** Whatever the tie-break, the repeated name beats the cover-page line. */
  lemma MajorityBeatsCover(name: Option<string>)
    requires IsNameOf(Join(CoverLines), name)
    ensures name == Some("John Doe")
  {
    CoverCandidates();
    var data := ["X", "JOHN DOE", "JOHN DOE"];
    assert multiset(data)["X"] == 1 && multiset(data)["JOHN DOE"] == 2;
    var w :| IsMostCommon(data, w) && name.value == Title(w);
    assert w == "JOHN DOE";
    TitleExample();
  }
}
