/**
 * The course-block extractor. A course block is
 *
 *     title line 1
 *     [title line 2]
 *     result
 *     (CODE) - (OTHER)
 *     DD/MM/YYYY-DD/MM/YYYY...
 *
 * The pattern is read on lines. Its groups stop at line breaks, so a match
 * starting anywhere on line i takes the rest of line i as the first title
 * line; the five-line shape is tried before the four-line one; the match
 * ends after the 21 characters of the date range, and the next search starts
 * there, so the rest of a date line is the next block's first title line.
 */
module CourseExtractor {
  import opened Text

  /** The groups of one match: title line 1, "\n" + title line 2 (or ""), the
      result, and the course code. */
  datatype Match = Match(first: string, second: string, result: string, code: string)

  /** One extracted course, in the order [code, title, result]. */
  datatype Course = Course(code: string, title: string, result: string)

  /** Length of the date range DD/MM/YYYY-DD/MM/YYYY. */
  const DateLength: nat := 21

  /** The separator between the course code and the other code. */
  const Separator: string := ") - ("

  /** The shape of a date range: 'd' stands for a digit, the rest for itself. */
  const DateShape: string := "dd/dd/dddd-dd/dd/dddd"

  predicate FitsShapeChar(shape: char, c: char) {
    if shape == 'd' then IsDigit(c) else c == shape
  }

  /** The line begins with DD/MM/YYYY-DD/MM/YYYY. */
  predicate IsDateLine(l: string) {
    |l| >= DateLength && forall k :: 0 <= k < DateLength ==> FitsShapeChar(DateShape[k], l[k])
  }

  /** The last index in 1..j where the separator starts, or 0 if there is none. */
  function LastSeparator(l: string, j: int): (r: nat)
    requires j + |Separator| <= |l|
    ensures r == 0 || (1 <= r <= j && OccursAt(l, Separator, r))
    ensures forall k :: r < k <= j && 1 <= k ==> !OccursAt(l, Separator, k)
    decreases j
  {
    if j < 1 then 0
    else if OccursAt(l, Separator, j) then j
    else LastSeparator(l, j - 1)
  }

  /** The line is "(" code ") - (" other ")": it opens and closes with a
      parenthesis and holds the separator with room for the closing one. */
  predicate IsCodeLine(l: string) {
    |l| >= 7 && l[0] == '(' && l[|l| - 1] == ')' && LastSeparator(l, |l| - 6) >= 1
  }

  /** Group 4: the greedy `(.*)` takes the code up to the last separator. */
  function Code(l: string): (code: string)
    requires IsCodeLine(l)
  {
    l[1..LastSeparator(l, |l| - 6)]
  }

  /** The greedy code is the longest split of the line into
      "(" code ") - (" other ")", and the separator follows it. */
  lemma CodeIsGreedy(l: string, c: string, other: string)
    requires IsCodeLine(l)
    requires l == "(" + c + Separator + other + ")"
    ensures |c| <= |Code(l)|
    ensures OccursAt(l, Separator, |Code(l)| + 1)
  {
    var head := "(" + c;
    var tail := other + ")";
    assert l == head + (Separator + tail);
    assert l[|head|..] == Separator + tail;
    assert l[|head|..|head| + 5] == (Separator + tail)[..5];
    assert OccursAt(l, Separator, |head|);
  }

  /** A code line split at its greedy code: "(" + code + ") - (" + rest + ")". */
  lemma CodeLineHasParts(l: string)
    requires IsCodeLine(l)
    ensures l == "(" + Code(l) + Separator + l[|Code(l)| + 6..|l| - 1] + ")"
  {
    var s := LastSeparator(l, |l| - 6);
    assert l[s..s + 5] == Separator;
    assert l == l[..1] + l[1..s] + l[s..s + 5] + l[s + 5..|l| - 1] + l[|l| - 1..];
  }

  /** Every line of the form "(" + c + ") - (" + other + ")" is a code line. */
  lemma CodeLineFromParts(c: string, other: string)
    ensures IsCodeLine("(" + c + Separator + other + ")")
  {
    var l := "(" + c + Separator + other + ")";
    assert l[1 + |c|..1 + |c| + 5] == Separator;
    assert OccursAt(l, Separator, 1 + |c|);
  }

  /** `IsCodeLine` is the line `\((.*)\) - \(.*\)`: it holds exactly when the
      line splits as "(" + c + ") - (" + other + ")"; `Code` then takes the
      split with the longest c (`CodeIsGreedy`). */
  lemma CodeLineIff(l: string)
    ensures IsCodeLine(l) <==> exists c, other :: l == "(" + c + Separator + other + ")"
    ensures IsCodeLine(l) ==> l == "(" + Code(l) + Separator + l[|Code(l)| + 6..|l| - 1] + ")"
  {
    if IsCodeLine(l) {
      CodeLineHasParts(l);
    }
    if exists c, other :: l == "(" + c + Separator + other + ")" {
      var c, other :| l == "(" + c + Separator + other + ")";
      CodeLineFromParts(c, other);
    }
  }

  /** `IsDateLine` is `\d{2}/\d{2}/\d{4}-\d{2}/\d{2}/\d{4}` at the start of a
      line: slashes at columns 2, 5, 13 and 16, a hyphen at column 10, and
      digits in the other sixteen of the first 21 columns. */
  lemma DateLineIff(l: string)
    ensures IsDateLine(l) <==>
      |l| >= 21 && l[2] == '/' && l[5] == '/' && l[10] == '-' && l[13] == '/' && l[16] == '/'
      && forall k :: 0 <= k < 21 && k != 2 && k != 5 && k != 10 && k != 13 && k != 16 ==> IsDigit(l[k])
  {
    assert forall k :: 0 <= k < 21 ==> (DateShape[k] == 'd' <==> k != 2 && k != 5 && k != 10 && k != 13 && k != 16);
    assert DateShape[2] == '/' && DateShape[5] == '/' && DateShape[10] == '-' && DateShape[13] == '/' && DateShape[16] == '/';
  }

  /** A five-line block begins on line i. */
  predicate FitsFive(ls: seq<string>, i: int) {
    0 <= i && i + 4 < |ls| && IsCodeLine(ls[i + 3]) && IsDateLine(ls[i + 4])
  }

  /** A four-line block begins on line i. */
  predicate FitsFour(ls: seq<string>, i: int) {
    0 <= i && i + 3 < |ls| && IsCodeLine(ls[i + 2]) && IsDateLine(ls[i + 3])
  }

  /** re.findall from column `o` of line `i`: the matches, in order. */
  function MatchesFrom(ls: seq<string>, i: nat, o: nat): (ms: seq<Match>)
    requires i < |ls| && o <= |ls[i]|
    decreases |ls| - i
  {
    if FitsFive(ls, i) then
      [Match(ls[i][o..], "\n" + ls[i + 1], ls[i + 2], Code(ls[i + 3]))] + MatchesFrom(ls, i + 4, DateLength)
    else if FitsFour(ls, i) then
      [Match(ls[i][o..], "", ls[i + 1], Code(ls[i + 2]))] + MatchesFrom(ls, i + 3, DateLength)
    else if i + 1 < |ls| then
      MatchesFrom(ls, i + 1, 0)
    else
      []
  }

  function Matches(text: string): (ms: seq<Match>)
  {
    MatchesFrom(Lines(text), 0, 0)
  }

  /** The title of a match (the cleanup of the two title groups): line breaks
      become spaces, the marker "---" is deleted, the ends are stripped. */
  function CleanTitle(m: Match): (title: string)
  {
    Strip(ReplaceAll(ReplaceChar(m.first + m.second, '\n', ' '), "---", ""))
  }

  function ToCourse(m: Match): (c: Course)
  {
    Course(m.code, CleanTitle(m), m.result)
  }

  /** The findall of __get_all_courses. */
  method GetAllCourses(text: string) returns (courses: seq<Course>)
    ensures |courses| == |Matches(text)|
    ensures forall k :: 0 <= k < |courses| ==> courses[k] == ToCourse(Matches(text)[k])
  {
    courses := CoursesOf(Matches(text));
  }

  /** The loop of __get_all_courses: one [code, title, result] per match, in order. */
  method CoursesOf(data: seq<Match>) returns (courses: seq<Course>)
    ensures |courses| == |data|
    ensures forall k :: 0 <= k < |courses| ==> courses[k] == ToCourse(data[k])
  {
    courses := [];
    for k := 0 to |data|
      invariant |courses| == k
      invariant forall n :: 0 <= n < k ==> courses[n] == ToCourse(data[n])
    {
      var row := data[k];
      var title := TitleOf(row);
      courses := courses + [Course(row.code, title, row.result)];
    }
  }

  /** The three cleanup steps the loop applies to the title groups. */
  method TitleOf(row: Match) returns (title: string)
    ensures title == CleanTitle(row)
  {
    title := ReplaceChar(row.first + row.second, '\n', ' ');
    title := ReplaceAll(title, "---", "");
    title := Strip(title);
  }

  // ---------------------------------------------------------------------
  // Properties of the scan

  /** Some block, of either shape, begins on line k. */
  predicate BlockAt(ls: seq<string>, k: int) {
    FitsFive(ls, k) || FitsFour(ls, k)
  }

  lemma {:induction false} MatchesFromEmpty(ls: seq<string>, i: nat, o: nat)
    requires i < |ls| && o <= |ls[i]|
    ensures MatchesFrom(ls, i, o) == [] <==> forall k :: i <= k ==> !BlockAt(ls, k)
    decreases |ls| - i
  {
    if BlockAt(ls, i) {
    } else if i + 1 < |ls| {
      MatchesFromEmpty(ls, i + 1, 0);
      assert (forall k :: i <= k ==> !BlockAt(ls, k))
        <==> (forall k :: i + 1 <= k ==> !BlockAt(ls, k));
    } else {
      assert forall k :: i <= k ==> !BlockAt(ls, k);
    }
  }

  /** Text holding no block of either shape yields no course at all, and
      text holding one yields at least one. */
  lemma MatchesEmptyIff(text: string)
    ensures Matches(text) == [] <==> forall k :: !BlockAt(Lines(text), k)
  {
    var ls := Lines(text);
    MatchesFromEmpty(ls, 0, 0);
    if Matches(text) == [] {
      forall k ensures !BlockAt(ls, k) {
        if 0 <= k {
          assert 0 <= k ==> !BlockAt(ls, k);
        }
      }
    } else {
      assert MatchesFrom(ls, 0, 0) != [];
      assert !(forall k :: 0 <= k ==> !BlockAt(ls, k));
      var k :| 0 <= k && BlockAt(ls, k);
      assert BlockAt(Lines(text), k);
      assert (forall j :: !BlockAt(Lines(text), j)) == false;
    }
  }

  /** `t` is what is left of line `l` from some column on. */
  predicate IsTail(l: string, t: string) {
    |t| <= |l| && t == l[|l| - |t|..]
  }

  /** Line k is a code line with a date line below it, and `m` takes its
      result verbatim from the line above and its code from line k. Its
      title groups come from the lines above the result: in a four-line
      block the first group is a tail of line k - 2 and the second is
      empty; in a five-line block the first group is a tail of line k - 3
      and the second is a line break followed by line k - 2. */
  predicate IsMatchAt(ls: seq<string>, k: int, m: Match) {
    2 <= k && k + 1 < |ls| && IsCodeLine(ls[k]) && IsDateLine(ls[k + 1])
    && m.result == ls[k - 1] && m.code == Code(ls[k])
    && ((m.second == "" && IsTail(ls[k - 2], m.first))
        || (3 <= k && m.second == "\n" + ls[k - 2] && IsTail(ls[k - 3], m.first)))
  }

  /** The code-line index of every match from (i, o), in order. */
  ghost function CodeLinesFrom(ls: seq<string>, i: nat, o: nat): seq<nat>
    requires i < |ls| && o <= |ls[i]|
    decreases |ls| - i
  {
    if FitsFive(ls, i) then [i + 3] + CodeLinesFrom(ls, i + 4, DateLength)
    else if FitsFour(ls, i) then [i + 2] + CodeLinesFrom(ls, i + 3, DateLength)
    else if i + 1 < |ls| then CodeLinesFrom(ls, i + 1, 0)
    else []
  }

  /** Each match is at its code line, and every code line is at or below line `lo` + 2. */
  predicate AllMatchesAt(ls: seq<string>, lo: int, cs: seq<nat>, ms: seq<Match>) {
    |cs| == |ms| && forall n :: 0 <= n < |ms| ==> lo + 2 <= cs[n] && IsMatchAt(ls, cs[n], ms[n])
  }

  lemma ConsMatchAt(ls: seq<string>, lo: int, c: nat, m: Match, cs: seq<nat>, ms: seq<Match>, lo': int)
    requires lo + 2 <= c && IsMatchAt(ls, c, m)
    requires AllMatchesAt(ls, lo', cs, ms) && lo <= lo'
    ensures AllMatchesAt(ls, lo, [c] + cs, [m] + ms)
  {
    var cs1, ms1 := [c] + cs, [m] + ms;
    forall n | 0 <= n < |ms1| ensures lo + 2 <= cs1[n] && IsMatchAt(ls, cs1[n], ms1[n]) {
      if n > 0 {
        assert cs1[n] == cs[n - 1] && ms1[n] == ms[n - 1];
        assert lo' + 2 <= cs[n - 1] && IsMatchAt(ls, cs[n - 1], ms[n - 1]);
      }
    }
  }

  /** Every match comes from a block whose code line is the line it names,
      with its result the line just above. */
  lemma {:induction false} MatchesFromSource(ls: seq<string>, i: nat, o: nat)
    requires i < |ls| && o <= |ls[i]|
    ensures AllMatchesAt(ls, i, CodeLinesFrom(ls, i, o), MatchesFrom(ls, i, o))
    decreases |ls| - i
  {
    if FitsFive(ls, i) {
      MatchesFromSource(ls, i + 4, DateLength);
      ConsMatchAt(ls, i, i + 3, MatchesFrom(ls, i, o)[0],
        CodeLinesFrom(ls, i + 4, DateLength), MatchesFrom(ls, i + 4, DateLength), i + 4);
    } else if FitsFour(ls, i) {
      MatchesFromSource(ls, i + 3, DateLength);
      ConsMatchAt(ls, i, i + 2, MatchesFrom(ls, i, o)[0],
        CodeLinesFrom(ls, i + 3, DateLength), MatchesFrom(ls, i + 3, DateLength), i + 3);
    } else if i + 1 < |ls| {
      MatchesFromSource(ls, i + 1, 0);
    }
  }

  /** The code lines strictly increase, at least three lines apart, so
      matches come out in source order and never share a line. */
  lemma {:induction false} CodeLinesApart(ls: seq<string>, i: nat, o: nat)
    requires i < |ls| && o <= |ls[i]|
    ensures forall n :: 0 <= n < |CodeLinesFrom(ls, i, o)| ==> i + 2 <= CodeLinesFrom(ls, i, o)[n]
    ensures forall n, n' :: 0 <= n < n' < |CodeLinesFrom(ls, i, o)| ==>
      CodeLinesFrom(ls, i, o)[n] + 3 <= CodeLinesFrom(ls, i, o)[n']
    decreases |ls| - i
  {
    var cs := CodeLinesFrom(ls, i, o);
    if FitsFive(ls, i) {
      CodeLinesApart(ls, i + 4, DateLength);
      var cs' := CodeLinesFrom(ls, i + 4, DateLength);
      assert cs == [i + 3] + cs';
      assert forall n :: 1 <= n < |cs| ==> cs[n] == cs'[n - 1];
    } else if FitsFour(ls, i) {
      CodeLinesApart(ls, i + 3, DateLength);
      var cs' := CodeLinesFrom(ls, i + 3, DateLength);
      assert cs == [i + 2] + cs';
      assert forall n :: 1 <= n < |cs| ==> cs[n] == cs'[n - 1];
    } else if i + 1 < |ls| {
      CodeLinesApart(ls, i + 1, 0);
    }
  }

  /** The courses of a text, located: course n has code line CodeLines[n]. */
  lemma MatchesInSourceOrder(text: string)
    ensures |CodeLinesFrom(Lines(text), 0, 0)| == |Matches(text)|
    ensures forall n :: 0 <= n < |Matches(text)| ==>
      IsMatchAt(Lines(text), CodeLinesFrom(Lines(text), 0, 0)[n], Matches(text)[n])
    ensures forall n, n' :: 0 <= n < n' < |Matches(text)| ==>
      CodeLinesFrom(Lines(text), 0, 0)[n] < CodeLinesFrom(Lines(text), 0, 0)[n']
  {
    MatchesFromSource(Lines(text), 0, 0);
    CodeLinesApart(Lines(text), 0, 0);
  }

  // ---------------------------------------------------------------------
  // Completeness of the scan: no block is passed over

  /** Line on which a match whose code line is k begins. */
  function BlockStart(k: int, m: Match): int {
    if m.second == "" then k - 2 else k - 3
  }

  /** A scan resumed at column c of line r finds m with code line k:
      no block begins on the lines it passes over first, its first
      title group is the whole start line (or the rest of line r when
      the block begins there), and a four-line match is taken only where
      no five-line block begins. */
  predicate FoundFrom(ls: seq<string>, r: int, c: nat, k: int, m: Match) {
    var b := BlockStart(k, m);
    0 <= r <= b < |ls|
    && (b == r ==> c <= |ls[b]|)
    && NoBlockBetween(ls, r, b)
    && m.first == (if b == r then ls[b][c..] else ls[b])
    && (m.second == "" ==> !FitsFive(ls, b))
  }

  /** No block begins on the lines from r up to (not including) b. */
  predicate NoBlockBetween(ls: seq<string>, r: int, b: int) {
    forall j :: r <= j < b ==> !BlockAt(ls, j)
  }

  lemma NoBlockBetweenGrow(ls: seq<string>, r: int, b: int)
    requires !BlockAt(ls, r) && NoBlockBetween(ls, r + 1, b)
    ensures NoBlockBetween(ls, r, b)
  {
    forall j | r <= j < b ensures !BlockAt(ls, j) {
      if j != r {
        assert r + 1 <= j < b;
      }
    }
  }

  /** No block begins on line r or below. */
  predicate NoBlockFrom(ls: seq<string>, r: int) {
    forall j :: r <= j < |ls| ==> !BlockAt(ls, j)
  }

  /** Line from which the scan looks for match n: line i for the first,
      the date line of match n - 1 for the others. */
  function ResumeLine(i: int, cs: seq<nat>, n: int): int
    requires n < |cs|
  {
    if n <= 0 then i else cs[n - 1] + 1
  }

  /** Column of that line: o for the first match, just past the date for
      the others. */
  function ResumeColumn(o: nat, n: int): nat {
    if n <= 0 then o else DateLength
  }

  /** The matches cs/ms are everything re.finditer finds from column o of
      line i: match n is found from where match n - 1 ended (its date
      line, column 21), and after the last one no block begins. */
  predicate ScanComplete(ls: seq<string>, i: int, o: nat, cs: seq<nat>, ms: seq<Match>) {
    |cs| == |ms|
    && (forall n :: 0 <= n < |ms| ==> FoundFrom(ls, ResumeLine(i, cs, n), ResumeColumn(o, n), cs[n], ms[n]))
    && NoBlockFrom(ls, if ms == [] then i else cs[|cs| - 1] + 1)
  }

  lemma ConsFound(ls: seq<string>, i: int, o: nat, k: nat, m: Match, cs: seq<nat>, ms: seq<Match>)
    requires FoundFrom(ls, i, o, k, m)
    requires ScanComplete(ls, k + 1, DateLength, cs, ms)
    ensures ScanComplete(ls, i, o, [k] + cs, [m] + ms)
  {
    var cs1, ms1 := [k] + cs, [m] + ms;
    forall n | 0 <= n < |ms1|
      ensures FoundFrom(ls, ResumeLine(i, cs1, n), ResumeColumn(o, n), cs1[n], ms1[n])
    {
      if n > 0 {
        assert cs1[n] == cs[n - 1] && ms1[n] == ms[n - 1];
        if n == 1 {
          assert ResumeLine(i, cs1, n) == k + 1 == ResumeLine(k + 1, cs, n - 1);
        } else {
          assert cs1[n - 1] == cs[n - 2];
          assert ResumeLine(i, cs1, n) == cs[n - 2] + 1 == ResumeLine(k + 1, cs, n - 1);
        }
        assert FoundFrom(ls, ResumeLine(k + 1, cs, n - 1), ResumeColumn(DateLength, n - 1), cs[n - 1], ms[n - 1]);
      }
    }
    assert cs1[|cs1| - 1] + 1 == if ms == [] then k + 1 else cs[|cs| - 1] + 1;
  }

  lemma SkipFound(ls: seq<string>, i: int, o: nat, cs: seq<nat>, ms: seq<Match>)
    requires 0 <= i && !BlockAt(ls, i)
    requires ScanComplete(ls, i + 1, 0, cs, ms)
    ensures ScanComplete(ls, i, o, cs, ms)
  {
    if ms != [] {
      var b := BlockStart(cs[0], ms[0]);
      assert FoundFrom(ls, ResumeLine(i + 1, cs, 0), ResumeColumn(0, 0), cs[0], ms[0]);
      assert i + 1 <= b < |ls| && ms[0].first == ls[b][0..] == ls[b];
      assert NoBlockBetween(ls, i + 1, b);
      NoBlockBetweenGrow(ls, i, b);
      assert ResumeLine(i, cs, 0) == i && ResumeColumn(o, 0) == o;
    }
  }

  lemma {:induction false} MatchesFromComplete(ls: seq<string>, i: nat, o: nat)
    requires i < |ls| && o <= |ls[i]|
    ensures ScanComplete(ls, i, o, CodeLinesFrom(ls, i, o), MatchesFrom(ls, i, o))
    decreases |ls| - i
  {
    if FitsFive(ls, i) {
      MatchesFromComplete(ls, i + 4, DateLength);
      ConsFound(ls, i, o, i + 3, MatchesFrom(ls, i, o)[0],
        CodeLinesFrom(ls, i + 4, DateLength), MatchesFrom(ls, i + 4, DateLength));
    } else if FitsFour(ls, i) {
      MatchesFromComplete(ls, i + 3, DateLength);
      ConsFound(ls, i, o, i + 2, MatchesFrom(ls, i, o)[0],
        CodeLinesFrom(ls, i + 3, DateLength), MatchesFrom(ls, i + 3, DateLength));
    } else if i + 1 < |ls| {
      MatchesFromComplete(ls, i + 1, 0);
      SkipFound(ls, i, o, CodeLinesFrom(ls, i + 1, 0), MatchesFrom(ls, i + 1, 0));
    }
  }

  /** Present implies found: the courses of a text are exactly what a
      left-to-right scan finds, none skipped. */
  lemma MatchesComplete(text: string)
    ensures ScanComplete(Lines(text), 0, 0, CodeLinesFrom(Lines(text), 0, 0), Matches(text))
  {
    MatchesFromComplete(Lines(text), 0, 0);
  }

  /** The first title group holds no line break; the second is empty or a
      line break followed by a line. */
  predicate OneLineGroups(m: Match) {
    '\n' !in m.first && (m.second == "" || (m.second[0] == '\n' && '\n' !in m.second[1..]))
  }

  lemma TailHasNoLineBreak(l: string, o: nat)
    requires o <= |l| && '\n' !in l
    ensures '\n' !in l[o..]
  {
    assert forall c :: c in l[o..] ==> c in l;
  }

  /** Every match's title groups have the one-line shape. */
  lemma {:induction false} MatchesFromShape(ls: seq<string>, i: nat, o: nat)
    requires i < |ls| && o <= |ls[i]|
    requires forall k :: 0 <= k < |ls| ==> '\n' !in ls[k]
    ensures forall m :: m in MatchesFrom(ls, i, o) ==> OneLineGroups(m)
    decreases |ls| - i
  {
    if FitsFive(ls, i) {
      MatchesFromShape(ls, i + 4, DateLength);
      TailHasNoLineBreak(ls[i], o);
      assert ("\n" + ls[i + 1])[1..] == ls[i + 1];
      assert OneLineGroups(MatchesFrom(ls, i, o)[0]);
    } else if FitsFour(ls, i) {
      MatchesFromShape(ls, i + 3, DateLength);
      TailHasNoLineBreak(ls[i], o);
      assert OneLineGroups(MatchesFrom(ls, i, o)[0]);
    } else if i + 1 < |ls| {
      MatchesFromShape(ls, i + 1, 0);
    }
  }

  /** Every match of a text has one-line title groups. */
  lemma MatchesShape(text: string)
    ensures forall m :: m in Matches(text) ==> OneLineGroups(m)
  {
    MatchesFromShape(Lines(text), 0, 0);
  }

  lemma ReplaceLineBreak(a: string, b: string)
    requires '\n' !in a && '\n' !in b
    ensures ReplaceChar(a + ("\n" + b), '\n', ' ') == a + " " + b
  {
    var joined := a + ("\n" + b);
    var r := ReplaceChar(joined, '\n', ' ');
    var want := a + " " + b;
    assert |r| == |want|;
    forall i | 0 <= i < |r| ensures r[i] == want[i] {
      if i < |a| {
        assert joined[i] == a[i] && want[i] == a[i];
      } else if i == |a| {
        assert joined[i] == '\n';
      } else {
        assert joined[i] == b[i - |a| - 1] && want[i] == b[i - |a| - 1];
      }
    }
  }

  /** With a second title line, the title is the first line, a space and
      the second line, before the marker is deleted and the ends stripped. */
  lemma TitleJoinsLines(first: string, line2: string, result: string, code: string)
    requires '\n' !in first && '\n' !in line2
    ensures CleanTitle(Match(first, "\n" + line2, result, code))
      == Strip(ReplaceAll(first + " " + line2, "---", ""))
  {
    ReplaceLineBreak(first, line2);
  }

  /** The title of a located match, in terms of the source lines: in a
      four-line block it is the tail of the first title line; in a
      five-line block it is that tail, a space and the next line; either
      with the marker deleted and the ends stripped. */
  lemma LocatedTitle(ls: seq<string>, k: int, m: Match)
    requires IsMatchAt(ls, k, m)
    requires forall i :: 0 <= i < |ls| ==> '\n' !in ls[i]
    ensures m.second == "" ==> CleanTitle(m) == Strip(ReplaceAll(m.first, "---", ""))
    ensures m.second != "" ==> CleanTitle(m) == Strip(ReplaceAll(m.first + " " + ls[k - 2], "---", ""))
  {
    var l := if m.second == "" then ls[k - 2] else ls[k - 3];
    assert '\n' !in m.first by {
      forall i | 0 <= i < |m.first| ensures m.first[i] != '\n' {
        assert m.first[i] == l[|l| - |m.first| + i];
      }
    }
    if m.second == "" {
      var r := ReplaceChar(m.first + m.second, '\n', ' ');
      assert m.first + m.second == m.first;
      assert r == m.first;
    } else {
      TitleJoinsLines(m.first, ls[k - 2], m.result, m.code);
      assert m == Match(m.first, "\n" + ls[k - 2], m.result, m.code);
    }
  }

  /** The title a block located at code line k gives, as lines 120-123
      compute it from the two title groups. */
  predicate HasBlockTitle(ls: seq<string>, k: int, m: Match, title: string)
    requires IsMatchAt(ls, k, m)
  {
    if m.second == "" then title == Strip(ReplaceAll(m.first, "---", ""))
    else title == Strip(ReplaceAll(m.first + " " + ls[k - 2], "---", ""))
  }

  /** Every course of a text comes from a block located in the text, and
      its title is read from that block's title lines. */
  lemma CourseTitlesFromSource(text: string, n: int)
    requires 0 <= n < |Matches(text)|
    ensures exists k ::
              IsMatchAt(Lines(text), k, Matches(text)[n])
              && HasBlockTitle(Lines(text), k, Matches(text)[n], ToCourse(Matches(text)[n]).title)
  {
    MatchesInSourceOrder(text);
    var k := CodeLinesFrom(Lines(text), 0, 0)[n];
    LocatedTitle(Lines(text), k, Matches(text)[n]);
    assert HasBlockTitle(Lines(text), k, Matches(text)[n], ToCourse(Matches(text)[n]).title);
  }

  /** A title holds no line break and has no whitespace at either end. */
  lemma CleanTitleShape(m: Match)
    ensures '\n' !in CleanTitle(m)
    ensures HasNoOuterSpace(CleanTitle(m))
  {
    var joined := ReplaceChar(m.first + m.second, '\n', ' ');
    ReplaceCharRemoves(m.first + m.second, '\n', ' ');
    var deleted := ReplaceAll(joined, "---", "");
    CountZero(joined, '\n');
    CountZero("---", '\n');
    ReplaceAllKeepsCount(joined, "---", "", '\n');
    CountZero(deleted, '\n');
    StripKeepsAbsentChar(deleted, '\n');
  }

  // ---------------------------------------------------------------------
  // The two-block example: each block a title, a result, a code line and a
  // date line. The rest of the first date line (here empty) starts the
  // second block, which is therefore read as a five-line block.

  const TwoBlocks: seq<string> := [
    "Calculus", "Pass", "(MTH101) - (X)", "01/02/2020-30/06/2020",
    "Literature", "Fail", "(ENG200) - (Y)", "01/02/2020-30/06/2020"]

  lemma CodeLineExample(l: string, code: string, other: char)
    requires |code| == 6 && l == "(" + code + ") - (" + [other] + ")"
    ensures IsCodeLine(l) && Code(l) == code
  {
    assert |l| == 14;
    assert l[7..12] == Separator;
    assert LastSeparator(l, 8) == 7 by {
      assert l[8] == ' ';
      assert !OccursAt(l, Separator, 8);
    }
    assert l[1..7] == code;
  }

  lemma TwoBlocksCodeLines()
    ensures IsCodeLine(TwoBlocks[2]) && Code(TwoBlocks[2]) == "MTH101"
    ensures IsCodeLine(TwoBlocks[6]) && Code(TwoBlocks[6]) == "ENG200"
  {
    CodeLineExample(TwoBlocks[2], "MTH101", 'X');
    CodeLineExample(TwoBlocks[6], "ENG200", 'Y');
  }

  lemma TwoBlocksDateLines()
    ensures IsDateLine(TwoBlocks[3]) && IsDateLine(TwoBlocks[7])
  {
  }

  lemma TwoBlocksOtherLines()
    ensures !IsCodeLine(TwoBlocks[0]) && !IsCodeLine(TwoBlocks[1]) && !IsCodeLine(TwoBlocks[3])
    ensures !IsCodeLine(TwoBlocks[4]) && !IsCodeLine(TwoBlocks[5])
    ensures !IsDateLine(TwoBlocks[2]) && !IsDateLine(TwoBlocks[4]) && !IsDateLine(TwoBlocks[6])
  {
    assert TwoBlocks[3][0] == '0';
  }

  /** The second block, read from the rest of the first date line. */
  lemma SecondBlockMatches()
    ensures MatchesFrom(TwoBlocks, 3, DateLength) == [Match("", "\nLiterature", "Fail", "ENG200")]
  {
    var ls := TwoBlocks;
    TwoBlocksCodeLines();
    TwoBlocksDateLines();
    TwoBlocksOtherLines();
    assert ls[3][DateLength..] == "";
    assert MatchesFrom(ls, 7, DateLength) == [];
    assert FitsFive(ls, 3);
    assert "\n" + ls[4] == "\nLiterature";
  }

  lemma TwoBlockLinesMatches()
    ensures MatchesFrom(TwoBlocks, 0, 0) == [
      Match("Calculus", "", "Pass", "MTH101"),
      Match("", "\nLiterature", "Fail", "ENG200")]
  {
    var ls := TwoBlocks;
    TwoBlocksCodeLines();
    TwoBlocksDateLines();
    TwoBlocksOtherLines();
    SecondBlockMatches();
    assert !FitsFive(ls, 0) && FitsFour(ls, 0);
    assert ls[0][0..] == "Calculus";
  }

  lemma TwoBlocksMatches()
    ensures Matches(Join(TwoBlocks)) == [
      Match("Calculus", "", "Pass", "MTH101"),
      Match("", "\nLiterature", "Fail", "ENG200")]
  {
    LinesJoin(TwoBlocks);
    TwoBlockLinesMatches();
  }

  /** The two blocks give exactly two courses, in source order, with their
      titles, codes and results separated. */
  lemma TwoBlocksCourses()
    ensures |Matches(Join(TwoBlocks))| == 2
    ensures ToCourse(Matches(Join(TwoBlocks))[0]) == Course("MTH101", "Calculus", "Pass")
    ensures ToCourse(Matches(Join(TwoBlocks))[1]) == Course("ENG200", "Literature", "Fail")
  {
    TwoBlocksMatches();
    CalculusTitle();
    LiteratureTitle();
  }

  lemma CalculusTitle()
    ensures CleanTitle(Match("Calculus", "", "Pass", "MTH101")) == "Calculus"
  {
    var s := "Calculus";
    assert s + "" == s;
    assert ReplaceChar(s, '\n', ' ') == s by {
      assert forall i :: 0 <= i < |s| ==> s[i] != '\n';
    }
    assert '-' !in s by {
      assert forall i :: 0 <= i < |s| ==> s[i] != '-';
    }
    ReplaceAllNoDashes(s);
    StripFixed(s);
  }

  lemma LiteratureTitle()
    ensures CleanTitle(Match("", "\nLiterature", "Fail", "ENG200")) == "Literature"
  {
    LiteratureJoined();
    LiteratureStripped();
  }

  lemma LiteratureJoined()
    ensures ReplaceAll(ReplaceChar("" + "\nLiterature", '\n', ' '), "---", "") == " Literature"
  {
    LiteratureLineBreak();
    LiteratureNoDashes();
  }

  lemma LiteratureLineBreak()
    ensures ReplaceChar("" + "\nLiterature", '\n', ' ') == " Literature"
  {
    var w := "Literature";
    assert forall i :: 0 <= i < |w| ==> w[i] != '\n';
    ReplaceLineBreak("", w);
    assert "" + ("\n" + w) == "" + "\nLiterature";
    assert "" + " " + w == " Literature";
  }

  lemma LiteratureNoDashes()
    ensures ReplaceAll(" Literature", "---", "") == " Literature"
  {
    var s := " Literature";
    assert forall i :: 0 <= i < |s| ==> s[i] != '-';
    ReplaceAllNoDashes(s);
  }

  lemma LiteratureStripped()
    ensures Strip(" Literature") == "Literature"
  {
    var w := "Literature";
    assert w[0] == 'L' && w[|w| - 1] == 'e';
    StripLeadingSpace(w);
    assert " " + w == " Literature";
  }

  lemma ReplaceAllNoDashes(s: string)
    requires '-' !in s
    ensures ReplaceAll(s, "---", "") == s
  {
    forall i ensures !OccursAt(s, "---", i) {
      if 0 <= i && i + 3 <= |s| {
        assert s[i] != '-';
        assert s[i..i + 3][0] == s[i];
      }
    }
    ReplaceAllNoOccurrence(s, "---", "");
  }
}
