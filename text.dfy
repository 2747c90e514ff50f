/** Optional values: Python's `None` or a value. */
module Options {
  datatype Option<+T> = None | Some(value: T)
}

/**
 * The string primitives the extraction pipeline is built from, with ASCII
 * definitions: str.strip, str.upper, str.title, `\d`, str.split('\n'),
 * literal re.sub, and Python's code-point ordering of strings.
 */
module Text {

  // ---------------------------------------------------------------------
  // Character classes

  /** str.isspace() on ASCII: space, \t \n \v \f \r and the separators \x1c-\x1f. */
  predicate IsSpace(c: char) {
    c == ' ' || ('\t' <= c <= '\r') || ('\U{1C}' <= c <= '\U{1F}')
  }

  /** `\d` on ASCII. */
  predicate IsDigit(c: char) {
    '0' <= c <= '9'
  }

  predicate IsLowerLetter(c: char) {
    'a' <= c <= 'z'
  }

  predicate IsUpperLetter(c: char) {
    'A' <= c <= 'Z'
  }

  /** A cased character in the sense of str.title(): an ASCII letter. */
  predicate IsCased(c: char) {
    IsLowerLetter(c) || IsUpperLetter(c)
  }

  function ToUpper(c: char): (u: char)
    ensures IsCased(u) == IsCased(c) && !IsLowerLetter(u)
    ensures IsSpace(u) == IsSpace(c)
    ensures IsLowerLetter(c) ==> u as int == c as int - 32
    ensures !IsLowerLetter(c) ==> u == c
  {
    if IsLowerLetter(c) then (c as int - 32) as char else c
  }

  function ToLower(c: char): (l: char)
    ensures IsCased(l) == IsCased(c) && !IsUpperLetter(l)
    ensures IsUpperLetter(c) ==> l as int == c as int + 32
    ensures !IsUpperLetter(c) ==> l == c
  {
    if IsUpperLetter(c) then (c as int + 32) as char else c
  }

  // ---------------------------------------------------------------------
  // str.strip()

  /** Number of consecutive whitespace characters of `s` from index `k` on. */
  function SpacesFrom(s: string, k: nat): (n: nat)
    requires k <= |s|
    ensures k + n <= |s|
    ensures forall i :: k <= i < k + n ==> IsSpace(s[i])
    ensures k + n == |s| || !IsSpace(s[k + n])
    decreases |s| - k
  {
    if k < |s| && IsSpace(s[k]) then 1 + SpacesFrom(s, k + 1) else 0
  }

  /** Number of consecutive whitespace characters of `s` just before index `j`. */
  function SpacesBefore(s: string, j: nat): (n: nat)
    requires j <= |s|
    ensures n <= j
    ensures forall i :: j - n <= i < j ==> IsSpace(s[i])
    ensures n == j || !IsSpace(s[j - n - 1])
  {
    if j > 0 && IsSpace(s[j - 1]) then 1 + SpacesBefore(s, j - 1) else 0
  }

  /** `r` is `s` with its first `k` characters, all whitespace, and its
      trailing whitespace cut, and `r` itself has no outer whitespace. */
  predicate IsStripAt(s: string, r: string, k: int) {
    0 <= k <= |s| - |r| && r == s[k..k + |r|]
    && (forall i :: 0 <= i < k ==> IsSpace(s[i]))
    && (forall i :: k + |r| <= i < |s| ==> IsSpace(s[i]))
    && HasNoOuterSpace(r)
  }

  ghost predicate IsStripOf(s: string, r: string) {
    exists k :: IsStripAt(s, r, k)
  }

  predicate HasNoOuterSpace(r: string) {
    r == [] || (!IsSpace(r[0]) && !IsSpace(r[|r| - 1]))
  }

  /** str.strip() with no argument. */
  function Strip(s: string): (r: string)
    ensures IsStripOf(s, r)
    ensures HasNoOuterSpace(r)
  {
    var a := SpacesFrom(s, 0);
    if a == |s| then
      assert IsStripAt(s, [], |s|);
      []
    else
      var e := |s| - SpacesBefore(s, |s|);
      assert a < e;
      assert IsStripAt(s, s[a..e], a);
      s[a..e]
  }

  /** A string without outer whitespace is its own strip. */
  lemma StripFixed(s: string)
    requires HasNoOuterSpace(s)
    ensures Strip(s) == s
  {
    if s != [] {
      assert SpacesFrom(s, 0) == 0;
      assert SpacesBefore(s, |s|) == 0;
      assert s[0..|s|] == s;
    }
  }

  /** One leading space in front of a word without outer whitespace is stripped. */
  lemma StripLeadingSpace(w: string)
    requires w != [] && HasNoOuterSpace(w)
    ensures Strip(" " + w) == w
  {
    var s := " " + w;
    assert s[1] == w[0] && s[|s| - 1] == w[|w| - 1];
    assert SpacesFrom(s, 1) == 0;
    assert SpacesFrom(s, 0) == 1;
    assert SpacesBefore(s, |s|) == 0;
    assert s[1..|s|] == w;
  }

  /** A strip never contains a character the original string lacks. */
  lemma StripKeepsAbsentChar(s: string, c: char)
    requires c !in s
    ensures c !in Strip(s)
  {
    var r := Strip(s);
    var k :| IsStripAt(s, r, k);
    forall i | 0 <= i < |r| ensures r[i] != c {
      assert r[i] == s[k + i];
    }
  }

  // ---------------------------------------------------------------------
  // str.upper() and str.title()

  function Upper(s: string): (r: string)
    ensures |r| == |s|
    ensures forall i :: 0 <= i < |s| ==> r[i] == ToUpper(s[i])
  {
    seq(|s|, i requires 0 <= i < |s| => ToUpper(s[i]))
  }

  /** Title-casing of `s` when the character before it is cased iff `afterCased`. */
  function TitleFrom(s: string, afterCased: bool): (t: string)
  {
    if s == [] then []
    else
      var c := s[0];
      var t := if !IsCased(c) then c else if afterCased then ToLower(c) else ToUpper(c);
      [t] + TitleFrom(s[1..], IsCased(c))
  }

  /** str.title(): a cased character is upper-cased after an uncased one (or
      at the start) and lower-cased after a cased one; others are kept. */
  function Title(s: string): (t: string)
  {
    TitleFrom(s, false)
  }

  /** The character-by-character reading of str.title(). */
  function TitleChar(s: string, i: nat): char
    requires i < |s|
  {
    if !IsCased(s[i]) then s[i]
    else if i == 0 || !IsCased(s[i - 1]) then ToUpper(s[i])
    else ToLower(s[i])
  }

  lemma {:induction false} TitleFromAt(s: string, afterCased: bool, i: nat)
    requires i < |s|
    ensures |TitleFrom(s, afterCased)| == |s|
    ensures TitleFrom(s, afterCased)[i] ==
      if !IsCased(s[i]) then s[i]
      else if (if i == 0 then afterCased else IsCased(s[i - 1])) then ToLower(s[i])
      else ToUpper(s[i])
    decreases i
  {
    if i == 0 {
      TitleFromLength(s[1..], IsCased(s[0]));
    } else {
      TitleFromAt(s[1..], IsCased(s[0]), i - 1);
    }
  }

  lemma {:induction false} TitleFromLength(s: string, afterCased: bool)
    ensures |TitleFrom(s, afterCased)| == |s|
  {
    if s != [] {
      TitleFromLength(s[1..], IsCased(s[0]));
    }
  }

  /** Title agrees, position by position, with the character-level reading. */
  lemma TitleIsPointwise(s: string)
    ensures |Title(s)| == |s|
    ensures forall i :: 0 <= i < |s| ==> Title(s)[i] == TitleChar(s, i)
  {
    TitleFromLength(s, false);
    forall i | 0 <= i < |s| ensures Title(s)[i] == TitleChar(s, i) {
      TitleFromAt(s, false, i);
    }
  }

  /** Title-casing a title-cased string changes nothing. */
  lemma TitleIdempotent(s: string)
    ensures Title(Title(s)) == Title(s)
  {
    var t := Title(s);
    TitleIsPointwise(s);
    TitleIsPointwise(t);
    assert forall i :: 0 <= i < |s| ==> IsCased(t[i]) == IsCased(s[i]);
    forall i | 0 <= i < |s| ensures Title(t)[i] == t[i] {
      assert IsCased(t[i]) == IsCased(s[i]);
      if i > 0 {
        assert IsCased(t[i - 1]) == IsCased(s[i - 1]);
      }
    }
  }

  // ---------------------------------------------------------------------
  // Splitting into lines: str.split('\n') and "\n".join

  /** Index of the first `c` in `s`, or |s| if there is none. */
  function IndexOf(s: string, c: char): (k: nat)
    ensures k <= |s| && (k < |s| ==> s[k] == c)
    ensures forall i :: 0 <= i < k ==> s[i] != c
  {
    if s == [] then 0
    else if s[0] == c then 0
    else 1 + IndexOf(s[1..], c)
  }

  /** text.split('\n'): always at least one line, none holding a '\n'. */
  function Lines(text: string): (ls: seq<string>)
    ensures |ls| >= 1
    ensures forall i :: 0 <= i < |ls| ==> '\n' !in ls[i]
    decreases |text|
  {
    var k := IndexOf(text, '\n');
    if k == |text| then [text] else [text[..k]] + Lines(text[k + 1..])
  }

  /** "\n".join(ls). */
  function Join(ls: seq<string>): (text: string)
  {
    if |ls| == 0 then ""
    else if |ls| == 1 then ls[0]
    else ls[0] + "\n" + Join(ls[1..])
  }

  /** Joining the lines of a text gives the text back. */
  lemma {:induction false} JoinLines(text: string)
    ensures Join(Lines(text)) == text
    decreases |text|
  {
    var k := IndexOf(text, '\n');
    if k < |text| {
      JoinLines(text[k + 1..]);
      assert text == text[..k] + "\n" + text[k + 1..];
    }
  }

  /** Splitting a join of newline-free lines gives the lines back. */
  lemma {:induction false} LinesJoin(ls: seq<string>)
    requires |ls| >= 1
    requires forall i :: 0 <= i < |ls| ==> '\n' !in ls[i]
    ensures Lines(Join(ls)) == ls
  {
    var t := Join(ls);
    if |ls| == 1 {
      assert IndexOf(t, '\n') == |t|;
    } else {
      LinesJoin(ls[1..]);
      var k := IndexOf(t, '\n');
      assert t == ls[0] + "\n" + Join(ls[1..]);
      assert t[|ls[0]|] == '\n';
      assert forall i :: 0 <= i < |ls[0]| ==> t[i] == ls[0][i] && t[i] != '\n';
      assert k == |ls[0]|;
      assert t[..k] == ls[0];
      assert t[k + 1..] == Join(ls[1..]);
    }
  }

  // ---------------------------------------------------------------------
  // Literal replace-all: re.sub on a fully escaped pattern

  /** `pat` occurs in `s` at index `i`. */
  predicate OccursAt(s: string, pat: string, i: int) {
    0 <= i && i + |pat| <= |s| && s[i..i + |pat|] == pat
  }

  predicate StartsWith(s: string, pat: string) {
    |pat| <= |s| && s[..|pat|] == pat
  }

  /** re.sub(escape(pat), rep, s): scan left to right, replace each occurrence
      and resume after it, so occurrences never overlap. */
  function ReplaceAll(s: string, pat: string, rep: string): (r: string)
    requires pat != []
    decreases |s|
  {
    if s == [] then []
    else if StartsWith(s, pat) then rep + ReplaceAll(s[|pat|..], pat, rep)
    else [s[0]] + ReplaceAll(s[1..], pat, rep)
  }

  /** Text in which the pattern does not occur is returned unchanged. */
  lemma {:induction false} ReplaceAllNoOccurrence(s: string, pat: string, rep: string)
    requires pat != []
    requires forall i :: !OccursAt(s, pat, i)
    ensures ReplaceAll(s, pat, rep) == s
    decreases |s|
  {
    if s != [] {
      assert !OccursAt(s, pat, 0);
      forall i ensures !OccursAt(s[1..], pat, i) {
        if 0 <= i && i + |pat| <= |s| - 1 {
          assert !OccursAt(s, pat, i + 1);
          assert s[1..][i..i + |pat|] == s[i + 1..i + 1 + |pat|];
        }
      }
      ReplaceAllNoOccurrence(s[1..], pat, rep);
    }
  }

  /** An occurrence at `k` is replaced and the scan resumes after it. */
  lemma ReplaceAllAt(s: string, pat: string, rep: string, k: nat)
    requires pat != [] && OccursAt(s, pat, k)
    ensures ReplaceAll(s[k..], pat, rep) == rep + ReplaceAll(s[k + |pat|..], pat, rep)
  {
    assert s[k..][..|pat|] == s[k..k + |pat|];
    assert s[k..][|pat|..] == s[k + |pat|..];
  }

  /** A character where no occurrence starts is copied. */
  lemma ReplaceAllPast(s: string, pat: string, rep: string, j: nat)
    requires pat != [] && j < |s| && !OccursAt(s, pat, j)
    ensures ReplaceAll(s[j..], pat, rep) == [s[j]] + ReplaceAll(s[j + 1..], pat, rep)
  {
    assert |pat| <= |s[j..]| ==> s[j..][..|pat|] == s[j..j + |pat|];
    assert s[j..][1..] == s[j + 1..];
  }

  /** The scan from index `j` up to the first occurrence, at `k`. */
  lemma {:induction false} ReplaceAllUpTo(s: string, pat: string, rep: string, j: nat, k: nat)
    requires pat != [] && j <= k
    requires OccursAt(s, pat, k)
    requires forall i :: j <= i < k ==> !OccursAt(s, pat, i)
    ensures ReplaceAll(s[j..], pat, rep) == s[j..k] + rep + ReplaceAll(s[k + |pat|..], pat, rep)
    decreases k - j
  {
    if j == k {
      ReplaceAllAt(s, pat, rep, k);
      assert s[k..k] == [];
    } else {
      var rest := ReplaceAll(s[k + |pat|..], pat, rep);
      calc {
        ReplaceAll(s[j..], pat, rep);
        { ReplaceAllPast(s, pat, rep, j); }
        [s[j]] + ReplaceAll(s[j + 1..], pat, rep);
        { ReplaceAllUpTo(s, pat, rep, j + 1, k); }
        [s[j]] + (s[j + 1..k] + rep + rest);
        ([s[j]] + s[j + 1..k]) + rep + rest;
        { assert [s[j]] + s[j + 1..k] == s[j..k]; }
        s[j..k] + rep + rest;
      }
    }
  }

  /** The text before the first occurrence is kept, that occurrence is
      replaced, and the scan carries on right after it. */
  lemma ReplaceAllFirstOccurrence(s: string, pat: string, rep: string, k: nat)
    requires pat != []
    requires OccursAt(s, pat, k)
    requires forall i :: 0 <= i < k ==> !OccursAt(s, pat, i)
    ensures ReplaceAll(s, pat, rep) == s[..k] + rep + ReplaceAll(s[k + |pat|..], pat, rep)
  {
    ReplaceAllUpTo(s, pat, rep, 0, k);
    assert s[0..] == s && s[0..k] == s[..k];
  }

  /** Number of `c` in `s`. */
  function Count(s: string, c: char): (n: nat)
  {
    if s == [] then 0 else (if s[0] == c then 1 else 0) + Count(s[1..], c)
  }

  lemma {:induction false} CountAppend(a: string, b: string, c: char)
    ensures Count(a + b, c) == Count(a, c) + Count(b, c)
  {
    if a == [] {
      assert a + b == b;
    } else {
      assert (a + b)[0] == a[0];
      assert (a + b)[1..] == a[1..] + b;
      CountAppend(a[1..], b, c);
    }
  }

  lemma {:induction false} CountPrefix(s: string, n: nat, c: char)
    requires n <= |s|
    ensures Count(s, c) == Count(s[..n], c) + Count(s[n..], c)
  {
    assert s == s[..n] + s[n..];
    CountAppend(s[..n], s[n..], c);
  }

  /** A character is absent exactly when it is counted zero times. */
  lemma {:induction false} CountZero(s: string, c: char)
    ensures Count(s, c) == 0 <==> c !in s
  {
    if s != [] {
      CountZero(s[1..], c);
      assert s == [s[0]] + s[1..];
    }
  }

  /** Replacing a pattern by text with as many `c` keeps the number of `c`. */
  lemma {:induction false} ReplaceAllKeepsCount(s: string, pat: string, rep: string, c: char)
    requires pat != []
    requires Count(pat, c) == Count(rep, c)
    ensures Count(ReplaceAll(s, pat, rep), c) == Count(s, c)
    decreases |s|
  {
    if s == [] {
    } else if StartsWith(s, pat) {
      ReplaceAllKeepsCount(s[|pat|..], pat, rep, c);
      CountAppend(rep, ReplaceAll(s[|pat|..], pat, rep), c);
      CountPrefix(s, |pat|, c);
    } else {
      ReplaceAllKeepsCount(s[1..], pat, rep, c);
      CountAppend([s[0]], ReplaceAll(s[1..], pat, rep), c);
      CountPrefix(s, 1, c);
    }
  }

  /** re.sub of a single character by another: every `from` becomes `to`. */
  function ReplaceChar(s: string, from: char, to: char): (r: string)
    ensures |r| == |s|
    ensures forall i :: 0 <= i < |s| ==> r[i] == (if s[i] == from then to else s[i])
  {
    seq(|s|, i requires 0 <= i < |s| => if s[i] == from then to else s[i])
  }

  /** After replacing `from` by a different character, `from` is gone. */
  lemma ReplaceCharRemoves(s: string, from: char, to: char)
    requires from != to
    ensures from !in ReplaceChar(s, from, to)
  {
    var r := ReplaceChar(s, from, to);
    assert forall i :: 0 <= i < |r| ==> r[i] != from;
  }

  // ---------------------------------------------------------------------
  // Python's string order: lexicographic on code points

  predicate LexLess(a: string, b: string)
    decreases |a|
  {
    if a == [] then b != []
    else if b == [] then false
    else if a[0] != b[0] then a[0] < b[0]
    else LexLess(a[1..], b[1..])
  }

  lemma {:induction false} LexIrreflexive(a: string)
    ensures !LexLess(a, a)
  {
    if a != [] {
      LexIrreflexive(a[1..]);
    }
  }

  lemma {:induction false} LexTransitive(a: string, b: string, c: string)
    requires LexLess(a, b) && LexLess(b, c)
    ensures LexLess(a, c)
    decreases |a|
  {
    if a != [] && b != [] && c != [] && a[0] == b[0] && b[0] == c[0] {
      LexTransitive(a[1..], b[1..], c[1..]);
    }
  }

  /** Of two different strings one is below the other. */
  lemma {:induction false} LexTotal(a: string, b: string)
    requires a != b
    ensures LexLess(a, b) || LexLess(b, a)
    decreases |a|
  {
    if a != [] && b != [] && a[0] == b[0] {
      assert a == [a[0]] + a[1..] && b == [b[0]] + b[1..];
      LexTotal(a[1..], b[1..]);
    }
  }

  lemma {:induction false} LexAsymmetric(a: string, b: string)
    requires LexLess(a, b)
    ensures !LexLess(b, a)
    decreases |a|
  {
    if a != [] && b != [] && a[0] == b[0] {
      LexAsymmetric(a[1..], b[1..]);
    }
  }
}
