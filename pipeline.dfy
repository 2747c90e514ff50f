/**
 * The pipeline around the extractors: one document's page texts become its
 * text, the text becomes rows [name, result, code, title]; the rows of all
 * documents are concatenated, sorted by (name, title), and filtered down to
 * the target titles.
 */
module Pipeline {
  import opened Options
  import opened Text
  import opened Sanitiser
  import opened NameExtractor
  import opened CourseExtractor
  import opened TargetCourses
  import opened Rows

  /** The page texts, appended in page order. */
  function Concat(pages: seq<string>): (text: string)
    decreases |pages|
  {
    if pages == [] then "" else Concat(pages[..|pages| - 1]) + pages[|pages| - 1]
  }

  /** The text a document's rows are read from. */
  function DocText(pages: seq<string>): (text: string)
  {
    Sanitise(Concat(pages))
  }

  /** __get_all_text from the page texts on: append the pages, then sanitise. */
  method GetAllText(pages: seq<string>) returns (text: string)
    ensures text == DocText(pages)
  {
    var all := "";
    for i := 0 to |pages|
      invariant all == Concat(pages[..i])
    {
      assert pages[..i + 1][..i] == pages[..i];
      all := all + pages[i];
    }
    assert pages[..|pages|] == pages;
    text := Sanitise(all);
  }

  /** The remap of line 198: [code, title, result] becomes [name, result, code, title]. */
  function RowOf(name: Option<string>, c: Course): (row: Row)
  {
    Row(name, c.result, c.code, c.title)
  }

  /** The rows of one document under the name `name`: one per matched block,
      in source order. */
  ghost predicate IsDocRowsNamed(text: string, name: Option<string>, rows: seq<Row>) {
    IsNameOf(text, name)
    && |rows| == |Matches(text)|
    && forall k :: 0 <= k < |rows| ==> rows[k] == RowOf(name, ToCourse(Matches(text)[k]))
  }

  /** What process_pdf may return for a document: its rows under one of the
      names the name extractor may choose. */
  ghost predicate IsDocRows(pages: seq<string>, rows: seq<Row>) {
    exists name :: IsDocRowsNamed(DocText(pages), name, rows)
  }

  /** The loop of process_pdf. */
  method RemapRows(name: Option<string>, courses: seq<Course>) returns (rows: seq<Row>)
    ensures |rows| == |courses|
    ensures forall k :: 0 <= k < |rows| ==> rows[k] == RowOf(name, courses[k])
  {
    rows := [];
    for k := 0 to |courses|
      invariant |rows| == k
      invariant forall n :: 0 <= n < k ==> rows[n] == RowOf(name, courses[n])
    {
      var c := courses[k];
      rows := rows + [Row(name, c.result, c.code, c.title)];
    }
  }

  /** process_pdf: the rows of one document, all under the same name. */
  method ProcessPdf(pages: seq<string>) returns (rows: seq<Row>)
    ensures IsDocRows(pages, rows)
    ensures |rows| == |Matches(DocText(pages))|
    ensures forall k :: 0 <= k < |rows| ==> rows[k].name == rows[0].name
    ensures forall k :: 0 <= k < |rows| ==>
      rows[k].code == Matches(DocText(pages))[k].code
      && rows[k].result == Matches(DocText(pages))[k].result
      && rows[k].title == CleanTitle(Matches(DocText(pages))[k])
    ensures rows != [] ==> IsNameOf(DocText(pages), rows[0].name)
  {
    var text := GetAllText(pages);
    var name := GetNameFromText(text);
    var courses := GetAllCourses(text);
    rows := RemapRows(name, courses);
    assert IsDocRowsNamed(text, name, rows);
  }

  /** The rows of a document are fixed up to the name's tie-break: two
      possible results agree on length, code, result and title, and on
      whether the name is None. */
  lemma DocRowsDetermined(pages: seq<string>, r1: seq<Row>, r2: seq<Row>)
    requires IsDocRows(pages, r1) && IsDocRows(pages, r2)
    ensures |r1| == |r2|
    ensures forall k :: 0 <= k < |r1| ==>
      r1[k].code == r2[k].code && r1[k].result == r2[k].result && r1[k].title == r2[k].title
      && (r1[k].name.None? <==> r2[k].name.None?)
  {
    var text := DocText(pages);
    var n1 :| IsDocRowsNamed(text, n1, r1);
    var n2 :| IsDocRowsNamed(text, n2, r2);
    assert n1.None? <==> n2.None?;
  }

  /** A document without page footers gives rows without a name. */
  lemma NoFooterNoName(pages: seq<string>, rows: seq<Row>)
    requires IsDocRows(pages, rows) && !HasFooter(DocText(pages))
    ensures forall k :: 0 <= k < |rows| ==> rows[k].name == None
  {
    var text := DocText(pages);
    CandidatesEmptyIff(text);
    var n :| IsDocRowsNamed(text, n, rows);
  }

  /** The rows of all documents, appended in document order. */
  function Flatten(parts: seq<seq<Row>>): (all: seq<Row>)
    decreases |parts|
  {
    if parts == [] then [] else Flatten(parts[..|parts| - 1]) + parts[|parts| - 1]
  }

  /** What the merge loop of process_all_pdfs may produce: some possible
      rows of every document, concatenated in order. */
  ghost predicate IsMergedRows(docs: seq<seq<string>>, all: seq<Row>) {
    exists parts: seq<seq<Row>> ::
      |parts| == |docs|
      && (forall d :: 0 <= d < |docs| ==> IsDocRows(docs[d], parts[d]))
      && all == Flatten(parts)
  }

  /** `a` and `b` have the same length and lack a name at the same positions. */
  predicate SameNameKinds(a: seq<Row>, b: seq<Row>) {
    |a| == |b| && forall k :: 0 <= k < |a| ==> (a[k].name.None? <==> b[k].name.None?)
  }

  lemma SameNameKindsAppend(a1: seq<Row>, a2: seq<Row>, b1: seq<Row>, b2: seq<Row>)
    requires SameNameKinds(a1, b1) && SameNameKinds(a2, b2)
    ensures SameNameKinds(a1 + a2, b1 + b2)
  {
    forall k | 0 <= k < |a1 + a2|
      ensures (a1 + a2)[k].name.None? <==> (b1 + b2)[k].name.None?
    {
      if k >= |a1| {
        assert (a1 + a2)[k] == a2[k - |a1|] && (b1 + b2)[k] == b2[k - |b1|];
      }
    }
  }

  /** Two choices of rows for every document flatten to lists that lack a
      name at the same positions. */
  lemma {:induction false} FlattenNameKinds(docs: seq<seq<string>>, p1: seq<seq<Row>>, p2: seq<seq<Row>>)
    requires |p1| == |docs| && |p2| == |docs|
    requires forall d :: 0 <= d < |docs| ==> IsDocRows(docs[d], p1[d]) && IsDocRows(docs[d], p2[d])
    ensures SameNameKinds(Flatten(p1), Flatten(p2))
    decreases |docs|
  {
    if docs != [] {
      var n := |docs| - 1;
      FlattenNameKinds(docs[..n], p1[..n], p2[..n]);
      DocRowsDetermined(docs[n], p1[n], p2[n]);
      SameNameKindsAppend(Flatten(p1[..n]), p1[n], Flatten(p2[..n]), p2[n]);
    }
  }

  /** Whichever names the documents get, every possible merge lacks a name
      at the same positions. */
  lemma MergedNameKinds(docs: seq<seq<string>>, a: seq<Row>, b: seq<Row>)
    requires IsMergedRows(docs, a) && IsMergedRows(docs, b)
    ensures SameNameKinds(a, b)
  {
    var p1 :| |p1| == |docs| && (forall d :: 0 <= d < |docs| ==> IsDocRows(docs[d], p1[d])) && a == Flatten(p1);
    var p2 :| |p2| == |docs| && (forall d :: 0 <= d < |docs| ==> IsDocRows(docs[d], p2[d])) && b == Flatten(p2);
    FlattenNameKinds(docs, p1, p2);
  }

  /** So every possible merge can be sorted, or none can. */
  lemma MergedSortability(docs: seq<seq<string>>, a: seq<Row>, b: seq<Row>)
    requires IsMergedRows(docs, a) && IsMergedRows(docs, b)
    ensures UniformNames(a) <==> UniformNames(b)
  {
    MergedNameKinds(docs, a, b);
  }

  /** How a run ends: no document to process (the program exits), the sort
      raises TypeError, or the two reports. */
  datatype Outcome = NoDocuments | SortFailed | Reports(full: seq<Row>, filtered: seq<Row>)

  /** The merge loop of process_all_pdfs. */
  method MergeRows(docs: seq<seq<string>>) returns (all: seq<Row>)
    ensures IsMergedRows(docs, all)
  {
    all := [];
    ghost var parts: seq<seq<Row>> := [];
    for d := 0 to |docs|
      invariant |parts| == d
      invariant forall e :: 0 <= e < d ==> IsDocRows(docs[e], parts[e])
      invariant all == Flatten(parts)
    {
      var rows := ProcessPdf(docs[d]);
      assert (parts + [rows])[..d] == parts;
      parts := parts + [rows];
      all := all + rows;
    }
  }

  /** process_all_pdfs. `docs` holds the page texts of every document found;
      `targetFile` the lines of the target file, or None when it cannot be
      read. */
  method ProcessAll(docs: seq<seq<string>>, targetFile: Option<seq<string>>) returns (outcome: Outcome)
    ensures outcome.NoDocuments? <==> docs == []
    ensures outcome.SortFailed? <==> docs != [] && exists all :: IsMergedRows(docs, all) && !UniformNames(all)
    ensures outcome.Reports? ==>
      exists all :: IsMergedRows(docs, all) && UniformNames(all) && IsStableSortOf(outcome.full, all)
        && multiset(outcome.full) == multiset(all)
    ensures outcome.Reports? ==> outcome.filtered == Kept(outcome.full, TargetSet(targetFile))
  {
    if |docs| == 0 {
      return NoDocuments;
    }
    var all := MergeRows(docs);
    if !UniformNames(all) {
      return SortFailed;
    }
    forall other | IsMergedRows(docs, other) ensures UniformNames(other) {
      MergedSortability(docs, all, other);
    }
    var full := SortRows(all);
    var targets := LoadTargets(targetFile);
    assert (set t | t in targets) == TargetSet(targetFile);
    var filtered := FilterRows(full, targets);
    outcome := Reports(full, filtered);
  }

  lemma CalculusNormalised()
    ensures Normalise("Calculus") == "CALCULUS"
  {
    StripFixed("Calculus");
    assert Upper("Calculus") == "CALCULUS";
  }

  /** Targets are upper-cased but titles are compared as extracted: a target
      line "Calculus" does not keep a row titled "Calculus". */
  lemma TargetsMatchUpperCaseTitles()
    ensures Kept([Alice], TargetSet(Some(["Calculus"]))) == []
  {
    var l := "Calculus";
    CalculusNormalised();
    assert forall x :: x in [l] ==> x == l;
    assert "Calculus" !in TargetSet(Some([l]));
    assert [Alice][..0] == [];
  }
}
