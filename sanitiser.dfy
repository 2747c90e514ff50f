/**
 * The text sanitiser: a font-encoding artifact that PDF text extraction
 * leaves in transcripts, followed by a line break, is rewritten to the
 * marker "---" followed by a line break.
 */
module Sanitiser {
  import opened Text

  /** The glyph sequence "(IdenƟĮer) - (FIⁱⁱ)" the extraction produces. */
  const Glyphs: string := "(Iden\U{019F}\U{012E}er) - (FI\U{2071}\U{2071})"

  /** The literal the pattern matches: the glyphs and a line break. */
  const Artifact: string := Glyphs + "\n"

  /** What each artifact becomes. */
  const Marker: string := "---" + "\n"

  /** re.sub over the fully escaped pattern: a literal replace-all. */
  function Sanitise(text: string): (clean: string)
  {
    ReplaceAll(text, Artifact, Marker)
  }

  /** Text in which the artifact does not occur is returned unchanged. */
  lemma SanitiseNoArtifact(text: string)
    requires forall i :: !OccursAt(text, Artifact, i)
    ensures Sanitise(text) == text
  {
    ReplaceAllNoOccurrence(text, Artifact, Marker);
  }

  /** Everything before the first artifact is kept, the artifact becomes the
      marker, and the rest is sanitised in the same way. */
  lemma SanitiseFirstArtifact(text: string, k: nat)
    requires OccursAt(text, Artifact, k)
    requires forall i :: 0 <= i < k ==> !OccursAt(text, Artifact, i)
    ensures Sanitise(text) == text[..k] + Marker + Sanitise(text[k + |Artifact|..])
  {
    ReplaceAllFirstOccurrence(text, Artifact, Marker, k);
  }

  /** A single artifact between artifact-free text is replaced and nothing
      else changes. The artifact has its only line break at its end, so no
      occurrence can straddle `before` and the artifact. */
  lemma SanitiseOneArtifact(before: string, after: string)
    requires forall i :: !OccursAt(before, Artifact, i)
    requires forall i :: !OccursAt(after, Artifact, i)
    ensures Sanitise(before + Artifact + after) == before + Marker + after
  {
    var text := before + Artifact + after;
    var n := |Artifact|;
    assert text[|before|..|before| + n] == Artifact;
    assert forall j :: 0 <= j < n - 1 ==> Artifact[j] != '\n';
    forall i | 0 <= i < |before| ensures !OccursAt(text, Artifact, i) {
      if i + n <= |before| {
        assert text[i..i + n] == before[i..i + n];
        assert !OccursAt(before, Artifact, i);
      } else if i + n <= |text| {
        assert text[i + n - 1] == Artifact[i + n - 1 - |before|];
        assert text[i..i + n][n - 1] != Artifact[n - 1];
      }
    }
    SanitiseFirstArtifact(text, |before|);
    assert text[..|before|] == before;
    assert text[|before| + n..] == after;
    SanitiseNoArtifact(after);
  }

  lemma ArtifactAndMarkerLineBreaks()
    ensures Count(Artifact, '\n') == 1 && Count(Marker, '\n') == 1
  {
    assert forall j :: 0 <= j < |Glyphs| ==> Glyphs[j] != '\n';
    CountZero(Glyphs, '\n');
    CountAppend(Glyphs, "\n", '\n');
    CountZero("---", '\n');
    CountAppend("---", "\n", '\n');
  }

  /** Sanitising keeps the number of line breaks, so the line structure the
      extractors scan is the same before and after. */
  lemma SanitiseKeepsLineCount(text: string)
    ensures Count(Sanitise(text), '\n') == Count(text, '\n')
  {
    ArtifactAndMarkerLineBreaks();
    ReplaceAllKeepsCount(text, Artifact, Marker, '\n');
  }
}
