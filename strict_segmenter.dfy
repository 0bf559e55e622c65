/**
 * The strict transcript segmenter (scraping/txttocsv.py): every speaker-marker
 * match opens a speech that runs to the start of the next match. Text before
 * the first marker is discarded, and empty or procedural speeches are dropped.
 *
 * The marker regex itself is not modelled: its finditer result is an input,
 * a sequence of match spans inside the text, in order and not overlapping.
 */
module StrictSegmenter {
  import opened PyText
  import opened Sequences

  /** The span text[start:end] of one speaker-marker match. */
  datatype Match = Match(start: nat, end: nat)

  /** One CSV row. */
  datatype Pair = Pair(speaker: string, speech: string)

  /** What finditer guarantees: each span lies inside the text and ends before the next one starts. */
  predicate FinditerMatches(text: string, ms: seq<Match>) {
    && (forall i :: 0 <= i < |ms| ==> ms[i].start <= ms[i].end <= |text|)
    && (forall i, j :: 0 <= i < j < |ms| ==> ms[i].end <= ms[j].start)
  }

  // ------------------------------------------------------------ speaker

  predicate IsColon(c: char) {
    c == ':'
  }

  /** match.group().rstrip(":").strip(), then every whitespace run replaced by one space. */
  function SpeakerLabel(group: string): string {
    Collapse(Strip(RStripBy(group, IsColon)))
  }

  /**
   * The label is the words of the match once its trailing colons are gone,
   * joined by single spaces: it holds no whitespace run, no leading or
   * trailing whitespace, and no trailing colon directly after the last word
   * of the match.
   */
  lemma SpeakerLabelIsJoinOfWords(group: string)
    ensures Canonical(SpeakerLabel(group))
    ensures SpeakerLabel(group) == JoinWords(Words(RStripBy(group, IsColon)))
  {
    var x := RStripBy(group, IsColon);
    WordsOfStrip(x);
    WordsOfCollapse(Strip(x));
    CanonicalIsJoinOfWords(SpeakerLabel(group));
  }

  // ------------------------------------------------------------- speech

  /** Where the speech of match i stops: the start of the next match, or the end of the text. */
  function SpeechEnd(text: string, ms: seq<Match>, i: nat): nat
    requires i < |ms|
  {
    if i + 1 < |ms| then ms[i + 1].start else |text|
  }

  /** The speech of match i: the text up to the next match, stripped. */
  function CandidateSpeech(text: string, ms: seq<Match>, i: nat): string
    requires i < |ms|
  {
    Strip(PySlice(text, ms[i].end, SpeechEnd(text, ms, i)))
  }

  /** The row match i would produce before filtering. */
  function Candidate(text: string, ms: seq<Match>, i: nat): Pair
    requires i < |ms|
  {
    Pair(SpeakerLabel(PySlice(text, ms[i].start, ms[i].end)), CandidateSpeech(text, ms, i))
  }

  /** One candidate row per match, in match order. */
  function Candidates(text: string, ms: seq<Match>): (cs: seq<Pair>)
    ensures |cs| == |ms|
  {
    seq(|ms|, i requires 0 <= i < |ms| => Candidate(text, ms, i))
  }

  /**
   * The speech of match i is the piece of the text that starts after the
   * leading whitespace following match i and stops before match i + 1 (or
   * the end of the text): it never takes text from a neighbouring speech,
   * whether that neighbour is kept or dropped.
   */
  lemma CandidateSpeechWithin(text: string, ms: seq<Match>, i: nat)
    requires FinditerMatches(text, ms)
    requires i < |ms|
    ensures var e, stop, sp := ms[i].end, SpeechEnd(text, ms, i), CandidateSpeech(text, ms, i);
            && e <= stop <= |text|
            && var lo := e + LeadLen(text[e..stop], IsSpace);
               lo + |sp| <= stop && sp == text[lo..lo + |sp|]
  {
    var e, stop := ms[i].end, SpeechEnd(text, ms, i);
    if i + 1 < |ms| {
      assert ms[i].end <= ms[i + 1].start;
    }
    StripOfSlice(text, e, stop, CandidateSpeech(text, ms, i));
  }

  // ------------------------------------------------------------- filter

  /** The phrases whose presence marks a speech as procedural. */
  const ProceduralPhrases: seq<string> := ["seconded by", "laid on the Table", "dress had said", "now the House"]

  /** Case folding for IGNORECASE, on ASCII letters. */
  function Fold(c: char): char {
    if 'A' <= c <= 'Z' then (c as int + 32) as char else c
  }

  /** \b at position i: the characters on either side differ in being word characters. */
  predicate WordBoundary(s: string, i: nat)
    requires i <= |s|
  {
    (i > 0 && IsWordChar(s[i - 1])) != (i < |s| && IsWordChar(s[i]))
  }

  /** \b p \b matches s at position i, ignoring case. */
  predicate PhraseAt(s: string, i: nat, p: string) {
    && i + |p| <= |s|
    && (forall k :: 0 <= k < |p| ==> Fold(s[i + k]) == Fold(p[k]))
    && WordBoundary(s, i)
    && WordBoundary(s, i + |p|)
  }

  /** re.search of the procedural-phrase pattern finds a match somewhere in s. */
  predicate IsProcedural(s: string) {
    exists p, i: nat :: p in ProceduralPhrases && i <= |s| && PhraseAt(s, i, p)
  }

  /** A listed phrase standing as a whole word anywhere in a speech makes it procedural. */
  lemma ProceduralPhraseAnywhere(before: string, p: string, after: string)
    requires p in ProceduralPhrases
    requires before == [] || !IsWordChar(before[|before| - 1])
    requires after == [] || !IsWordChar(after[0])
    ensures IsProcedural(before + p + after)
  {
    PhrasesAreWords(p);
    PhraseBetween(before, p, after);
  }

  lemma PhrasesAreWords(p: string)
    requires p in ProceduralPhrases
    ensures p != [] && IsWordChar(p[0]) && IsWordChar(p[|p| - 1])
  {
  }

  lemma PhraseBetween(before: string, p: string, after: string)
    requires p != [] && IsWordChar(p[0]) && IsWordChar(p[|p| - 1])
    requires before == [] || !IsWordChar(before[|before| - 1])
    requires after == [] || !IsWordChar(after[0])
    ensures PhraseAt(before + p + after, |before|, p)
  {
    var s := before + p + after;
    var i := |before|;
    assert forall k :: 0 <= k < |p| ==> s[i + k] == p[k];
    assert i + |p| < |s| ==> s[i + |p|] == after[0];
    assert i > 0 ==> s[i - 1] == before[i - 1];
  }

  /** Characters with the same case fold agree on being word characters. */
  lemma FoldKeepsWordChar(c: char, d: char)
    requires Fold(c) == Fold(d)
    ensures IsWordChar(c) <==> IsWordChar(d)
  {
  }

  /** The search ignores case: texts equal up to ASCII case are both procedural or both not. */
  lemma ProceduralIgnoresCase(s: string, t: string)
    requires |s| == |t|
    requires forall k :: 0 <= k < |s| ==> Fold(s[k]) == Fold(t[k])
    ensures IsProcedural(s) <==> IsProcedural(t)
  {
    if IsProcedural(s) {
      ProceduralTransfers(s, t);
    }
    if IsProcedural(t) {
      ProceduralTransfers(t, s);
    }
  }

  lemma ProceduralTransfers(s: string, t: string)
    requires |s| == |t|
    requires forall k :: 0 <= k < |s| ==> Fold(s[k]) == Fold(t[k])
    requires IsProcedural(s)
    ensures IsProcedural(t)
  {
    var p, i: nat :| p in ProceduralPhrases && i <= |s| && PhraseAt(s, i, p);
    forall k | 0 <= k < |p| ensures Fold(t[i + k]) == Fold(p[k]) {
      assert Fold(s[i + k]) == Fold(t[i + k]);
    }
    BoundaryTransfers(s, t, i);
    BoundaryTransfers(s, t, i + |p|);
    assert PhraseAt(t, i, p);
  }

  lemma BoundaryTransfers(s: string, t: string, i: nat)
    requires |s| == |t| && i <= |s|
    requires forall k :: 0 <= k < |s| ==> Fold(s[k]) == Fold(t[k])
    ensures WordBoundary(s, i) <==> WordBoundary(t, i)
  {
    if i > 0 {
      FoldKeepsWordChar(s[i - 1], t[i - 1]);
    }
    if i < |s| {
      FoldKeepsWordChar(s[i], t[i]);
    }
  }

  /** Every phrase is at least 11 characters long, so a shorter speech is never procedural. */
  lemma ShortIsNotProcedural(s: string)
    requires |s| < 11
    ensures !IsProcedural(s)
  {
    forall p | p in ProceduralPhrases ensures |p| >= 11 {
    }
  }

  /** The two filters of the match loop: a row is kept only when its speech is non-empty and not procedural. */
  predicate Keep(row: Pair) {
    row.speech != [] && !IsProcedural(row.speech)
  }

  // --------------------------------------------------------------- rows

  /** The rows extract_speeches_strict writes: the candidates that pass both filters, in match order. */
  function StrictRows(text: string, ms: seq<Match>): seq<Pair> {
    Filter(Keep, Candidates(text, ms))
  }

  /**
   * Row k is the candidate of the k-th kept match: rows follow match order,
   * there are at most as many rows as matches, and a match produces a row
   * exactly when its speech is non-empty and not procedural.
   */
  lemma StrictRowsAreKeptCandidates(text: string, ms: seq<Match>)
    ensures var ks := KeptIndices(Keep, Candidates(text, ms));
            && |StrictRows(text, ms)| == |ks| <= |ms|
            && (forall a, b :: 0 <= a < b < |ks| ==> ks[a] < ks[b])
            && (forall k :: 0 <= k < |ks| ==> ks[k] < |ms| && StrictRows(text, ms)[k] == Candidate(text, ms, ks[k]))
            && (forall i :: 0 <= i < |ms| ==> (i in ks <==> Keep(Candidate(text, ms, i))))
  {
    var cs := Candidates(text, ms);
    KeptIndicesFacts(Keep, cs);
    FilterIsKeptElements(Keep, cs);
  }

  /** Every candidate's speaker label is single-spaced. */
  lemma CandidateLabelsCanonical(text: string, ms: seq<Match>)
    ensures forall c :: c in Candidates(text, ms) ==> Canonical(c.speaker)
  {
    var cs := Candidates(text, ms);
    forall c | c in cs ensures Canonical(c.speaker) {
      var i :| 0 <= i < |cs| && cs[i] == c;
      SpeakerLabelIsJoinOfWords(PySlice(text, ms[i].start, ms[i].end));
    }
  }

  /** Every row has a non-empty, non-procedural speech and a single-spaced speaker label. */
  lemma StrictRowsAreClean(text: string, ms: seq<Match>)
    ensures forall row :: row in StrictRows(text, ms) ==>
              row.speech != [] && !IsProcedural(row.speech) && Canonical(row.speaker)
  {
    var cs := Candidates(text, ms);
    FilterAllKept(Keep, cs);
    FilterSubset(Keep, cs);
    CandidateLabelsCanonical(text, ms);
  }

  lemma CandidateAt(text: string, ms: seq<Match>, i: nat)
    requires i < |ms|
    ensures var row := Pair(SpeakerLabel(PySlice(text, ms[i].start, ms[i].end)),
                            Strip(PySlice(text, ms[i].end, if i + 1 < |ms| then ms[i + 1].start else |text|)));
            Candidates(text, ms)[i] == row && (Keep(row) <==> row.speech != [] && !IsProcedural(row.speech))
  {
  }

  /** The match loop of extract_speeches_strict. */
  method ExtractSpeechesStrict(text: string, matches: seq<Match>) returns (rows: seq<Pair>)
    ensures rows == StrictRows(text, matches)
  {
    ghost var cs := Candidates(text, matches);
    rows := [];
    var i := 0;
    while i < |matches|
      invariant 0 <= i <= |matches|
      invariant rows == Filter(Keep, cs[..i])
    {
      var m := matches[i];
      var speaker := SpeakerLabel(PySlice(text, m.start, m.end));
      var end := if i + 1 < |matches| then matches[i + 1].start else |text|;
      var speech := Strip(PySlice(text, m.end, end));
      CandidateAt(text, matches, i);
      FilterStep(Keep, cs, i);
      if speech != [] && !IsProcedural(speech) {
        rows := rows + [Pair(speaker, speech)];
      }
      i := i + 1;
    }
    assert cs[..i] == cs;
  }
}
