/**
 * The header-driven transcript segmenter (scraping/texttocsv_improved.py).
 *
 * A transcript is cut at speaker headers: an optional "Preamble" for the text
 * before the first header, then one segment per header running from the end
 * of that header to the start of the next one.  When the segments cover less
 * than 90% of the transcript's words, a looser list of fallback headers is
 * merged in (dropping any fallback header within 5 characters of a start
 * already taken) and the transcript is cut again.  Each segment becomes a row
 * with a cleaned speaker, a cleaned speech, its word count and a language tag.
 *
 * The two header lists are what re.finditer returns for the two header
 * patterns; the patterns themselves are not modelled, only the guarantees of
 * finditer (FinditerHeaders).
 */
module Segmenter {
  import opened Wrappers
  import opened PyText
  import opened Sequences

  /** One header match: the span of the whole match and the text of its "speaker" group. */
  datatype Header = Header(start: nat, end: nat, speakerRaw: string)

  datatype Segment = Segment(speaker: string, speech: string)

  /** One CSV row: Speaker, Speech, Words_in_Speech, Language. */
  datatype Row = Row(speaker: string, speech: string, wordsInSpeech: nat, language: string)

  const PreambleLabel: string := "Preamble"

  // ------------------------------------------------------------ cleaning

  predicate IsStarSpaceDash(c: char) {
    c == '*' || c == ' ' || c == '-'
  }

  /**
   * clean_speaker: line breaks become spaces, whitespace runs collapse to one
   * space, then whitespace and then '*', ' ' and '-' are stripped from both ends.
   */
  function CleanSpeaker(s: string): (r: string)
    ensures '\n' !in r && '\r' !in r
    ensures Canonical(r)
    ensures r != [] ==> !IsStarSpaceDash(r[0]) && !IsStarSpaceDash(r[|r| - 1])
  {
    var collapsed := Collapse(ReplaceChar(ReplaceChar(s, '\n', ' '), '\r', ' '));
    StripBySingleSpaced(collapsed, IsSpace);
    StripBySingleSpaced(Strip(collapsed), IsStarSpaceDash);
    StripBy(Strip(collapsed), IsStarSpaceDash)
  }

  /**
   * clean_speech with preserve_paragraphs=False: strip, turn "\r\n" and then
   * "\r" into "\n", collapse whitespace runs to one space, strip again.
   */
  function CleanSpeech(s: string): (r: string)
    ensures Canonical(r)
  {
    var collapsed := Collapse(ReplaceChar(ReplaceCrLf(Strip(s)), '\r', '\n'));
    StripBySingleSpaced(collapsed, IsSpace);
    Strip(collapsed)
  }

  /** A speaker name that is already clean comes back unchanged. */
  lemma CleanSpeakerFixedPoint(s: string)
    requires '\n' !in s && '\r' !in s
    requires Canonical(s)
    requires s != [] ==> !IsStarSpaceDash(s[0]) && !IsStarSpaceDash(s[|s| - 1])
    ensures CleanSpeaker(s) == s
  {
    ReplaceCharAbsent(s, '\n', ' ');
    ReplaceCharAbsent(s, '\r', ' ');
    CollapseSingleSpaced(s);
    StripByKept(s, IsSpace);
    StripByKept(s, IsStarSpaceDash);
  }

  /** clean_speaker is idempotent. */
  lemma CleanSpeakerIdempotent(s: string)
    ensures CleanSpeaker(CleanSpeaker(s)) == CleanSpeaker(s)
  {
    CleanSpeakerFixedPoint(CleanSpeaker(s));
  }

  /**
   * clean_speaker's value: the words of the name joined by single spaces,
   * with '*', ' ' and '-' then stripped from both ends.
   */
  lemma CleanSpeakerIsTrimmedJoin(s: string)
    ensures CleanSpeaker(s) == StripBy(JoinWords(Words(s)), IsStarSpaceDash)
  {
    var t1 := ReplaceChar(s, '\n', ' ');
    var t2 := ReplaceChar(t1, '\r', ' ');
    var t3 := Collapse(t2);
    WordsOfReplaceChar(s, '\n', ' ');
    WordsOfReplaceChar(t1, '\r', ' ');
    WordsOfCollapse(t2);
    WordsOfStrip(t3);
    StripBySingleSpaced(t3, IsSpace);
    CanonicalIsJoinOfWords(Strip(t3));
  }

  /** Cleaning a speech is `" ".join(s.split())`, so it keeps every word and the word count. */
  lemma CleanSpeechIsJoinOfWords(s: string)
    ensures Words(CleanSpeech(s)) == Words(s)
    ensures CleanSpeech(s) == JoinWords(Words(s))
  {
    var t0 := Strip(s);
    var t1 := ReplaceCrLf(t0);
    var t2 := ReplaceChar(t1, '\r', '\n');
    var t3 := Collapse(t2);
    WordsOfStrip(s);
    WordsOfReplaceCrLf(t0);
    WordsOfReplaceChar(t1, '\r', '\n');
    WordsOfCollapse(t2);
    WordsOfStrip(t3);
    CanonicalIsJoinOfWords(CleanSpeech(s));
  }

  predicate IsDevanagari(c: char) {
    0x0900 <= c as int <= 0x097F
  }

  /** contains_devanagari: a search for one code point of the Devanagari block U+0900..U+097F. */
  function ContainsDevanagari(s: string): (found: bool)
    ensures found <==> exists i :: 0 <= i < |s| && IsDevanagari(s[i])
  {
    if s == [] then false
    else if IsDevanagari(s[0]) then true
    else
      assert forall i :: 1 <= i < |s| ==> s[i] == s[1..][i - 1];
      ContainsDevanagari(s[1..])
  }

  // --------------------------------------------------------- year bucket

  /** The group `201[5-9]|2020`. */
  predicate IsYearToken(t: string) {
    (|t| == 4 && t[..3] == "201" && '5' <= t[3] <= '9') || t == "2020"
  }

  /** The pattern `\b(201[5-9]|2020)\b` matches at offset i. */
  predicate YearAt(s: string, i: nat) {
    && i + 4 <= |s|
    && IsYearToken(s[i..i + 4])
    && (i == 0 || !IsWordChar(s[i - 1]))
    && (i + 4 == |s| || !IsWordChar(s[i + 4]))
  }

  /** re.search from offset i on: the leftmost offset where the year pattern matches. */
  function FindYearFrom(s: string, i: nat): (r: Option<nat>)
    requires i <= |s|
    ensures r.Some? ==> i <= r.value && YearAt(s, r.value)
    ensures r.Some? ==> forall j :: i <= j < r.value ==> !YearAt(s, j)
    ensures r.None? ==> forall j :: i <= j ==> !YearAt(s, j)
    decreases |s| - i
  {
    if i + 4 > |s| then None
    else if YearAt(s, i) then Some(i)
    else FindYearFrom(s, i + 1)
  }

  const YearBuckets: set<string> := {"2015", "2016", "2017", "2018", "2019", "2020", "misc"}

  /** detect_year: the first year 2015..2020 standing as a word in the file name, else "misc". */
  function DetectYear(fileName: string): (y: string)
    ensures y in YearBuckets
    ensures y == "misc" <==> forall i :: !YearAt(fileName, i)
    ensures y != "misc" ==> exists i: nat :: YearAt(fileName, i) && fileName[i..i + 4] == y
                                         && forall j :: 0 <= j < i ==> !YearAt(fileName, j)
  {
    match FindYearFrom(fileName, 0)
    case None => "misc"
    case Some(i) =>
      var t := fileName[i..i + 4];
      assert t == "2015" || t == "2016" || t == "2017" || t == "2018" || t == "2019" || t == "2020" by {
        if t != "2020" {
          assert t == t[..3] + [t[3]];
        }
      }
      t
  }

  // ---------------------------------------------------------- segmenting

  /** What re.finditer guarantees of the matches it returns: in bounds, in order, not overlapping. */
  predicate FinditerHeaders(text: string, hs: seq<Header>) {
    && (forall i :: 0 <= i < |hs| ==> hs[i].start <= hs[i].end <= |text|)
    && (forall i, j :: 0 <= i < j < |hs| ==> hs[i].end <= hs[j].start && hs[i].start < hs[j].start)
  }

  /** Where the speech after header i stops: the next header's start, or the end of the text. */
  function SegmentEnd(text: string, hs: seq<Header>, i: nat): nat
    requires i < |hs|
  {
    if i + 1 < |hs| then hs[i + 1].start else |text|
  }

  function HeaderSegment(text: string, hs: seq<Header>, i: nat): Segment
    requires i < |hs|
  {
    Segment(hs[i].speakerRaw, PySlice(text, hs[i].end, SegmentEnd(text, hs, i)))
  }

  /** The segments of the first n headers, in header order. */
  function HeaderSegments(text: string, hs: seq<Header>, n: nat): (segs: seq<Segment>)
    requires n <= |hs|
    ensures |segs| == n
    ensures forall i :: 0 <= i < n ==> segs[i] == HeaderSegment(text, hs, i)
  {
    if n == 0 then [] else HeaderSegments(text, hs, n - 1) + [HeaderSegment(text, hs, n - 1)]
  }

  /** The Preamble segment, if any: the whole stripped text when there is no header at all. */
  function PreambleSegments(text: string, hs: seq<Header>): seq<Segment> {
    if hs == [] then [Segment(PreambleLabel, Strip(text))]
    else if hs[0].start > 0 && Strip(PySlice(text, 0, hs[0].start)) != [] then
      [Segment(PreambleLabel, Strip(PySlice(text, 0, hs[0].start)))]
    else []
  }

  /** What extract_segments returns for a text and a header list. */
  function Segments(text: string, hs: seq<Header>): seq<Segment> {
    PreambleSegments(text, hs) + HeaderSegments(text, hs, |hs|)
  }

  /**
   * The shape of extract_segments' result: without headers, one Preamble
   * holding the stripped text; otherwise an optional Preamble, present exactly
   * when the first header starts after offset 0 and the text before it is
   * non-blank, followed by one segment per header.
   */
  lemma SegmentsShape(text: string, hs: seq<Header>)
    ensures var segs := Segments(text, hs);
            && (hs == [] ==> segs == [Segment(PreambleLabel, Strip(text))])
            && (|segs| == |hs| || |segs| == |hs| + 1)
            && (|segs| == |hs| + 1 <==>
                  hs == [] || (hs[0].start > 0 && Strip(PySlice(text, 0, hs[0].start)) != []))
            && (|segs| == |hs| + 1 ==> segs[0].speaker == PreambleLabel)
            && (hs != [] && |segs| == |hs| + 1 ==> segs[0].speech == Strip(PySlice(text, 0, hs[0].start)))
  {
    var pre := PreambleSegments(text, hs);
    assert |pre| <= 1;
    if |pre| == 1 {
      assert Segments(text, hs)[0] == pre[0];
    }
  }

  /**
   * After the optional Preamble come the header segments in header order:
   * segment i carries header i's speaker and the text from the end of header
   * i to the start of header i + 1, or to the end of the text for the last.
   */
  lemma {:induction false} SegmentsFollowHeaders(text: string, hs: seq<Header>)
    ensures var segs := Segments(text, hs);
            && |hs| <= |segs|
            && forall i :: 0 <= i < |hs| ==>
                 segs[|segs| - |hs| + i] == Segment(hs[i].speakerRaw, PySlice(text, hs[i].end, SegmentEnd(text, hs, i)))
  {
    SegmentsLength(text, hs);
    forall i | 0 <= i < |hs|
      ensures Segments(text, hs)[|Segments(text, hs)| - |hs| + i]
              == Segment(hs[i].speakerRaw, PySlice(text, hs[i].end, SegmentEnd(text, hs, i)))
    {
      HeaderSegmentAt(text, hs, i);
    }
  }

  lemma SegmentsLength(text: string, hs: seq<Header>)
    ensures |Segments(text, hs)| == |PreambleSegments(text, hs)| + |hs|
  {
  }

  lemma HeaderSegmentAt(text: string, hs: seq<Header>, i: nat)
    requires i < |hs|
    ensures |hs| <= |Segments(text, hs)|
    ensures Segments(text, hs)[|Segments(text, hs)| - |hs| + i]
            == Segment(hs[i].speakerRaw, PySlice(text, hs[i].end, SegmentEnd(text, hs, i)))
  {
    var pre, post := PreambleSegments(text, hs), HeaderSegments(text, hs, |hs|);
    AppendIndexRight(pre, post, i);
  }

  /** extract_segments. */
  method ExtractSegments(text: string, headers: seq<Header>) returns (segments: seq<Segment>)
    ensures segments == Segments(text, headers)
  {
    if headers == [] {
      return [Segment(PreambleLabel, Strip(text))];
    }
    segments := [];
    if headers[0].start > 0 {
      var preamble := Strip(PySlice(text, 0, headers[0].start));
      if preamble != [] {
        segments := segments + [Segment(PreambleLabel, preamble)];
      }
    }
    var i := 0;
    while i < |headers|
      invariant 0 <= i <= |headers|
      invariant segments == PreambleSegments(text, headers) + HeaderSegments(text, headers, i)
    {
      var h := headers[i];
      var segEnd := if i + 1 < |headers| then headers[i + 1].start else |text|;
      var speech := PySlice(text, h.end, segEnd);
      segments := segments + [Segment(h.speakerRaw, speech)];
      i := i + 1;
    }
  }

  /** The text from header i on, rebuilt from each header's matched span followed by its segment's speech. */
  function Rebuild(text: string, hs: seq<Header>, i: nat): string
    requires FinditerHeaders(text, hs) && i <= |hs|
    decreases |hs| - i
  {
    if i == |hs| then []
    else text[hs[i].start..hs[i].end] + HeaderSegment(text, hs, i).speech + Rebuild(text, hs, i + 1)
  }

  lemma {:induction false} RebuildIsSuffix(text: string, hs: seq<Header>, i: nat)
    requires FinditerHeaders(text, hs) && i < |hs|
    ensures Rebuild(text, hs, i) == text[hs[i].start..]
    decreases |hs| - i
  {
    var h := hs[i];
    var speech := HeaderSegment(text, hs, i).speech;
    assert h.start <= h.end <= |text|;
    if i + 1 < |hs| {
      var next := hs[i + 1].start;
      assert h.end <= next <= |text|;
      assert speech == text[h.end..next];
      RebuildIsSuffix(text, hs, i + 1);
      calc {
        Rebuild(text, hs, i);
        text[h.start..h.end] + speech + Rebuild(text, hs, i + 1);
        text[h.start..h.end] + text[h.end..next] + text[next..];
        { SuffixSplit(text, h.start, h.end, next); }
        text[h.start..];
      }
    } else {
      assert speech == text[h.end..];
      assert Rebuild(text, hs, i + 1) == [];
      SuffixSplit(text, h.start, h.end, |text|);
    }
  }

  /**
   * Segmenting loses nothing but the header labels: the text before the first
   * header, then each header's matched span followed by its segment's speech,
   * spell out the whole transcript.
   */
  lemma SegmentationIsLossless(text: string, hs: seq<Header>)
    requires FinditerHeaders(text, hs) && hs != []
    ensures text[..hs[0].start] + Rebuild(text, hs, 0) == text
  {
    RebuildIsSuffix(text, hs, 0);
  }

  // ------------------------------------------------------------- merging

  function StartSet(hs: seq<Header>): set<int> {
    set h | h in hs :: h.start as int
  }

  lemma StartSetAppend(a: seq<Header>, b: seq<Header>)
    ensures StartSet(a + b) == StartSet(a) + StartSet(b)
    ensures |b| == 1 ==> StartSet(a + b) == StartSet(a) + {b[0].start as int}
  {
    assert forall h :: h in a + b <==> h in a || h in b;
    if |b| == 1 {
      assert StartSet(b) == {b[0].start as int};
    }
  }

  /** `any(abs(x - s) < 5 for s in starts)`. */
  predicate Near(x: int, starts: set<int>) {
    exists s :: s in starts && -5 < x - s < 5
  }

  /**
   * The fallback headers the merge loop appends, in order: a fallback header is
   * taken when its start is at least 5 away from the primary starts and from the
   * starts of the fallback headers taken before it.
   */
  function AcceptFallback(starts: set<int>, fb: seq<Header>): (acc: seq<Header>)
    ensures |acc| <= |fb|
    decreases |fb|
  {
    if fb == [] then []
    else
      var before := AcceptFallback(starts, fb[..|fb| - 1]);
      var h := fb[|fb| - 1];
      if Near(h.start, starts + StartSet(before)) then before else before + [h]
  }

  /** Every taken fallback header comes from the fallback list and is at least 5 away from every given start. */
  lemma {:induction false} AcceptedAreFar(starts: set<int>, fb: seq<Header>)
    ensures forall h :: h in AcceptFallback(starts, fb) ==> h in fb && !Near(h.start, starts)
    decreases |fb|
  {
    if fb != [] {
      var init := fb[..|fb| - 1];
      AcceptedAreFar(starts, init);
      var before := AcceptFallback(starts, init);
      var h := fb[|fb| - 1];
      assert forall x :: x in init ==> x in fb;
      if !Near(h.start, starts + StartSet(before)) {
        assert AcceptFallback(starts, fb) == before + [h];
      }
    }
  }

  predicate Spaced(hs: seq<Header>) {
    forall i, j :: 0 <= i < j < |hs| ==> hs[j].start - hs[i].start >= 5 || hs[i].start - hs[j].start >= 5
  }

  /** Taken fallback headers are pairwise at least 5 apart. */
  lemma {:induction false} AcceptedAreSpaced(starts: set<int>, fb: seq<Header>)
    ensures Spaced(AcceptFallback(starts, fb))
    decreases |fb|
  {
    if fb != [] {
      var before := AcceptFallback(starts, fb[..|fb| - 1]);
      AcceptedAreSpaced(starts, fb[..|fb| - 1]);
      var h := fb[|fb| - 1];
      if !Near(h.start, starts + StartSet(before)) {
        var acc := before + [h];
        forall i, j | 0 <= i < j < |acc|
          ensures acc[j].start - acc[i].start >= 5 || acc[i].start - acc[j].start >= 5
        {
          if j == |before| {
            var b := before[i];
            assert acc[i] == b && acc[j] == h;
            assert b.start in starts + StartSet(before);
            assert !(-5 < h.start - b.start < 5);
          } else {
            assert acc[i] == before[i] && acc[j] == before[j];
          }
        }
      }
    }
  }

  /** The fallback headers taken from a prefix of the list are a prefix of those taken from the whole list. */
  lemma {:induction false} AcceptPrefix(starts: set<int>, fb: seq<Header>, j: nat)
    requires j <= |fb|
    ensures AcceptFallback(starts, fb[..j]) <= AcceptFallback(starts, fb)
    decreases |fb|
  {
    if j < |fb| {
      var fb' := fb[..|fb| - 1];
      AcceptPrefix(starts, fb', j);
      assert fb'[..j] == fb[..j];
    } else {
      assert fb[..j] == fb;
    }
  }

  /**
   * The decision on fallback header j: it is appended exactly when its start is
   * at least 5 away from every start accepted before it, primary or fallback.
   */
  lemma FallbackDecision(starts: set<int>, fb: seq<Header>, j: nat)
    requires j < |fb|
    ensures var before := AcceptFallback(starts, fb[..j]);
            var after := AcceptFallback(starts, fb[..j + 1]);
            && after <= AcceptFallback(starts, fb)
            && (after == before + [fb[j]] <==> !Near(fb[j].start, starts + StartSet(before)))
            && (after == before <==> Near(fb[j].start, starts + StartSet(before)))
  {
    AcceptPrefix(starts, fb, j + 1);
    assert fb[..j + 1][..j] == fb[..j];
  }

  predicate SortedByStart(hs: seq<Header>) {
    forall i, j :: 0 <= i < j < |hs| ==> hs[i].start <= hs[j].start
  }

  predicate IncreasingStarts(hs: seq<Header>) {
    forall i, j :: 0 <= i < j < |hs| ==> hs[i].start < hs[j].start
  }

  predicate DistinctStarts(hs: seq<Header>) {
    forall i, j :: 0 <= i < j < |hs| ==> hs[i].start != hs[j].start
  }

  /** Inserts h after every element whose start is not greater, which is what keeps the sort stable (SortByStartIsStable). */
  function InsertByStart(h: Header, sorted: seq<Header>): (r: seq<Header>)
    ensures multiset(r) == multiset(sorted) + multiset{h}
  {
    if sorted == [] then [h]
    else if h.start < sorted[0].start then [h] + sorted
    else
      assert sorted == [sorted[0]] + sorted[1..];
      [sorted[0]] + InsertByStart(h, sorted[1..])
  }

  lemma {:induction false} InsertElements(h: Header, sorted: seq<Header>)
    ensures forall x :: x in InsertByStart(h, sorted) <==> x == h || x in sorted
  {
    forall x ensures x in InsertByStart(h, sorted) <==> x == h || x in sorted {
      assert x in InsertByStart(h, sorted) <==> x in multiset(InsertByStart(h, sorted));
      assert x in sorted <==> x in multiset(sorted);
    }
  }

  lemma {:induction false} InsertKeepsSorted(h: Header, sorted: seq<Header>)
    requires SortedByStart(sorted)
    ensures SortedByStart(InsertByStart(h, sorted))
  {
    if sorted != [] && h.start >= sorted[0].start {
      var tail := sorted[1..];
      InsertKeepsSorted(h, tail);
      InsertElements(h, tail);
      var rest := InsertByStart(h, tail);
      var r := [sorted[0]] + rest;
      assert r == InsertByStart(h, sorted);
      forall i, j | 0 <= i < j < |r| ensures r[i].start <= r[j].start {
        if i == 0 {
          assert r[j] == rest[j - 1] && rest[j - 1] in rest;
        } else {
          assert r[i] == rest[i - 1] && r[j] == rest[j - 1];
        }
      }
    }
  }

  lemma {:induction false} InsertKeepsIncreasing(h: Header, sorted: seq<Header>)
    requires IncreasingStarts(sorted)
    requires forall k :: 0 <= k < |sorted| ==> sorted[k].start != h.start
    ensures IncreasingStarts(InsertByStart(h, sorted))
  {
    if sorted != [] && h.start >= sorted[0].start {
      var tail := sorted[1..];
      InsertKeepsIncreasing(h, tail);
      InsertElements(h, tail);
      var rest := InsertByStart(h, tail);
      var r := [sorted[0]] + rest;
      assert r == InsertByStart(h, sorted);
      forall i, j | 0 <= i < j < |r| ensures r[i].start < r[j].start {
        if i == 0 {
          assert r[j] == rest[j - 1] && rest[j - 1] in rest;
        } else {
          assert r[i] == rest[i - 1] && r[j] == rest[j - 1];
        }
      }
    }
  }

  /** combined.sort(key=lambda x: x["start"]), written as an insertion sort, stable like Python's (SortByStartIsStable). */
  function SortByStart(hs: seq<Header>): (r: seq<Header>)
    ensures multiset(r) == multiset(hs)
  {
    if hs == [] then []
    else
      assert hs == hs[..|hs| - 1] + [hs[|hs| - 1]];
      InsertByStart(hs[|hs| - 1], SortByStart(hs[..|hs| - 1]))
  }

  /** The sort orders by start, and strictly so when no two starts are equal. */
  lemma {:induction false} SortByStartOrders(hs: seq<Header>)
    ensures SortedByStart(SortByStart(hs))
    ensures DistinctStarts(hs) ==> IncreasingStarts(SortByStart(hs))
  {
    if hs != [] {
      var init := hs[..|hs| - 1];
      var last := hs[|hs| - 1];
      SortByStartOrders(init);
      var sortedInit := SortByStart(init);
      InsertKeepsSorted(last, sortedInit);
      if DistinctStarts(hs) {
        forall k | 0 <= k < |sortedInit| ensures sortedInit[k].start != last.start {
          assert sortedInit[k] in multiset(init);
          var m :| 0 <= m < |init| && init[m] == sortedInit[k];
          assert hs[m] == init[m];
        }
        InsertKeepsIncreasing(last, sortedInit);
      }
    }
  }

  /** The headers of hs whose start is v, in their order in hs. */
  function WithStart(hs: seq<Header>, v: nat): seq<Header> {
    if hs == [] then [] else (if hs[0].start == v then [hs[0]] else []) + WithStart(hs[1..], v)
  }

  lemma {:induction false} WithStartAppend(a: seq<Header>, b: seq<Header>, v: nat)
    ensures WithStart(a + b, v) == WithStart(a, v) + WithStart(b, v)
  {
    if a != [] {
      assert (a + b)[1..] == a[1..] + b;
      WithStartAppend(a[1..], b, v);
      AppendAssoc(if a[0].start == v then [a[0]] else [], WithStart(a[1..], v), WithStart(b, v));
    } else {
      assert a + b == b;
    }
  }

  lemma {:induction false} WithStartNone(hs: seq<Header>, v: nat)
    requires forall k :: 0 <= k < |hs| ==> hs[k].start > v
    ensures WithStart(hs, v) == []
  {
    if hs != [] {
      WithStartNone(hs[1..], v);
    }
  }

  /** Inserting h puts it after every header of the same start already in the sorted list. */
  lemma {:induction false} InsertKeepsTies(h: Header, sorted: seq<Header>, v: nat)
    requires SortedByStart(sorted)
    ensures WithStart(InsertByStart(h, sorted), v) == WithStart(sorted, v) + (if h.start == v then [h] else [])
  {
    if sorted == [] {
      assert InsertByStart(h, sorted) == [h];
    } else if h.start < sorted[0].start {
      InsertKeepsTiesFront(h, sorted, v);
    } else {
      InsertKeepsTies(h, sorted[1..], v);
      InsertKeepsTiesBehind(h, sorted, v);
    }
  }

  lemma InsertKeepsTiesFront(h: Header, sorted: seq<Header>, v: nat)
    requires SortedByStart(sorted)
    requires sorted != [] && h.start < sorted[0].start
    ensures WithStart(InsertByStart(h, sorted), v) == WithStart(sorted, v) + (if h.start == v then [h] else [])
  {
    assert InsertByStart(h, sorted) == [h] + sorted;
    assert ([h] + sorted)[1..] == sorted;
    if h.start == v {
      WithStartNone(sorted, v);
    }
  }

  lemma InsertKeepsTiesBehind(h: Header, sorted: seq<Header>, v: nat)
    requires sorted != [] && sorted[0].start <= h.start
    requires WithStart(InsertByStart(h, sorted[1..]), v) == WithStart(sorted[1..], v) + (if h.start == v then [h] else [])
    ensures WithStart(InsertByStart(h, sorted), v) == WithStart(sorted, v) + (if h.start == v then [h] else [])
  {
    var rest := InsertByStart(h, sorted[1..]);
    var x := if sorted[0].start == v then [sorted[0]] else [];
    assert InsertByStart(h, sorted) == [sorted[0]] + rest;
    assert ([sorted[0]] + rest)[1..] == rest;
    AppendAssoc(x, WithStart(sorted[1..], v), if h.start == v then [h] else []);
  }

  /** One insertion step of the sort keeps, for every start value, the input order. */
  lemma {:induction false} StableStep(init: seq<Header>, last: Header, sortedInit: seq<Header>, v: nat)
    requires SortedByStart(sortedInit)
    requires WithStart(sortedInit, v) == WithStart(init, v)
    ensures WithStart(InsertByStart(last, sortedInit), v) == WithStart(init + [last], v)
  {
    InsertKeepsTies(last, sortedInit, v);
    WithStartAppend(init, [last], v);
    assert [last][1..] == [];
  }

  /** The sort is stable: the headers that share a start keep their input order. */
  lemma {:induction false} SortByStartIsStable(hs: seq<Header>, v: nat)
    ensures WithStart(SortByStart(hs), v) == WithStart(hs, v)
  {
    if hs != [] {
      var init, last := hs[..|hs| - 1], hs[|hs| - 1];
      assert init + [last] == hs;
      SortByStartOrders(init);
      SortByStartIsStable(init, v);
      StableStep(init, last, SortByStart(init), v);
    }
  }

  lemma SameElementsSameStarts(a: seq<Header>, b: seq<Header>)
    requires multiset(a) == multiset(b)
    ensures StartSet(a) == StartSet(b)
  {
    forall h ensures h in a <==> h in b {
      assert h in a <==> h in multiset(a);
      assert h in b <==> h in multiset(b);
    }
  }

  /** merge_and_sort_headers, as a value. */
  function MergedHeaders(primary: seq<Header>, fallback: seq<Header>): (r: seq<Header>)
    ensures |primary| <= |r| <= |primary| + |fallback|
    ensures multiset(r) == multiset(primary) + multiset(AcceptFallback(StartSet(primary), fallback))
  {
    var r := SortByStart(primary + AcceptFallback(StartSet(primary), fallback));
    assert |r| == |multiset(r)|;
    r
  }

  /** No two headers of the primary list and the accepted fallback headers share a start. */
  lemma {:induction false} CombinedStartsDistinct(primary: seq<Header>, fallback: seq<Header>)
    requires IncreasingStarts(primary)
    ensures DistinctStarts(primary + AcceptFallback(StartSet(primary), fallback))
  {
    var starts := StartSet(primary);
    var acc := AcceptFallback(starts, fallback);
    var all := primary + acc;
    AcceptedAreSpaced(starts, fallback);
    AcceptedAreFar(starts, fallback);
    forall i, j | 0 <= i < j < |all| ensures all[i].start != all[j].start {
      if j >= |primary| {
        var a := acc[j - |primary|];
        assert all[j] == a;
        if i < |primary| {
          assert all[i] in primary;
          assert all[i].start in starts;
          assert a in acc;
          assert !Near(a.start, starts);
        } else {
          assert all[i] == acc[i - |primary|];
        }
      } else {
        assert all[i] == primary[i] && all[j] == primary[j];
      }
    }
  }

  /**
   * Every primary header is kept, the result is ordered by start, and when
   * the primary headers come from finditer the order is strict.
   */
  lemma MergedHeadersOrdered(primary: seq<Header>, fallback: seq<Header>)
    ensures SortedByStart(MergedHeaders(primary, fallback))
    ensures forall h :: h in primary ==> h in MergedHeaders(primary, fallback)
    ensures IncreasingStarts(primary) ==> IncreasingStarts(MergedHeaders(primary, fallback))
  {
    var all := primary + AcceptFallback(StartSet(primary), fallback);
    SortByStartOrders(all);
    if IncreasingStarts(primary) {
      CombinedStartsDistinct(primary, fallback);
    }
    var r := MergedHeaders(primary, fallback);
    forall h | h in primary ensures h in r {
      assert h in multiset(primary);
      assert h in multiset(r);
    }
  }

  /** merge_and_sort_headers. */
  method MergeAndSortHeaders(primary: seq<Header>, fallback: seq<Header>) returns (merged: seq<Header>)
    ensures merged == MergedHeaders(primary, fallback)
  {
    var combined := primary;
    var existingStarts := set h | h in primary :: h.start as int;
    ghost var starts := StartSet(primary);
    ghost var accepted: seq<Header> := [];
    var j := 0;
    while j < |fallback|
      invariant 0 <= j <= |fallback|
      invariant accepted == AcceptFallback(starts, fallback[..j])
      invariant combined == primary + accepted
      invariant existingStarts == starts + StartSet(accepted)
    {
      var h := fallback[j];
      ghost var before, seen := accepted, existingStarts;
      if !Near(h.start, existingStarts) {
        AppendAssoc(primary, accepted, [h]);
        StartSetAppend(accepted, [h]);
        combined := combined + [h];
        existingStarts := existingStarts + {h.start};
        accepted := accepted + [h];
      }
      j := j + 1;
      AcceptFallbackStep(starts, fallback, j, seen, accepted);
    }
    assert fallback[..j] == fallback;
    merged := SortByStart(combined);
  }

  /** One turn of the merge loop: the next fallback header is taken unless it is near a start seen so far. */
  lemma AcceptFallbackStep(starts: set<int>, fb: seq<Header>, j: nat, seen: set<int>, accepted: seq<Header>)
    requires 0 < j <= |fb|
    requires seen == starts + StartSet(AcceptFallback(starts, fb[..j - 1]))
    requires var before, h := AcceptFallback(starts, fb[..j - 1]), fb[j - 1];
             accepted == if Near(h.start, seen) then before else before + [h]
    ensures accepted == AcceptFallback(starts, fb[..j])
  {
    assert fb[..j][..j - 1] == fb[..j - 1];
  }

  // ---------------------------------------------------------- the file

  /** `sum(len(seg["speech"].split()) for seg in segments)`. */
  function ExtractedWords(segs: seq<Segment>): nat {
    if segs == [] then 0 else |Words(segs[0].speech)| + ExtractedWords(segs[1..])
  }

  /** `orig_wc and extr_wc / orig_wc < 0.9`, in integers. */
  predicate NeedsFallback(origWords: nat, extractedWords: nat) {
    origWords != 0 && 10 * extractedWords < 9 * origWords
  }

  /** The integer test is the exact ratio test. */
  lemma NeedsFallbackIsRatioBelow(origWords: nat, extractedWords: nat)
    ensures NeedsFallback(origWords, extractedWords) <==>
              origWords != 0 && (extractedWords as real) / (origWords as real) < 0.9
  {
    if origWords != 0 {
      var o := origWords as real;
      var e := extractedWords as real;
      assert e / o * o == e;
      if e / o < 0.9 {
        assert e < 0.9 * o;
      } else {
        assert e >= 0.9 * o;
      }
    }
  }

  /** The header list process_file settles on: the primary one, or the merged one when coverage is low. */
  function FinalHeaders(text: string, primary: seq<Header>, fallback: seq<Header>): seq<Header> {
    if NeedsFallback(|Words(text)|, ExtractedWords(Segments(text, primary))) then MergedHeaders(primary, fallback)
    else primary
  }

  /**
   * The headers used always include every primary header, in strictly
   * increasing start order; without low coverage they are the primary ones.
   */
  lemma FinalHeadersFacts(text: string, primary: seq<Header>, fallback: seq<Header>)
    requires FinditerHeaders(text, primary)
    ensures var hs := FinalHeaders(text, primary, fallback);
            && (!NeedsFallback(|Words(text)|, ExtractedWords(Segments(text, primary))) ==> hs == primary)
            && IncreasingStarts(hs)
            && (forall h :: h in primary ==> h in hs)
            && |primary| <= |hs| <= |primary| + |fallback|
  {
    MergedHeadersOrdered(primary, fallback);
  }

  function MakeRow(seg: Segment): Row {
    var speech := CleanSpeech(seg.speech);
    Row(CleanSpeaker(seg.speaker), speech, |Words(speech)|, if ContainsDevanagari(speech) then "hi" else "en")
  }

  /** What each row holds, in terms of the segment it comes from. */
  lemma RowFacts(seg: Segment)
    ensures var row := MakeRow(seg);
            && row.speech == JoinWords(Words(seg.speech))
            && row.wordsInSpeech == |Words(seg.speech)|
            && (row.language == "hi" <==> exists i :: 0 <= i < |row.speech| && IsDevanagari(row.speech[i]))
            && (row.language == "hi" || row.language == "en")
            && Canonical(row.speaker) && '\n' !in row.speaker && '\r' !in row.speaker
  {
    CleanSpeechIsJoinOfWords(seg.speech);
  }

  /** One row per segment, in segment order. */
  function RowsOf(segs: seq<Segment>): (rows: seq<Row>)
    ensures |rows| == |segs|
  {
    MapSeq(MakeRow, segs)
  }

  /** The rows process_file writes for a transcript, given the two finditer header lists. */
  function FileRows(text: string, primary: seq<Header>, fallback: seq<Header>): seq<Row> {
    RowsOf(Segments(text, FinalHeaders(text, primary, fallback)))
  }

  // ------------------------------------------------ the fallback headers

  /** One match of the fallback pattern: its span and the text of its one group, which has no name. */
  datatype FallbackMatch = FallbackMatch(start: nat, end: nat, group: string)

  /** find_headers on the fallback matches, reading the speaker from the pattern's only group. */
  function FindFallbackHeaders(ms: seq<FallbackMatch>): seq<Header> {
    MapSeq(HeaderOf, ms)
  }

  function HeaderOf(m: FallbackMatch): Header {
    Header(m.start, m.end, m.group)
  }

  /** What re.finditer guarantees of the fallback matches. */
  predicate FinditerFallback(text: string, ms: seq<FallbackMatch>) {
    && (forall i :: 0 <= i < |ms| ==> ms[i].start <= ms[i].end <= |text|)
    && (forall i, j :: 0 <= i < j < |ms| ==> ms[i].end <= ms[j].start && ms[i].start < ms[j].start)
  }

  /**
   * Each fallback match gives one header, in match order, with the match's span
   * and the pattern's group as speaker; so the fallback headers keep finditer's
   * guarantees.
   */
  lemma FallbackHeadersFromMatches(text: string, ms: seq<FallbackMatch>)
    requires FinditerFallback(text, ms)
    ensures var hs := FindFallbackHeaders(ms);
            && |hs| == |ms|
            && FinditerHeaders(text, hs)
            && forall i :: 0 <= i < |ms| ==> hs[i].speakerRaw == ms[i].group
  {
    var hs := FindFallbackHeaders(ms);
    forall i | 0 <= i < |ms| ensures hs[i] == HeaderOf(ms[i]) {
      MapSeqAt(HeaderOf, ms, i);
    }
  }

  /** The error m.group("speaker") raises on a match of a pattern with no group of that name. */
  const NoSuchGroup: string := "IndexError: no such group"

  /** find_headers on the fallback matches as written: asking for the group "speaker" fails on the first match. */
  function FindFallbackHeadersAsWritten(ms: seq<FallbackMatch>): Result<seq<Header>, string> {
    if ms == [] then Success([]) else Failure(NoSuchGroup)
  }

  /** process_file as written: the rows, or the error the fallback pass raises. */
  function FileRowsAsWritten(text: string, primary: seq<Header>, fallbackMatches: seq<FallbackMatch>): Result<seq<Row>, string> {
    if NeedsFallback(|Words(text)|, ExtractedWords(Segments(text, primary))) then
      match FindFallbackHeadersAsWritten(fallbackMatches)
      case Failure(e) => Failure(e)
      case Success(fallback) => Success(RowsOf(Segments(text, MergedHeaders(primary, fallback))))
    else Success(RowsOf(Segments(text, primary)))
  }

  /**
   * As written, process_file fails exactly when the coverage test sends it to
   * the fallback pass and the fallback pattern matches at least once; in every
   * other case it writes the rows that reading the pattern's group would give.
   */
  lemma FallbackPassRaises(text: string, primary: seq<Header>, fallbackMatches: seq<FallbackMatch>)
    ensures var r := FileRowsAsWritten(text, primary, fallbackMatches);
            && (r.Failure? <==> NeedsFallback(|Words(text)|, ExtractedWords(Segments(text, primary))) && fallbackMatches != [])
            && (r.Failure? ==> r.error == NoSuchGroup)
            && (r.Success? ==> r.value == FileRows(text, primary, FindFallbackHeaders(fallbackMatches)))
  {
    if fallbackMatches == [] {
      assert FindFallbackHeaders(fallbackMatches) == [];
    }
  }

  /** The loop of process_file that turns each segment into a CSV row. */
  method BuildRows(segments: seq<Segment>) returns (rows: seq<Row>)
    ensures rows == RowsOf(segments)
  {
    rows := [];
    var i := 0;
    while i < |segments|
      invariant 0 <= i <= |segments|
      invariant rows == MapSeq(MakeRow, segments[..i])
    {
      MapSeqStep(MakeRow, segments, i);
      rows := rows + [MakeRow(segments[i])];
      i := i + 1;
    }
    assert segments[..i] == segments;
  }

  /**
   * process_file after reading the file and fixing hyphenation: the CSV rows
   * and the year sub-directory the CSV goes to.
   */
  method ProcessFile(fileName: string, text: string, primary: seq<Header>, fallbackMatches: seq<FallbackMatch>)
    returns (year: string, rows: seq<Row>)
    ensures year == DetectYear(fileName)
    ensures rows == FileRows(text, primary, FindFallbackHeaders(fallbackMatches))
  {
    ghost var fallback := FindFallbackHeaders(fallbackMatches);
    var headers := primary;
    var segments := ExtractSegments(text, headers);

    var origWc := |Words(text)|;
    var extrWc := ExtractedWords(segments);
    if origWc != 0 && 10 * extrWc < 9 * origWc {
      headers := MergeAndSortHeaders(headers, FindFallbackHeaders(fallbackMatches));
      segments := ExtractSegments(text, headers);
    }
    assert segments == Segments(text, FinalHeaders(text, primary, fallback));

    rows := BuildRows(segments);
    assert rows == RowsOf(segments);
    year := DetectYear(fileName);
  }

  /**
   * A transcript without a primary header is one Preamble row holding the
   * whole whitespace-normalised text: the Preamble covers every word, so the
   * fallback pass never runs.
   */
  lemma NoHeadersOneRow(text: string, fallback: seq<Header>)
    ensures FinalHeaders(text, [], fallback) == []
    ensures FileRows(text, [], fallback) == [MakeRow(Segment(PreambleLabel, Strip(text)))]
    ensures FileRows(text, [], fallback)[0].speech == JoinWords(Words(text))
    ensures FileRows(text, [], fallback)[0].wordsInSpeech == |Words(text)|
  {
    var seg := Segment(PreambleLabel, Strip(text));
    var segs := Segments(text, []);
    assert segs == [seg];
    WordsOfStrip(text);
    assert ExtractedWords(segs) == |Words(Strip(text))| + ExtractedWords([]);
    assert !NeedsFallback(|Words(text)|, ExtractedWords(segs));
    assert FinalHeaders(text, [], fallback) == [];
    RowFacts(seg);
    CleanSpeechIsJoinOfWords(Strip(text));
  }

  /** An empty transcript still yields one row: an empty Preamble. */
  lemma EmptyTranscriptOneRow(fallback: seq<Header>)
    ensures FileRows("", [], fallback) == [Row(PreambleLabel, "", 0, "en")]
  {
    NoHeadersOneRow("", fallback);
    assert Strip("") == "";
    assert Words("") == [];
    PreambleIsClean();
  }

  /** The Preamble label is left as it is by clean_speaker. */
  lemma PreambleIsClean()
    ensures CleanSpeaker(PreambleLabel) == PreambleLabel
  {
    var p := PreambleLabel;
    assert forall i :: 0 <= i < |p| ==> !IsSpace(p[i]) && p[i] != '\n' && p[i] != '\r';
    CleanSpeakerFixedPoint(p);
  }
}
