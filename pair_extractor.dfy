/**
 * The first-colon pair extractor (synopsis_analysis/analysis/extract_pairs.py):
 * every chunk the speaker regex matches is stripped and split at its first
 * colon into a speaker and a speech, which are stored in a dictionary keyed by
 * speaker. A later chunk of the same speaker overwrites the speech but keeps
 * the speaker's place, so the CSV rows come out in first-insertion order with
 * each speaker's last speech.
 *
 * The regex is not modelled: the input is the text of each match, in order.
 */
module PairExtractor {
  import opened Wrappers
  import opened PyText

  /** One dictionary entry, and one CSV row. */
  datatype Pair = Pair(speaker: string, speech: string)

  /** No element occurs twice. */
  predicate Distinct(ks: seq<string>) {
    forall i, j :: 0 <= i < j < |ks| ==> ks[i] != ks[j]
  }

  // ------------------------------------------------------------- the split

  /** str.find(':'): the index of the first colon, None standing for -1. */
  function FindColon(s: string): (r: Option<nat>)
    ensures r.None? <==> ':' !in s
    ensures r.Some? ==> r.value < |s| && s[r.value] == ':' && ':' !in s[..r.value]
  {
    if s == [] then None
    else if s[0] == ':' then Some(0)
    else match FindColon(s[1..])
      case None => None
      case Some(k) =>
        assert s[..k + 1] == [s[0]] + s[1..][..k];
        Some(k + 1)
  }

  /** What one matched chunk contributes: nothing without a colon, else the stripped text on either side of the first colon. */
  function SplitChunk(group: string): Option<Pair> {
    var part := Strip(group);
    match FindColon(part)
      case None => None
      case Some(k) => Some(Pair(Strip(part[..k]), Strip(part[k + 1..])))
  }

  /** A character that s.strip() keeps is a character of s. */
  lemma StripKeeps(s: string, c: char)
    requires c in Strip(s)
    ensures c in s
  {
    StripIsSlice(s);
    var lo := LeadLen(s, IsSpace);
    var i :| 0 <= i < |Strip(s)| && Strip(s)[i] == c;
    assert s[lo + i] == c;
  }

  /** Stripping never removes a colon, since a colon is not whitespace. */
  lemma StripKeepsColon(s: string)
    ensures ':' in Strip(s) <==> ':' in s
  {
    if ':' in Strip(s) {
      StripKeeps(s, ':');
    }
    if ':' in s {
      StripIsSlice(s);
      StripByDropped(s, IsSpace);
      var lo := LeadLen(s, IsSpace);
      var i :| 0 <= i < |s| && s[i] == ':';
      assert !IsSpace(s[i]);
      assert Strip(s)[i - lo] == ':';
    }
  }

  /** A chunk yields a pair exactly when it contains a colon. */
  lemma ChunkHasPair(group: string)
    ensures SplitChunk(group).Some? <==> ':' in group
  {
    StripKeepsColon(group);
  }

  /**
   * A chunk yields a pair exactly when it contains a colon. The speaker is the
   * stripped text before the first colon, so it holds no colon and no outer
   * whitespace; the speech is the stripped text after that colon and may hold
   * further colons.
   */
  lemma SplitChunkFacts(group: string)
    ensures SplitChunk(group).Some? <==> ':' in group
    ensures SplitChunk(group).Some? ==>
              var part, p := Strip(group), SplitChunk(group).value;
              && (exists k :: 0 <= k < |part| && part[k] == ':' && ':' !in part[..k]
                               && p.speaker == Strip(part[..k]) && p.speech == Strip(part[k + 1..]))
              && ':' !in p.speaker
              && (p.speaker != [] ==> !IsSpace(p.speaker[0]) && !IsSpace(p.speaker[|p.speaker| - 1]))
              && (p.speech != [] ==> !IsSpace(p.speech[0]) && !IsSpace(p.speech[|p.speech| - 1]))
  {
    var part := Strip(group);
    ChunkHasPair(group);
    match FindColon(part)
    case None =>
    case Some(k) =>
      var p := SplitChunk(group).value;
      assert p == Pair(Strip(part[..k]), Strip(part[k + 1..]));
      assert part[k] == ':' && ':' !in part[..k];
      if ':' in p.speaker {
        StripKeeps(part[..k], ':');
      }
  }

  // ------------------------------------------------------ the dictionary

  /** The pairs stored by the match loop, in match order. */
  function Pairs(groups: seq<string>): (ps: seq<Pair>)
    ensures |ps| <= |groups|
  {
    if groups == [] then []
    else
      var last := SplitChunk(groups[|groups| - 1]);
      Pairs(groups[..|groups| - 1]) + (if last.Some? then [last.value] else [])
  }

  /** The dictionary's keys after storing ps in order: a speaker is appended only the first time it is stored. */
  function SpeakerOrder(ps: seq<Pair>): seq<string> {
    if ps == [] then []
    else
      var ks, p := SpeakerOrder(ps[..|ps| - 1]), ps[|ps| - 1];
      if p.speaker in ks then ks else ks + [p.speaker]
  }

  /** The dictionary's values after storing ps in order: every store overwrites. */
  function SpeechMap(ps: seq<Pair>): map<string, string> {
    if ps == [] then map[]
    else
      var p := ps[|ps| - 1];
      SpeechMap(ps[..|ps| - 1])[p.speaker := p.speech]
  }

  /** Some pair of ps has speaker k. */
  ghost predicate Mentions(ps: seq<Pair>, k: string) {
    exists i :: 0 <= i < |ps| && ps[i].speaker == k
  }

  /** speech is the speech of the last pair of ps whose speaker is k. */
  ghost predicate LastSpeech(ps: seq<Pair>, k: string, speech: string) {
    exists i :: 0 <= i < |ps| && ps[i].speaker == k && ps[i].speech == speech
                && forall j :: i < j < |ps| ==> ps[j].speaker != k
  }

  /** Every pair of ps with speaker y comes after some pair with speaker x. */
  ghost predicate MentionedBefore(ps: seq<Pair>, x: string, y: string) {
    forall j :: 0 <= j < |ps| && ps[j].speaker == y ==> exists i :: 0 <= i < j && ps[i].speaker == x
  }

  /** The keys ks are ordered by first mention in ps. */
  ghost predicate FirstMentionOrder(ps: seq<Pair>, ks: seq<string>) {
    forall a, b :: 0 <= a < b < |ks| ==> MentionedBefore(ps, ks[a], ks[b])
  }

  lemma MentionsInit(ps: seq<Pair>, k: string)
    requires ps != [] && Mentions(ps[..|ps| - 1], k)
    ensures Mentions(ps, k)
  {
    var i :| 0 <= i < |ps| - 1 && ps[..|ps| - 1][i].speaker == k;
    assert ps[i].speaker == k;
  }

  /** The dictionary holds a speaker exactly when some pair names it, and then holds that speaker's last speech. */
  lemma SpeechMapFacts(ps: seq<Pair>)
    ensures forall k :: k in SpeechMap(ps) <==> Mentions(ps, k)
    ensures forall k :: k in SpeechMap(ps) ==> LastSpeech(ps, k, SpeechMap(ps)[k])
  {
    SpeechMapDomain(ps);
    SpeechMapLast(ps);
  }

  lemma {:induction false} SpeechMapDomain(ps: seq<Pair>)
    ensures forall k :: k in SpeechMap(ps) <==> Mentions(ps, k)
  {
    if ps != [] {
      var init, p := ps[..|ps| - 1], ps[|ps| - 1];
      SpeechMapDomain(init);
      forall k ensures k in SpeechMap(ps) <==> Mentions(ps, k) {
        if Mentions(ps, k) && k != p.speaker {
          var i :| 0 <= i < |ps| && ps[i].speaker == k;
          assert init[i].speaker == k;
        }
        if k in SpeechMap(init) {
          MentionsInit(ps, k);
        }
      }
    }
  }

  lemma {:induction false} SpeechMapLast(ps: seq<Pair>)
    ensures forall k :: k in SpeechMap(ps) ==> LastSpeech(ps, k, SpeechMap(ps)[k])
  {
    if ps != [] {
      var init, p := ps[..|ps| - 1], ps[|ps| - 1];
      var n := |ps| - 1;
      SpeechMapLast(init);
      forall k | k in SpeechMap(ps) ensures LastSpeech(ps, k, SpeechMap(ps)[k]) {
        if k == p.speaker {
          assert ps[n].speaker == k && ps[n].speech == SpeechMap(ps)[k];
        } else {
          assert k in SpeechMap(init);
          var i :| 0 <= i < n && init[i].speaker == k && init[i].speech == SpeechMap(init)[k]
                   && forall j :: i < j < n ==> init[j].speaker != k;
          assert ps[i] == init[i];
          forall j | i < j < |ps| ensures ps[j].speaker != k {
            if j < n {
              assert ps[j] == init[j];
            }
          }
        }
      }
    }
  }

  /**
   * The keys are distinct, they are exactly the speakers named by some pair,
   * and they are ordered by first mention: before any pair of a later key
   * there is a pair of every earlier key.
   */
  lemma {:induction false} SpeakerOrderFacts(ps: seq<Pair>)
    ensures Distinct(SpeakerOrder(ps))
    ensures forall k :: k in SpeakerOrder(ps) <==> Mentions(ps, k)
    ensures FirstMentionOrder(ps, SpeakerOrder(ps))
  {
    if ps != [] {
      var init, p := ps[..|ps| - 1], ps[|ps| - 1];
      var n := |ps| - 1;
      SpeakerOrderFacts(init);
      var ks, ks' := SpeakerOrder(init), SpeakerOrder(ps);
      forall k ensures k in ks' <==> Mentions(ps, k) {
        if Mentions(ps, k) && k != p.speaker {
          var i :| 0 <= i < |ps| && ps[i].speaker == k;
          assert init[i].speaker == k;
        }
        if k in ks {
          MentionsInit(ps, k);
        }
      }
      assert FirstMentionOrder(init, ks);
      forall a, b | 0 <= a < b < |ks'| ensures MentionedBefore(ps, ks'[a], ks'[b]) {
        forall j | 0 <= j < |ps| && ps[j].speaker == ks'[b]
          ensures exists i :: 0 <= i < j && ps[i].speaker == ks'[a]
        {
          assert ks'[a] == ks[a] && ks[a] in ks;
          if b < |ks| {
            assert ks'[b] == ks[b] && ks[b] in ks;
            assert MentionedBefore(init, ks[a], ks[b]);
            var j' := j;
            if j == n {
              j' :| 0 <= j' < n && init[j'].speaker == ks[b];
            }
            assert init[j'].speaker == ks[b];
            var i :| 0 <= i < j' && init[i].speaker == ks[a];
            assert ps[i] == init[i];
          } else {
            assert ks'[b] == p.speaker && p.speaker !in ks;
            var i :| 0 <= i < n && init[i].speaker == ks[a];
            assert ps[i] == init[i];
          }
        }
      }
    }
  }

  /** The dictionary built from ps: its keys are distinct and are exactly the speakers that have a speech. */
  lemma DictionaryShape(ps: seq<Pair>)
    ensures (forall k :: k in SpeechMap(ps) <==> k in SpeakerOrder(ps)) && Distinct(SpeakerOrder(ps))
  {
    SpeechMapFacts(ps);
    SpeakerOrderFacts(ps);
  }

  /** Every key has a value, so the row comprehension is well defined. */
  lemma {:induction false} KeysHaveSpeeches(ps: seq<Pair>)
    ensures forall k :: k in SpeakerOrder(ps) ==> k in SpeechMap(ps)
  {
    if ps != [] {
      KeysHaveSpeeches(ps[..|ps| - 1]);
    }
  }

  /** `[{'Speaker': s, 'Speech': t} for s, t in d.items()]` for the dictionary built from ps. */
  function RowsOfPairs(ps: seq<Pair>): seq<Pair> {
    var ks, m := SpeakerOrder(ps), SpeechMap(ps);
    KeysHaveSpeeches(ps);
    seq(|ks|, i requires 0 <= i < |ks| => Pair(ks[i], m[ks[i]]))
  }

  /** The CSV rows written for the matched chunks (none when no chunk had a colon). */
  function PairRows(groups: seq<string>): seq<Pair> {
    RowsOfPairs(Pairs(groups))
  }

  // -------------------------------------------------------------- the class

  /** speakers_and_speeches: a dictionary that remembers the order in which keys were first inserted. */
  class SpeakerTable {
    var keys: seq<string>
    var speeches: map<string, string>

    ghost predicate Valid()
      reads this
    {
      && (forall k :: k in speeches <==> k in keys)
      && Distinct(keys)
    }

    constructor ()
      ensures Valid() && keys == [] && speeches == map[]
    {
      keys := [];
      speeches := map[];
    }

    /** speakers_and_speeches[speaker] = speech: a new key goes last, an existing key keeps its place. */
    method Put(speaker: string, speech: string)
      requires Valid()
      modifies this
      ensures Valid()
      ensures keys == if speaker in old(speeches) then old(keys) else old(keys) + [speaker]
      ensures speeches == old(speeches)[speaker := speech]
    {
      if speaker !in speeches {
        keys := keys + [speaker];
      }
      speeches := speeches[speaker := speech];
    }

    /** speakers_and_speeches.items(), as CSV rows. */
    function Items(): seq<Pair>
      reads this
      requires Valid()
    {
      var ks, m := keys, speeches;
      assert forall i :: 0 <= i < |ks| ==> ks[i] in m;
      seq(|ks|, i requires 0 <= i < |ks| => Pair(ks[i], m[ks[i]]))
    }
  }

  /** One more turn of the match loop. */
  lemma PairsStep(groups: seq<string>, i: nat)
    requires i < |groups|
    ensures var c := SplitChunk(groups[i]);
            Pairs(groups[..i + 1]) == Pairs(groups[..i]) + (if c.Some? then [c.value] else [])
  {
    assert groups[..i + 1][..i] == groups[..i];
  }

  /** Storing one more pair: a new speaker is appended to the keys, and the speech always overwrites. */
  lemma StoreStep(ps: seq<Pair>, p: Pair)
    ensures SpeakerOrder(ps + [p]) == if p.speaker in SpeechMap(ps) then SpeakerOrder(ps) else SpeakerOrder(ps) + [p.speaker]
    ensures SpeechMap(ps + [p]) == SpeechMap(ps)[p.speaker := p.speech]
  {
    assert (ps + [p])[..|ps|] == ps;
    SpeechMapFacts(ps);
    SpeakerOrderFacts(ps);
  }

  /** The match loop and the CSV row list of extract_pairs.py. */
  method ExtractPairs(groups: seq<string>) returns (rows: seq<Pair>)
    ensures rows == PairRows(groups)
  {
    var table := new SpeakerTable();
    var i := 0;
    while i < |groups|
      invariant 0 <= i <= |groups|
      invariant table.keys == SpeakerOrder(Pairs(groups[..i]))
      invariant table.speeches == SpeechMap(Pairs(groups[..i]))
    {
      ghost var ps := Pairs(groups[..i]);
      var part := Strip(groups[i]);
      var colon := FindColon(part);
      PairsStep(groups, i);
      if colon.Some? {
        var speaker := Strip(part[..colon.value]);
        var speech := Strip(part[colon.value + 1..]);
        assert SplitChunk(groups[i]) == Some(Pair(speaker, speech));
        StoreStep(ps, Pair(speaker, speech));
        DictionaryShape(ps);
        table.Put(speaker, speech);
        assert Pairs(groups[..i + 1]) == ps + [Pair(speaker, speech)];
      } else {
        assert SplitChunk(groups[i]).None?;
        assert Pairs(groups[..i + 1]) == ps;
      }
      i := i + 1;
    }
    assert groups[..i] == groups;
    DictionaryShape(Pairs(groups));
    RowsOfPairsAt(Pairs(groups));
    if table.keys == [] {
      rows := [];
    } else {
      rows := table.Items();
    }
  }

  // ------------------------------------------------------------ the rows

  /** A sequence without repetitions has as many elements as the set of its elements. */
  lemma {:induction false} DistinctCardinality(ks: seq<string>)
    requires Distinct(ks)
    ensures |set k | k in ks| == |ks|
  {
    if ks != [] {
      var init := ks[..|ks| - 1];
      assert Distinct(init) by {
        forall i, j | 0 <= i < j < |init| ensures init[i] != init[j] {
          assert init[i] == ks[i] && init[j] == ks[j];
        }
      }
      DistinctCardinality(init);
      var last := ks[|ks| - 1];
      assert last !in init by {
        forall i | 0 <= i < |init| ensures init[i] != last {
          assert init[i] == ks[i];
        }
      }
      assert (set k | k in ks) == (set k | k in init) + {last} by {
        assert ks == init + [last];
      }
    }
  }

  /** The set of speakers named by the pairs is the set of the dictionary's keys. */
  lemma SpeakerSetIsKeys(ps: seq<Pair>)
    ensures (set p | p in ps :: p.speaker) == (set k | k in SpeakerOrder(ps))
  {
    var ks := SpeakerOrder(ps);
    SpeakerOrderFacts(ps);
    forall k ensures k in ks <==> k in (set p | p in ps :: p.speaker) {
      if k in ks {
        var i :| 0 <= i < |ps| && ps[i].speaker == k;
        assert ps[i] in ps;
      }
      if k in (set p | p in ps :: p.speaker) {
        var p :| p in ps && p.speaker == k;
        var i :| 0 <= i < |ps| && ps[i] == p;
        assert Mentions(ps, k);
      }
    }
  }

  /** Row k holds the k-th key and its speech. */
  lemma RowsOfPairsAt(ps: seq<Pair>)
    ensures var rows, ks := RowsOfPairs(ps), SpeakerOrder(ps);
            && |rows| == |ks|
            && forall k :: 0 <= k < |ks| ==>
                 rows[k].speaker == ks[k] && ks[k] in SpeechMap(ps) && rows[k].speech == SpeechMap(ps)[ks[k]]
  {
    KeysHaveSpeeches(ps);
  }

  /** There are as many rows as distinct speakers. */
  lemma RowCount(groups: seq<string>)
    ensures |PairRows(groups)| == |set p | p in Pairs(groups) :: p.speaker|
  {
    var ps := Pairs(groups);
    SpeakerOrderFacts(ps);
    DistinctCardinality(SpeakerOrder(ps));
    SpeakerSetIsKeys(ps);
    RowsOfPairsAt(ps);
  }

  /** No speaker has two rows, and rows follow the order in which speakers were first mentioned. */
  lemma RowsInFirstMentionOrder(groups: seq<string>)
    ensures var ps, rows := Pairs(groups), PairRows(groups);
            forall a, b :: 0 <= a < b < |rows| ==>
              rows[a].speaker != rows[b].speaker && MentionedBefore(ps, rows[a].speaker, rows[b].speaker)
  {
    var ps := Pairs(groups);
    SpeakerOrderFacts(ps);
    RowsOfPairsAt(ps);
  }

  /** Every row carries its speaker's last speech, and every speaker named by some pair has a row. */
  lemma RowsHoldLastSpeeches(groups: seq<string>)
    ensures var ps, rows := Pairs(groups), PairRows(groups);
            && (forall r :: r in rows ==> LastSpeech(ps, r.speaker, r.speech))
            && (forall p :: p in ps ==> exists r :: r in rows && r.speaker == p.speaker)
  {
    var ps, rows := Pairs(groups), PairRows(groups);
    var ks := SpeakerOrder(ps);
    SpeakerOrderFacts(ps);
    SpeechMapFacts(ps);
    RowsOfPairsAt(ps);
    forall p | p in ps ensures exists r :: r in rows && r.speaker == p.speaker {
      var i :| 0 <= i < |ps| && ps[i] == p;
      assert Mentions(ps, p.speaker);
      var a :| 0 <= a < |ks| && ks[a] == p.speaker;
      assert rows[a] in rows;
    }
  }

  /** No chunk with a colon, no rows; and otherwise at least one row. */
  lemma NoPairsNoRows(groups: seq<string>)
    ensures PairRows(groups) == [] <==> forall i :: 0 <= i < |groups| ==> ':' !in groups[i]
  {
    var ps := Pairs(groups);
    PairsEmpty(groups);
    SpeakerOrderFacts(ps);
    if ps != [] {
      assert Mentions(ps, ps[0].speaker);
    }
  }

  /** The match loop stores nothing exactly when no chunk has a colon. */
  lemma {:induction false} PairsEmpty(groups: seq<string>)
    ensures Pairs(groups) == [] <==> forall i :: 0 <= i < |groups| ==> ':' !in groups[i]
  {
    if groups != [] {
      PairsEmpty(groups[..|groups| - 1]);
      PairsEmptyStep(groups);
      NoColonStep(groups);
    }
  }

  lemma PairsEmptyStep(groups: seq<string>)
    requires groups != []
    ensures Pairs(groups) == [] <==> Pairs(groups[..|groups| - 1]) == [] && ':' !in groups[|groups| - 1]
  {
    ChunkHasPair(groups[|groups| - 1]);
  }

  lemma NoColonStep(groups: seq<string>)
    requires groups != []
    ensures var init := groups[..|groups| - 1];
            (forall i :: 0 <= i < |groups| ==> ':' !in groups[i])
            <==> (forall i :: 0 <= i < |init| ==> ':' !in init[i]) && ':' !in groups[|groups| - 1]
  {
    var init := groups[..|groups| - 1];
    assert forall i :: 0 <= i < |init| ==> groups[i] == init[i];
  }
}
