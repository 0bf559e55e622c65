/**
 * The parts of Python's string library that the transcript scripts lean on:
 * str.isspace (which is also the class `\s` matches on a str), str.strip and
 * str.rstrip, str.split() without arguments, " ".join, str.replace and
 * re.sub(r'\s+', ' ', s).
 */
module PyText {
  import Sequences

  /** Python's str.isspace() for one character; str.split(), str.strip() and `\s` use the same class. */
  predicate IsSpace(c: char) {
    var n := c as int;
    (0x09 <= n <= 0x0D) || (0x1C <= n <= 0x20) || n == 0x85 || n == 0xA0 || n == 0x1680
    || (0x2000 <= n <= 0x200A) || n == 0x2028 || n == 0x2029 || n == 0x202F
    || n == 0x205F || n == 0x3000
  }

  /** The `\w` class of a regular expression, restricted to ASCII. */
  predicate IsWordChar(c: char) {
    ('a' <= c <= 'z') || ('A' <= c <= 'Z') || ('0' <= c <= '9') || c == '_'
  }

  predicate NoSpace(w: string) {
    forall i :: 0 <= i < |w| ==> !IsSpace(w[i])
  }

  predicate AllSpace(w: string) {
    forall i :: 0 <= i < |w| ==> IsSpace(w[i])
  }

  // ---------------------------------------------------------------- strip

  /** The number of leading characters of s that drop accepts. */
  function LeadLen(s: string, drop: char -> bool): (n: nat)
    ensures n <= |s|
    ensures n < |s| ==> !drop(s[n])
  {
    if s != [] && drop(s[0]) then 1 + LeadLen(s[1..], drop) else 0
  }

  /** The number of trailing characters of s that drop accepts. */
  function TrailLen(s: string, drop: char -> bool): (n: nat)
    ensures n <= |s|
    ensures n < |s| ==> !drop(s[|s| - 1 - n])
  {
    if s != [] && drop(s[|s| - 1]) then 1 + TrailLen(s[..|s| - 1], drop) else 0
  }

  /** s.rstrip(chars), with chars given as the membership test drop. */
  function RStripBy(s: string, drop: char -> bool): (r: string)
    ensures |r| <= |s| && r == s[..|r|]
    ensures r != [] ==> !drop(r[|r| - 1])
  {
    s[..|s| - TrailLen(s, drop)]
  }

  /** s.strip(chars): the longest middle slice of s that neither starts nor ends with a dropped character. */
  function StripBy(s: string, drop: char -> bool): (r: string)
    ensures LeadLen(s, drop) + |r| <= |s|
    ensures r == s[LeadLen(s, drop)..LeadLen(s, drop) + |r|]
    ensures r != [] ==> !drop(r[0]) && !drop(r[|r| - 1])
  {
    RStripBy(s[LeadLen(s, drop)..], drop)
  }

  /** Every character LeadLen counts is dropped. */
  lemma {:induction false} LeadLenDropped(s: string, drop: char -> bool)
    ensures forall i :: 0 <= i < LeadLen(s, drop) ==> drop(s[i])
  {
    if s != [] && drop(s[0]) {
      LeadLenDropped(s[1..], drop);
      forall i | 1 <= i < LeadLen(s, drop) ensures drop(s[i]) {
        assert s[i] == s[1..][i - 1];
      }
    }
  }

  /** Every character TrailLen counts is dropped. */
  lemma {:induction false} TrailLenDropped(s: string, drop: char -> bool)
    ensures forall i :: |s| - TrailLen(s, drop) <= i < |s| ==> drop(s[i])
  {
    if s != [] && drop(s[|s| - 1]) {
      TrailLenDropped(s[..|s| - 1], drop);
    }
  }

  /** strip(chars) removes only dropped characters, at both ends. */
  lemma StripByDropped(s: string, drop: char -> bool)
    ensures forall i :: 0 <= i < LeadLen(s, drop) ==> drop(s[i])
    ensures forall i :: LeadLen(s, drop) + |StripBy(s, drop)| <= i < |s| ==> drop(s[i])
  {
    var a := LeadLen(s, drop);
    var t := s[a..];
    LeadLenDropped(s, drop);
    TrailLenDropped(t, drop);
    assert |StripBy(s, drop)| == |t| - TrailLen(t, drop);
    forall i | a + |StripBy(s, drop)| <= i < |s| ensures drop(s[i]) {
      assert s[i] == t[i - a];
    }
  }

  /** s.strip() without arguments. */
  function Strip(s: string): (r: string)
    ensures |r| <= |s|
    ensures r != [] ==> !IsSpace(r[0]) && !IsSpace(r[|r| - 1])
  {
    StripBy(s, IsSpace)
  }

  /** Python's text[lo:hi] for non-negative bounds: clamped to the text, empty when lo >= hi. */
  function PySlice(s: string, lo: nat, hi: nat): (r: string)
    ensures lo <= hi <= |s| ==> r == s[lo..hi]
    ensures lo <= |s| <= hi ==> r == s[lo..]
    ensures hi <= lo || |s| <= lo ==> r == []
  {
    var h := if hi <= |s| then hi else |s|;
    if lo < h then s[lo..h] else []
  }

  /** s.strip() is the slice of s that starts after its leading whitespace. */
  lemma StripIsSlice(s: string)
    ensures LeadLen(s, IsSpace) + |Strip(s)| <= |s|
    ensures Strip(s) == s[LeadLen(s, IsSpace)..LeadLen(s, IsSpace) + |Strip(s)|]
  {
    assert Strip(s) == StripBy(s, IsSpace);
  }

  /** text[e:stop].strip() is the slice of text that starts after the whitespace following e. */
  lemma StripOfSlice(text: string, e: nat, stop: nat, sp: string)
    requires e <= stop <= |text| && sp == Strip(text[e..stop])
    ensures var lo := e + LeadLen(text[e..stop], IsSpace);
            lo + |sp| <= stop && sp == text[lo..lo + |sp|]
  {
    var raw := text[e..stop];
    StripIsSlice(raw);
    Sequences.SliceOfSlice(text, e, stop, LeadLen(raw, IsSpace), LeadLen(raw, IsSpace) + |sp|);
  }

  // ------------------------------------------------------------- replace

  /** s.replace(x, y) for single characters x and y. */
  function ReplaceChar(s: string, x: char, y: char): (r: string)
    ensures |r| == |s|
    ensures forall i :: 0 <= i < |s| ==> r[i] == if s[i] == x then y else s[i]
  {
    if s == [] then [] else [if s[0] == x then y else s[0]] + ReplaceChar(s[1..], x, y)
  }

  /** s.replace("\r\n", "\n"): a left-to-right scan that replaces non-overlapping occurrences. */
  function ReplaceCrLf(s: string): (r: string)
    ensures |r| <= |s|
    ensures r == [] <==> s == []
    ensures r != [] ==> (IsSpace(r[0]) <==> IsSpace(s[0]))
  {
    if |s| >= 2 && s[0] == '\r' && s[1] == '\n' then "\n" + ReplaceCrLf(s[2..])
    else if s == [] then []
    else [s[0]] + ReplaceCrLf(s[1..])
  }

  // ------------------------------------------------------------ collapse

  /** Every whitespace character is a plain space, and no two whitespace characters are adjacent. */
  ghost predicate SingleSpaced(s: string) {
    && (forall i :: 0 <= i < |s| && IsSpace(s[i]) ==> s[i] == ' ')
    && (forall i, j :: 0 <= i < j < |s| && j == i + 1 ==> !(IsSpace(s[i]) && IsSpace(s[j])))
  }

  /** The shape of `" ".join(s.split())`: single-spaced, without leading or trailing whitespace. */
  ghost predicate Canonical(s: string) {
    SingleSpaced(s) && (s != [] ==> !IsSpace(s[0]) && !IsSpace(s[|s| - 1]))
  }

  /**
   * re.sub(r'\s+', ' ', s): every maximal run of whitespace becomes one space.
   * A whitespace character followed by another one is dropped; the last one of a
   * run is written as ' '.
   */
  function Collapse(s: string): (r: string)
    ensures SingleSpaced(r)
    ensures r == [] <==> s == []
    ensures r != [] ==> (IsSpace(r[0]) <==> IsSpace(s[0]))
    ensures r != [] ==> (IsSpace(r[|r| - 1]) <==> IsSpace(s[|s| - 1]))
  {
    if s == [] then []
    else if IsSpace(s[0]) then
      if |s| > 1 && IsSpace(s[1]) then Collapse(s[1..]) else " " + Collapse(s[1..])
    else [s[0]] + Collapse(s[1..])
  }

  // --------------------------------------------------------------- split

  /**
   * s.split() without arguments: the maximal runs of non-whitespace characters, in order.
   * Defined one character at a time: a non-space character either starts a new
   * word (when the rest is empty or starts with whitespace) or is prepended to
   * the first word of the rest.
   */
  function Words(s: string): (ws: seq<string>)
    ensures forall k :: 0 <= k < |ws| ==> ws[k] != [] && NoSpace(ws[k])
    ensures s != [] && !IsSpace(s[0]) ==> ws != [] && ws[0][0] == s[0]
  {
    if s == [] then []
    else
      var rest := Words(s[1..]);
      if IsSpace(s[0]) then rest
      else if |s| == 1 || IsSpace(s[1]) then [[s[0]]] + rest
      else [[s[0]] + rest[0]] + rest[1..]
  }

  /** " ".join(ws). */
  function JoinWords(ws: seq<string>): string {
    if ws == [] then [] else if |ws| == 1 then ws[0] else ws[0] + " " + JoinWords(ws[1..])
  }

  // -------------------------------------------------------------- lemmas

  /** Words only looks at whether the rest starts with whitespace, and at the rest's words. */
  lemma WordsCons(c: char, x: string, y: string)
    requires Words(x) == Words(y)
    requires (x == [] || IsSpace(x[0])) <==> (y == [] || IsSpace(y[0]))
    ensures Words([c] + x) == Words([c] + y)
  {
    assert ([c] + x)[1..] == x;
    assert ([c] + y)[1..] == y;
  }

  lemma {:induction false} WordsOfAllSpace(s: string)
    requires AllSpace(s)
    ensures Words(s) == []
  {
    if s != [] {
      WordsOfAllSpace(s[1..]);
    }
  }

  /** Leading whitespace does not change the words. */
  lemma {:induction false} WordsDropLeading(s: string, k: nat)
    requires k <= |s| && AllSpace(s[..k])
    ensures Words(s[k..]) == Words(s)
  {
    if k > 0 {
      assert IsSpace(s[..k][0]);
      var t := s[1..][..k - 1];
      assert AllSpace(t) by {
        forall i | 0 <= i < k - 1 ensures IsSpace(t[i]) {
          assert t[i] == s[..k][i + 1];
        }
      }
      WordsDropLeading(s[1..], k - 1);
      assert s[1..][k - 1..] == s[k..];
    }
  }

  /** Trailing whitespace does not change the words. */
  lemma {:induction false} WordsDropTrailing(s: string, m: nat)
    requires m <= |s| && AllSpace(s[m..])
    ensures Words(s[..m]) == Words(s)
  {
    if m == 0 {
      assert s[m..] == s;
      WordsOfAllSpace(s);
    } else {
      var t := s[1..];
      assert AllSpace(t[m - 1..]) by {
        assert t[m - 1..] == s[m..];
      }
      WordsDropTrailing(t, m - 1);
      if m == 1 {
        WordsOfAllSpace(t);
        assert t == [] || IsSpace(t[0]) by {
          if t != [] { assert t[0] == s[m..][0]; }
        }
      }
      assert s[..m] == [s[0]] + t[..m - 1];
      assert s == [s[0]] + t;
      WordsCons(s[0], t[..m - 1], t);
    }
  }

  /** Python's `len(s.split())` is unchanged by s.strip(). */
  lemma WordsOfStrip(s: string)
    ensures Words(Strip(s)) == Words(s)
  {
    var a := LeadLen(s, IsSpace);
    var t := s[a..];
    var r := Strip(s);
    StripByDropped(s, IsSpace);
    assert AllSpace(s[..a]);
    WordsDropLeading(s, a);
    assert r == t[..|r|];
    assert AllSpace(t[|r|..]) by {
      forall i | 0 <= i < |t| - |r| ensures IsSpace(t[|r|..][i]) {
        assert t[|r|..][i] == s[a + |r| + i];
      }
    }
    WordsDropTrailing(t, |r|);
  }

  lemma {:induction false} WordsOfCollapse(s: string)
    ensures Words(Collapse(s)) == Words(s)
  {
    if s != [] {
      WordsOfCollapse(s[1..]);
      var c := Collapse(s[1..]);
      assert s == [s[0]] + s[1..];
      if IsSpace(s[0]) {
        WordsSpaceCons(s[0], s[1..]);
        if !(|s| > 1 && IsSpace(s[1])) {
          WordsSpaceCons(' ', c);
        }
      } else {
        WordsCons(s[0], c, s[1..]);
      }
    }
  }

  /** A leading whitespace character adds no word. */
  lemma WordsSpaceCons(c: char, x: string)
    requires IsSpace(c)
    ensures Words([c] + x) == Words(x)
  {
    assert ([c] + x)[1..] == x;
  }

  lemma {:induction false} WordsOfReplaceChar(s: string, x: char, y: char)
    requires IsSpace(x) && IsSpace(y)
    ensures Words(ReplaceChar(s, x, y)) == Words(s)
  {
    if s != [] {
      WordsOfReplaceChar(s[1..], x, y);
      var r := ReplaceChar(s[1..], x, y);
      var c := if s[0] == x then y else s[0];
      assert ReplaceChar(s, x, y) == [c] + r;
      if IsSpace(s[0]) {
        assert ([c] + r)[1..] == r;
      } else {
        WordsCons(s[0], r, s[1..]);
        assert s == [s[0]] + s[1..];
      }
    }
  }

  lemma {:induction false} WordsOfReplaceCrLf(s: string)
    ensures Words(ReplaceCrLf(s)) == Words(s)
  {
    if |s| >= 2 && s[0] == '\r' && s[1] == '\n' {
      WordsOfReplaceCrLf(s[2..]);
      var r := ReplaceCrLf(s[2..]);
      assert ("\n" + r)[1..] == r;
      assert s[1..][1..] == s[2..];
    } else if s != [] {
      WordsOfReplaceCrLf(s[1..]);
      var r := ReplaceCrLf(s[1..]);
      if IsSpace(s[0]) {
        assert ([s[0]] + r)[1..] == r;
      } else {
        WordsCons(s[0], r, s[1..]);
        assert s == [s[0]] + s[1..];
      }
    }
  }

  /** A slice of a single-spaced string is single-spaced. */
  lemma SingleSpacedSlice(s: string, lo: nat, hi: nat)
    requires SingleSpaced(s) && lo <= hi <= |s|
    ensures SingleSpaced(s[lo..hi])
  {
    var t := s[lo..hi];
    forall i | 0 <= i < |t| - 1 ensures !(IsSpace(t[i]) && IsSpace(t[i + 1])) {
      assert t[i] == s[lo + i] && t[i + 1] == s[lo + i + 1];
    }
  }

  /** Stripping keeps a string single-spaced. */
  lemma StripBySingleSpaced(s: string, drop: char -> bool)
    requires SingleSpaced(s)
    ensures SingleSpaced(StripBy(s, drop))
  {
    var a := LeadLen(s, drop);
    SingleSpacedSlice(s, a, a + |StripBy(s, drop)|);
  }

  lemma JoinConsChar(c: char, ws: seq<string>)
    requires ws != []
    ensures JoinWords([[c] + ws[0]] + ws[1..]) == [c] + JoinWords(ws)
  {
    var v := [[c] + ws[0]] + ws[1..];
    assert v[1..] == ws[1..];
  }

  /** A canonical string is the join of its own words: it is a fixed point of `" ".join(s.split())`. */
  lemma {:induction false} CanonicalIsJoinOfWords(r: string)
    requires Canonical(r)
    ensures JoinWords(Words(r)) == r
    decreases |r|
  {
    if |r| > 1 {
      var t := r[1..];
      SingleSpacedSlice(r, 1, |r|);
      if IsSpace(t[0]) {
        var u := t[1..];
        assert |r| > 2 && !IsSpace(r[2]);
        assert u == r[2..];
        SingleSpacedSlice(r, 2, |r|);
        CanonicalIsJoinOfWords(u);
        assert Words(t) == Words(u);
        assert r == [r[0]] + " " + u;
      } else {
        CanonicalIsJoinOfWords(t);
        JoinConsChar(r[0], Words(t));
        assert r == [r[0]] + t;
      }
    }
  }

  // --------------------------------------------------- fixed points

  lemma {:induction false} ReplaceCharAbsent(s: string, x: char, y: char)
    requires x !in s
    ensures ReplaceChar(s, x, y) == s
  {
    if s != [] {
      ReplaceCharAbsent(s[1..], x, y);
    }
  }

  lemma {:induction false} CollapseSingleSpaced(s: string)
    requires SingleSpaced(s)
    ensures Collapse(s) == s
  {
    if s != [] {
      assert Collapse(s[1..]) == s[1..] by {
        SingleSpacedSlice(s, 1, |s|);
        CollapseSingleSpaced(s[1..]);
      }
      if IsSpace(s[0]) {
        assert s[0] == ' ' && !(|s| > 1 && IsSpace(s[1])) by {
          if |s| > 1 {
            assert !(IsSpace(s[0]) && IsSpace(s[1]));
          }
        }
      }
      assert s == [s[0]] + s[1..];
    }
  }

  /** Stripping a string whose ends are kept changes nothing. */
  lemma StripByKept(s: string, drop: char -> bool)
    requires s != [] ==> !drop(s[0]) && !drop(s[|s| - 1])
    ensures StripBy(s, drop) == s
  {
    assert LeadLen(s, drop) == 0;
    assert TrailLen(s, drop) == 0;
  }
}
