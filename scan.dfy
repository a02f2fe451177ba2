/**
 * The two regular expressions of the parser and Python's re.findall over
 * them. Each pattern is given twice: as the language it denotes (a
 * predicate on a candidate match) and as a matcher that computes, from a
 * start position, where the match that re.findall reports ends. The
 * lemmas connect the two, and then connect the left-to-right scan with the
 * language: the scan reports exactly the leftmost, non-overlapping, longest
 * matches.
 */
module Scan {
  import opened Chars
  import opened Wrappers

  datatype CharClass = Digit | Word | DigitOrComma

  predicate InClass(c: char, k: CharClass) {
    match k
    case Digit => IsDigit(c)
    case Word => IsWordChar(c)
    case DigitOrComma => IsDigit(c) || c == ','
  }

  predicate AllIn(w: string, k: CharClass) {
    forall i :: 0 <= i < |w| ==> InClass(w[i], k)
  }

  /** The characters of w at positions a up to b are in class k. */
  predicate AllInRange(w: string, a: int, b: int, k: CharClass) {
    forall i {:trigger InClass(w[i], k)} :: a <= i < b && 0 <= i < |w| ==> InClass(w[i], k)
  }

  /** Length of the longest stretch of class characters starting at p. */
  function Run(s: string, p: nat, k: CharClass): (n: nat)
    requires p <= |s|
    ensures p + n <= |s|
    ensures AllInRange(s, p, p + n, k)
    ensures p + n < |s| ==> !InClass(s[p + n], k)
    decreases |s| - p
  {
    if p < |s| && InClass(s[p], k) then 1 + Run(s, p + 1, k) else 0
  }

  /** A stretch from p consists of class characters exactly when it stays inside the run. */
  lemma RunRange(s: string, p: nat, c: nat, k: CharClass)
    requires p <= c <= |s|
    ensures AllInRange(s, p, c, k) <==> c <= p + Run(s, p, k)
  {
    var n := Run(s, p, k);
    if c > p + n {
      assert !InClass(s[p + n], k);
    }
  }

  /** A stretch of class characters followed by a non-class character (or the end) is the whole run. */
  lemma RunIs(s: string, p: nat, c: nat, k: CharClass)
    requires p <= c <= |s|
    requires AllInRange(s, p, c, k)
    requires c < |s| ==> !InClass(s[c], k)
    ensures Run(s, p, k) == c - p
  {
    RunRange(s, p, c, k);
  }

  /** Positions in a slice are positions in the text, shifted. */
  lemma RangeOfSlice(s: string, p: nat, e: nat, a: int, b: int, k: CharClass)
    requires p <= e <= |s| && 0 <= a && b <= e - p
    ensures AllInRange(s[p..e], a, b, k) <==> AllInRange(s, p + a, p + b, k)
  {
    var w := s[p..e];
    if AllInRange(w, a, b, k) {
      forall i | p + a <= i < p + b && 0 <= i < |s| ensures InClass(s[i], k) {
        assert w[i - p] == s[i];
        assert InClass(w[i - p], k);
      }
    }
    if AllInRange(s, p + a, p + b, k) {
      forall i | a <= i < b && 0 <= i < |w| ensures InClass(w[i], k) {
        assert w[i] == s[p + i];
        assert InClass(s[p + i], k);
      }
    }
  }

  // ---------------------------------------------------------------------
  // The period pattern  \d{1,2} \w{3,9} \d{4}
  // ---------------------------------------------------------------------

  /** \d{d}, a space, \w{3,9}, a space, \d{4}: the period pattern with a day of d digits. */
  predicate PeriodWithDay(w: string, d: nat) {
    && d + 9 <= |w| <= d + 15
    && AllInRange(w, 0, d, Digit) && w[d] == ' '
    && AllInRange(w, d + 1, |w| - 5, Word) && w[|w| - 5] == ' '
    && AllInRange(w, |w| - 4, |w|, Digit)
  }

  /** The language of \d{1,2} \w{3,9} \d{4}. */
  predicate PeriodText(w: string) {
    PeriodWithDay(w, 1) || PeriodWithDay(w, 2)
  }

  /**
   * Where a period match starting at p ends. The day takes two digits when
   * there are two (taking one would leave a digit where the space must be),
   * and the month word is the whole run of word characters (a shorter one
   * would leave a word character where the space must be), so the
   * backtracking of the regex engine never changes the outcome.
   */
  function PeriodAt(s: string, p: nat): (r: Option<nat>)
    requires p <= |s|
    ensures r.Some? ==> p < r.value <= |s|
  {
    if p < |s| && IsDigit(s[p]) then
      var q := if p + 1 < |s| && IsDigit(s[p + 1]) then p + 2 else p + 1;
      if q < |s| && s[q] == ' ' then
        var m := q + 1 + Run(s, q + 1, Word);
        if 3 <= m - (q + 1) <= 9 && m + 5 <= |s| && s[m] == ' ' && AllInRange(s, m + 1, m + 5, Digit) then
          Some(m + 5)
        else None
      else None
    else None
  }

  /** The period pattern on a slice of s, stated on s itself. */
  lemma PeriodWithDaySlice(s: string, p: nat, e: nat, d: nat)
    requires p <= e <= |s| && d + 9 <= e - p
    ensures PeriodWithDay(s[p..e], d) <==>
      && e - p <= d + 15
      && AllInRange(s, p, p + d, Digit) && s[p + d] == ' '
      && AllInRange(s, p + d + 1, e - 5, Word) && s[e - 5] == ' '
      && AllInRange(s, e - 4, e, Digit)
  {
    var w := s[p..e];
    RangeOfSlice(s, p, e, 0, d, Digit);
    RangeOfSlice(s, p, e, d + 1, |w| - 5, Word);
    RangeOfSlice(s, p, e, |w| - 4, |w|, Digit);
    assert w[d] == s[p + d] && w[|w| - 5] == s[e - 5];
  }

  lemma PeriodAtSound(s: string, p: nat)
    requires p <= |s| && PeriodAt(s, p).Some?
    ensures PeriodText(s[p..PeriodAt(s, p).value])
  {
    var e := PeriodAt(s, p).value;
    var q := if p + 1 < |s| && IsDigit(s[p + 1]) then p + 2 else p + 1;
    var m := q + 1 + Run(s, q + 1, Word);
    assert e == m + 5;
    assert AllInRange(s, p, q, Digit) by {
      assert InClass(s[p], Digit);
      if q == p + 2 {
        assert InClass(s[p + 1], Digit);
      }
    }
    PeriodWithDaySlice(s, p, e, q - p);
  }

  lemma PeriodAtComplete(s: string, p: nat, e: nat, d: nat)
    requires p <= e <= |s|
    requires PeriodWithDay(s[p..e], d) && (d == 1 || d == 2)
    ensures PeriodAt(s, p) == Some(e)
  {
    PeriodWithDaySlice(s, p, e, d);
    assert InClass(s[p], Digit);
    if d == 2 {
      assert InClass(s[p + 1], Digit);
    }
    var q := if p + 1 < |s| && IsDigit(s[p + 1]) then p + 2 else p + 1;
    assert q == p + d;
    RunIs(s, q + 1, e - 5, Word);
  }

  /** The matcher reports a period match at p exactly when the pattern matches a slice from p, and it is the only one. */
  lemma PeriodAtSpec(s: string, p: nat)
    requires p <= |s|
    ensures PeriodAt(s, p).Some? ==> PeriodText(s[p..PeriodAt(s, p).value])
    ensures forall e :: p <= e <= |s| && PeriodText(s[p..e]) ==> PeriodAt(s, p) == Some(e)
  {
    if PeriodAt(s, p).Some? {
      PeriodAtSound(s, p);
    }
    forall e | p <= e <= |s| && PeriodText(s[p..e]) ensures PeriodAt(s, p) == Some(e) {
      if PeriodWithDay(s[p..e], 1) {
        PeriodAtComplete(s, p, e, 1);
      } else {
        PeriodAtComplete(s, p, e, 2);
      }
    }
  }

  // ---------------------------------------------------------------------
  // The number pattern  -?\d[\d,]*\.?\d*
  // ---------------------------------------------------------------------

  /** The language of [\d,]*\.?\d*, on w from position i. */
  predicate IntThenFraction(w: string, i: nat)
    requires i <= |w|
    decreases |w| - i
  {
    if i == |w| then true
    else if IsDigit(w[i]) || w[i] == ',' then IntThenFraction(w, i + 1)
    else w[i] == '.' && AllInRange(w, i + 1, |w|, Digit)
  }

  /** The language of -?\d[\d,]*\.?\d* (a leading '-' can only be the optional sign). */
  predicate NumberText(w: string) {
    var b := if w != [] && w[0] == '-' then 1 else 0;
    b < |w| && IsDigit(w[b]) && IntThenFraction(w, b + 1)
  }

  /** Where the digits of a number starting at p begin: after the sign, if there is one. */
  function NumberStart(s: string, p: nat): (b: nat)
    requires p <= |s|
    ensures p <= b <= |s|
  {
    if p < |s| && s[p] == '-' then p + 1 else p
  }

  /**
   * Where the match of -?\d[\d,]*\.?\d* starting at p ends. Every part is
   * greedy and what follows it can match the empty string, so the engine
   * keeps each greedy choice: the result is the longest match.
   */
  function NumberAt(s: string, p: nat): (r: Option<nat>)
    requires p <= |s|
    ensures r.Some? ==> p < r.value <= |s|
  {
    var b := NumberStart(s, p);
    if b < |s| && IsDigit(s[b]) then
      var i := b + 1 + Run(s, b + 1, DigitOrComma);
      if i < |s| && s[i] == '.' then Some(i + 1 + Run(s, i + 1, Digit)) else Some(i)
    else None
  }

  /**
   * Which slices s[p..e] are in [\d,]*\.?\d* from position i: those that end
   * inside the digits-and-commas run from p + i, or inside the fraction
   * after it.
   */
  lemma {:induction false} IntThenFractionSlice(s: string, p: nat, e: nat, i: nat)
    requires p <= e <= |s| && i <= e - p
    ensures var j := p + i + Run(s, p + i, DigitOrComma);
      IntThenFraction(s[p..e], i) <==> (e <= j || (j < |s| && s[j] == '.' && e <= j + 1 + Run(s, j + 1, Digit)))
    decreases e - p - i
  {
    var w := s[p..e];
    if i < |w| {
      assert w[i] == s[p + i];
      if IsDigit(s[p + i]) || s[p + i] == ',' {
        IntThenFractionSlice(s, p, e, i + 1);
      } else if s[p + i] == '.' {
        RangeOfSlice(s, p, e, i + 1, |w|, Digit);
        RunRange(s, p + i + 1, e, Digit);
      }
    }
  }

  /** The slices from p that are numbers are exactly those from the sign-less start up to the matcher's end. */
  lemma NumberTextSlice(s: string, p: nat, e: nat)
    requires p <= e <= |s|
    ensures NumberText(s[p..e]) <==> NumberAt(s, p).Some? && NumberStart(s, p) < e <= NumberAt(s, p).value
  {
    var w := s[p..e];
    var b := NumberStart(s, p);
    if p < e {
      assert w[0] == s[p];
      if b < e {
        assert w[b - p] == s[b];
        if IsDigit(s[b]) {
          IntThenFractionSlice(s, p, e, b - p + 1);
        }
      }
    }
  }

  /** The matcher reports the longest number match at p, and reports none exactly when no slice from p matches. */
  lemma NumberAtSpec(s: string, p: nat)
    requires p <= |s|
    ensures NumberAt(s, p).Some? ==> NumberText(s[p..NumberAt(s, p).value])
    ensures NumberAt(s, p).Some? ==> forall e :: NumberAt(s, p).value < e <= |s| ==> !NumberText(s[p..e])
    ensures forall e :: p <= e <= |s| && NumberText(s[p..e]) ==> NumberAt(s, p).Some?
  {
    if NumberAt(s, p).Some? {
      NumberTextSlice(s, p, NumberAt(s, p).value);
    }
    forall e | p <= e <= |s| ensures NumberText(s[p..e]) ==> NumberAt(s, p).Some? && e <= NumberAt(s, p).value {
      NumberTextSlice(s, p, e);
    }
  }

  // ---------------------------------------------------------------------
  // re.findall
  // ---------------------------------------------------------------------

  datatype Pattern = Period | Number

  predicate Matches(pat: Pattern, w: string) {
    match pat
    case Period => PeriodText(w)
    case Number => NumberText(w)
  }

  function MatchAt(pat: Pattern, s: string, p: nat): (r: Option<nat>)
    requires p <= |s|
    ensures r.Some? ==> p < r.value <= |s|
  {
    match pat
    case Period => PeriodAt(s, p)
    case Number => NumberAt(s, p)
  }

  /** For both patterns: the match the engine reports at p is the longest one, and there is none only when nothing from p matches. */
  lemma MatchAtSpec(pat: Pattern, s: string, p: nat)
    requires p <= |s|
    ensures MatchAt(pat, s, p).Some? ==> Matches(pat, s[p..MatchAt(pat, s, p).value])
    ensures MatchAt(pat, s, p).Some? ==> forall e :: MatchAt(pat, s, p).value < e <= |s| ==> !Matches(pat, s[p..e])
    ensures forall e :: p <= e <= |s| && Matches(pat, s[p..e]) ==> MatchAt(pat, s, p).Some?
  {
    match pat
    case Period => PeriodAtSpec(s, p);
    case Number => NumberAtSpec(s, p);
  }

  /** The (start, end) positions of the matches re.findall reports from pos on. */
  function Spans(pat: Pattern, s: string, pos: nat): (sp: seq<(nat, nat)>)
    requires pos <= |s|
    ensures forall k :: 0 <= k < |sp| ==> pos <= sp[k].0 < sp[k].1 <= |s|
    decreases |s| - pos
  {
    if pos == |s| then []
    else
      match MatchAt(pat, s, pos)
      case Some(e) => [(pos, e)] + Spans(pat, s, e)
      case None => Spans(pat, s, pos + 1)
  }

  /** Every span is a match, and the longest one from its start. */
  predicate LongestMatches(pat: Pattern, s: string, sp: seq<(nat, nat)>) {
    forall k :: 0 <= k < |sp| ==>
      && sp[k].0 <= sp[k].1 <= |s|
      && Matches(pat, s[sp[k].0..sp[k].1])
      && forall e :: sp[k].1 < e <= |s| ==> !Matches(pat, s[sp[k].0..e])
  }

  /** The spans are in text order and do not overlap. */
  predicate Ordered(sp: seq<(nat, nat)>) {
    forall j, k :: 0 <= j < k < |sp| ==> sp[j].1 <= sp[k].0
  }

  /** Every position from pos where some match starts lies inside a span. */
  predicate Covers(pat: Pattern, s: string, pos: nat, sp: seq<(nat, nat)>) {
    forall q, e :: pos <= q <= e <= |s| && Matches(pat, s[q..e]) ==>
      exists k :: 0 <= k < |sp| && sp[k].0 <= q < sp[k].1
  }

  /** Every span the scan reports is a longest match. */
  lemma {:induction false} SpansMatch(pat: Pattern, s: string, pos: nat)
    requires pos <= |s|
    ensures LongestMatches(pat, s, Spans(pat, s, pos))
    decreases |s| - pos
  {
    if pos < |s| {
      match MatchAt(pat, s, pos)
      case None =>
        assert Spans(pat, s, pos) == Spans(pat, s, pos + 1);
        SpansMatch(pat, s, pos + 1);
      case Some(e0) =>
        assert Spans(pat, s, pos) == [(pos, e0)] + Spans(pat, s, e0);
        MatchAtSpec(pat, s, pos);
        SpansMatch(pat, s, e0);
        ConsLongest(pat, s, pos, e0, Spans(pat, s, e0));
    }
  }

  lemma ConsLongest(pat: Pattern, s: string, a: nat, b: nat, tail: seq<(nat, nat)>)
    requires a <= b <= |s| && Matches(pat, s[a..b])
    requires forall e :: b < e <= |s| ==> !Matches(pat, s[a..e])
    requires LongestMatches(pat, s, tail)
    ensures LongestMatches(pat, s, [(a, b)] + tail)
  {
    var sp := [(a, b)] + tail;
    assert sp[0] == (a, b);
    assert forall k :: 0 < k < |sp| ==> sp[k] == tail[k - 1];
  }

  /** The spans the scan reports are in text order and do not overlap. */
  lemma {:induction false} SpansOrdered(pat: Pattern, s: string, pos: nat)
    requires pos <= |s|
    ensures Ordered(Spans(pat, s, pos))
    decreases |s| - pos
  {
    if pos < |s| {
      match MatchAt(pat, s, pos)
      case None =>
        assert Spans(pat, s, pos) == Spans(pat, s, pos + 1);
        SpansOrdered(pat, s, pos + 1);
      case Some(e0) =>
        assert Spans(pat, s, pos) == [(pos, e0)] + Spans(pat, s, e0);
        SpansOrdered(pat, s, e0);
        ConsOrdered(pos, e0, Spans(pat, s, e0));
    }
  }

  lemma ConsOrdered(a: nat, b: nat, tail: seq<(nat, nat)>)
    requires Ordered(tail)
    requires forall k :: 0 <= k < |tail| ==> b <= tail[k].0
    ensures Ordered([(a, b)] + tail)
  {
    var sp := [(a, b)] + tail;
    forall j, k | 0 <= j < k < |sp| ensures sp[j].1 <= sp[k].0 {
      assert sp[k] == tail[k - 1];
      if j > 0 {
        assert sp[j] == tail[j - 1];
      }
    }
  }

  /** The scan skips no match. */
  lemma {:induction false} SpansCover(pat: Pattern, s: string, pos: nat)
    requires pos <= |s|
    ensures Covers(pat, s, pos, Spans(pat, s, pos))
    decreases |s| - pos
  {
    if pos == |s| {
      forall q, e | pos <= q <= e <= |s| ensures !Matches(pat, s[q..e]) {
        assert |s[q..e]| == 0;
      }
    } else if MatchAt(pat, s, pos).None? {
      SpansCover(pat, s, pos + 1);
      CoverAfterMiss(pat, s, pos);
    } else {
      var e0 := MatchAt(pat, s, pos).value;
      SpansCover(pat, s, e0);
      CoverAfterMatch(pat, s, pos, e0);
    }
  }

  lemma CoverAfterMiss(pat: Pattern, s: string, pos: nat)
    requires pos < |s| && MatchAt(pat, s, pos).None?
    requires Covers(pat, s, pos + 1, Spans(pat, s, pos + 1))
    ensures Covers(pat, s, pos, Spans(pat, s, pos))
  {
    MatchAtSpec(pat, s, pos);
    var sp := Spans(pat, s, pos);
    assert sp == Spans(pat, s, pos + 1);
    forall q, e | pos <= q <= e <= |s| && Matches(pat, s[q..e])
      ensures exists k :: 0 <= k < |sp| && sp[k].0 <= q < sp[k].1
    {
      assert q != pos;
    }
  }

  lemma CoverAfterMatch(pat: Pattern, s: string, pos: nat, e0: nat)
    requires pos < |s| && MatchAt(pat, s, pos) == Some(e0)
    requires Covers(pat, s, e0, Spans(pat, s, e0))
    ensures Covers(pat, s, pos, Spans(pat, s, pos))
  {
    var sp := Spans(pat, s, pos);
    var tail := Spans(pat, s, e0);
    assert sp == [(pos, e0)] + tail;
    forall q, e | pos <= q <= e <= |s| && Matches(pat, s[q..e])
      ensures exists k :: 0 <= k < |sp| && sp[k].0 <= q < sp[k].1
    {
      if q < e0 {
        assert sp[0].0 <= q < sp[0].1;
      } else {
        var k :| 0 <= k < |tail| && tail[k].0 <= q < tail[k].1;
        assert sp[k + 1] == tail[k];
      }
    }
  }

  /** re.findall(pattern, s): the matched texts, in order. */
  function FindAll(pat: Pattern, s: string): (ms: seq<string>)
    ensures forall i :: 0 <= i < |ms| ==> Matches(pat, ms[i])
  {
    var sp := Spans(pat, s, 0);
    SpansMatch(pat, s, 0);
    var ms := seq(|sp|, k requires 0 <= k < |sp| => s[sp[k].0..sp[k].1]);
    forall i | 0 <= i < |ms| ensures Matches(pat, ms[i]) {
      assert ms[i] == s[sp[i].0..sp[i].1];
    }
    ms
  }

  /** findall reports no match exactly when the pattern matches no slice of s. */
  lemma FindAllEmpty(pat: Pattern, s: string)
    ensures FindAll(pat, s) == [] <==> forall q, e :: 0 <= q <= e <= |s| ==> !Matches(pat, s[q..e])
  {
    var sp := Spans(pat, s, 0);
    SpansCover(pat, s, 0);
    SpansMatch(pat, s, 0);
    if sp != [] {
      assert Matches(pat, s[sp[0].0..sp[0].1]);
    }
  }

  /** A line has a numeric token exactly when it contains a digit. */
  lemma NumberTokensIffDigit(s: string)
    ensures FindAll(Number, s) != [] <==> exists i :: 0 <= i < |s| && IsDigit(s[i])
  {
    FindAllEmpty(Number, s);
    if exists i :: 0 <= i < |s| && IsDigit(s[i]) {
      var i :| 0 <= i < |s| && IsDigit(s[i]);
      var w := s[i..i + 1];
      assert w[0] == s[i] && w[1..] == [];
      assert NumberText(w);
    }
    if FindAll(Number, s) != [] {
      var q, e :| 0 <= q <= e <= |s| && Matches(Number, s[q..e]);
      var w := s[q..e];
      assert NumberText(w);
      var b := if w != [] && w[0] == '-' then w[1..] else w;
      assert b != [] && IsDigit(b[0]);
      if w != [] && w[0] == '-' {
        assert b[0] == s[q + 1];
      } else {
        assert b[0] == s[q];
      }
    }
  }

  /** The example of a period without a word boundary after the year: the fifth digit is left over. */
  lemma PeriodExample()
    ensures FindAll(Period, "31 Dec 20234") == ["31 Dec 2023"]
  {
    var s := "31 Dec 20234";
    assert s[0..11] == "31 Dec 2023";
    assert PeriodWithDay(s[0..11], 2);
    PeriodAtSpec(s, 0);
    assert Spans(Period, s, 11) == [];
    assert Spans(Period, s, 0) == [(0, 11)];
  }
}
