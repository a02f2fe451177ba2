/**
 * The string-level helpers of the parser: clean_text, str.strip(),
 * normalize and str.split('\n').
 */
module TextOps {
  import opened Chars

  predicate AllAscii(s: string) {
    forall i :: 0 <= i < |s| ==> IsAscii(s[i])
  }

  predicate AllNonAscii(s: string) {
    forall i :: 0 <= i < |s| ==> !IsAscii(s[i])
  }

  predicate AllSpace(s: string) {
    forall i :: 0 <= i < |s| ==> IsSpace(s[i])
  }

  // ---------------------------------------------------------------------
  // clean_text: re.sub(r"[^\x00-\x7F]+", " ", text).strip()
  // ---------------------------------------------------------------------

  /** Skips the rest of a run of non-ASCII characters. */
  function SkipNonAscii(s: string): (r: string)
    ensures |r| <= |s| && r == s[|s| - |r|..]
    ensures AllNonAscii(s[..|s| - |r|])
    ensures r == [] || IsAscii(r[0])
  {
    if s != [] && !IsAscii(s[0]) then
      var r := SkipNonAscii(s[1..]);
      SkipStep(s, r);
      r
    else s
  }

  /** One more non-ASCII character in front of a run extends the skipped part. */
  lemma SkipStep(s: string, r: string)
    requires s != [] && !IsAscii(s[0])
    requires |r| <= |s| - 1 && r == s[1..][|s| - 1 - |r|..]
    requires AllNonAscii(s[1..][..|s| - 1 - |r|])
    ensures r == s[|s| - |r|..]
    ensures AllNonAscii(s[..|s| - |r|])
  {
    var k := |s| - |r|;
    assert s[1..][k - 1..] == s[k..];
    assert forall i :: 0 < i < k ==> s[..k][i] == s[1..][..k - 1][i - 1];
  }

  /** The substitution: every maximal run of non-ASCII characters becomes one space. */
  function ReplaceNonAscii(s: string): (r: string)
    ensures AllAscii(r)
    ensures |r| <= |s|
    decreases |s|
  {
    if s == [] then []
    else if IsAscii(s[0]) then [s[0]] + ReplaceNonAscii(s[1..])
    else [' '] + ReplaceNonAscii(SkipNonAscii(s[1..]))
  }

  /** Number of leading whitespace characters. */
  function LeadingSpaces(s: string): (n: nat)
    ensures n <= |s|
    ensures AllSpace(s[..n])
    ensures n < |s| ==> !IsSpace(s[n])
  {
    if s != [] && IsSpace(s[0]) then
      var n := 1 + LeadingSpaces(s[1..]);
      assert forall i :: 0 < i < n ==> s[..n][i] == s[1..][..n - 1][i - 1];
      n
    else 0
  }

  /** Number of trailing whitespace characters. */
  function TrailingSpaces(s: string): (n: nat)
    ensures n <= |s|
    ensures AllSpace(s[|s| - n..])
    ensures n < |s| ==> !IsSpace(s[|s| - 1 - n])
  {
    if s != [] && IsSpace(s[|s| - 1]) then
      var n := 1 + TrailingSpaces(s[..|s| - 1]);
      assert s[|s| - n..] == s[..|s| - 1][|s| - n..] + [s[|s| - 1]];
      n
    else 0
  }

  /**
   * str.strip(): the result is the piece of s that starts after the
   * leading whitespace, everything after it is whitespace, and it neither
   * starts nor ends with whitespace.
   */
  function Strip(s: string): (r: string)
    ensures LeadingSpaces(s) + |r| <= |s|
    ensures r == s[LeadingSpaces(s)..LeadingSpaces(s) + |r|]
    ensures AllSpace(s[LeadingSpaces(s) + |r|..])
    ensures r == [] <==> AllSpace(s)
    ensures r != [] ==> !IsSpace(r[0]) && !IsSpace(r[|r| - 1])
  {
    var n := LeadingSpaces(s);
    if n == |s| then
      assert s[..n] == s;
      []
    else
      var m := TrailingSpaces(s);
      assert n < |s| - m;
      assert !AllSpace(s) by { assert !IsSpace(s[n]); }
      s[n..|s| - m]
  }

  /** clean_text: the non-ASCII runs become spaces, then the result is stripped. */
  function CleanText(text: string): (r: string)
    ensures AllAscii(r)
    ensures r == [] || (!IsSpace(r[0]) && !IsSpace(r[|r| - 1]))
  {
    var s := ReplaceNonAscii(text);
    SliceOfAscii(s, LeadingSpaces(s), LeadingSpaces(s) + |Strip(s)|);
    Strip(s)
  }

  lemma SliceOfAscii(s: string, i: nat, j: nat)
    requires AllAscii(s) && i <= j <= |s|
    ensures AllAscii(s[i..j])
  {
    assert forall k :: 0 <= k < j - i ==> s[i..j][k] == s[i + k];
  }

  /** On text that is already ASCII, clean_text is just strip. */
  lemma {:induction false} ReplaceNonAsciiKeepsAscii(s: string)
    requires AllAscii(s)
    ensures ReplaceNonAscii(s) == s
    decreases |s|
  {
    if s != [] {
      ReplaceNonAsciiKeepsAscii(s[1..]);
      assert s == [s[0]] + s[1..];
    }
  }

  lemma CleanAsciiIsStrip(text: string)
    requires AllAscii(text)
    ensures CleanText(text) == Strip(text)
  {
    ReplaceNonAsciiKeepsAscii(text);
  }

  /** A whole run of non-ASCII characters becomes exactly one space. */
  lemma {:induction false} ReplaceRun(run: string)
    requires run != [] && AllNonAscii(run)
    ensures ReplaceNonAscii(run) == " "
  {
    assert AllNonAscii(run[1..]) by {
      assert forall i :: 0 <= i < |run[1..]| ==> run[1..][i] == run[i + 1];
    }
  }

  /** Skipping a run distributes over a cut that does not fall inside the run's end. */
  lemma {:induction false} SkipNonAsciiAppend(a: string, b: string)
    requires b == [] || IsAscii(b[0]) || !AllNonAscii(a)
    ensures SkipNonAscii(a + b) == (if AllNonAscii(a) then b else SkipNonAscii(a) + b)
    decreases |a|
  {
    if a == [] {
      assert a + b == b;
    } else {
      assert (a + b)[0] == a[0];
      assert (a + b)[1..] == a[1..] + b;
      if !IsAscii(a[0]) {
        assert AllNonAscii(a) == AllNonAscii(a[1..]) by {
          assert forall i :: 0 < i < |a| ==> a[i] == a[1..][i - 1];
        }
        SkipNonAsciiAppend(a[1..], b);
      } else {
        assert !AllNonAscii(a);
      }
    }
  }

  /**
   * The substitution is a homomorphism on cuts that do not split a
   * non-ASCII run: replacing in the two halves and concatenating is the
   * same as replacing in the whole.
   */
  lemma {:induction false} ReplaceNonAsciiAppend(a: string, b: string)
    requires a == [] || b == [] || IsAscii(a[|a| - 1]) || IsAscii(b[0])
    ensures ReplaceNonAscii(a + b) == ReplaceNonAscii(a) + ReplaceNonAscii(b)
    decreases |a|, 2
  {
    if a == [] {
      assert a + b == b;
    } else if IsAscii(a[0]) {
      assert (a + b)[0] == a[0];
      assert (a + b)[1..] == a[1..] + b;
      ReplaceNonAsciiAppend(a[1..], b);
    } else {
      ReplaceRunAppend(a, b);
    }
  }

  /** The case of ReplaceNonAsciiAppend where a starts with a non-ASCII run. */
  lemma {:induction false} ReplaceRunAppend(a: string, b: string)
    requires a != [] && !IsAscii(a[0])
    requires b == [] || IsAscii(a[|a| - 1]) || IsAscii(b[0])
    ensures ReplaceNonAscii(a + b) == ReplaceNonAscii(a) + ReplaceNonAscii(b)
    decreases |a|, 1
  {
    if AllNonAscii(a[1..]) {
      WholeRunAppend(a, b);
    } else {
      PartRunAppend(a, b);
    }
  }

  /** a is one non-ASCII run, so b must start the next piece. */
  lemma {:induction false} WholeRunAppend(a: string, b: string)
    requires a != [] && !IsAscii(a[0]) && AllNonAscii(a[1..])
    requires b == [] || IsAscii(a[|a| - 1]) || IsAscii(b[0])
    ensures ReplaceNonAscii(a + b) == ReplaceNonAscii(a) + ReplaceNonAscii(b)
  {
    var t := a[1..];
    assert (a + b)[0] == a[0];
    assert (a + b)[1..] == t + b;
    assert b == [] || IsAscii(b[0]) by {
      if t != [] { assert a[|a| - 1] == t[|t| - 1]; }
    }
    SkipNonAsciiAppend(t, b);
    SkipAllNonAscii(t);
    assert SkipNonAscii(t + b) == b;
    assert ReplaceNonAscii(a) == [' '];
  }

  /** a's first run ends inside a, so the rest of a is cut from b at an ASCII character. */
  lemma {:induction false} PartRunAppend(a: string, b: string)
    requires a != [] && !IsAscii(a[0]) && !AllNonAscii(a[1..])
    requires b == [] || IsAscii(a[|a| - 1]) || IsAscii(b[0])
    ensures ReplaceNonAscii(a + b) == ReplaceNonAscii(a) + ReplaceNonAscii(b)
    decreases |a|, 0
  {
    var t := a[1..];
    assert (a + b)[0] == a[0];
    assert (a + b)[1..] == t + b;
    SkipNonAsciiAppend(t, b);
    var r := SkipNonAscii(t);
    assert SkipNonAscii(t + b) == r + b;
    SkipNotAllNonAscii(t);
    assert r[|r| - 1] == t[|t| - 1] == a[|a| - 1];
    ReplaceNonAsciiAppend(r, b);
    var x, y := ReplaceNonAscii(r), ReplaceNonAscii(b);
    assert ReplaceNonAscii(a + b) == [' '] + (x + y);
    assert ReplaceNonAscii(a) == [' '] + x;
    ConcatAssoc([' '], x, y);
  }

  lemma ConcatAssoc(x: string, y: string, z: string)
    ensures x + (y + z) == (x + y) + z
  {
  }

  lemma {:induction false} SkipAllNonAscii(t: string)
    requires AllNonAscii(t)
    ensures SkipNonAscii(t) == []
    decreases |t|
  {
    if t != [] {
      assert forall i :: 0 <= i < |t[1..]| ==> t[1..][i] == t[i + 1];
      SkipAllNonAscii(t[1..]);
    }
  }

  lemma {:induction false} SkipNotAllNonAscii(t: string)
    requires !AllNonAscii(t)
    ensures SkipNonAscii(t) != []
  {
    var i :| 0 <= i < |t| && IsAscii(t[i]);
  }

  // ---------------------------------------------------------------------
  // normalize: re.sub(r'[^a-z]', '', text.lower())
  // ---------------------------------------------------------------------

  /** str.lower() on ASCII text. */
  function Lower(s: string): (r: string)
    ensures forall i :: 0 <= i < |r| ==> !IsUpper(r[i])
  {
    seq(|s|, i requires 0 <= i < |s| => ToLower(s[i]))
  }

  /** str.upper() on ASCII text. */
  function Upper(s: string): (r: string)
    ensures forall i :: 0 <= i < |r| ==> !IsLower(r[i])
  {
    seq(|s|, i requires 0 <= i < |s| => ToUpper(s[i]))
  }

  /** Deletes every character outside a-z. */
  function KeepLower(s: string): (r: string)
    ensures |r| <= |s|
    ensures forall i :: 0 <= i < |r| ==> IsLower(r[i])
  {
    if s == [] then []
    else (if IsLower(s[0]) then [s[0]] else []) + KeepLower(s[1..])
  }

  function Normalize(text: string): (r: string)
    ensures |r| <= |text|
    ensures forall i :: 0 <= i < |r| ==> IsLower(r[i])
  {
    KeepLower(Lower(text))
  }

  lemma {:induction false} KeepLowerAppend(a: string, b: string)
    ensures KeepLower(a + b) == KeepLower(a) + KeepLower(b)
    decreases |a|
  {
    if a == [] {
      assert a + b == b;
    } else {
      assert (a + b)[0] == a[0];
      assert (a + b)[1..] == a[1..] + b;
      KeepLowerAppend(a[1..], b);
    }
  }

  lemma {:induction false} KeepLowerOfLetters(s: string)
    requires forall i :: 0 <= i < |s| ==> IsLower(s[i])
    ensures KeepLower(s) == s
    decreases |s|
  {
    if s != [] {
      KeepLowerOfLetters(s[1..]);
      assert s == [s[0]] + s[1..];
    }
  }

  /** normalize is idempotent. */
  lemma NormalizeIdempotent(text: string)
    ensures Normalize(Normalize(text)) == Normalize(text)
  {
    var n := Normalize(text);
    assert Lower(n) == n;
    KeepLowerOfLetters(n);
  }

  /** normalize ignores case. */
  lemma NormalizeIgnoresCase(text: string)
    ensures Normalize(Upper(text)) == Normalize(text)
  {
    forall i | 0 <= i < |text| ensures Lower(Upper(text))[i] == Lower(text)[i] {
      LowerOfUpper(text[i]);
    }
    assert Lower(Upper(text)) == Lower(text);
  }

  /** normalize ignores every character that is not a letter (digits, spaces, punctuation). */
  lemma NormalizeIgnoresNonLetter(a: string, c: char, b: string)
    requires !IsLower(c) && !IsUpper(c)
    ensures Normalize(a + [c] + b) == Normalize(a + b)
  {
    assert Lower(a + [c] + b) == Lower(a) + [c] + Lower(b);
    assert Lower(a + b) == Lower(a) + Lower(b);
    KeepLowerAppend(Lower(a) + [c], Lower(b));
    KeepLowerAppend(Lower(a), [c]);
    KeepLowerAppend(Lower(a), Lower(b));
    assert KeepLower([c]) == [];
  }

  /** normalize works character by character: it distributes over concatenation. */
  lemma NormalizeAppend(a: string, b: string)
    ensures Normalize(a + b) == Normalize(a) + Normalize(b)
  {
    assert Lower(a + b) == Lower(a) + Lower(b);
    KeepLowerAppend(Lower(a), Lower(b));
  }

  /** One character: a letter survives lower-cased, anything else is dropped. */
  lemma NormalizeChar(c: char)
    ensures IsUpper(c) || IsLower(c) ==> Normalize([c]) == [ToLower(c)]
    ensures !IsUpper(c) && !IsLower(c) ==> Normalize([c]) == []
  {
    var l := Lower([c]);
    assert l == [ToLower(c)];
    assert l[1..] == [];
  }

  /** Text with no letter at all normalizes to the empty key. */
  lemma {:induction false} NormalizeOfNonLetters(s: string)
    requires forall i :: 0 <= i < |s| ==> !IsUpper(s[i]) && !IsLower(s[i])
    ensures Normalize(s) == []
    decreases |s|
  {
    if s != [] {
      assert s == [s[0]] + s[1..];
      NormalizeAppend([s[0]], s[1..]);
      NormalizeChar(s[0]);
      NormalizeOfNonLetters(s[1..]);
    }
  }

  /** Text that ends with a letter has a non-empty key. */
  lemma NormalizeOfLetterLast(s: string)
    requires s != [] && (IsUpper(s[|s| - 1]) || IsLower(s[|s| - 1]))
    ensures Normalize(s) != []
  {
    var n := |s| - 1;
    assert s == s[..n] + [s[n]];
    NormalizeAppend(s[..n], [s[n]]);
    NormalizeChar(s[n]);
  }

  /** Text made only of the letters a-z is its own normalized form. */
  lemma NormalizeOfLetters(s: string)
    requires forall i :: 0 <= i < |s| ==> IsLower(s[i])
    ensures Normalize(s) == s
  {
    assert Lower(s) == s;
    KeepLowerOfLetters(s);
  }

  /** Both spellings of the first row label normalize to the same key. */
  lemma NormalizeExample()
    ensures Normalize("Revenue from operations") == Normalize("REVENUE FROM OPERATIONS!!")
  {
    var t := "Revenue from operations";
    var u := Upper(t);
    assert u == "REVENUE FROM OPERATIONS";
    NormalizeIgnoresNonLetter(u + "!", '!', []);
    NormalizeIgnoresNonLetter(u, '!', []);
    assert u + "!" + [] == u + "!";
    assert u + [] == u;
    assert u + "!" + "!" + [] == "REVENUE FROM OPERATIONS!!";
    NormalizeIgnoresCase(t);
  }

  // ---------------------------------------------------------------------
  // text.split('\n')
  // ---------------------------------------------------------------------

  /** The index of the first newline, or |s| when there is none. */
  function NewlineIndex(s: string): (k: nat)
    ensures k <= |s|
    ensures '\n' !in s[..k]
    ensures k < |s| ==> s[k] == '\n'
  {
    if s == [] then 0
    else if s[0] == '\n' then 0
    else
      var k := 1 + NewlineIndex(s[1..]);
      assert s[..k] == [s[0]] + s[1..][..k - 1];
      k
  }

  /** '\n'.join(lines) */
  function JoinLines(lines: seq<string>): string
    requires |lines| >= 1
  {
    if |lines| == 1 then lines[0] else lines[0] + "\n" + JoinLines(lines[1..])
  }

  /** str.split('\n'): at least one piece, no piece holds a newline, and joining them gives s back. */
  function SplitLines(s: string): (lines: seq<string>)
    ensures |lines| >= 1
    ensures forall i :: 0 <= i < |lines| ==> '\n' !in lines[i]
    ensures JoinLines(lines) == s
    decreases |s|
  {
    var k := NewlineIndex(s);
    if k == |s| then
      assert s[..k] == s;
      [s]
    else
      var rest := SplitLines(s[k + 1..]);
      assert s == s[..k] + "\n" + s[k + 1..];
      [s[..k]] + rest
  }

  lemma {:induction false} NewlineIndexAfterLine(l: string, t: string)
    requires '\n' !in l
    ensures NewlineIndex(l + "\n" + t) == |l|
    decreases |l|
  {
    if l != [] {
      assert (l + "\n" + t)[1..] == l[1..] + "\n" + t;
      NewlineIndexAfterLine(l[1..], t);
    }
  }

  /** Splitting a joined list of newline-free lines gives the list back. */
  lemma {:induction false} SplitJoin(lines: seq<string>)
    requires |lines| >= 1
    requires forall i :: 0 <= i < |lines| ==> '\n' !in lines[i]
    ensures SplitLines(JoinLines(lines)) == lines
    decreases |lines|
  {
    var s := JoinLines(lines);
    var k := NewlineIndex(s);
    var l0 := lines[0];
    if |lines| == 1 {
    } else {
      var t := JoinLines(lines[1..]);
      assert s == l0 + "\n" + t;
      NewlineIndexAfterLine(l0, t);
      assert s[..k] == l0;
      assert s[k + 1..] == t;
      SplitJoin(lines[1..]);
    }
  }

  /** Every character of a line also occurs in the text it was split from. */
  lemma {:induction false} JoinLinesChars(lines: seq<string>, i: nat, c: char)
    requires |lines| >= 1 && i < |lines|
    requires c in lines[i]
    ensures c in JoinLines(lines)
    decreases |lines|
  {
    if i > 0 {
      JoinLinesChars(lines[1..], i - 1, c);
      var t := JoinLines(lines[1..]);
      var j :| 0 <= j < |t| && t[j] == c;
      assert JoinLines(lines)[|lines[0]| + 1 + j] == c;
    } else if |lines| > 1 {
      var j :| 0 <= j < |lines[0]| && lines[0][j] == c;
      assert JoinLines(lines)[j] == c;
    }
  }
}
