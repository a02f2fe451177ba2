/**
 * match_label: the first known label whose normalized form is close to
 * the normalized line, by difflib's similarity ratio with cutoff 0.7.
 */
module Labels {
  import opened Wrappers
  import opened TextOps

  /**
   * The count M of matching characters that difflib's SequenceMatcher
   * finds between its first sequence (the candidate) and its second (the
   * word). The longest-matching-block search behind it is not modelled;
   * it is supplied by the caller.
   */
  type Matcher = (string, string) -> nat

  /**
   * get_close_matches(word, [candidate], cutoff=0.7) returns the candidate:
   * the ratio 2M/T is at least 0.7 (written over the integers as
   * 20M >= 7T), where T is the total length and the ratio of two empty
   * strings is 1.
   */
  predicate Close(blocks: Matcher, word: string, candidate: string) {
    var t := |word| + |candidate|;
    t == 0 || 20 * blocks(candidate, word) >= 7 * t
  }

  /** The test applied to one label: both sides are normalized first. */
  predicate LabelClose(blocks: Matcher, line: string, name: string) {
    Close(blocks, Normalize(line), Normalize(name))
  }

  /**
   * match_label(line, known_labels): None exactly when no label is close,
   * and otherwise the first label in list order that is.
   */
  function MatchLabel(line: string, labels: seq<string>, blocks: Matcher): (r: Option<string>)
    ensures r.None? <==> forall k :: 0 <= k < |labels| ==> !LabelClose(blocks, line, labels[k])
    ensures r.Some? ==> exists k :: 0 <= k < |labels| && labels[k] == r.value
                                    && LabelClose(blocks, line, labels[k])
                                    && forall j :: 0 <= j < k ==> !LabelClose(blocks, line, labels[j])
  {
    if labels == [] then None
    else if LabelClose(blocks, line, labels[0]) then Some(labels[0])
    else
      var r := MatchLabel(line, labels[1..], blocks);
      assert forall k :: 0 < k < |labels| ==> labels[k] == labels[1..][k - 1];
      r
  }

  /** A matcher that, like SequenceMatcher, counts every character of a string as matching itself. */
  predicate SelfMatching(blocks: Matcher, n: string) {
    blocks(n, n) == |n|
  }

  /**
   * A line whose normalized form equals that of a known label is never
   * left unmatched: that label, or an earlier close one, is returned.
   */
  lemma ExactLabelMatches(line: string, labels: seq<string>, blocks: Matcher, k: nat)
    requires k < |labels| && Normalize(line) == Normalize(labels[k])
    requires SelfMatching(blocks, Normalize(line))
    ensures MatchLabel(line, labels, blocks).Some?
    ensures MatchLabel(line, labels, blocks).value in labels[..k + 1]
  {
    assert LabelClose(blocks, line, labels[k]);
    var r := MatchLabel(line, labels, blocks);
    var j :| 0 <= j < |labels| && labels[j] == r.value && LabelClose(blocks, line, labels[j])
             && forall i :: 0 <= i < j ==> !LabelClose(blocks, line, labels[i]);
    assert j <= k;
    assert labels[..k + 1][j] == labels[j];
  }

  /**
   * A matcher that, like SequenceMatcher, never counts more matching
   * characters than either string has.
   */
  ghost predicate Bounded(blocks: Matcher) {
    forall a: string, b: string :: blocks(a, b) <= |a| && blocks(a, b) <= |b|
  }

  /**
   * A line with no letter has the empty key, which is close to no label
   * with a non-empty key: such a line is never matched.
   */
  lemma EmptyKeyUnmatched(line: string, labels: seq<string>, blocks: Matcher)
    requires Normalize(line) == []
    requires Bounded(blocks)
    requires forall k :: 0 <= k < |labels| ==> Normalize(labels[k]) != []
    ensures MatchLabel(line, labels, blocks).None?
  {
    forall k | 0 <= k < |labels| ensures !LabelClose(blocks, line, labels[k]) {
      var n := Normalize(labels[k]);
      assert blocks(n, Normalize(line)) <= 0;
    }
  }

  /** Conversely, the first close label in list order is the one returned. */
  lemma {:induction false} FirstCloseIsMatched(line: string, labels: seq<string>, blocks: Matcher, k: nat)
    requires k < |labels| && LabelClose(blocks, line, labels[k])
    requires forall j :: 0 <= j < k ==> !LabelClose(blocks, line, labels[j])
    ensures MatchLabel(line, labels, blocks) == Some(labels[k])
  {
    if k > 0 {
      assert !LabelClose(blocks, line, labels[0]);
      assert forall j :: 0 <= j < k - 1 ==> labels[1..][j] == labels[j + 1];
      FirstCloseIsMatched(line, labels[1..], blocks, k - 1);
    }
  }
}
