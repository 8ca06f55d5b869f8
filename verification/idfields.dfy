/** Edition and sequence extraction from an item id (download.py lines 26-27).

    Both use a pattern of the shape `(?<=pre)(.*)(?=post)` with `re.search`: the match starts
    at the leftmost position preceded by `pre` from which a `post` can still be reached, and
    the greedy `.*` (which does not cross a newline) then runs to the LAST such `post`. */
module IdFields {
  import opened Wrappers

  const EditionOpen: string := "/ed-"
  const EditionClose: string := "/seq-"
  const SequenceOpen: string := "/seq-"
  const SequenceClose: string := "/"

  /** `pre` occurs in `s` ending just before position `i` (the lookbehind holds at `i`). */
  predicate EndsAt(s: string, pre: string, i: int) {
    |pre| <= i <= |s| && s[i - |pre|..i] == pre
  }

  /** `post` occurs in `s` starting at position `j` (the lookahead holds at `j`). */
  predicate StartsAt(s: string, post: string, j: int) {
    0 <= j && j + |post| <= |s| && s[j..j + |post|] == post
  }

  /** `(?<=pre)(.*)(?=post)` can match exactly `s[i..j]`. */
  predicate IsMatch(s: string, pre: string, post: string, i: int, j: int) {
    0 <= i <= j <= |s| && EndsAt(s, pre, i) && StartsAt(s, post, j) && '\n' !in s[i..j]
  }

  /** `s[i..j]` is the match `re.search` reports when it starts scanning at `from`: no match
      begins earlier, and none that begins at `i` is longer. */
  ghost predicate IsLeftmostLongest(s: string, pre: string, post: string, from: int, i: int, j: int) {
    && from <= i
    && IsMatch(s, pre, post, i, j)
    && (forall i', j' :: from <= i' < i ==> !IsMatch(s, pre, post, i', j'))
    && (forall j' :: j < j' ==> !IsMatch(s, pre, post, i, j'))
  }

  /** The first newline at or after `i`, or the end of `s`. */
  function LineEnd(s: string, i: int): (k: int)
    requires 0 <= i <= |s|
    ensures i <= k <= |s|
    ensures '\n' !in s[i..k]
    ensures k == |s| || s[k] == '\n'
    decreases |s| - i
  {
    if i == |s| || s[i] == '\n' then i
    else
      var k := LineEnd(s, i + 1);
      assert s[i..k] == [s[i]] + s[i + 1..k];
      k
  }

  /** The text from `i` to `j` is newline-free exactly when `j` does not pass the line end. */
  lemma LineFreeUpTo(s: string, i: int, j: int)
    requires 0 <= i <= j <= |s|
    ensures '\n' !in s[i..j] <==> j <= LineEnd(s, i)
  {
    var k := LineEnd(s, i);
    if j <= k {
      assert s[i..j] == s[i..k][..j - i];
    } else {
      assert s[i..j][k - i] == '\n';
    }
  }

  /** The largest `j` in `[lo, hi]` at which `post` starts, if any. */
  function LastStart(s: string, post: string, lo: int, hi: int): (r: Option<int>)
    requires 0 <= lo
    ensures r.Some? ==> lo <= r.value <= hi && StartsAt(s, post, r.value)
    ensures r.Some? ==> forall j :: r.value < j <= hi ==> !StartsAt(s, post, j)
    ensures r.None? ==> forall j :: lo <= j <= hi ==> !StartsAt(s, post, j)
    decreases hi - lo
  {
    if hi < lo then None
    else if StartsAt(s, post, hi) then Some(hi)
    else LastStart(s, post, lo, hi - 1)
  }

  /** `re.search` scanning the start positions from `i` onwards. */
  function SearchFrom(s: string, pre: string, post: string, i: int): (r: Option<(int, int)>)
    requires 0 <= i
    ensures r.Some? ==> IsLeftmostLongest(s, pre, post, i, r.value.0, r.value.1)
    ensures r.None? ==> forall i', j' :: i <= i' ==> !IsMatch(s, pre, post, i', j')
    decreases |s| + 1 - i
  {
    if i > |s| then None
    else
      var last := LastStart(s, post, i, LineEnd(s, i));
      if EndsAt(s, pre, i) && last.Some? then
        assert forall j' :: i <= j' <= |s| ==> ('\n' !in s[i..j'] <==> j' <= LineEnd(s, i)) by {
          forall j' | i <= j' <= |s| {
            LineFreeUpTo(s, i, j');
          }
        }
        Some((i, last.value))
      else
        assert forall j' :: !IsMatch(s, pre, post, i, j') by {
          forall j' | IsMatch(s, pre, post, i, j') ensures false {
            LineFreeUpTo(s, i, j');
          }
        }
        SearchFrom(s, pre, post, i + 1)
  }

  /** `re.search('(?<=pre)(.*)(?=post)', s)` followed by `.group(1)`; `None` where the source
      calls `.group` on `None`. */
  function Search(s: string, pre: string, post: string): (r: Option<string>)
    ensures r.None? <==> forall i, j :: !IsMatch(s, pre, post, i, j)
    ensures r.Some? ==> exists i, j :: IsLeftmostLongest(s, pre, post, 0, i, j) && r.value == s[i..j]
  {
    match SearchFrom(s, pre, post, 0)
    case None => None
    case Some((i, j)) => Some(s[i..j])
  }

  /** Line 26: the edition text of an id. */
  function EditionOf(id: string): Option<string> {
    Search(id, EditionOpen, EditionClose)
  }

  /** Line 27: the sequence text of an id. */
  function SequenceOf(id: string): Option<string> {
    Search(id, SequenceOpen, SequenceClose)
  }

  /** At most one match is leftmost and longest. */
  lemma LeftmostLongestUnique(s: string, pre: string, post: string, i: int, j: int, i': int, j': int)
    requires IsLeftmostLongest(s, pre, post, 0, i, j)
    requires IsLeftmostLongest(s, pre, post, 0, i', j')
    ensures i == i' && j == j'
  {
  }

  /** A match known to be leftmost and longest is what the search returns. */
  lemma SearchFinds(s: string, pre: string, post: string, i: int, j: int)
    requires IsLeftmostLongest(s, pre, post, 0, i, j)
    ensures Search(s, pre, post) == Some(s[i..j])
  {
    var r := Search(s, pre, post);
    assert r.Some?;
    var i', j' :| IsLeftmostLongest(s, pre, post, 0, i', j') && r.value == s[i'..j'];
    LeftmostLongestUnique(s, pre, post, i, j, i', j');
  }

  /** In a one-line id whose only `/ed-` starts at `p` and whose only `/seq-` starts at a later
      `q`, the edition is the text between the two markers. */
  lemma EditionBetweenMarkers(id: string, p: int, q: int)
    requires '\n' !in id
    requires StartsAt(id, EditionOpen, p) && forall k :: StartsAt(id, EditionOpen, k) ==> k == p
    requires StartsAt(id, EditionClose, q) && forall k :: StartsAt(id, EditionClose, k) ==> k == q
    requires p + |EditionOpen| <= q
    ensures EditionOf(id) == Some(id[p + |EditionOpen|..q])
  {
    var i := p + |EditionOpen|;
    assert EndsAt(id, EditionOpen, i);
    forall i', j' | 0 <= i' < i ensures !IsMatch(id, EditionOpen, EditionClose, i', j') {
      assert IsMatch(id, EditionOpen, EditionClose, i', j') ==> StartsAt(id, EditionOpen, i' - |EditionOpen|);
    }
    SearchFinds(id, EditionOpen, EditionClose, i, q);
  }

  /** In a one-line id ending in `/` whose only `/seq-` starts at `q`, the greedy sequence runs
      from after the marker to the final `/`, whatever slashes lie in between. */
  lemma SequenceToFinalSlash(id: string, q: int)
    requires '\n' !in id
    requires StartsAt(id, SequenceOpen, q) && forall k :: StartsAt(id, SequenceOpen, k) ==> k == q
    requires q + |SequenceOpen| < |id| && id[|id| - 1] == '/'
    ensures SequenceOf(id) == Some(id[q + |SequenceOpen|..|id| - 1])
  {
    var i := q + |SequenceOpen|;
    var j := |id| - 1;
    assert EndsAt(id, SequenceOpen, i);
    assert StartsAt(id, SequenceClose, j);
    forall i', j' | 0 <= i' < i ensures !IsMatch(id, SequenceOpen, SequenceClose, i', j') {
      assert IsMatch(id, SequenceOpen, SequenceClose, i', j') ==> StartsAt(id, SequenceOpen, i' - |SequenceOpen|);
    }
    SearchFinds(id, SequenceOpen, SequenceClose, i, j);
  }

  /** An id of the shape `P/ed-E/seq-S/` with one `/ed-`, one `/seq-` and no newline yields
      edition `E` and sequence `S`. */
  lemma WellFormedId(id: string, P: string, E: string, S: string)
    requires id == P + EditionOpen + E + SequenceOpen + S + "/"
    requires '\n' !in id
    requires forall k :: StartsAt(id, EditionOpen, k) ==> k == |P|
    requires forall k :: StartsAt(id, SequenceOpen, k) ==> k == |P| + |EditionOpen| + |E|
    ensures EditionOf(id) == Some(E)
    ensures SequenceOf(id) == Some(S)
  {
    var q := |P| + |EditionOpen| + |E|;
    assert id[|P|..|P| + |EditionOpen|] == EditionOpen;
    assert id[q..q + |SequenceOpen|] == SequenceOpen;
    EditionBetweenMarkers(id, |P|, q);
    assert id[|P| + |EditionOpen|..q] == E;
    SequenceToFinalSlash(id, q);
    assert id[q + |SequenceOpen|..|id| - 1] == S;
  }
}
