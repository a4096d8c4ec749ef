/** The two string operations the board relies on: `LIKE '%kw%'` and `String.lastIndexOf`. */
module Text {

  /** `kw` occurs in `text` starting at position `i`. */
  predicate OccursAt(text: string, kw: string, i: int)
  {
    0 <= i && i + |kw| <= |text| && text[i..i + |kw|] == kw
  }

  /**
   * `text LIKE '%kw%'`, reading `kw` literally: `kw` is a contiguous block of `text`.
   * Defined by walking `text`; ContainsIff relates it to the positional definition.
   */
  predicate Contains(text: string, kw: string)
    decreases |text|
  {
    kw <= text || (0 < |text| && Contains(text[1..], kw))
  }

  lemma {:induction false} ContainsIff(text: string, kw: string)
    ensures Contains(text, kw) <==> exists i :: OccursAt(text, kw, i)
    decreases |text|
  {
    if kw <= text {
      assert text[0..|kw|] == kw;
      assert OccursAt(text, kw, 0);
    } else if |text| == 0 {
      assert forall i :: OccursAt(text, kw, i) ==> kw == [];
    } else {
      ContainsIff(text[1..], kw);
      if exists i :: OccursAt(text, kw, i) {
        var i :| OccursAt(text, kw, i);
        assert text[..|kw|] == kw ==> kw <= text;
        assert i != 0;
        assert text[1..][i - 1..i - 1 + |kw|] == text[i..i + |kw|];
        assert OccursAt(text[1..], kw, i - 1);
      }
      if exists j :: OccursAt(text[1..], kw, j) {
        var j :| OccursAt(text[1..], kw, j);
        assert text[1..][j..j + |kw|] == text[j + 1..j + 1 + |kw|];
        assert OccursAt(text, kw, j + 1);
      }
    }
  }

  /** The empty pattern `%%` matches every text. */
  lemma EmptyPatternMatches(text: string)
    ensures Contains(text, "")
  {
  }

  /** Java's `s.lastIndexOf(c)`: the last position of `c` in `s`, or -1 when there is none. */
  function LastIndexOf(s: string, c: char): (r: int)
    ensures -1 <= r < |s|
    ensures r == -1 <==> c !in s
    ensures 0 <= r ==> s[r] == c
    ensures forall j :: r < j < |s| ==> s[j] != c
  {
    if |s| == 0 then -1
    else if s[|s| - 1] == c then |s| - 1
    else LastIndexOf(s[..|s| - 1], c)
  }
}
