/** Text operations behind the channel search box: an ASCII model of
    `String.prototype.toLowerCase` and the substring test
    `String.prototype.includes`. Strings are sequences of characters. */
module Text {

  predicate IsUpper(c: char) {
    'A' <= c <= 'Z'
  }

  /** Lower-cases one character. Only the ASCII capitals are mapped; every
      other character is its own lower case in this model. */
  function LowerChar(c: char): (r: char)
    ensures !IsUpper(r)
    ensures IsUpper(c) ==> r as int - 'a' as int == c as int - 'A' as int
    ensures !IsUpper(c) ==> r == c
  {
    if IsUpper(c) then (c as int - 'A' as int + 'a' as int) as char else c
  }

  /** `s.toLowerCase()`, character by character. */
  function Lower(s: string): (r: string)
    ensures |r| == |s|
    ensures forall i :: 0 <= i < |s| ==> r[i] == LowerChar(s[i])
  {
    seq(|s|, i requires 0 <= i < |s| => LowerChar(s[i]))
  }

  /** Lowering twice is lowering once. */
  lemma LowerIdempotent(s: string)
    ensures Lower(Lower(s)) == Lower(s)
  {
  }

  /** `needle` occurs in `hay` starting at position `i`. */
  predicate OccursAt(hay: string, needle: string, i: int) {
    0 <= i && i + |needle| <= |hay| && hay[i..i + |needle|] == needle
  }

  /** `needle` matches the stretch of `hay` starting at `i` up to ASCII case. */
  predicate OccursIgnoringCaseAt(hay: string, needle: string, i: int) {
    && 0 <= i && i + |needle| <= |hay|
    && forall j :: 0 <= j < |needle| ==> LowerChar(hay[i + j]) == LowerChar(needle[j])
  }

  /** An occurrence in the lowered strings is an occurrence up to case. */
  lemma OccursInLower(hay: string, needle: string, i: int)
    ensures OccursAt(Lower(hay), Lower(needle), i) <==> OccursIgnoringCaseAt(hay, needle, i)
  {
  }

  lemma OccursAtShift(hay: string, needle: string)
    requires |hay| > 0
    ensures forall i :: 0 <= i ==> (OccursAt(hay[1..], needle, i) <==> OccursAt(hay, needle, i + 1))
  {
    forall i | 0 <= i
      ensures OccursAt(hay[1..], needle, i) <==> OccursAt(hay, needle, i + 1)
    {
      if 0 <= i && i + |needle| <= |hay| - 1 {
        assert hay[1..][i..i + |needle|] == hay[i + 1..i + 1 + |needle|];
      }
    }
  }

  /** `hay.includes(needle)`: some position of `hay` starts a copy of
      `needle`. The empty needle occurs everywhere. */
  function Contains(hay: string, needle: string): (r: bool)
    ensures r <==> exists i :: OccursAt(hay, needle, i)
    decreases |hay|
  {
    if needle <= hay then
      assert OccursAt(hay, needle, 0);
      true
    else if |hay| == 0 then
      false
    else
      OccursAtShift(hay, needle);
      assert forall i :: OccursAt(hay, needle, i) ==> i >= 1 && OccursAt(hay[1..], needle, i - 1);
      Contains(hay[1..], needle)
  }

  /** Every string includes the empty string. */
  lemma ContainsEmpty(hay: string)
    ensures Contains(hay, [])
  {
  }
}
