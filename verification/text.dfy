/** The two string primitives the task search is built from: case folding
    (Go's strings.ToLower) and substring search (Go's strings.Contains).

    Case folding is kept abstract: a per-character mapping `lower` is passed in
    and applied pointwise, so a folded string has as many characters as the
    original. The Unicode tables behind the real mapping are not modelled. */
module Text {

  /** `s` with `lower` applied to every character. */
  function Fold(lower: char -> char, s: string): (r: string)
    ensures |r| == |s|
    ensures forall i :: 0 <= i < |s| ==> r[i] == lower(s[i])
  {
    seq(|s|, i requires 0 <= i < |s| => lower(s[i]))
  }

  /** `needle` occurs in `hay` starting at position `i`. */
  predicate OccursAt(needle: string, hay: string, i: int) {
    0 <= i && i + |needle| <= |hay| && hay[i..i + |needle|] == needle
  }

  /** The reference meaning of substring containment. */
  ghost predicate Occurs(needle: string, hay: string) {
    exists i :: OccursAt(needle, hay, i)
  }

  /** Once the needle is not a prefix of the haystack, it occurs in the
      haystack exactly when it occurs in the haystack's tail. */
  lemma OccursInTail(needle: string, hay: string)
    requires |needle| <= |hay| && hay[..|needle|] != needle
    ensures Occurs(needle, hay) <==> Occurs(needle, hay[1..])
  {
    if Occurs(needle, hay) {
      var i :| OccursAt(needle, hay, i);
      assert i != 0;
      assert hay[1..][i - 1..i - 1 + |needle|] == hay[i..i + |needle|];
      assert OccursAt(needle, hay[1..], i - 1);
    }
    if Occurs(needle, hay[1..]) {
      var i :| OccursAt(needle, hay[1..], i);
      assert hay[1..][i..i + |needle|] == hay[i + 1..i + 1 + |needle|];
      assert OccursAt(needle, hay, i + 1);
    }
  }

  /** A needle longer than the haystack occurs nowhere in it. */
  lemma NoRoom(needle: string, hay: string)
    requires |hay| < |needle|
    ensures !Occurs(needle, hay)
  {
  }

  /** Go's strings.Contains(hay, needle): true exactly when `needle` is a
      substring of `hay`. */
  function Contains(hay: string, needle: string): (b: bool)
    ensures b <==> Occurs(needle, hay)
    decreases |hay|
  {
    if |hay| < |needle| then
      NoRoom(needle, hay);
      false
    else if hay[..|needle|] == needle then
      assert OccursAt(needle, hay, 0);
      true
    else
      OccursInTail(needle, hay);
      Contains(hay[1..], needle)
  }

  /** The empty string is contained in every string. */
  lemma ContainsEmpty(hay: string)
    ensures Contains(hay, "")
  {
    assert OccursAt("", hay, 0);
  }
}
