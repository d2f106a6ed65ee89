/** The two string services the component borrows from the browser:
    `String.prototype.includes`, modelled exactly, and `localeCompare`,
    kept abstract and described by the laws a sort comparator must obey. */
module Text {

  /** `needle` occurs in `hay` starting at position `i`. */
  ghost predicate OccursAt(hay: string, needle: string, i: int)
  {
    0 <= i && i + |needle| <= |hay| && hay[i..i + |needle|] == needle
  }

  /** `hay.includes(needle)`: true exactly when `needle` is a substring of
      `hay` (the empty string is a substring of every string). */
  function Includes(hay: string, needle: string): (r: bool)
    ensures r <==> exists i :: OccursAt(hay, needle, i)
    decreases |hay|
  {
    if |hay| < |needle| then
      false
    else if hay[..|needle|] == needle then
      assert OccursAt(hay, needle, 0);
      true
    else
      OccurrenceInTail(hay, needle);
      Includes(hay[1..], needle)
  }

  /** When `needle` is not a prefix of `hay`, its occurrences are exactly
      those in `hay[1..]`, shifted by one. */
  lemma OccurrenceInTail(hay: string, needle: string)
    requires |needle| <= |hay| && hay[..|needle|] != needle
    ensures |hay| > 0
    ensures (exists i :: OccursAt(hay, needle, i)) <==> (exists j :: OccursAt(hay[1..], needle, j))
  {
    if i :| OccursAt(hay, needle, i) {
      assert i != 0;
      assert hay[1..][i - 1..i - 1 + |needle|] == hay[i..i + |needle|];
      assert OccursAt(hay[1..], needle, i - 1);
    }
    if j :| OccursAt(hay[1..], needle, j) {
      assert hay[j + 1..j + 1 + |needle|] == hay[1..][j..j + |needle|];
      assert OccursAt(hay, needle, j + 1);
    }
  }

  /** The laws `Array.prototype.sort` asks of a consistent comparator,
      stated for `localeCompare`: the sign flips when the arguments are
      swapped, and "not after" is transitive. */
  ghost predicate ConsistentComparator(cmp: (string, string) -> int)
  {
    && (forall a, b :: cmp(a, b) < 0 <==> cmp(b, a) > 0)
    && (forall a, b, c :: cmp(a, b) <= 0 && cmp(b, c) <= 0 ==> cmp(a, c) <= 0)
  }

  /** Under those laws, comparing equal is an equivalence relation. */
  lemma TiesAreEquivalence(cmp: (string, string) -> int, a: string, b: string, c: string)
    requires ConsistentComparator(cmp)
    ensures cmp(a, a) == 0
    ensures cmp(a, b) == 0 ==> cmp(b, a) == 0
    ensures cmp(a, b) == 0 && cmp(b, c) == 0 ==> cmp(a, c) == 0
  {
  }
}
