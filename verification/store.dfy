/** Edits to the stored list. */
module Store {

  /** `s.filter((_, i) => i !== index)`: the list without position `index`. */
  function WithoutIndex<T>(s: seq<T>, index: int): (r: seq<T>)
    ensures 0 <= index < |s| ==> r == s[..index] + s[index + 1..]
    ensures !(0 <= index < |s|) ==> r == s
  {
    if s == [] then
      []
    else
      var rest := WithoutIndex(s[1..], index - 1);
      assert 0 < index < |s| ==> s[1..][..index - 1] == s[1..index] && s[1..][index..] == s[index + 1..];
      assert 0 < index < |s| ==> s[..index] == [s[0]] + s[1..index];
      (if index != 0 then [s[0]] else []) + rest
  }
}
