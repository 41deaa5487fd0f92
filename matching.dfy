/** Key matching as the store performs it: LINQ's `Single` and
    `SingleOrDefault` over the `Name` attributes of experiment elements and the
    `Id` attributes of participant elements. (`Any` on a name is membership,
    `k in keys`, which `Single`'s first postcondition relates to it.) */
module Matching {

  /** No key occurs twice. */
  predicate UniqueKeys(keys: seq<string>) {
    forall i, j :: 0 <= i < j < |keys| ==> keys[i] != keys[j]
  }

  /** `k` occurs at least twice. */
  predicate Repeated(keys: seq<string>, k: string) {
    exists i, j :: 0 <= i < j < |keys| && keys[i] == k && keys[j] == k
  }

  /** `k` occurs at index `i` and nowhere else. */
  predicate SoleMatch(keys: seq<string>, k: string, i: int) {
    && 0 <= i < |keys|
    && keys[i] == k
    && forall j :: 0 <= j < |keys| && j != i ==> keys[j] != k
  }

  /** The three outcomes of `Single`: no element (it throws), exactly one
      (it returns that one), several (it throws). `SingleOrDefault` maps the
      first outcome to null instead of throwing. */
  datatype Match = NoMatch | OneMatch(index: nat) | ManyMatches

  function Single(keys: seq<string>, k: string): (m: Match)
    ensures m.NoMatch? <==> k !in keys
    ensures m.OneMatch? ==> SoleMatch(keys, k, m.index)
    ensures m.ManyMatches? ==> Repeated(keys, k)
    decreases |keys|
  {
    if |keys| == 0 then NoMatch
    else
      var last := |keys| - 1;
      var init := keys[..last];
      assert keys == init + [keys[last]];
      match Single(init, k)
      case NoMatch => if keys[last] == k then OneMatch(last) else NoMatch
      case OneMatch(i) =>
        if keys[last] == k then
          assert keys[i] == k;
          ManyMatches
        else OneMatch(i)
      case ManyMatches =>
        assert Repeated(init, k);
        ManyMatches
  }

  /** Among unique keys `Single` never reports several matches: it finds the
      key exactly when the key is present. */
  lemma SingleOfUnique(keys: seq<string>, k: string)
    requires UniqueKeys(keys)
    ensures Single(keys, k).OneMatch? <==> k in keys
  {
  }

  /** Appending a key that was absent keeps the keys unique and makes the new
      position the sole match for it. */
  lemma AppendFresh(keys: seq<string>, k: string)
    requires UniqueKeys(keys) && k !in keys
    ensures UniqueKeys(keys + [k])
    ensures Single(keys + [k], k) == OneMatch(|keys|)
  {
  }
}
