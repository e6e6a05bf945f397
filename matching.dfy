/**
 * Matching of normalised unit keys, shared by `find_matching_hsh` and the
 * benchmark-row cascade: exact equality first, then mutual containment.
 */
module Matching {
  import opened Values
  import opened Text
  import opened Search

  /** The candidate key is the target key. */
  predicate KeyEquals(target: string, key: string) {
    key == target
  }

  /** One of the two keys occurs in the other (`a in b or b in a`). */
  predicate KeyOverlaps(target: string, key: string) {
    IsSubstring(target, key) || IsSubstring(key, target)
  }

  /** The two keys overlap exactly when one occurs in the other at some position. */
  lemma OverlapsIff(target: string, key: string)
    ensures KeyOverlaps(target, key) <==>
      (exists i :: OccursAt(target, key, i)) || (exists i :: OccursAt(key, target, i))
  {
    SubstringIff(target, key);
    SubstringIff(key, target);
  }

  /** Equal keys overlap: the second scan would also have found an exact match. */
  lemma EqualKeysOverlap(target: string, key: string)
    ensures KeyEquals(target, key) ==> KeyOverlaps(target, key)
  {
    if KeyEquals(target, key) {
      assert target <= key;
    }
  }

  /**
   * The position `find_matching_hsh` picks among the keys: the first key
   * equal to the target, otherwise the first key overlapping it.
   */
  function MatchIndex(target: string, keys: seq<string>): (r: Option<nat>)
    ensures r.Some? ==> r.value < |keys|
    ensures (exists i :: 0 <= i < |keys| && KeyEquals(target, keys[i])) ==>
      && r.Some?
      && KeyEquals(target, keys[r.value])
      && forall j :: 0 <= j < r.value ==> !KeyEquals(target, keys[j])
    ensures (forall i :: 0 <= i < |keys| ==> !KeyEquals(target, keys[i])) && r.Some? ==>
      && KeyOverlaps(target, keys[r.value])
      && forall j :: 0 <= j < r.value ==> !KeyOverlaps(target, keys[j])
    ensures r.None? <==> forall i :: 0 <= i < |keys| ==> !KeyOverlaps(target, keys[i])
  {
    match FirstWhere(keys, KeyEquals, target)
    case Some(i) =>
      EqualKeysOverlap(target, keys[i]);
      Some(i)
    case None => FirstWhere(keys, KeyOverlaps, target)
  }

  /** The first equal key is the one picked. */
  lemma ExactMatchIndex(target: string, keys: seq<string>, i: nat)
    requires i < |keys| && KeyEquals(target, keys[i])
    requires forall j :: 0 <= j < i ==> !KeyEquals(target, keys[j])
    ensures MatchIndex(target, keys) == Some(i)
  {
    var r := MatchIndex(target, keys);
    assert r.value >= i;
  }

  /** With no equal key, the first overlapping key is the one picked. */
  lemma OverlapMatchIndex(target: string, keys: seq<string>, i: nat)
    requires i < |keys| && KeyOverlaps(target, keys[i])
    requires forall j :: 0 <= j < |keys| ==> !KeyEquals(target, keys[j])
    requires forall j :: 0 <= j < i ==> !KeyOverlaps(target, keys[j])
    ensures MatchIndex(target, keys) == Some(i)
  {
    var r := MatchIndex(target, keys);
    assert r.value >= i;
  }

  /** The two scans of `find_matching_hsh`, each with an early return. */
  method ScanKeys(target: string, keys: seq<string>) returns (r: Option<nat>)
    ensures r == MatchIndex(target, keys)
  {
    for i := 0 to |keys|
      invariant forall j :: 0 <= j < i ==> !KeyEquals(target, keys[j])
    {
      if keys[i] == target {
        ExactMatchIndex(target, keys, i);
        return Some(i);
      }
    }
    for i := 0 to |keys|
      invariant forall j :: 0 <= j < i ==> !KeyOverlaps(target, keys[j])
    {
      if IsSubstring(target, keys[i]) || IsSubstring(keys[i], target) {
        OverlapMatchIndex(target, keys, i);
        return Some(i);
      }
    }
    return None;
  }

  /** An exact match wins even when an earlier key only overlaps the target. */
  lemma ExactBeatsEarlierOverlap(target: string, keys: seq<string>, i: nat, k: nat)
    requires k < i < |keys|
    requires KeyEquals(target, keys[i]) && KeyOverlaps(target, keys[k])
    requires forall j :: 0 <= j < i ==> !KeyEquals(target, keys[j])
    ensures MatchIndex(target, keys) == Some(i)
  {
    ExactMatchIndex(target, keys, i);
  }

  /** An empty target key overlaps every key: the first key wins unless a later one is empty too. */
  lemma EmptyTargetMatchesFirst(keys: seq<string>)
    requires keys != [] && forall j :: 0 <= j < |keys| ==> keys[j] != ""
    ensures MatchIndex("", keys) == Some(0)
  {
    assert KeyOverlaps("", keys[0]);
  }
}
