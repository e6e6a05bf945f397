/**
 * The benchmark-row cascade of `analyze_evidence_comparison` and
 * `analyze_survei_comparison`, over the benchmark table's `HSH_normalized`
 * column given as a sequence of keys, one per row in table order.
 */
module Benchmark {
  import opened Values
  import opened Text
  import opened Search
  import opened Matching

  /** The reference unit whose rows serve as the default benchmark. */
  const GroupToken: string := "PERTAMINA GROUP"

  /** Which step of the cascade chose the rows. */
  datatype Step = ExactKey | OverlappingKey | GroupDefault | FirstRow

  /** The row positions of the selected sub-frame, and the step that chose them. */
  datatype Selection = Selection(rows: seq<nat>, step: Step)

  /**
   * `Series.str.contains(token, case=False)` on one key, for a token written
   * in upper case as `GroupToken` is: the token occurs in the upper-cased key.
   */
  function ContainsIgnoringCase(token: string, key: string): (b: bool)
    ensures b <==> IsSubstring(token, Upper(Lower(key)))
    ensures NoLower(key) ==> (b <==> IsSubstring(token, key))
  {
    assert forall i :: 0 <= i < |key| ==> Upper(Lower(key))[i] == Upper(key)[i];
    assert Upper(Lower(key)) == Upper(key);
    IsSubstring(token, Upper(key))
  }

  /**
   * The cascade: every row whose key equals the target; else the first row
   * whose key overlaps it; else every row naming the group; else `head(1)`.
   */
  function SelectRows(keys: seq<string>, target: string): (s: Selection)
    ensures forall k :: 0 <= k < |s.rows| ==> s.rows[k] < |keys|
    ensures s.rows != [] <==> keys != []
  {
    var exact := Indices(keys, KeyEquals, target, |keys|);
    if exact != [] then Selection(exact, ExactKey)
    else
      match FirstWhere(keys, KeyOverlaps, target)
      case Some(i) => Selection([i], OverlappingKey)
      case None =>
        var group := Indices(keys, ContainsIgnoringCase, GroupToken, |keys|);
        if group != [] then Selection(group, GroupDefault)
        else Selection(if keys == [] then [] else [0], FirstRow)
  }

  /** The cascade as the source runs it: mask, scan with break, mask, head. */
  method SelectBenchmark(keys: seq<string>, target: string) returns (rows: seq<nat>, step: Step)
    ensures Selection(rows, step) == SelectRows(keys, target)
  {
    rows := MaskRows(keys, KeyEquals, target);
    step := ExactKey;
    if rows == [] {
      var matchFound := false;
      for i := 0 to |keys|
        invariant forall j :: 0 <= j < i ==> !KeyOverlaps(target, keys[j])
      {
        if IsSubstring(target, keys[i]) || IsSubstring(keys[i], target) {
          rows, step := [i], OverlappingKey;
          matchFound := true;
          FirstWhereAt(keys, KeyOverlaps, target, i);
          break;
        }
      }
      if !matchFound {
        assert FirstWhere(keys, KeyOverlaps, target).None?;
        rows := MaskRows(keys, ContainsIgnoringCase, GroupToken);
        step := GroupDefault;
        if rows == [] {
          rows, step := if keys == [] then [] else [0], FirstRow;
        }
      }
    }
  }

  /** The exact step fires exactly when some key equals the target, and then selects every such row. */
  lemma ExactStep(keys: seq<string>, target: string)
    ensures var s := SelectRows(keys, target);
      && (s.step == ExactKey <==> exists i :: 0 <= i < |keys| && keys[i] == target)
      && (s.step == ExactKey ==> forall i :: 0 <= i < |keys| ==> (keys[i] == target <==> i in s.rows))
  {
    IndicesMembership(keys, KeyEquals, target);
  }

  /** A selection by the exact step begins with the first row whose key equals the target. */
  lemma ExposedExact(keys: seq<string>, target: string)
    requires SelectRows(keys, target).step == ExactKey
    ensures var r := SelectRows(keys, target).rows[0];
      keys[r] == target && forall j :: 0 <= j < r ==> keys[j] != target
  {
    FirstIndexPasses(keys, KeyEquals, target);
  }

  /** A selection by the overlap step follows an empty exact step and holds the first overlapping row. */
  lemma ExposedOverlap(keys: seq<string>, target: string)
    requires SelectRows(keys, target).step == OverlappingKey
    ensures var r := SelectRows(keys, target).rows[0];
      && (forall j :: 0 <= j < |keys| ==> keys[j] != target)
      && KeyOverlaps(target, keys[r])
      && (forall j :: 0 <= j < r ==> !KeyOverlaps(target, keys[j]))
  {
    IndicesMembership(keys, KeyEquals, target);
  }

  /** No key overlaps the target once the cascade passes the overlap step. */
  lemma NoOverlapAfterScan(keys: seq<string>, target: string)
    requires SelectRows(keys, target).step in {GroupDefault, FirstRow}
    ensures forall j :: 0 <= j < |keys| ==> !KeyOverlaps(target, keys[j])
  {
    IndicesMembership(keys, KeyEquals, target);
    forall j | 0 <= j < |keys|
      ensures KeyEquals(target, keys[j]) ==> KeyOverlaps(target, keys[j])
    {
      EqualKeysOverlap(target, keys[j]);
    }
  }

  /** A selection by the group step begins with the first row naming the group. */
  lemma ExposedGroup(keys: seq<string>, target: string)
    requires SelectRows(keys, target).step == GroupDefault
    ensures var r := SelectRows(keys, target).rows[0];
      && (forall j :: 0 <= j < |keys| ==> !KeyOverlaps(target, keys[j]))
      && ContainsIgnoringCase(GroupToken, keys[r])
      && (forall j :: 0 <= j < r ==> !ContainsIgnoringCase(GroupToken, keys[j]))
  {
    NoOverlapAfterScan(keys, target);
    FirstIndexPasses(keys, ContainsIgnoringCase, GroupToken);
  }

  /** `head(1)` is reached only when no key overlaps the target and none names the group. */
  lemma ExposedFirst(keys: seq<string>, target: string)
    requires keys != [] && SelectRows(keys, target).step == FirstRow
    ensures && (forall j :: 0 <= j < |keys| ==> !KeyOverlaps(target, keys[j]))
      && (forall j :: 0 <= j < |keys| ==> !ContainsIgnoringCase(GroupToken, keys[j]))
      && SelectRows(keys, target).rows[0] == 0
  {
    NoOverlapAfterScan(keys, target);
    IndicesMembership(keys, ContainsIgnoringCase, GroupToken);
  }

  /**
   * The row that downstream code reads (row 0 of the selection) follows the
   * priority: first equal key, else first overlapping key, else first row
   * naming the group, else the first row of the table.
   */
  lemma ExposedRow(keys: seq<string>, target: string)
    requires keys != []
    ensures var s := SelectRows(keys, target);
      var r := s.rows[0];
      match s.step
      case ExactKey =>
        keys[r] == target && forall j :: 0 <= j < r ==> keys[j] != target
      case OverlappingKey =>
        && (forall j :: 0 <= j < |keys| ==> keys[j] != target)
        && KeyOverlaps(target, keys[r])
        && (forall j :: 0 <= j < r ==> !KeyOverlaps(target, keys[j]))
      case GroupDefault =>
        && (forall j :: 0 <= j < |keys| ==> !KeyOverlaps(target, keys[j]))
        && ContainsIgnoringCase(GroupToken, keys[r])
        && (forall j :: 0 <= j < r ==> !ContainsIgnoringCase(GroupToken, keys[j]))
      case FirstRow =>
        && (forall j :: 0 <= j < |keys| ==> !KeyOverlaps(target, keys[j]))
        && (forall j :: 0 <= j < |keys| ==> !ContainsIgnoringCase(GroupToken, keys[j]))
        && r == 0
  {
    match SelectRows(keys, target).step
    case ExactKey => ExposedExact(keys, target);
    case OverlappingKey => ExposedOverlap(keys, target);
    case GroupDefault => ExposedGroup(keys, target);
    case FirstRow => ExposedFirst(keys, target);
  }
}
