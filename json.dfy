/**
  A parsed JSON value and `flatten_json`, which turns a nested value into a
  dictionary from dotted path to leaf.

  Objects keep their members in order, as a Python dict does; the order
  matters because a later member whose path repeats an earlier one wins.
*/
module JsonFlatten {

  import opened Dicts

  datatype Json =
    | JNull
    | JBool(b: bool)
    | JNum(n: int)
    | JStr(s: string)
    | JArr(elems: seq<Json>)
    | JObj(members: seq<(string, Json)>)

  /** Anything that is neither a dict nor a list: the leaves of the flattening. */
  predicate IsScalar(j: Json)
  {
    !j.JArr? && !j.JObj?
  }

  /** The path of a child: `f"{parent}{sep}{k}" if parent else k`. */
  function ChildKey(parent: string, sep: string, k: string): string
  {
    if parent != "" then parent + sep + k else k
  }

  /** The number a run of decimal digits denotes, most significant first. */
  function DigitsValue(r: string): int
  {
    if r == [] then 0 else 10 * DigitsValue(r[..|r| - 1]) + (r[|r| - 1] as int - '0' as int)
  }

  /** `str(n)` for the list positions used as path segments. */
  function NatToString(n: nat): (r: string)
    ensures r != []
    ensures forall i | 0 <= i < |r| :: '0' <= r[i] <= '9'
  {
    var d := ('0' as int + n % 10) as char;
    if n < 10 then [d] else NatToString(n / 10) + [d]
  }

  // ---------------------------------------------------------------- flatten_json

  /** `flatten_json(data, parent, sep)`: a scalar is one entry under `parent`;
      a dict or list is the union, in order, of its children's flattenings,
      a later child overwriting an earlier one on a common path. */
  function Flatten(data: Json, parent: string, sep: string): (r: map<string, Json>)
    decreases data, 1
  {
    match data
    case JObj(ms) => FlattenMembers(data, |ms|, parent, sep)
    case JArr(es) => FlattenElems(data, |es|, parent, sep)
    case _ => map[parent := data]
  }

  /** The flattening of the first `n` members of an object. */
  function FlattenMembers(data: Json, n: nat, parent: string, sep: string): (r: map<string, Json>)
    requires data.JObj? && n <= |data.members|
    decreases data, 0, n
  {
    if n == 0 then map[]
    else
      var member := data.members[n - 1];
      assert member in data.members;
      FlattenMembers(data, n - 1, parent, sep) + Flatten(member.1, ChildKey(parent, sep, member.0), sep)
  }

  /** The flattening of the first `n` elements of a list. */
  function FlattenElems(data: Json, n: nat, parent: string, sep: string): (r: map<string, Json>)
    requires data.JArr? && n <= |data.elems|
    decreases data, 0, n
  {
    if n == 0 then map[]
    else
      FlattenElems(data, n - 1, parent, sep)
        + Flatten(data.elems[n - 1], ChildKey(parent, sep, NatToString(n - 1)), sep)
  }

  /** Every value of the flattened dict is a scalar, never a dict or a list. */
  lemma {:induction false} FlattenLeavesAreScalars(data: Json, parent: string, sep: string)
    ensures forall k | k in Flatten(data, parent, sep) :: IsScalar(Flatten(data, parent, sep)[k])
    decreases data, 1
  {
    match data
    case JObj(ms) => FlattenMembersScalars(data, |ms|, parent, sep);
    case JArr(es) => FlattenElemsScalars(data, |es|, parent, sep);
    case _ =>
  }

  lemma {:induction false} FlattenMembersScalars(data: Json, n: nat, parent: string, sep: string)
    requires data.JObj? && n <= |data.members|
    ensures forall k | k in FlattenMembers(data, n, parent, sep) :: IsScalar(FlattenMembers(data, n, parent, sep)[k])
    decreases data, 0, n
  {
    if n > 0 {
      var member := data.members[n - 1];
      assert member in data.members;
      FlattenMembersScalars(data, n - 1, parent, sep);
      FlattenLeavesAreScalars(member.1, ChildKey(parent, sep, member.0), sep);
    }
  }

  lemma {:induction false} FlattenElemsScalars(data: Json, n: nat, parent: string, sep: string)
    requires data.JArr? && n <= |data.elems|
    ensures forall k | k in FlattenElems(data, n, parent, sep) :: IsScalar(FlattenElems(data, n, parent, sep)[k])
    decreases data, 0, n
  {
    if n > 0 {
      FlattenElemsScalars(data, n - 1, parent, sep);
      FlattenLeavesAreScalars(data.elems[n - 1], ChildKey(parent, sep, NatToString(n - 1)), sep);
    }
  }

  // ---------------------------------------------------------------- the leaves in order

  /** Reference traversal: every (path, leaf) pair in depth-first order,
      duplicates included (the `items` list before `dict(items)`). */
  function Items(data: Json, parent: string, sep: string): seq<(string, Json)>
    decreases data, 1
  {
    match data
    case JObj(ms) => ItemsMembers(data, |ms|, parent, sep)
    case JArr(es) => ItemsElems(data, |es|, parent, sep)
    case _ => [(parent, data)]
  }

  function ItemsMembers(data: Json, n: nat, parent: string, sep: string): seq<(string, Json)>
    requires data.JObj? && n <= |data.members|
    decreases data, 0, n
  {
    if n == 0 then []
    else
      var member := data.members[n - 1];
      assert member in data.members;
      ItemsMembers(data, n - 1, parent, sep) + Items(member.1, ChildKey(parent, sep, member.0), sep)
  }

  function ItemsElems(data: Json, n: nat, parent: string, sep: string): seq<(string, Json)>
    requires data.JArr? && n <= |data.elems|
    decreases data, 0, n
  {
    if n == 0 then []
    else
      ItemsElems(data, n - 1, parent, sep)
        + Items(data.elems[n - 1], ChildKey(parent, sep, NatToString(n - 1)), sep)
  }

  /** The number of scalar leaves of a value. */
  function LeafCount(data: Json): nat
    decreases data, 1
  {
    match data
    case JObj(ms) => LeafCountMembers(data, |ms|)
    case JArr(es) => LeafCountElems(data, |es|)
    case _ => 1
  }

  function LeafCountMembers(data: Json, n: nat): nat
    requires data.JObj? && n <= |data.members|
    decreases data, 0, n
  {
    if n == 0 then 0
    else
      var member := data.members[n - 1];
      assert member in data.members;
      LeafCountMembers(data, n - 1) + LeafCount(member.1)
  }

  function LeafCountElems(data: Json, n: nat): nat
    requires data.JArr? && n <= |data.elems|
    decreases data, 0, n
  {
    if n == 0 then 0 else LeafCountElems(data, n - 1) + LeafCount(data.elems[n - 1])
  }

  // ---------------------------------------------------------------- flatten == dict(items)

  /** Flattening is `dict` of the traversal: merging the children's dicts in
      order is the same as reading all leaves in order, later ones winning. */
  lemma {:induction false} FlattenIsDictOfItems(data: Json, parent: string, sep: string)
    ensures Flatten(data, parent, sep) == FromPairs(Items(data, parent, sep))
    decreases data, 1
  {
    match data
    case JObj(ms) => FlattenMembersIsDict(data, |ms|, parent, sep);
    case JArr(es) => FlattenElemsIsDict(data, |es|, parent, sep);
    case _ => assert Items(data, parent, sep) == [(parent, data)];
  }

  lemma {:induction false} FlattenMembersIsDict(data: Json, n: nat, parent: string, sep: string)
    requires data.JObj? && n <= |data.members|
    ensures FlattenMembers(data, n, parent, sep) == FromPairs(ItemsMembers(data, n, parent, sep))
    decreases data, 0, n
  {
    if n > 0 {
      var member := data.members[n - 1];
      assert member in data.members;
      var key := ChildKey(parent, sep, member.0);
      var before, items := ItemsMembers(data, n - 1, parent, sep), Items(member.1, key, sep);
      FlattenMembersIsDict(data, n - 1, parent, sep);
      FlattenIsDictOfItems(member.1, key, sep);
      FromPairsAppend(before, items);
      assert ItemsMembers(data, n, parent, sep) == before + items;
    } else {
      assert ItemsMembers(data, 0, parent, sep) == [];
    }
  }

  lemma {:induction false} FlattenElemsIsDict(data: Json, n: nat, parent: string, sep: string)
    requires data.JArr? && n <= |data.elems|
    ensures FlattenElems(data, n, parent, sep) == FromPairs(ItemsElems(data, n, parent, sep))
    decreases data, 0, n
  {
    if n > 0 {
      var key := ChildKey(parent, sep, NatToString(n - 1));
      FlattenElemsIsDict(data, n - 1, parent, sep);
      var before, items := ItemsElems(data, n - 1, parent, sep), Items(data.elems[n - 1], key, sep);
      FlattenIsDictOfItems(data.elems[n - 1], key, sep);
      FromPairsAppend(before, items);
      assert ItemsElems(data, n, parent, sep) == before + items;
    } else {
      assert ItemsElems(data, 0, parent, sep) == [];
    }
  }

  /** The traversal visits each scalar leaf exactly once. */
  lemma {:induction false} ItemsCount(data: Json, parent: string, sep: string)
    ensures |Items(data, parent, sep)| == LeafCount(data)
    decreases data, 1
  {
    match data
    case JObj(ms) => ItemsMembersCount(data, |ms|, parent, sep);
    case JArr(es) => ItemsElemsCount(data, |es|, parent, sep);
    case _ =>
  }

  lemma {:induction false} ItemsMembersCount(data: Json, n: nat, parent: string, sep: string)
    requires data.JObj? && n <= |data.members|
    ensures |ItemsMembers(data, n, parent, sep)| == LeafCountMembers(data, n)
    decreases data, 0, n
  {
    if n > 0 {
      var member := data.members[n - 1];
      assert member in data.members;
      ItemsMembersCount(data, n - 1, parent, sep);
      ItemsCount(member.1, ChildKey(parent, sep, member.0), sep);
    }
  }

  lemma {:induction false} ItemsElemsCount(data: Json, n: nat, parent: string, sep: string)
    requires data.JArr? && n <= |data.elems|
    ensures |ItemsElems(data, n, parent, sep)| == LeafCountElems(data, n)
    decreases data, 0, n
  {
    if n > 0 {
      ItemsElemsCount(data, n - 1, parent, sep);
      ItemsCount(data.elems[n - 1], ChildKey(parent, sep, NatToString(n - 1)), sep);
    }
  }

  // ---------------------------------------------------------------- properties

  /** When no two leaves share a path, the flattening has one entry per leaf. */
  lemma FlattenCountsLeaves(data: Json, parent: string, sep: string)
    requires DistinctKeys(Items(data, parent, sep))
    ensures |Flatten(data, parent, sep)| == LeafCount(data)
  {
    FlattenIsDictOfItems(data, parent, sep);
    FromPairsDistinctSize(Items(data, parent, sep));
    ItemsCount(data, parent, sep);
  }

  /** A path is present exactly when some leaf has it, and it holds the leaf
      that comes last in traversal order. */
  lemma FlattenLaterLeafWins(data: Json, parent: string, sep: string, path: string)
    ensures path in Flatten(data, parent, sep)
        <==> exists i | 0 <= i < |Items(data, parent, sep)| :: Items(data, parent, sep)[i].0 == path
    ensures forall i | IsLastWith(Items(data, parent, sep), path, i) ::
        path in Flatten(data, parent, sep) && Flatten(data, parent, sep)[path] == Items(data, parent, sep)[i].1
  {
    FlattenIsDictOfItems(data, parent, sep);
    forall i | IsLastWith(Items(data, parent, sep), path, i)
      ensures Flatten(data, parent, sep)[path] == Items(data, parent, sep)[i].1
    {
      FromPairsLastWins(Items(data, parent, sep), path, i);
    }
  }

  /** A top-level scalar is a single entry under the empty path. */
  lemma FlattenTopLevelScalar(x: Json, sep: string)
    requires IsScalar(x)
    ensures Flatten(x, "", sep) == map["" := x]
  {
  }

  /** Empty containers contribute nothing. */
  lemma FlattenEmptyContainers(parent: string, sep: string)
    ensures Flatten(JObj([]), parent, sep) == map[]
    ensures Flatten(JArr([]), parent, sep) == map[]
  {
  }

  /** `{"a": {"b": x}}` flattens to `a<sep>b`. */
  lemma FlattenNestedObject(x: Json, sep: string)
    requires IsScalar(x)
    ensures Flatten(JObj([("a", JObj([("b", x)]))]), "", sep) == map["a" + sep + "b" := x]
  {
    var inner := JObj([("b", x)]);
    assert FlattenMembers(inner, 1, "a", sep) == map["a" + sep + "b" := x];
    var outer := JObj([("a", inner)]);
    assert FlattenMembers(outer, 1, "", sep) == Flatten(inner, "a", sep);
  }

  /** `{"a": [x]}` flattens to `a<sep>0`. */
  lemma FlattenNestedList(x: Json, sep: string)
    requires IsScalar(x)
    ensures Flatten(JObj([("a", JArr([x]))]), "", sep) == map["a" + sep + "0" := x]
  {
    var inner := JArr([x]);
    assert NatToString(0) == "0";
    assert FlattenElems(inner, 1, "a", sep) == map["a" + sep + "0" := x];
    var outer := JObj([("a", inner)]);
    assert FlattenMembers(outer, 1, "", sep) == Flatten(inner, "a", sep);
  }

  // ---------------------------------------------------------------- list positions

  /** `NatToString(n)` is the decimal numeral of `n`, without leading zeros. */
  lemma {:induction false} NatToStringValue(n: nat)
    ensures DigitsValue(NatToString(n)) == n
    ensures NatToString(n)[0] == '0' ==> n == 0
  {
    if n >= 10 {
      var high := NatToString(n / 10);
      NatToStringValue(n / 10);
      assert NatToString(n)[..|high|] == high;
    }
  }

  /** Different list positions give different path segments. */
  lemma NatToStringInjective(a: nat, b: nat)
    ensures NatToString(a) == NatToString(b) <==> a == b
  {
    NatToStringValue(a);
    NatToStringValue(b);
  }

  /** The leaves of a list of scalars are its elements, in order, each under
      its own position. */
  lemma {:induction false} ScalarListItems(data: Json, n: nat, parent: string, sep: string)
    requires data.JArr? && n <= |data.elems|
    requires forall i | 0 <= i < |data.elems| :: IsScalar(data.elems[i])
    ensures |ItemsElems(data, n, parent, sep)| == n
    ensures forall i | 0 <= i < n ::
      ItemsElems(data, n, parent, sep)[i] == (ChildKey(parent, sep, NatToString(i)), data.elems[i])
  {
    if n > 0 {
      ScalarListItems(data, n - 1, parent, sep);
    }
  }

  /** Two positions under the same parent get the same path only if the
      position segments agree. */
  lemma ChildKeyInjective(parent: string, sep: string, k1: string, k2: string)
    requires ChildKey(parent, sep, k1) == ChildKey(parent, sep, k2)
    ensures k1 == k2
  {
    if parent != "" {
      var pre := parent + sep;
      assert (pre + k1)[|pre|..] == k1 && (pre + k2)[|pre|..] == k2;
    }
  }

  /** A list of scalars flattens to one entry per element: the position
      segments never collide. */
  lemma FlattenScalarList(data: Json, parent: string, sep: string)
    requires data.JArr?
    requires forall i | 0 <= i < |data.elems| :: IsScalar(data.elems[i])
    ensures |Flatten(data, parent, sep)| == |data.elems|
  {
    var items := Items(data, parent, sep);
    ScalarListItems(data, |data.elems|, parent, sep);
    forall i, j | 0 <= i < j < |items| ensures items[i].0 != items[j].0 {
      if items[i].0 == items[j].0 {
        ChildKeyInjective(parent, sep, NatToString(i), NatToString(j));
        NatToStringInjective(i, j);
      }
    }
    FlattenIsDictOfItems(data, parent, sep);
    FromPairsDistinctSize(items);
  }
}
