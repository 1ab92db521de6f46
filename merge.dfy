/** The duplicate merger (`merge_duplicates`): rows are grouped by identity key in the order
    each key first occurs, and every group of two or more rows collapses into one order whose
    product names, specs and remarks are the distinct non-empty values joined with a
    full-width semicolon. */
module Merge {
  import opened Text
  import opened Records
  import opened KeyOrder

  /** The full-width semicolon U+FF1B that joins merged values. */
  const SEP: string := "\U{FF1B}"

  /** `usize` arithmetic wraps modulo 2^64 in a release build. */
  const USIZE_MOD: nat := USIZE_MAX + 1

  /** The distinct keys of `rows` in the order they first occur (`group_order`). */
  function FirstKeys(rows: seq<ConvertedRow>): seq<Key>
  {
    if rows == [] then []
    else
      var ks := FirstKeys(rows[..|rows| - 1]);
      var k := KeyOf(rows[|rows| - 1]);
      if k in ks then ks else ks + [k]
  }

  /** The distinct non-empty values of field `f` over `rows`, in the order they first
      occur. */
  function DistinctValues(rows: seq<ConvertedRow>, f: Field): seq<string>
  {
    if rows == [] then []
    else
      var vs := DistinctValues(rows[..|rows| - 1], f);
      var v := Get(rows[|rows| - 1], f);
      if v != "" && v !in vs then vs + [v] else vs
  }

  /** `r.quantity.parse().unwrap_or(1)`. */
  function Qty(quantity: string): (n: nat)
    ensures n <= USIZE_MAX
    ensures ParseUsize(quantity).Some? ==> n == ParseUsize(quantity).value
    ensures ParseUsize(quantity).None? ==> n == 1
  {
    match ParseUsize(quantity)
    case Some(n) => n
    case None => 1
  }

  /** The parsed quantity of every row. */
  function Quantities(rows: seq<ConvertedRow>): (qs: seq<nat>)
    ensures |qs| == |rows|
  {
    seq(|rows|, i requires 0 <= i < |rows| => Qty(rows[i].quantity))
  }

  /** `a + b` on `usize`: wraps modulo 2^64. */
  function WrapAdd(a: nat, b: nat): (c: nat)
    ensures c < USIZE_MOD
    ensures a + b < USIZE_MOD ==> c == a + b
  {
    (a + b) % USIZE_MOD
  }

  /** A sum in `usize` arithmetic: every addition wraps modulo 2^64. */
  function WrappingSum(xs: seq<nat>): (t: nat)
    ensures t < USIZE_MOD
  {
    if xs == [] then 0 else WrapAdd(WrappingSum(xs[..|xs| - 1]), xs[|xs| - 1])
  }

  /** The same sum in unbounded arithmetic. */
  function Total(xs: seq<nat>): nat
  {
    if xs == [] then 0 else Total(xs[..|xs| - 1]) + xs[|xs| - 1]
  }

  /** `total_quantity` after the loop over a group. */
  function QuantityTotal(rows: seq<ConvertedRow>): nat
  {
    WrappingSum(Quantities(rows))
  }

  /** `n` copies of "1". */
  function Ones(n: nat): (r: seq<string>)
    ensures |r| == n && forall i :: 0 <= i < n ==> r[i] == "1"
  {
    if n == 0 then [] else Ones(n - 1) + ["1"]
  }

  /** The quantity of a merged order: one unit per product when there are several product
      names, the total otherwise. */
  function MergedQuantity(names: seq<string>, total: nat): string
  {
    if |names| > 1 then Join(Ones(|names|), SEP) else NatToString(total)
  }

  /** The order a group of two or more rows collapses into. */
  function CombinedRow(k: Key, group: seq<ConvertedRow>): ConvertedRow
  {
    var names := DistinctValues(group, ProductName);
    ConvertedRow(
      k.name, k.phone, k.address,
      Join(names, SEP),
      Join(DistinctValues(group, ProductSpec), SEP),
      MergedQuantity(names, QuantityTotal(group)),
      Join(DistinctValues(group, Remarks), SEP),
      0)
  }

  /** One group's output: a lone row with its id cleared, or the combined order. */
  function MergeGroup(k: Key, group: seq<ConvertedRow>): ConvertedRow
  {
    if |group| == 1 then group[0].(groupId := 0) else CombinedRow(k, group)
  }

  /** The output of `merge_duplicates`: one row per distinct key, in first-occurrence order. */
  function MergedRows(rows: seq<ConvertedRow>): seq<ConvertedRow>
  {
    var ks := FirstKeys(rows);
    seq(|ks|, i requires 0 <= i < |ks| => MergeGroup(ks[i], RowsWithKey(rows, ks[i])))
  }

  lemma DistinctValuesStep(rows: seq<ConvertedRow>, i: nat, f: Field)
    requires i < |rows|
    ensures var vs := DistinctValues(rows[..i], f); var v := Get(rows[i], f);
      DistinctValues(rows[..i + 1], f) == if v != "" && v !in vs then vs + [v] else vs
  {
    assert rows[..i + 1][..i] == rows[..i];
  }

  lemma WrappingSumStep(xs: seq<nat>, i: nat)
    requires i < |xs|
    ensures WrappingSum(xs[..i + 1]) == WrapAdd(WrappingSum(xs[..i]), xs[i])
  {
    assert xs[..i + 1][..i] == xs[..i];
  }

  /** `if !v.is_empty() && !list.contains(&v) { list.push(v) }`. */
  method PushDistinct(list: seq<string>, v: string) returns (r: seq<string>)
    ensures r == if v != "" && v !in list then list + [v] else list
  {
    r := list;
    if v != "" && v !in list {
      r := r + [v];
    }
  }

  /** The inner loop over a group of two or more rows: distinct product names, specs and
      remarks, and the running quantity total. */
  method TallyGroup(group: seq<ConvertedRow>)
    returns (productNames: seq<string>, productSpecs: seq<string>, totalQuantity: nat, remarksList: seq<string>)
    ensures productNames == DistinctValues(group, ProductName)
    ensures productSpecs == DistinctValues(group, ProductSpec)
    ensures totalQuantity == QuantityTotal(group)
    ensures remarksList == DistinctValues(group, Remarks)
  {
    productNames, productSpecs, totalQuantity, remarksList := [], [], 0, [];
    for i := 0 to |group|
      invariant productNames == DistinctValues(group[..i], ProductName)
      invariant productSpecs == DistinctValues(group[..i], ProductSpec)
      invariant totalQuantity == WrappingSum(Quantities(group)[..i])
      invariant remarksList == DistinctValues(group[..i], Remarks)
    {
      var r := group[i];
      DistinctValuesStep(group, i, ProductName);
      DistinctValuesStep(group, i, ProductSpec);
      DistinctValuesStep(group, i, Remarks);
      WrappingSumStep(Quantities(group), i);
      productNames := PushDistinct(productNames, r.productName);
      productSpecs := PushDistinct(productSpecs, r.productSpec);
      var qty := Qty(r.quantity);
      totalQuantity := WrapAdd(totalQuantity, qty);
      remarksList := PushDistinct(remarksList, r.remarks);
    }
    assert group[..|group|] == group;
    assert Quantities(group)[..|group|] == Quantities(group);
  }

  /** The order built from a group's tallies. */
  method CombineGroup(key: Key, group: seq<ConvertedRow>) returns (row: ConvertedRow)
    ensures row == CombinedRow(key, group)
  {
    var productNames, productSpecs, totalQuantity, remarksList := TallyGroup(group);
    var quantity;
    if |productNames| > 1 {
      quantity := Join(Ones(|productNames|), SEP);
    } else {
      quantity := NatToString(totalQuantity);
    }
    row := ConvertedRow(
      key.name, key.phone, key.address,
      Join(productNames, SEP), Join(productSpecs, SEP), quantity, Join(remarksList, SEP), 0);
  }

  /** A key is listed exactly when some row has it, and no key is listed twice. */
  lemma {:induction false} FirstKeysMembers(rows: seq<ConvertedRow>)
    ensures forall k :: k in FirstKeys(rows) <==> CountKey(rows, k) > 0
    ensures forall i, j :: 0 <= i < j < |FirstKeys(rows)| ==> FirstKeys(rows)[i] != FirstKeys(rows)[j]
  {
    if rows != [] {
      FirstKeysMembers(rows[..|rows| - 1]);
    }
  }

  /** The first loop of `merge_duplicates`: the rows of each key in their order, and the
      order the keys first occur in. */
  method GroupRows(rows: seq<ConvertedRow>) returns (groupOrder: seq<Key>, groups: map<Key, seq<ConvertedRow>>)
    ensures groupOrder == FirstKeys(rows)
    ensures forall k :: k in groups <==> k in groupOrder
    ensures forall k :: k in groups ==> groups[k] == RowsWithKey(rows, k)
  {
    groupOrder := [];
    groups := map[];
    for i := 0 to |rows|
      invariant groupOrder == FirstKeys(rows[..i])
      invariant forall k :: k in groups <==> k in groupOrder
      invariant forall k :: k in groups ==> groups[k] == RowsWithKey(rows[..i], k)
      invariant forall k :: k !in groups ==> RowsWithKey(rows[..i], k) == []
    {
      var key := KeyOf(rows[i]);
      assert rows[..i + 1][..i] == rows[..i];
      if key !in groups {
        groupOrder := groupOrder + [key];
      }
      groups := groups[key := (if key in groups then groups[key] else []) + [rows[i]]];
    }
    assert rows[..|rows|] == rows;
  }

  /** `merge_duplicates`: group the rows by key, then emit one row per group in the order
      the keys first occur. */
  method MergeDuplicates(rows: seq<ConvertedRow>) returns (result: seq<ConvertedRow>)
    ensures result == MergedRows(rows)
  {
    var groupOrder, groups := GroupRows(rows);
    ghost var merged := MergedRows(rows);
    result := [];
    for j := 0 to |groupOrder|
      invariant result == merged[..j]
    {
      var key := groupOrder[j];
      var group := groups[key];
      var row;
      if |group| == 1 {
        row := group[0].(groupId := 0);
      } else {
        row := CombineGroup(key, group);
      }
      assert row == merged[j];
      assert merged[..j + 1] == merged[..j] + [merged[j]];
      result := result + [row];
    }
    assert merged[..|groupOrder|] == merged;
  }

  /** Some row of `rows` has `v` in field `f`. */
  predicate HeldBy(rows: seq<ConvertedRow>, f: Field, v: string)
  {
    exists i :: 0 <= i < |rows| && Get(rows[i], f) == v
  }

  lemma HeldByPrefix(rows: seq<ConvertedRow>, f: Field, v: string)
    requires rows != []
    ensures HeldBy(rows, f, v) <==> HeldBy(rows[..|rows| - 1], f, v) || Get(rows[|rows| - 1], f) == v
  {
    var p := rows[..|rows| - 1];
    if HeldBy(rows, f, v) {
      var i :| 0 <= i < |rows| && Get(rows[i], f) == v;
      if i < |p| {
        assert Get(p[i], f) == v;
      }
    }
    if HeldBy(p, f, v) {
      var i :| 0 <= i < |p| && Get(p[i], f) == v;
      assert Get(rows[i], f) == v;
    }
  }

  /** Field values: listed exactly when non-empty and held by some row, never twice. */
  lemma {:induction false} DistinctValuesMembers(rows: seq<ConvertedRow>, f: Field)
    ensures forall v :: v in DistinctValues(rows, f) <==> v != "" && HeldBy(rows, f, v)
    ensures forall i, j :: 0 <= i < j < |DistinctValues(rows, f)| ==> DistinctValues(rows, f)[i] != DistinctValues(rows, f)[j]
  {
    if rows != [] {
      DistinctValuesMembers(rows[..|rows| - 1], f);
      forall v ensures HeldBy(rows, f, v) <==> HeldBy(rows[..|rows| - 1], f, v) || Get(rows[|rows| - 1], f) == v {
        HeldByPrefix(rows, f, v);
      }
    }
  }

  /** A non-empty value first held at row `a` is appended to the list at that row. */
  lemma DistinctValuesFirstHeld(rows: seq<ConvertedRow>, f: Field, a: nat)
    requires a < |rows| && Get(rows[a], f) != ""
    requires forall l :: 0 <= l < a ==> Get(rows[l], f) != Get(rows[a], f)
    ensures DistinctValues(rows[..a + 1], f) == DistinctValues(rows[..a], f) + [Get(rows[a], f)]
  {
    var v := Get(rows[a], f);
    DistinctValuesStep(rows, a, f);
    DistinctValuesMembers(rows[..a], f);
    assert !HeldBy(rows[..a], f, v) by {
      assert forall l :: 0 <= l < a ==> Get(rows[..a][l], f) != v;
    }
  }

  /** Each row leaves the list so far as a prefix of the next one. */
  lemma DistinctValuesGrow(rows: seq<ConvertedRow>, f: Field, i: nat)
    requires i < |rows|
    ensures DistinctValues(rows[..i], f) <= DistinctValues(rows[..i + 1], f)
  {
    DistinctValuesStep(rows, i, f);
  }

  /** Where a non-empty value of field `f` is first held at row `a`, it sits at position
      |DistinctValues(rows[..a], f)| of the list, and the list only grows after that. */
  lemma {:induction false} DistinctValuesAt(rows: seq<ConvertedRow>, f: Field, a: nat, n: nat)
    requires a < n <= |rows| && Get(rows[a], f) != ""
    requires forall l :: 0 <= l < a ==> Get(rows[l], f) != Get(rows[a], f)
    ensures |DistinctValues(rows[..a], f)| < |DistinctValues(rows[..n], f)|
    ensures DistinctValues(rows[..n], f)[|DistinctValues(rows[..a], f)|] == Get(rows[a], f)
    decreases n
  {
    if n == a + 1 {
      DistinctValuesFirstHeld(rows, f, a);
    } else {
      DistinctValuesAt(rows, f, a, n - 1);
      DistinctValuesGrow(rows, f, n - 1);
    }
  }

  /** Merged values come out in the order they are first held: of two values first held at
      rows `a < b`, the one at `a` is listed first. */
  lemma DistinctValuesOrder(rows: seq<ConvertedRow>, f: Field, a: nat, b: nat)
    requires a < b < |rows| && Get(rows[a], f) != "" && Get(rows[b], f) != ""
    requires forall l :: 0 <= l < a ==> Get(rows[l], f) != Get(rows[a], f)
    requires forall l :: 0 <= l < b ==> Get(rows[l], f) != Get(rows[b], f)
    ensures var p := |DistinctValues(rows[..a], f)|; var q := |DistinctValues(rows[..b], f)|;
      && p < q < |DistinctValues(rows, f)|
      && DistinctValues(rows, f)[p] == Get(rows[a], f)
      && DistinctValues(rows, f)[q] == Get(rows[b], f)
  {
    assert rows[..|rows|] == rows;
    DistinctValuesAt(rows, f, a, b);
    DistinctValuesAt(rows, f, a, |rows|);
    DistinctValuesAt(rows, f, b, |rows|);
  }

  /** Without wrap-around the `usize` sum is the plain sum. */
  lemma {:induction false} WrappingSumNoWrap(xs: seq<nat>)
    requires Total(xs) <= USIZE_MAX
    ensures WrappingSum(xs) == Total(xs)
  {
    if xs != [] {
      WrappingSumNoWrap(xs[..|xs| - 1]);
    }
  }

  /** The merged total is the plain sum of the group's quantities whenever that fits in a
      `usize`. */
  lemma QuantityTotalNoWrap(group: seq<ConvertedRow>)
    requires Total(Quantities(group)) <= USIZE_MAX
    ensures QuantityTotal(group) == Total(Quantities(group))
  {
    WrappingSumNoWrap(Quantities(group));
  }

  /** A merged order with at most one product name carries the total, which reads back as a
      `usize`; with several names it carries "1" per name. */
  lemma MergedQuantityReadsBack(group: seq<ConvertedRow>)
    ensures var names := DistinctValues(group, ProductName);
      && (|names| <= 1 ==> ParseUsize(CombinedRow(KeyOf(group[0]), group).quantity) == Some(QuantityTotal(group)))
      && (|names| > 1 ==> CombinedRow(KeyOf(group[0]), group).quantity == Join(Ones(|names|), SEP))
    requires group != []
  {
    ParseUsizeRoundTrip(QuantityTotal(group));
  }

  /** The merged output has one row per distinct key, in first-occurrence order, each
      carrying its key and group id 0. */
  lemma MergedKeys(rows: seq<ConvertedRow>)
    ensures |MergedRows(rows)| == |FirstKeys(rows)|
    ensures forall i :: 0 <= i < |MergedRows(rows)| ==>
      KeyOf(MergedRows(rows)[i]) == FirstKeys(rows)[i] && MergedRows(rows)[i].groupId == 0
  {
    var ks := FirstKeys(rows);
    FirstKeysMembers(rows);
    forall i | 0 <= i < |ks| ensures KeyOf(MergedRows(rows)[i]) == ks[i] {
      var group := RowsWithKey(rows, ks[i]);
      if |group| == 1 {
        RowsWithKeyMembers(rows, ks[i]);
        assert group[0] in group;
      }
    }
  }

  /** Every key of the input occurs exactly once in the merged output. */
  lemma OneRowPerKey(rows: seq<ConvertedRow>)
    ensures forall k :: (exists i :: 0 <= i < |MergedRows(rows)| && KeyOf(MergedRows(rows)[i]) == k)
                        <==> CountKey(rows, k) > 0
    ensures forall i, j :: 0 <= i < j < |MergedRows(rows)| ==> KeyOf(MergedRows(rows)[i]) != KeyOf(MergedRows(rows)[j])
  {
    MergedKeys(rows);
    FirstKeysMembers(rows);
    var ks := FirstKeys(rows);
    forall k | CountKey(rows, k) > 0
      ensures exists i :: 0 <= i < |MergedRows(rows)| && KeyOf(MergedRows(rows)[i]) == k
    {
      var i :| 0 <= i < |ks| && ks[i] == k;
      assert KeyOf(MergedRows(rows)[i]) == k;
    }
  }

  /** Where a key first occurs at row `a`, it sits at position |FirstKeys(rows[..a])| of the
      key order. */
  lemma {:induction false} FirstKeysAt(rows: seq<ConvertedRow>, a: nat, n: nat)
    requires a < n <= |rows|
    requires forall l :: 0 <= l < a ==> KeyOf(rows[l]) != KeyOf(rows[a])
    ensures |FirstKeys(rows[..a])| < |FirstKeys(rows[..n])|
    ensures FirstKeys(rows[..n])[|FirstKeys(rows[..a])|] == KeyOf(rows[a])
    decreases n
  {
    if n == a + 1 {
      FirstKeysFirstHeld(rows, a);
    } else {
      FirstKeysAt(rows, a, n - 1);
      FirstKeysGrow(rows, n - 1);
    }
  }

  /** A key first met at row `a` is appended to the list at that row. */
  lemma FirstKeysFirstHeld(rows: seq<ConvertedRow>, a: nat)
    requires a < |rows|
    requires forall l :: 0 <= l < a ==> KeyOf(rows[l]) != KeyOf(rows[a])
    ensures FirstKeys(rows[..a + 1]) == FirstKeys(rows[..a]) + [KeyOf(rows[a])]
  {
    var k := KeyOf(rows[a]);
    assert rows[..a + 1][..a] == rows[..a];
    FirstKeysMembers(rows[..a]);
    assert forall l :: 0 <= l < a ==> KeyOf(rows[..a][l]) != k;
    CountKeyPositive(rows[..a], k);
  }

  /** Each row leaves the list so far as a prefix of the next one. */
  lemma FirstKeysGrow(rows: seq<ConvertedRow>, i: nat)
    requires i < |rows|
    ensures FirstKeys(rows[..i]) <= FirstKeys(rows[..i + 1])
  {
    assert rows[..i + 1][..i] == rows[..i];
  }

  /** Keys come out in the order they first occur in the input. */
  lemma FirstOccurrenceOrder(rows: seq<ConvertedRow>, a: nat, b: nat)
    requires a < b < |rows|
    requires forall l :: 0 <= l < a ==> KeyOf(rows[l]) != KeyOf(rows[a])
    requires forall l :: 0 <= l < b ==> KeyOf(rows[l]) != KeyOf(rows[b])
    ensures var p := |FirstKeys(rows[..a])|; var q := |FirstKeys(rows[..b])|;
      && p < q < |MergedRows(rows)|
      && KeyOf(MergedRows(rows)[p]) == KeyOf(rows[a])
      && KeyOf(MergedRows(rows)[q]) == KeyOf(rows[b])
  {
    assert rows[..|rows|] == rows;
    FirstKeysAt(rows, a, b);
    FirstKeysAt(rows, a, |rows|);
    FirstKeysAt(rows, b, |rows|);
    MergedKeys(rows);
  }

  /** A key held by a single row passes that row through with group id 0. */
  lemma SingleRowUnchanged(rows: seq<ConvertedRow>, i: nat)
    requires i < |rows| && CountKey(rows, KeyOf(rows[i])) == 1
    ensures exists t :: 0 <= t < |MergedRows(rows)| && MergedRows(rows)[t] == rows[i].(groupId := 0)
  {
    var k := KeyOf(rows[i]);
    var ks := FirstKeys(rows);
    FirstKeysMembers(rows);
    var t :| 0 <= t < |ks| && ks[t] == k;
    RowsWithKeyMembers(rows, k);
    var group := RowsWithKey(rows, k);
    assert rows[i] in group;
    assert group == [rows[i]];
    assert MergedRows(rows)[t] == rows[i].(groupId := 0);
  }

  predicate DistinctKeys(rows: seq<ConvertedRow>)
  {
    forall i, j :: 0 <= i < j < |rows| ==> KeyOf(rows[i]) != KeyOf(rows[j])
  }

  lemma {:induction false} FirstKeysOfDistinct(rows: seq<ConvertedRow>)
    requires DistinctKeys(rows)
    ensures FirstKeys(rows) == seq(|rows|, i requires 0 <= i < |rows| => KeyOf(rows[i]))
  {
    if rows != [] {
      var p := rows[..|rows| - 1];
      var k := KeyOf(rows[|rows| - 1]);
      assert DistinctKeys(p);
      FirstKeysOfDistinct(p);
      assert k !in FirstKeys(p) by {
        FirstKeysMembers(p);
        assert forall l :: 0 <= l < |p| ==> KeyOf(p[l]) != k;
        CountKeyPositive(p, k);
      }
      assert FirstKeys(rows) == FirstKeys(p) + [k];
    }
  }

  lemma {:induction false} RowsWithUniqueKeyPrefix(rows: seq<ConvertedRow>, i: nat, n: nat)
    requires i < |rows| && n <= |rows| && DistinctKeys(rows)
    ensures RowsWithKey(rows[..n], KeyOf(rows[i])) == if n <= i then [] else [rows[i]]
  {
    if n > 0 {
      RowsWithUniqueKeyPrefix(rows, i, n - 1);
      assert rows[..n][..n - 1] == rows[..n - 1];
    }
  }

  lemma RowsWithUniqueKey(rows: seq<ConvertedRow>, i: nat)
    requires i < |rows| && DistinctKeys(rows)
    ensures RowsWithKey(rows, KeyOf(rows[i])) == [rows[i]]
  {
    RowsWithUniqueKeyPrefix(rows, i, |rows|);
    assert rows[..|rows|] == rows;
  }

  /** Rows whose keys are already distinct come through unchanged apart from group ids
      cleared to 0. */
  lemma DistinctRowsUnchanged(rows: seq<ConvertedRow>)
    requires DistinctKeys(rows)
    ensures MergedRows(rows) == seq(|rows|, i requires 0 <= i < |rows| => rows[i].(groupId := 0))
  {
    FirstKeysOfDistinct(rows);
    forall i | 0 <= i < |rows| ensures MergedRows(rows)[i] == rows[i].(groupId := 0) {
      RowsWithUniqueKey(rows, i);
    }
  }

  /** Merging twice is merging once. */
  lemma MergeIdempotent(rows: seq<ConvertedRow>)
    ensures MergedRows(MergedRows(rows)) == MergedRows(rows)
  {
    var m := MergedRows(rows);
    MergedKeys(rows);
    FirstKeysMembers(rows);
    DistinctRowsUnchanged(m);
    assert forall i :: 0 <= i < |m| ==> m[i].(groupId := 0) == m[i];
  }

  /** A quantity the merger writes reads back as the same number. */
  lemma QtyReadsBack(n: nat)
    requires n <= USIZE_MAX
    ensures Qty(NatToString(n)) == n
  {
    ParseUsizeRoundTrip(n);
  }
}
