/** Worked scenarios for the grouper and the merger, each proved on concrete rows. */
module Scenarios {
  import opened Text
  import opened Records
  import opened KeyOrder
  import opened Grouping
  import opened Merge

  const RowA := ConvertedRow("A", "1", "X", "", "", "1", "", 0)
  const RowB := ConvertedRow("B", "2", "Y", "", "", "1", "", 0)

  lemma ExampleSorted()
    ensures SortByKey([RowA, RowB, RowA]) == [RowA, RowA, RowB]
  {
    assert KeyLt(KeyOf(RowA), KeyOf(RowB));
    assert SortByKey([RowA]) == [RowA];
    assert SortByKey([RowB, RowA]) == Insert(RowB, [RowA]) == [RowA, RowB];
  }

  lemma ExampleCounts()
    ensures CountKey([RowA, RowA, RowB], KeyOf(RowA)) == 2
    ensures CountKey([RowA, RowA, RowB], KeyOf(RowB)) == 1
  {
    var sorted := [RowA, RowA, RowB];
    assert sorted[..2] == [RowA, RowA] && [RowA, RowA][..1] == [RowA];
    assert RowsWithKey([RowA], KeyOf(RowA)) == [RowA];
    assert RowsWithKey([RowA, RowA], KeyOf(RowA)) == [RowA, RowA];
    assert RowsWithKey([RowA], KeyOf(RowB)) == [];
    assert RowsWithKey([RowA, RowA], KeyOf(RowB)) == [];
  }

  lemma ExampleDupKeys()
    ensures DupKeys([RowA, RowA, RowB], [RowA, RowA, RowB]) == [KeyOf(RowA)]
  {
    var sorted := [RowA, RowA, RowB];
    ExampleCounts();
    assert sorted[..2] == [RowA, RowA] && [RowA, RowA][..1] == [RowA];
    assert DupKeys([RowA], sorted) == [KeyOf(RowA)];
    assert DupKeys([RowA, RowA], sorted) == [KeyOf(RowA)];
  }

  /** Keys A-1-X, B-2-Y, A-1-X: after sorting the two A-1-X rows are adjacent and share
      id 1, the B-2-Y row keeps id 0, and two rows are counted as duplicates. */
  lemma GroupingExample()
    ensures var sorted := SortByKey([RowA, RowB, RowA]);
      && sorted == [RowA, RowA, RowB]
      && Tagged(sorted, 0).groupId == 1 && Tagged(sorted, 1).groupId == 1
      && Tagged(sorted, 2).groupId == 0
      && DuplicateCount(sorted) == 2
  {
    ExampleSorted();
    ExampleCounts();
    ExampleDupKeys();
    assert SumCounts([KeyOf(RowA)], [RowA, RowA, RowB]) == 2;
  }

  const Widget2 := ConvertedRow("A", "1", "X", "Widget", "", "2", "", 1)
  const Gadget3 := ConvertedRow("A", "1", "X", "Gadget", "", "3", "", 1)
  const Widget3 := ConvertedRow("A", "1", "X", "Widget", "", "3", "", 1)

  lemma PairGroup(a: ConvertedRow, b: ConvertedRow)
    requires KeyOf(a) == KeyOf(b)
    ensures FirstKeys([a, b]) == [KeyOf(a)]
    ensures RowsWithKey([a, b], KeyOf(a)) == [a, b]
    ensures MergedRows([a, b]) == [CombinedRow(KeyOf(a), [a, b])]
  {
    assert [a, b][..1] == [a];
    assert [a][..0] == [];
    assert FirstKeys([a]) == [KeyOf(a)];
    assert RowsWithKey([a], KeyOf(a)) == [a];
  }

  /** The distinct values of a field over two rows. */
  lemma PairValues(a: ConvertedRow, b: ConvertedRow, f: Field)
    ensures var first := if Get(a, f) != "" then [Get(a, f)] else [];
      DistinctValues([a, b], f) == if Get(b, f) != "" && Get(b, f) !in first then first + [Get(b, f)] else first
  {
    DistinctValuesStep([a, b], 0, f);
    DistinctValuesStep([a, b], 1, f);
    assert [a, b][..1] == [a] && [a, b][..2] == [a, b] && [a, b][..0] == [];
  }

  lemma TwoProductsValues()
    ensures DistinctValues([Widget2, Gadget3], ProductName) == ["Widget", "Gadget"]
    ensures DistinctValues([Widget2, Gadget3], ProductSpec) == []
    ensures DistinctValues([Widget2, Gadget3], Remarks) == []
  {
    PairValues(Widget2, Gadget3, ProductName);
    PairValues(Widget2, Gadget3, ProductSpec);
    PairValues(Widget2, Gadget3, Remarks);
  }

  lemma TwoUnits()
    ensures Join(Ones(2), SEP) == "1\U{FF1B}1"
  {
    assert Ones(2) == ["1", "1"];
    assert ["1", "1"][1..] == ["1"];
  }

  /** Two rows of one key with two different products merge into one order listing both
      products, one unit each. */
  lemma MergeTwoProductsExample()
    ensures MergedRows([Widget2, Gadget3])
         == [ConvertedRow("A", "1", "X", "Widget\U{FF1B}Gadget", "", "1\U{FF1B}1", "", 0)]
  {
    PairGroup(Widget2, Gadget3);
    TwoProductsValues();
    TwoUnits();
    assert ["Widget", "Gadget"][1..] == ["Gadget"];
    assert Join(["Widget", "Gadget"], SEP) == "Widget\U{FF1B}Gadget";
    assert MergedQuantity(["Widget", "Gadget"], QuantityTotal([Widget2, Gadget3])) == "1\U{FF1B}1";
    assert Join([], SEP) == "";
  }

  lemma SameProductTotal()
    ensures QuantityTotal([Widget2, Widget3]) == 5
  {
    var g := [Widget2, Widget3];
    QtyReadsBack(2);
    QtyReadsBack(3);
    assert NatToString(2) == "2" && NatToString(3) == "3";
    var qs := Quantities(g);
    assert qs == [2, 3];
    WrappingSumStep(qs, 0);
    WrappingSumStep(qs, 1);
    assert qs[..0] == [] && qs[..2] == qs;
  }

  /** Two rows of one key with the same product merge into one order whose quantity is the
      sum. */
  lemma MergeSameProductExample()
    ensures MergedRows([Widget2, Widget3])
         == [ConvertedRow("A", "1", "X", "Widget", "", "5", "", 0)]
  {
    var g := [Widget2, Widget3];
    PairGroup(Widget2, Widget3);
    PairValues(Widget2, Widget3, ProductName);
    PairValues(Widget2, Widget3, ProductSpec);
    PairValues(Widget2, Widget3, Remarks);
    assert DistinctValues(g, ProductName) == ["Widget"];
    SameProductTotal();
    assert MergedQuantity(["Widget"], 5) == "5";
  }
}
