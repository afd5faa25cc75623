/** The two recursive reductions the tree table shows per row:
    `calculateTotalQuantity` (additive up the tree) and
    `calculateAverageRate` (each level re-averages its direct children's
    averages, a mean of means, not a leaf-weighted mean). */
module TreeUtils {

  import opened Wrappers
  import opened TreeModel

  /** An item contributes its quantity (0 when absent); any other node the
      sum over its children. */
  function TotalQuantity(item: TreeItem): real
    decreases item, 1
  {
    if item.kind == Item then item.quantity.GetOr(0.0) else SumTotals(item.children)
  }

  function SumTotals(children: seq<TreeItem>): real
    decreases children, 0
  {
    if children == [] then 0.0 else TotalQuantity(children[0]) + SumTotals(children[1..])
  }

  /** An item contributes its rate (0 when absent); a node without children
      0; any other node the arithmetic mean of its children's averages. */
  function AverageRate(item: TreeItem): real
    decreases item, 1
  {
    if item.kind == Item then item.rate.GetOr(0.0)
    else if |item.children| == 0 then 0.0
    else SumAverages(item.children) / (|item.children| as real)
  }

  function SumAverages(children: seq<TreeItem>): real
    decreases children, 0
  {
    if children == [] then 0.0 else AverageRate(children[0]) + SumAverages(children[1..])
  }

  /** Sum of the quantities (0 when absent) of a list of items. */
  function SumItemQuantities(items: seq<TreeItem>): real {
    if items == [] then 0.0 else items[0].quantity.GetOr(0.0) + SumItemQuantities(items[1..])
  }

  /** Sum of the rates (0 when absent) of a list of items. */
  function SumItemRates(items: seq<TreeItem>): real {
    if items == [] then 0.0 else items[0].rate.GetOr(0.0) + SumItemRates(items[1..])
  }

  lemma {:induction false} SumItemQuantitiesAppend(a: seq<TreeItem>, b: seq<TreeItem>)
    ensures SumItemQuantities(a + b) == SumItemQuantities(a) + SumItemQuantities(b)
    decreases |a|
  {
    if a == [] {
      assert a + b == b;
    } else {
      assert (a + b)[1..] == a[1..] + b;
      SumItemQuantitiesAppend(a[1..], b);
    }
  }

  /** The total quantity of any node is the sum of the quantities of the item
      leaves beneath it (the node itself when it is an item). */
  lemma {:induction false} TotalIsSumOfItems(n: TreeItem)
    ensures TotalQuantity(n) == SumItemQuantities(Items(n))
    decreases n, 1
  {
    if n.kind != Item {
      SumTotalsIsSumOfItems(n.children);
    }
  }

  lemma {:induction false} SumTotalsIsSumOfItems(nodes: seq<TreeItem>)
    ensures SumTotals(nodes) == SumItemQuantities(ItemsOf(nodes))
    decreases nodes, 0
  {
    if nodes != [] {
      TotalIsSumOfItems(nodes[0]);
      SumTotalsIsSumOfItems(nodes[1..]);
      SumItemQuantitiesAppend(Items(nodes[0]), ItemsOf(nodes[1..]));
    }
  }

  /** Quantity is additive: the totals of two sibling lists add up. */
  lemma {:induction false} SumTotalsAppend(a: seq<TreeItem>, b: seq<TreeItem>)
    ensures SumTotals(a + b) == SumTotals(a) + SumTotals(b)
  {
    SumTotalsIsSumOfItems(a + b);
    SumTotalsIsSumOfItems(a);
    SumTotalsIsSumOfItems(b);
    ItemsOfAppend(a, b);
    SumItemQuantitiesAppend(ItemsOf(a), ItemsOf(b));
  }

  /** An item shows its own quantity and rate (0 when absent); a category
      or subcategory without children shows 0 for both. */
  lemma LeafAndEmptyValues(n: TreeItem)
    ensures n.kind == Item ==> TotalQuantity(n) == n.quantity.GetOr(0.0) && AverageRate(n) == n.rate.GetOr(0.0)
    ensures n.kind != Item && n.children == [] ==> TotalQuantity(n) == 0.0 && AverageRate(n) == 0.0
  {
  }

  /** When no item beneath a node has a negative quantity, neither does the node. */
  lemma QuantityNonNegative(n: TreeItem)
    requires forall k :: 0 <= k < |Items(n)| ==> Items(n)[k].quantity.GetOr(0.0) >= 0.0
    ensures TotalQuantity(n) >= 0.0
  {
    TotalIsSumOfItems(n);
    SumNonNegative(Items(n));
  }

  lemma {:induction false} SumNonNegative(items: seq<TreeItem>)
    requires forall k :: 0 <= k < |items| ==> items[k].quantity.GetOr(0.0) >= 0.0
    ensures SumItemQuantities(items) >= 0.0
    decreases |items|
  {
    if items != [] {
      SumNonNegative(items[1..]);
    }
  }

  /** Bounds on each child's average bound their sum. */
  lemma {:induction false} SumAveragesBounds(children: seq<TreeItem>, lo: real, hi: real)
    requires forall k :: 0 <= k < |children| ==> lo <= AverageRate(children[k]) <= hi
    ensures (|children| as real) * lo <= SumAverages(children) <= (|children| as real) * hi
    decreases |children|
  {
    if children != [] {
      SumAveragesBounds(children[1..], lo, hi);
    }
  }

  /** A mean of means stays within the bounds of the children's means. */
  lemma AverageOfChildrenBounds(n: TreeItem, lo: real, hi: real)
    requires n.kind != Item && |n.children| > 0
    requires forall k :: 0 <= k < |n.children| ==> lo <= AverageRate(n.children[k]) <= hi
    ensures lo <= AverageRate(n) <= hi
  {
    SumAveragesBounds(n.children, lo, hi);
    var c := |n.children| as real;
    assert c * lo <= SumAverages(n.children) <= c * hi;
    DivBounds(SumAverages(n.children), c, lo, hi);
  }

  lemma DivBounds(s: real, c: real, lo: real, hi: real)
    requires c > 0.0 && c * lo <= s <= c * hi
    ensures lo <= s / c <= hi
  {
    assert s / c * c == s;
  }

  /** No node beneath `n` (nor `n`) is a non-item without children. */
  predicate NoEmptyGroups(n: TreeItem)
    decreases n
  {
    n.kind == Item || (|n.children| > 0 && forall k :: 0 <= k < |n.children| ==> NoEmptyGroups(n.children[k]))
  }

  /** If every non-item beneath `n` has children and every item rate lies in
      [lo, hi], the average shown for `n` lies in [lo, hi] too. */
  lemma {:induction false} AverageWithinItemRates(n: TreeItem, lo: real, hi: real)
    requires NoEmptyGroups(n)
    requires forall x :: x in Items(n) ==> lo <= x.rate.GetOr(0.0) <= hi
    ensures lo <= AverageRate(n) <= hi
    decreases n
  {
    if n.kind != Item {
      forall k | 0 <= k < |n.children|
        ensures lo <= AverageRate(n.children[k]) <= hi
      {
        ItemsOfContains(n.children, k);
        AverageWithinItemRates(n.children[k], lo, hi);
      }
      AverageOfChildrenBounds(n, lo, hi);
    }
  }

  /** The items beneath one sibling are among the items of the siblings. */
  lemma {:induction false} ItemsOfContains(nodes: seq<TreeItem>, k: int)
    requires 0 <= k < |nodes|
    ensures multiset(Items(nodes[k])) <= multiset(ItemsOf(nodes))
    ensures forall x :: x in Items(nodes[k]) ==> x in ItemsOf(nodes)
    decreases |nodes|
  {
    if k > 0 {
      ItemsOfContains(nodes[1..], k - 1);
    }
  }

  /** Mean of means differs from the leaf mean on an unbalanced tree: a
      category whose first subcategory holds one item at rate 10 and whose
      second holds three items at rate 40 shows 25, while its four items
      average 32.5. */
  lemma MeanOfMeansIsNotLeafMean()
    ensures var one := TreeItem("I1", "I1", Item, None, Some(1.0), Some(10.0), []);
            var three := TreeItem("I2", "I2", Item, None, Some(1.0), Some(40.0), []);
            var a := TreeItem("A", "A", Subcategory, None, None, None, [one]);
            var b := TreeItem("B", "B", Subcategory, None, None, None, [three, three, three]);
            var cat := TreeItem("C", "C", Category, None, None, None, [a, b]);
            && AverageRate(cat) == 25.0
            && |Items(cat)| == 4 && SumItemRates(Items(cat)) / 4.0 == 32.5
  {
    var one := TreeItem("I1", "I1", Item, None, Some(1.0), Some(10.0), []);
    var three := TreeItem("I2", "I2", Item, None, Some(1.0), Some(40.0), []);
    var a := TreeItem("A", "A", Subcategory, None, None, None, [one]);
    var b := TreeItem("B", "B", Subcategory, None, None, None, [three, three, three]);
    var cat := TreeItem("C", "C", Category, None, None, None, [a, b]);
    assert [three, three, three][1..] == [three, three];
    assert [three, three][1..] == [three];
    assert [a, b][1..] == [b];
    assert SumAverages([three]) == 40.0;
    assert SumAverages([three, three]) == 80.0;
    assert SumAverages([three, three, three]) == 120.0;
    assert AverageRate(b) == 40.0;
    assert SumAverages([one]) == 10.0;
    assert AverageRate(a) == 10.0;
    assert SumAverages([b]) == 40.0;
    assert SumAverages([a, b]) == 50.0;
    assert ItemsOf([three]) == [three];
    assert ItemsOf([three, three]) == [three, three];
    assert ItemsOf([three, three, three]) == [three, three, three];
    assert ItemsOf([one]) == [one];
    assert Items(a) == [one];
    assert ItemsOf([b]) == [three, three, three];
    assert Items(cat) == [one, three, three, three];
    assert [one, three, three, three][1..] == [three, three, three];
    assert SumItemRates([three]) == 40.0;
    assert SumItemRates([three, three]) == 80.0;
    assert SumItemRates([three, three, three]) == 120.0;
    assert SumItemRates(Items(cat)) == 130.0;
  }
}
