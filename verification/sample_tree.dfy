/** The built-in tree shown before any tree upload (`sampleTreeData`): two
    categories, four subcategory chains and six items, with the totals and
    mean-of-means averages the tree table shows for them. */
module SampleTree {

  import opened Wrappers
  import Seqs
  import opened TreeModel
  import opened TreeUtils

  function Leaf(id: string, quantity: real, rate: real): TreeItem {
    TreeItem(id, id, Item, Some("Aerospace parts flying"), Some(quantity), Some(rate), [])
  }

  function Group(id: string, name: string, kind: Kind, children: seq<TreeItem>): TreeItem {
    TreeItem(id, name, kind, None, None, None, children)
  }

  const Aerospace := Group("C1", "Aerospace Parts", Category, [
    Group("SC1-1", "Structural Support", Subcategory, [
      Group("SC2-1", "strut for seat mounting", Subcategory, [
        Leaf("ITEM-1234", 20.0, 40.0),
        Leaf("ITEM-1235", 10.0, 20.0)])]),
    Group("SC1-2", "Brackets", Subcategory, [
      Group("SC2-2", "Support strut for seat mounting", Subcategory, [
        Leaf("ITEM-1236", 30.0, 10.0),
        Leaf("ITEM-1237", 40.0, 70.0)])])])

  const Precision := Group("C2", "Precision Components", Category, [
    Group("SC1-3", "Fasteners", Subcategory, [
      Group("SC2-3", "Titanium aerospace bolt", Subcategory, [
        Leaf("ITEM-2122", 30.0, 50.0),
        Leaf("ITEM-2123", 40.0, 21.0)])])])

  const Sample: seq<TreeItem> := [Aerospace, Precision]

  /** A subcategory holding one subcategory that holds two items is a
      well-formed depth-1 subtree. */
  lemma ChainWellFormed(id1: string, name1: string, id2: string, name2: string, a: TreeItem, b: TreeItem)
    requires a.kind == Item && a.children == [] && b.kind == Item && b.children == []
    ensures WellFormedNode(Group(id1, name1, Subcategory, [Group(id2, name2, Subcategory, [a, b])]), 1)
  {
    var inner := Group(id2, name2, Subcategory, [a, b]);
    assert WellFormedForest([a, b], 3);
    assert WellFormedNode(inner, 2);
    assert Names([inner]) == [name2];
    assert WellFormedForest([inner], 2);
  }

  /** The Aerospace Parts row: total 100, average rate 35, the mean of its
      subcategories' 30 and 40. */
  lemma AerospaceAggregates()
    ensures TotalQuantity(Sample[0]) == 100.0 && AverageRate(Sample[0]) == 35.0
  {
    var sc21 := Aerospace.children[0].children[0];
    var sc22 := Aerospace.children[1].children[0];
    assert SumTotals(sc21.children) == 30.0 && SumAverages(sc21.children) == 60.0;
    assert SumTotals(sc22.children) == 70.0 && SumAverages(sc22.children) == 80.0;
    assert AverageRate(Aerospace.children[0]) == 30.0;
    assert AverageRate(Aerospace.children[1]) == 40.0;
  }

  /** The Precision Components row: total 70, average rate 35.5. */
  lemma PrecisionAggregates()
    ensures TotalQuantity(Sample[1]) == 70.0 && AverageRate(Sample[1]) == 35.5
  {
    var sc23 := Precision.children[0].children[0];
    assert SumTotals(sc23.children) == 70.0 && SumAverages(sc23.children) == 71.0;
    assert AverageRate(Precision.children[0]) == 35.5;
  }

  /** The fixture has the shape the builder produces: every path is
      category, subcategory, subcategory, item. */
  lemma SampleWellFormed()
    ensures WellFormedForest(Sample, 0)
  {
    var a0 := Aerospace.children[0].children[0].children;
    var a1 := Aerospace.children[1].children[0].children;
    var p0 := Precision.children[0].children[0].children;
    ChainWellFormed("SC1-1", "Structural Support", "SC2-1", "strut for seat mounting", a0[0], a0[1]);
    ChainWellFormed("SC1-2", "Brackets", "SC2-2", "Support strut for seat mounting", a1[0], a1[1]);
    ChainWellFormed("SC1-3", "Fasteners", "SC2-3", "Titanium aerospace bolt", p0[0], p0[1]);
    assert Names(Aerospace.children) == ["Structural Support", "Brackets"];
    assert "Structural Support"[0] != "Brackets"[0];
    assert WellFormedForest(Aerospace.children, 1);
    assert Names(Precision.children) == ["Fasteners"];
    assert WellFormedForest(Precision.children, 1);
    assert Names(Sample) == ["Aerospace Parts", "Precision Components"];
    assert "Aerospace Parts"[0] != "Precision Components"[0];
  }

  /** A subcategory chain ending in two items has exactly those items. */
  lemma ChainItems(id1: string, name1: string, id2: string, name2: string, a: TreeItem, b: TreeItem)
    requires a.kind == Item && b.kind == Item
    ensures Items(Group(id1, name1, Subcategory, [Group(id2, name2, Subcategory, [a, b])])) == [a, b]
  {
    assert ItemsOf([b]) == [b];
    assert ItemsOf([a, b]) == [a, b];
    assert ItemsOf([Group(id2, name2, Subcategory, [a, b])]) == [a, b];
  }

  /** The items of the fixture, in order; each carries a quantity and a
      rate. */
  lemma SampleItems()
    ensures |ItemsOf(Sample)| == 6
    ensures forall k :: 0 <= k < |ItemsOf(Sample)| ==>
              ItemsOf(Sample)[k].quantity.Some? && ItemsOf(Sample)[k].rate.Some?
  {
    var s0, s1, s2 := Aerospace.children[0], Aerospace.children[1], Precision.children[0];
    var a0 := s0.children[0].children;
    var a1 := s1.children[0].children;
    var p0 := s2.children[0].children;
    ChainItems("SC1-1", "Structural Support", "SC2-1", "strut for seat mounting", a0[0], a0[1]);
    ChainItems("SC1-2", "Brackets", "SC2-2", "Support strut for seat mounting", a1[0], a1[1]);
    ChainItems("SC1-3", "Fasteners", "SC2-3", "Titanium aerospace bolt", p0[0], p0[1]);
    assert Items(s0) == a0 && Items(s1) == a1 && Items(s2) == p0;
    assert ItemsOf([s1]) == a1;
    assert ItemsOf(Aerospace.children) == a0 + a1;
    assert ItemsOf([s2]) == p0;
    assert Items(Precision) == p0;
    assert ItemsOf([Precision]) == p0;
    assert ItemsOf(Sample) == a0 + a1 + p0;
  }

  /** Every id in a subtree, parent before children. */
  function Ids(n: TreeItem): (r: seq<string>)
    ensures |r| >= 1 && r[0] == n.id
    decreases n, 1
  {
    [n.id] + IdsOf(n.children)
  }

  function IdsOf(nodes: seq<TreeItem>): seq<string>
    decreases nodes, 0
  {
    if nodes == [] then [] else Ids(nodes[0]) + IdsOf(nodes[1..])
  }

  /** The ids of a subcategory chain ending in two leaves, parent first. */
  lemma ChainIds(id1: string, name1: string, id2: string, name2: string, a: TreeItem, b: TreeItem)
    requires a.children == [] && b.children == []
    ensures Ids(Group(id1, name1, Subcategory, [Group(id2, name2, Subcategory, [a, b])])) == [id1, id2, a.id, b.id]
  {
    assert Ids(a) == [a.id] && Ids(b) == [b.id];
    assert IdsOf([b]) == [b.id];
    assert IdsOf([a, b]) == [a.id, b.id];
    assert IdsOf([Group(id2, name2, Subcategory, [a, b])]) == [id2, a.id, b.id];
  }

  /** The ids under Aerospace Parts and under Precision Components, parent
      before children. */
  const AerospaceIds: seq<string> := ["C1", "SC1-1", "SC2-1", "ITEM-1234", "ITEM-1235", "SC1-2", "SC2-2",
    "ITEM-1236", "ITEM-1237"]
  const PrecisionIds: seq<string> := ["C2", "SC1-3", "SC2-3", "ITEM-2122", "ITEM-2123"]
  const SampleIdList: seq<string> := AerospaceIds + PrecisionIds

  lemma SampleIds()
    ensures IdsOf(Sample) == SampleIdList
  {
    var s0, s1, s2 := Aerospace.children[0], Aerospace.children[1], Precision.children[0];
    var a0 := s0.children[0].children;
    var a1 := s1.children[0].children;
    var p0 := s2.children[0].children;
    ChainIds("SC1-1", "Structural Support", "SC2-1", "strut for seat mounting", a0[0], a0[1]);
    ChainIds("SC1-2", "Brackets", "SC2-2", "Support strut for seat mounting", a1[0], a1[1]);
    ChainIds("SC1-3", "Fasteners", "SC2-3", "Titanium aerospace bolt", p0[0], p0[1]);
    assert IdsOf([s1]) == Ids(s1);
    assert IdsOf(Aerospace.children) == Ids(s0) + Ids(s1);
    assert IdsOf([s2]) == Ids(s2);
    assert IdsOf([Precision]) == Ids(Precision);
    assert IdsOf(Sample) == Ids(Aerospace) + Ids(Precision);
  }

  lemma IdListDistinct()
    ensures Seqs.Distinct(SampleIdList)
  {
    assert Seqs.Distinct(AerospaceIds);
    assert Seqs.Distinct(PrecisionIds);
    assert forall i, j :: 0 <= i < |AerospaceIds| && 0 <= j < |PrecisionIds| ==> AerospaceIds[i] != PrecisionIds[j];
    Seqs.DistinctAppend(AerospaceIds, PrecisionIds);
  }

  /** The fourteen ids of the fixture are pairwise different. */
  lemma SampleIdsDistinct()
    ensures |IdsOf(Sample)| == 14
    ensures Seqs.Distinct(IdsOf(Sample))
  {
    SampleIds();
    IdListDistinct();
  }
}
