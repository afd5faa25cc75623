/** The `TreeItem` shape shared by the tree builder, the aggregators and the
    sample fixture: a category / subcategory / item node with an ordered
    sequence of children. An absent `children` field is the empty sequence. */
module TreeModel {

  import opened Wrappers
  import Seqs

  datatype Kind = Category | Subcategory | Item

  datatype TreeItem = TreeItem(
    id: string,
    name: string,
    kind: Kind,
    description: Option<string>,
    quantity: Option<real>,
    rate: Option<real>,
    children: seq<TreeItem>)

  /** The names of a sibling sequence, in order. */
  function Names(nodes: seq<TreeItem>): (r: seq<string>)
    ensures |r| == |nodes|
    ensures forall k :: 0 <= k < |nodes| ==> r[k] == nodes[k].name
  {
    seq(|nodes|, k requires 0 <= k < |nodes| => nodes[k].name)
  }

  /** The item nodes of a subtree in depth-first order. An item stops the
      descent, as the aggregators stop at items. */
  function Items(n: TreeItem): seq<TreeItem>
    decreases n, 1
  {
    if n.kind == Item then [n] else ItemsOf(n.children)
  }

  function ItemsOf(nodes: seq<TreeItem>): seq<TreeItem>
    decreases nodes, 0
  {
    if nodes == [] then [] else Items(nodes[0]) + ItemsOf(nodes[1..])
  }

  /** `ItemsOf` distributes over concatenation of sibling sequences. */
  lemma {:induction false} ItemsOfAppend(a: seq<TreeItem>, b: seq<TreeItem>)
    ensures ItemsOf(a + b) == ItemsOf(a) + ItemsOf(b)
    decreases |a|
  {
    if a == [] {
      assert a + b == b;
    } else {
      assert (a + b)[1..] == a[1..] + b;
      ItemsOfAppend(a[1..], b);
    }
  }

  /** The items of a sibling sequence after one sibling is replaced. */
  lemma ItemsOfUpdate(nodes: seq<TreeItem>, i: int, x: TreeItem)
    requires 0 <= i < |nodes|
    ensures multiset(ItemsOf(nodes[i := x])) + multiset(Items(nodes[i]))
         == multiset(ItemsOf(nodes)) + multiset(Items(x))
  {
    var pre, post := nodes[..i], nodes[i + 1..];
    assert nodes == pre + [nodes[i]] + post;
    assert nodes[i := x] == pre + [x] + post;
    ItemsOfAppend(pre + [nodes[i]], post);
    ItemsOfAppend(pre, [nodes[i]]);
    ItemsOfAppend(pre + [x], post);
    ItemsOfAppend(pre, [x]);
    assert ItemsOf([x]) == Items(x) + ItemsOf([]);
    assert ItemsOf([nodes[i]]) == Items(nodes[i]) + ItemsOf([]);
  }

  /** The level a node sits at: categories at depth 0, subcategories at
      depths 1 and 2, items at depth 3. */
  function LevelKind(depth: nat): Kind {
    if depth == 0 then Category else if depth <= 2 then Subcategory else Item
  }

  /** The shape a built tree has: every root-to-leaf path is category,
      subcategory, subcategory, item; every non-item node has at least one
      child and carries no quantity, rate or description; items are leaves;
      the categories, and the subcategories under one parent, have pairwise
      different names (items may repeat). */
  predicate WellFormedForest(nodes: seq<TreeItem>, depth: nat)
    decreases nodes, 1
  {
    && (forall k :: 0 <= k < |nodes| ==> WellFormedNode(nodes[k], depth))
    && (depth <= 2 ==> Seqs.Distinct(Names(nodes)))
  }

  predicate WellFormedNode(n: TreeItem, depth: nat)
    decreases n, 0
  {
    if depth >= 3 then n.kind == Item && n.children == []
    else
      && n.kind == LevelKind(depth)
      && n.description.None? && n.quantity.None? && n.rate.None?
      && |n.children| > 0
      && WellFormedForest(n.children, depth + 1)
  }
}
