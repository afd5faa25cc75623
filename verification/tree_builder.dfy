/** `transformRawToTree`: folds flat tree-schema rows into a
    category / subcategory / subcategory / item forest. At every level the
    row's name is looked up among the existing siblings by exact name (the
    first match); a missing node is created with the id
    `<level tag><name>-<row index>` and appended; finally one item leaf is
    appended for the row, so items are never merged. */
module TreeBuilder {

  import opened Wrappers
  import Seqs
  import Strings
  import opened TreeModel

  /** One row of a tree-schema file. */
  datatype RawTreeRow = RawTreeRow(
    category: string,
    sub1: string,
    sub2: string,
    itemCode: string,
    description: Option<string>,
    quantity: Option<real>,
    rate: Option<real>)

  /** The names a row places its item under, outermost first. */
  function PathOf(row: RawTreeRow): seq<string> {
    [row.category, row.sub1, row.sub2]
  }

  /** The id prefix of each non-item level. */
  function LevelTag(depth: nat): string {
    if depth == 0 then "cat-" else if depth == 1 then "sub1-" else "sub2-"
  }

  /** A freshly created category or subcategory node, before anything is
      pushed into its children. */
  function NewGroup(depth: nat, name: string, index: nat): TreeItem {
    TreeItem(LevelTag(depth) + name + "-" + Strings.NatToString(index),
             name, LevelKind(depth), None, None, None, [])
  }

  /** The item leaf a row contributes: the Item Code is both id and name. */
  function Leaf(row: RawTreeRow): TreeItem {
    TreeItem(row.itemCode, row.itemCode, Item, row.description, row.quantity, row.rate, [])
  }

  /** A node with its children dropped: what a node is apart from its subtree. */
  function Header(n: TreeItem): TreeItem {
    n.(children := [])
  }

  /** Exact-name lookup among siblings: the first node with that name, or -1. */
  function FindByName(nodes: seq<TreeItem>, name: string): (i: int)
    ensures -1 <= i < |nodes|
    ensures i == -1 <==> name !in Names(nodes)
    ensures 0 <= i ==> nodes[i].name == name
    ensures forall k :: 0 <= k < i ==> nodes[k].name != name
  {
    var i := Seqs.IndexOf(Names(nodes), name);
    assert forall k :: 0 <= k < i ==> Names(nodes)[k] == Names(nodes)[..i][k];
    i
  }

  /** The node for `name` at this level: the existing one, or a new one
      appended at the end. Returns the siblings and the node's position. */
  function Resolve(nodes: seq<TreeItem>, name: string, depth: nat, index: nat): (r: (seq<TreeItem>, int))
    ensures 0 <= r.1 < |r.0|
    ensures r.0[r.1].name == name
    ensures FindByName(nodes, name) == -1 ==> r.0 == nodes + [NewGroup(depth, name, index)] && r.1 == |nodes|
    ensures FindByName(nodes, name) != -1 ==> r.0 == nodes && r.1 == FindByName(nodes, name)
  {
    var i := FindByName(nodes, name);
    if i == -1 then (nodes + [NewGroup(depth, name, index)], |nodes|) else (nodes, i)
  }

  /** Resolves `names` level by level from `depth` down and appends `leaf`
      under the last one: the source's find-or-create-and-push at each level
      followed by the push of the leaf. At most one sibling is added at this
      level. */
  function InsertPath(nodes: seq<TreeItem>, names: seq<string>, depth: nat, leaf: TreeItem, index: nat)
    : (r: seq<TreeItem>)
    ensures |nodes| <= |r| <= |nodes| + 1
    decreases |names|
  {
    if names == [] then nodes + [leaf]
    else
      var (base, at) := Resolve(nodes, names[0], depth, index);
      var node := base[at];
      base[at := node.(children := InsertPath(node.children, names[1..], depth + 1, leaf, index))]
  }

  /** Existing siblings keep their position and header (id, name, kind and
      data); a sibling is appended exactly when the first name is new at this
      level, and then it is the last one. */
  lemma InsertPathKeepsSiblings(nodes: seq<TreeItem>, names: seq<string>, depth: nat, leaf: TreeItem, index: nat)
    ensures var r := InsertPath(nodes, names, depth, leaf, index);
            && (forall k :: 0 <= k < |nodes| ==> Header(r[k]) == Header(nodes[k]))
            && (names == [] ==> r == nodes + [leaf])
            && (names != [] ==> Names(r) == if names[0] in Names(nodes) then Names(nodes) else Names(nodes) + [names[0]])
  {
    if names != [] {
      InsertPathUnfold(nodes, names, depth, leaf, index);
      var r := InsertPath(nodes, names, depth, leaf, index);
      if names[0] in Names(nodes) {
        assert Names(r) == Names(nodes);
      } else {
        assert Names(r) == Names(nodes) + [names[0]];
      }
    }
  }

  /** The tree after the row at position `index` has been processed. */
  function AddRow(forest: seq<TreeItem>, row: RawTreeRow, index: nat): seq<TreeItem> {
    InsertPath(forest, PathOf(row), 0, Leaf(row), index)
  }

  /** The forest built from `rows`, processed in order (a left fold). */
  function Build(rows: seq<RawTreeRow>): seq<TreeItem>
    decreases |rows|
  {
    if rows == [] then []
    else AddRow(Build(rows[..|rows| - 1]), rows[|rows| - 1], |rows| - 1)
  }

  // ----- reference views of the rows -----

  /** The Category column, in row order. */
  function Categories(rows: seq<RawTreeRow>): (r: seq<string>)
    ensures |r| == |rows|
    ensures forall k :: 0 <= k < |rows| ==> r[k] == rows[k].category
  {
    seq(|rows|, k requires 0 <= k < |rows| => rows[k].category)
  }

  /** The leaves the rows demand, one per row, in row order. */
  function LeavesOf(rows: seq<RawTreeRow>): (r: seq<TreeItem>)
    ensures |r| == |rows|
    ensures forall k :: 0 <= k < |rows| ==> r[k] == Leaf(rows[k])
  {
    seq(|rows|, k requires 0 <= k < |rows| => Leaf(rows[k]))
  }

  /** The leaves of the rows whose full path is `p`, in row order. */
  function LeavesUnder(rows: seq<RawTreeRow>, p: seq<string>): seq<TreeItem>
    decreases |rows|
  {
    if rows == [] then []
    else LeavesUnder(rows[..|rows| - 1], p)
         + (if PathOf(rows[|rows| - 1]) == p then [Leaf(rows[|rows| - 1])] else [])
  }

  /** Index of the first row whose path starts with `q`, or -1. */
  function FirstWithPrefix(rows: seq<RawTreeRow>, q: seq<string>): int {
    Seqs.FirstWhere(rows, (row: RawTreeRow) => q <= PathOf(row))
  }

  // ----- navigating a forest by names -----

  /** The children reached by following `q` by exact name (first match). */
  function ChildrenAt(nodes: seq<TreeItem>, q: seq<string>): Option<seq<TreeItem>>
    decreases |q|
  {
    if q == [] then Some(nodes)
    else
      var i := FindByName(nodes, q[0]);
      if i == -1 then None else ChildrenAt(nodes[i].children, q[1..])
  }

  /** The header of the node reached by following `q` (non-empty). */
  function HeaderAt(nodes: seq<TreeItem>, q: seq<string>): Option<TreeItem>
    requires |q| >= 1
    decreases |q|
  {
    var i := FindByName(nodes, q[0]);
    if i == -1 then None
    else if |q| == 1 then Some(Header(nodes[i]))
    else HeaderAt(nodes[i].children, q[1..])
  }

  // ----- one insertion -----

  /** Replacing a sibling by a well-formed node of the same name keeps a
      sibling sequence well formed. */
  lemma ForestUpdate(nodes: seq<TreeItem>, depth: nat, at: int, x: TreeItem)
    requires WellFormedForest(nodes, depth)
    requires 0 <= at < |nodes| && WellFormedNode(x, depth) && x.name == nodes[at].name
    ensures WellFormedForest(nodes[at := x], depth)
  {
    assert Names(nodes[at := x]) == Names(nodes);
  }

  /** Appending a well-formed node with a new name keeps a sibling sequence
      well formed. */
  lemma ForestAppend(nodes: seq<TreeItem>, depth: nat, x: TreeItem)
    requires WellFormedForest(nodes, depth)
    requires WellFormedNode(x, depth) && x.name !in Names(nodes)
    ensures WellFormedForest(nodes + [x], depth)
  {
    assert Names(nodes + [x]) == Names(nodes) + [x.name];
  }

  /** The result of inserting, spelled out for the two cases of the lookup. */
  lemma InsertPathUnfold(nodes: seq<TreeItem>, names: seq<string>, depth: nat, leaf: TreeItem, index: nat)
    requires names != []
    ensures var i := FindByName(nodes, names[0]);
            var r := InsertPath(nodes, names, depth, leaf, index);
            && (i == -1 ==>
                  var g := NewGroup(depth, names[0], index);
                  r == nodes + [g.(children := InsertPath([], names[1..], depth + 1, leaf, index))])
            && (i != -1 ==>
                  r == nodes[i := nodes[i].(children := InsertPath(nodes[i].children, names[1..], depth + 1, leaf, index))])
  {
  }

  /** Inserting keeps the shape invariant. */
  lemma {:induction false} InsertPathWellFormed(nodes: seq<TreeItem>, names: seq<string>, depth: nat, leaf: TreeItem, index: nat)
    requires WellFormedForest(nodes, depth)
    requires depth + |names| == 3
    requires leaf.kind == Item && leaf.children == []
    ensures WellFormedForest(InsertPath(nodes, names, depth, leaf, index), depth)
    decreases |names|, 1
  {
    if names != [] {
      InsertPathUnfold(nodes, names, depth, leaf, index);
      if FindByName(nodes, names[0]) == -1 {
        NewBranchWellFormed(nodes, names, depth, leaf, index);
      } else {
        OldBranchWellFormed(nodes, names, depth, leaf, index);
      }
    }
  }

  lemma {:induction false} NewBranchWellFormed(nodes: seq<TreeItem>, names: seq<string>, depth: nat, leaf: TreeItem, index: nat)
    requires WellFormedForest(nodes, depth)
    requires depth + |names| == 3 && names != [] && FindByName(nodes, names[0]) == -1
    requires leaf.kind == Item && leaf.children == []
    ensures var g := NewGroup(depth, names[0], index);
            WellFormedForest(nodes + [g.(children := InsertPath([], names[1..], depth + 1, leaf, index))], depth)
    decreases |names|, 0
  {
    var g := NewGroup(depth, names[0], index);
    var children' := InsertPath([], names[1..], depth + 1, leaf, index);
    InsertPathWellFormed([], names[1..], depth + 1, leaf, index);
    assert WellFormedNode(g.(children := children'), depth);
    ForestAppend(nodes, depth, g.(children := children'));
  }

  lemma {:induction false} OldBranchWellFormed(nodes: seq<TreeItem>, names: seq<string>, depth: nat, leaf: TreeItem, index: nat)
    requires WellFormedForest(nodes, depth)
    requires depth + |names| == 3 && names != [] && FindByName(nodes, names[0]) != -1
    requires leaf.kind == Item && leaf.children == []
    ensures var i := FindByName(nodes, names[0]);
            WellFormedForest(nodes[i := nodes[i].(children := InsertPath(nodes[i].children, names[1..], depth + 1, leaf, index))], depth)
    decreases |names|, 0
  {
    var i := FindByName(nodes, names[0]);
    var node := nodes[i];
    var children' := InsertPath(node.children, names[1..], depth + 1, leaf, index);
    assert WellFormedNode(node, depth);
    InsertPathWellFormed(node.children, names[1..], depth + 1, leaf, index);
    assert WellFormedNode(node.(children := children'), depth);
    ForestUpdate(nodes, depth, i, node.(children := children'));
  }

  lemma MultisetCancel<T>(x: multiset<T>, y: multiset<T>, a: multiset<T>)
    requires x + a == y + a
    ensures x == y
  {
    assert forall e :: x[e] == (x + a)[e] - a[e];
    assert forall e :: y[e] == (y + a)[e] - a[e];
  }

  /** Inserting adds exactly `leaf` to the items of the forest. */
  lemma {:induction false} InsertPathItems(nodes: seq<TreeItem>, names: seq<string>, depth: nat, leaf: TreeItem, index: nat)
    requires WellFormedForest(nodes, depth)
    requires depth + |names| == 3
    requires leaf.kind == Item
    ensures multiset(ItemsOf(InsertPath(nodes, names, depth, leaf, index)))
         == multiset(ItemsOf(nodes)) + multiset{leaf}
    decreases |names|, 2
  {
    if names == [] {
      ItemsOfAppend(nodes, [leaf]);
      assert ItemsOf([leaf]) == Items(leaf) + ItemsOf([]);
    } else {
      InsertPathUnfold(nodes, names, depth, leaf, index);
      if FindByName(nodes, names[0]) == -1 {
        NewBranchItems(nodes, names, depth, leaf, index);
      } else {
        OldBranchItems(nodes, names, depth, leaf, index);
      }
    }
  }

  lemma {:induction false} NewBranchItems(nodes: seq<TreeItem>, names: seq<string>, depth: nat, leaf: TreeItem, index: nat)
    requires depth + |names| == 3 && names != []
    requires leaf.kind == Item
    ensures var g := NewGroup(depth, names[0], index);
            multiset(ItemsOf(nodes + [g.(children := InsertPath([], names[1..], depth + 1, leaf, index))]))
            == multiset(ItemsOf(nodes)) + multiset{leaf}
    decreases |names|, 0
  {
    var g := NewGroup(depth, names[0], index);
    var children' := InsertPath([], names[1..], depth + 1, leaf, index);
    var g' := g.(children := children');
    InsertPathItems([], names[1..], depth + 1, leaf, index);
    assert Items(g') == ItemsOf(children');
    ItemsOfAppend(nodes, [g']);
    assert ItemsOf([g']) == Items(g') + ItemsOf([]);
  }

  lemma {:induction false} OldBranchItems(nodes: seq<TreeItem>, names: seq<string>, depth: nat, leaf: TreeItem, index: nat)
    requires WellFormedForest(nodes, depth)
    requires depth + |names| == 3 && names != [] && FindByName(nodes, names[0]) != -1
    requires leaf.kind == Item
    ensures var i := FindByName(nodes, names[0]);
            multiset(ItemsOf(nodes[i := nodes[i].(children := InsertPath(nodes[i].children, names[1..], depth + 1, leaf, index))]))
            == multiset(ItemsOf(nodes)) + multiset{leaf}
    decreases |names|, 1
  {
    var i := FindByName(nodes, names[0]);
    var node := nodes[i];
    var n' := node.(children := InsertPath(node.children, names[1..], depth + 1, leaf, index));
    var updated := nodes[i := n'];
    GroupItems(node, names, depth, leaf, index);
    ItemsOfUpdate(nodes, i, n');
    MultisetCancel(multiset(ItemsOf(updated)), multiset(ItemsOf(nodes)) + multiset{leaf}, multiset(Items(node)));
  }

  /** Inserting below one group adds exactly `leaf` to that group's items. */
  lemma {:induction false} GroupItems(node: TreeItem, names: seq<string>, depth: nat, leaf: TreeItem, index: nat)
    requires WellFormedNode(node, depth)
    requires depth + |names| == 3 && names != []
    requires leaf.kind == Item
    ensures multiset(Items(node.(children := InsertPath(node.children, names[1..], depth + 1, leaf, index))))
            == multiset(Items(node)) + multiset{leaf}
    decreases |names|, 0
  {
    var children' := InsertPath(node.children, names[1..], depth + 1, leaf, index);
    assert node.kind != Item;
    assert Items(node) == ItemsOf(node.children);
    assert Items(node.(children := children')) == ItemsOf(children');
    InsertPathItems(node.children, names[1..], depth + 1, leaf, index);
  }

  /** Looking up a name after appending a sibling. */
  lemma FindByNameAppend(nodes: seq<TreeItem>, x: TreeItem, name: string)
    ensures FindByName(nodes + [x], name)
         == if name in Names(nodes) then FindByName(nodes, name) else if x.name == name then |nodes| else -1
  {
    var k := FindByName(nodes, name);
    var m := FindByName(nodes + [x], name);
    assert Names(nodes + [x]) == Names(nodes) + [x.name];
    if k != -1 {
      assert (nodes + [x])[k] == nodes[k];
    }
  }

  /** Looking up a name after replacing a sibling by one of the same name. */
  lemma FindByNameUpdate(nodes: seq<TreeItem>, i: int, x: TreeItem, name: string)
    requires 0 <= i < |nodes| && x.name == nodes[i].name
    ensures FindByName(nodes[i := x], name) == FindByName(nodes, name)
  {
    assert Names(nodes[i := x]) == Names(nodes);
  }

  /** Following a full-length path after inserting: the inserted path gains
      `leaf` at the end of its children (created if needed); every other path
      is unchanged. */
  lemma {:induction false} ChildrenAtInsert(nodes: seq<TreeItem>, names: seq<string>, depth: nat, leaf: TreeItem, index: nat, q: seq<string>)
    requires |q| == |names|
    ensures ChildrenAt(InsertPath(nodes, names, depth, leaf, index), q)
         == if q == names then Some(ChildrenAt(nodes, q).GetOr([]) + [leaf]) else ChildrenAt(nodes, q)
    decreases |names|, 2
  {
    if names != [] {
      InsertPathUnfold(nodes, names, depth, leaf, index);
      if FindByName(nodes, names[0]) == -1 {
        NewBranchChildrenAt(nodes, names, depth, leaf, index, q);
      } else {
        OldBranchChildrenAt(nodes, names, depth, leaf, index, q);
      }
    }
  }

  lemma {:induction false} NewBranchChildrenAt(nodes: seq<TreeItem>, names: seq<string>, depth: nat, leaf: TreeItem, index: nat, q: seq<string>)
    requires |q| == |names| && names != [] && FindByName(nodes, names[0]) == -1
    ensures var g := NewGroup(depth, names[0], index);
            var r := nodes + [g.(children := InsertPath([], names[1..], depth + 1, leaf, index))];
            ChildrenAt(r, q) == if q == names then Some(ChildrenAt(nodes, q).GetOr([]) + [leaf]) else ChildrenAt(nodes, q)
    decreases |names|, 1
  {
    var g := NewGroup(depth, names[0], index);
    var g' := g.(children := InsertPath([], names[1..], depth + 1, leaf, index));
    var r := nodes + [g'];
    FindByNameAppend(nodes, g', q[0]);
    if q[0] == names[0] {
      assert ChildrenAt(nodes, q) == None;
      assert [] + [leaf] == [leaf];
      FreshChildrenAt(nodes, names, depth, leaf, index, q);
    } else {
      assert q != names;
      var j := FindByName(nodes, q[0]);
      assert FindByName(r, q[0]) == j;
      if j != -1 {
        assert r[j] == nodes[j];
      }
    }
  }

  /** In a freshly created branch, only the inserted path leads somewhere,
      and it leads to the one new leaf. */
  lemma {:induction false} FreshChildrenAt(nodes: seq<TreeItem>, names: seq<string>, depth: nat, leaf: TreeItem, index: nat, q: seq<string>)
    requires |q| == |names| && names != [] && q[0] == names[0] && names[0] !in Names(nodes)
    ensures var g := NewGroup(depth, names[0], index);
            var r := nodes + [g.(children := InsertPath([], names[1..], depth + 1, leaf, index))];
            ChildrenAt(r, q) == if q == names then Some([leaf]) else None
    decreases |names|, 0
  {
    var g := NewGroup(depth, names[0], index);
    var g' := g.(children := InsertPath([], names[1..], depth + 1, leaf, index));
    var r := nodes + [g'];
    FindByNameAppend(nodes, g', q[0]);
    assert g.name == names[0];
    assert FindByName(r, q[0]) == |nodes| && r[|nodes|] == g';
    assert ChildrenAt(r, q) == ChildrenAt(g'.children, q[1..]);
    ChildrenAtInsert([], names[1..], depth + 1, leaf, index, q[1..]);
    assert q == [q[0]] + q[1..] && names == [names[0]] + names[1..];
    assert q == names <==> q[1..] == names[1..];
    if q[1..] != [] {
      assert FindByName([], q[1..][0]) == -1;
      assert ChildrenAt([], q[1..]) == None;
      assert [] + [leaf] == [leaf];
    } else {
      assert ChildrenAt([], q[1..]) == Some([]);
      assert q == names;
      assert [] + [leaf] == [leaf];
    }
  }

  lemma {:induction false} OldBranchChildrenAt(nodes: seq<TreeItem>, names: seq<string>, depth: nat, leaf: TreeItem, index: nat, q: seq<string>)
    requires |q| == |names| && names != [] && FindByName(nodes, names[0]) != -1
    ensures var i := FindByName(nodes, names[0]);
            var r := nodes[i := nodes[i].(children := InsertPath(nodes[i].children, names[1..], depth + 1, leaf, index))];
            ChildrenAt(r, q) == if q == names then Some(ChildrenAt(nodes, q).GetOr([]) + [leaf]) else ChildrenAt(nodes, q)
    decreases |names|, 0
  {
    var i := FindByName(nodes, names[0]);
    var n' := nodes[i].(children := InsertPath(nodes[i].children, names[1..], depth + 1, leaf, index));
    FindByNameUpdate(nodes, i, n', q[0]);
    var j := FindByName(nodes, q[0]);
    if j == i {
      ChildrenAtInsert(nodes[i].children, names[1..], depth + 1, leaf, index, q[1..]);
      assert q == names <==> q[1..] == names[1..];
    } else if j != -1 {
      assert q != names;
    }
  }

  /** Following a path of at most the inserted length after inserting: a node
      already there keeps its header; otherwise a prefix of the inserted path
      now leads to a fresh node carrying this row's index; anything else
      still leads nowhere. */
  lemma {:induction false} HeaderAtInsert(nodes: seq<TreeItem>, names: seq<string>, depth: nat, leaf: TreeItem, index: nat, q: seq<string>)
    requires 1 <= |q| <= |names|
    ensures HeaderAt(InsertPath(nodes, names, depth, leaf, index), q)
         == if HeaderAt(nodes, q).Some? then HeaderAt(nodes, q)
            else if q == names[..|q|] then Some(NewGroup(depth + |q| - 1, q[|q| - 1], index))
            else None
    decreases |names|, 2
  {
    InsertPathUnfold(nodes, names, depth, leaf, index);
    if FindByName(nodes, names[0]) == -1 {
      NewBranchHeaderAt(nodes, names, depth, leaf, index, q);
    } else {
      OldBranchHeaderAt(nodes, names, depth, leaf, index, q);
    }
  }

  lemma {:induction false} NewBranchHeaderAt(nodes: seq<TreeItem>, names: seq<string>, depth: nat, leaf: TreeItem, index: nat, q: seq<string>)
    requires 1 <= |q| <= |names| && FindByName(nodes, names[0]) == -1
    ensures var g := NewGroup(depth, names[0], index);
            var r := nodes + [g.(children := InsertPath([], names[1..], depth + 1, leaf, index))];
            HeaderAt(r, q)
            == if HeaderAt(nodes, q).Some? then HeaderAt(nodes, q)
               else if q == names[..|q|] then Some(NewGroup(depth + |q| - 1, q[|q| - 1], index))
               else None
    decreases |names|, 1
  {
    var g := NewGroup(depth, names[0], index);
    var g' := g.(children := InsertPath([], names[1..], depth + 1, leaf, index));
    FindByNameAppend(nodes, g', q[0]);
    if q[0] == names[0] {
      assert HeaderAt(nodes, q) == None;
      FreshHeaderAt(nodes, names, depth, leaf, index, q);
    } else {
      assert q != names[..|q|];
      var j := FindByName(nodes, q[0]);
      if j != -1 {
        assert (nodes + [g'])[j] == nodes[j];
      }
    }
  }

  /** In a freshly created branch, the nodes along the inserted path are new
      and carry this row's index. */
  lemma {:induction false} FreshHeaderAt(nodes: seq<TreeItem>, names: seq<string>, depth: nat, leaf: TreeItem, index: nat, q: seq<string>)
    requires 1 <= |q| <= |names| && q[0] == names[0] && names[0] !in Names(nodes)
    ensures var g := NewGroup(depth, names[0], index);
            var r := nodes + [g.(children := InsertPath([], names[1..], depth + 1, leaf, index))];
            HeaderAt(r, q)
            == if q == names[..|q|] then Some(NewGroup(depth + |q| - 1, q[|q| - 1], index)) else None
    decreases |names|, 0
  {
    var g := NewGroup(depth, names[0], index);
    var g' := g.(children := InsertPath([], names[1..], depth + 1, leaf, index));
    FindByNameAppend(nodes, g', q[0]);
    if |q| > 1 {
      HeaderAtInsert([], names[1..], depth + 1, leaf, index, q[1..]);
      assert q == names[..|q|] <==> q[1..] == names[1..][..|q| - 1];
      assert q[|q| - 1] == q[1..][|q| - 2];
      assert HeaderAt([], q[1..]) == None;
    } else {
      assert q == names[..1];
    }
  }

  lemma {:induction false} OldBranchHeaderAt(nodes: seq<TreeItem>, names: seq<string>, depth: nat, leaf: TreeItem, index: nat, q: seq<string>)
    requires 1 <= |q| <= |names| && FindByName(nodes, names[0]) != -1
    ensures var i := FindByName(nodes, names[0]);
            var r := nodes[i := nodes[i].(children := InsertPath(nodes[i].children, names[1..], depth + 1, leaf, index))];
            HeaderAt(r, q)
            == if HeaderAt(nodes, q).Some? then HeaderAt(nodes, q)
               else if q == names[..|q|] then Some(NewGroup(depth + |q| - 1, q[|q| - 1], index))
               else None
    decreases |names|, 1
  {
    var i := FindByName(nodes, names[0]);
    var n' := nodes[i].(children := InsertPath(nodes[i].children, names[1..], depth + 1, leaf, index));
    var r := nodes[i := n'];
    FindByNameUpdate(nodes, i, n', q[0]);
    var j := FindByName(nodes, q[0]);
    if j == i && |q| > 1 {
      DeepHeaderAt(nodes, names, depth, leaf, index, q);
    } else if j == i {
      assert Header(n') == Header(nodes[i]);
    } else {
      assert q[0] != names[0];
      if j != -1 {
        assert r[j] == nodes[j];
      }
    }
  }

  /** Below an existing node on the path, the insertion continues one level down. */
  lemma {:induction false} DeepHeaderAt(nodes: seq<TreeItem>, names: seq<string>, depth: nat, leaf: TreeItem, index: nat, q: seq<string>)
    requires 2 <= |q| <= |names| && FindByName(nodes, names[0]) != -1
    requires FindByName(nodes, q[0]) == FindByName(nodes, names[0])
    ensures var i := FindByName(nodes, names[0]);
            var r := nodes[i := nodes[i].(children := InsertPath(nodes[i].children, names[1..], depth + 1, leaf, index))];
            HeaderAt(r, q)
            == if HeaderAt(nodes, q).Some? then HeaderAt(nodes, q)
               else if q == names[..|q|] then Some(NewGroup(depth + |q| - 1, q[|q| - 1], index))
               else None
    decreases |names|, 0
  {
    var i := FindByName(nodes, names[0]);
    var n' := nodes[i].(children := InsertPath(nodes[i].children, names[1..], depth + 1, leaf, index));
    var r := nodes[i := n'];
    FindByNameUpdate(nodes, i, n', q[0]);
    HeaderAtDescend(r, q);
    HeaderAtDescend(nodes, q);
    HeaderAtInsert(nodes[i].children, names[1..], depth + 1, leaf, index, q[1..]);
    PrefixStep(q, names);
  }

  /** A path of two or more names is followed through its first node. */
  lemma HeaderAtDescend(nodes: seq<TreeItem>, q: seq<string>)
    requires |q| >= 2 && FindByName(nodes, q[0]) != -1
    ensures HeaderAt(nodes, q) == HeaderAt(nodes[FindByName(nodes, q[0])].children, q[1..])
  {
  }

  /** Being a prefix of `names` is decided by the first name and the rest. */
  lemma PrefixStep(q: seq<string>, names: seq<string>)
    requires 2 <= |q| <= |names| && q[0] == names[0]
    ensures q == names[..|q|] <==> q[1..] == names[1..][..|q| - 1]
    ensures q[|q| - 1] == q[1..][|q| - 2]
  {
    if q[1..] == names[1..][..|q| - 1] {
      assert q == [q[0]] + q[1..];
      assert names[..|q|] == [names[0]] + names[1..][..|q| - 1];
    }
  }

  // ----- the whole fold -----

  /** The built forest has the expected shape at every level. */
  lemma {:induction false} BuildWellFormed(rows: seq<RawTreeRow>)
    ensures WellFormedForest(Build(rows), 0)
    decreases |rows|
  {
    if rows != [] {
      var pre := rows[..|rows| - 1];
      BuildWellFormed(pre);
      InsertPathWellFormed(Build(pre), PathOf(rows[|rows| - 1]), 0, Leaf(rows[|rows| - 1]), |rows| - 1);
    }
  }

  /** Each row contributes exactly one item leaf, carrying its own data, and
      no item is merged or dropped: the items of the forest are the rows'
      leaves, counted with multiplicity. */
  lemma {:induction false} BuildItems(rows: seq<RawTreeRow>)
    ensures multiset(ItemsOf(Build(rows))) == multiset(LeavesOf(rows))
    ensures |ItemsOf(Build(rows))| == |rows|
    decreases |rows|
  {
    if rows != [] {
      var pre := rows[..|rows| - 1];
      var last := rows[|rows| - 1];
      BuildItems(pre);
      BuildWellFormed(pre);
      InsertPathItems(Build(pre), PathOf(last), 0, Leaf(last), |rows| - 1);
      assert LeavesOf(rows) == LeavesOf(pre) + [Leaf(last)];
    }
    assert |multiset(ItemsOf(Build(rows)))| == |multiset(LeavesOf(rows))|;
  }

  /** The top level holds one category per distinct Category value, in order
      of first appearance. */
  lemma {:induction false} BuildRoots(rows: seq<RawTreeRow>)
    ensures Names(Build(rows)) == Seqs.Dedup(Categories(rows))
    decreases |rows|
  {
    if rows != [] {
      var pre := rows[..|rows| - 1];
      var last := rows[|rows| - 1];
      var c := last.category;
      BuildRoots(pre);
      var b := Build(pre);
      var r := InsertPath(b, PathOf(last), 0, Leaf(last), |rows| - 1);
      assert Build(rows) == r;
      InsertPathKeepsSiblings(b, PathOf(last), 0, Leaf(last), |rows| - 1);
      assert Names(r) == if c in Names(b) then Names(b) else Names(b) + [c];
      CategoriesSnoc(rows);
      Seqs.DedupSnoc(Categories(pre), c);
    }
  }

  lemma CategoriesSnoc(rows: seq<RawTreeRow>)
    requires rows != []
    ensures Categories(rows) == Categories(rows[..|rows| - 1]) + [rows[|rows| - 1].category]
  {
  }

  /** Under each full category / subcategory / subcategory path sit exactly
      the leaves of the rows with that path, in row order; a path no row has
      leads nowhere. */
  lemma {:induction false} BuildLeavesUnder(rows: seq<RawTreeRow>, p: seq<string>)
    requires |p| == 3
    ensures ChildrenAt(Build(rows), p)
         == if LeavesUnder(rows, p) == [] then None else Some(LeavesUnder(rows, p))
    decreases |rows|
  {
    if rows == [] {
      assert ChildrenAt([], p) == None;
    } else {
      var pre := rows[..|rows| - 1];
      var last := rows[|rows| - 1];
      BuildLeavesUnder(pre, p);
      ChildrenAtInsert(Build(pre), PathOf(last), 0, Leaf(last), |rows| - 1, p);
      assert Build(rows) == InsertPath(Build(pre), PathOf(last), 0, Leaf(last), |rows| - 1);
      var before := LeavesUnder(pre, p);
      assert ChildrenAt(Build(pre), p).GetOr([]) == before;
      if PathOf(last) == p {
        assert LeavesUnder(rows, p) == before + [Leaf(last)];
      } else {
        assert LeavesUnder(rows, p) == before;
      }
    }
  }

  /** Adding one row keeps every node header already present and creates
      the missing nodes on that row's path, stamped with the row's index. */
  lemma HeaderAtAddRow(pre: seq<RawTreeRow>, last: RawTreeRow, q: seq<string>)
    requires 1 <= |q| <= 3
    ensures var before := HeaderAt(Build(pre), q);
            HeaderAt(Build(pre + [last]), q)
            == if before.Some? then before
               else if q <= PathOf(last) then Some(NewGroup(|q| - 1, q[|q| - 1], |pre|))
               else None
  {
    var rows := pre + [last];
    assert rows[..|rows| - 1] == pre && rows[|rows| - 1] == last;
    assert Build(rows) == InsertPath(Build(pre), PathOf(last), 0, Leaf(last), |pre|);
    HeaderAtInsert(Build(pre), PathOf(last), 0, Leaf(last), |pre|, q);
    assert q <= PathOf(last) <==> q == PathOf(last)[..|q|];
  }

  /** The first row whose path starts with `q`, after one more row. */
  lemma FirstWithPrefixSnoc(pre: seq<RawTreeRow>, last: RawTreeRow, q: seq<string>)
    ensures FirstWithPrefix(pre + [last], q)
         == if FirstWithPrefix(pre, q) != -1 then FirstWithPrefix(pre, q)
            else if q <= PathOf(last) then |pre| else -1
  {
    Seqs.FirstWhereSnoc(pre, last, (row: RawTreeRow) => q <= PathOf(row));
  }

  /** The node reached by a path of one, two or three names exists exactly
      when some row's path starts with those names; it is the node the first
      such row created: its id is the level tag, the name, a dash and that
      row's index. */
  lemma {:induction false} BuildHeaders(rows: seq<RawTreeRow>, q: seq<string>)
    requires 1 <= |q| <= 3
    ensures HeaderAt(Build(rows), q)
         == if FirstWithPrefix(rows, q) == -1 then None
            else Some(NewGroup(|q| - 1, q[|q| - 1], FirstWithPrefix(rows, q)))
    decreases |rows|
  {
    if rows == [] {
      assert HeaderAt([], q) == None;
    } else {
      var pre := rows[..|rows| - 1];
      var last := rows[|rows| - 1];
      assert rows == pre + [last];
      BuildHeaders(pre, q);
      HeaderAtAddRow(pre, last, q);
      FirstWithPrefixSnoc(pre, last, q);
    }
  }

  /** Two non-item nodes built at the same level get the same id only if
      they have the same name and were created by the same row. */
  lemma NodeIdInjective(depth: nat, a: string, i: nat, b: string, j: nat)
    requires NewGroup(depth, a, i).id == NewGroup(depth, b, j).id
    ensures a == b && i == j
  {
    var t := LevelTag(depth);
    var x := a + "-" + Strings.NatToString(i);
    var y := b + "-" + Strings.NatToString(j);
    assert NewGroup(depth, a, i).id == t + x;
    assert NewGroup(depth, b, j).id == t + y;
    assert x == (t + x)[|t|..] && y == (t + y)[|t|..];
    Strings.DashDigitsInjective(a, Strings.NatToString(i), b, Strings.NatToString(j));
    Strings.NatToStringInjective(i, j);
  }

  /** `transformRawToTree`: the same fold written as the source's loop over
      the rows with their indices. */
  method TransformRawToTree(rows: seq<RawTreeRow>) returns (root: seq<TreeItem>)
    ensures Names(root) == Seqs.Dedup(Categories(rows))
    ensures WellFormedForest(root, 0)
    ensures root == Build(rows)
  {
    root := [];
    var index := 0;
    while index < |rows|
      invariant 0 <= index <= |rows|
      invariant root == Build(rows[..index])
    {
      assert rows[..index + 1][..index] == rows[..index];
      root := AddRow(root, rows[index], index);
      index := index + 1;
    }
    assert rows[..index] == rows;
    BuildWellFormed(rows);
    BuildItems(rows);
    BuildRoots(rows);
  }
}
