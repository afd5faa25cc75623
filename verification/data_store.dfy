/** The shared data of the dashboard (`DataContext`): the history of BOM
    uploads, most recent first, the BOM rows currently shown, and the tree
    currently shown. Upload ids and timestamps are not modelled. */
module DataStore {

  import opened Cells
  import opened TreeModel

  datatype BomUpload = BomUpload(fileName: string, data: seq<Row>)

  datatype Session = Session(uploads: seq<BomUpload>, current: seq<Row>, tree: seq<TreeItem>)

  const EmptySession := Session([], [], [])

  /** `addBomUpload(file, data)`: the new upload goes in front of the
      history, the earlier ones keep their order behind it, and its rows
      become the rows shown; the tree is untouched. */
  function AddBomUpload(s: Session, fileName: string, data: seq<Row>): (r: Session)
    ensures |r.uploads| == |s.uploads| + 1
    ensures r.uploads[0] == BomUpload(fileName, data) && r.uploads[1..] == s.uploads
    ensures r.current == data && r.tree == s.tree
  {
    s.(uploads := [BomUpload(fileName, data)] + s.uploads, current := data)
  }

  /** `setTreeData(tree)`. */
  function SetTree(s: Session, tree: seq<TreeItem>): (r: Session)
    ensures r.tree == tree && r.uploads == s.uploads && r.current == s.current
  {
    s.(tree := tree)
  }

  /** Several uploads in a row, oldest first. */
  function AddAll(s: Session, files: seq<BomUpload>): Session
    decreases |files|
  {
    if files == [] then s
    else AddBomUpload(AddAll(s, files[..|files| - 1]), files[|files| - 1].fileName, files[|files| - 1].data)
  }

  function Reverse<T>(s: seq<T>): (r: seq<T>)
    ensures |r| == |s|
    ensures forall i :: 0 <= i < |s| ==> r[i] == s[|s| - 1 - i]
    decreases |s|
  {
    if s == [] then [] else [s[|s| - 1]] + Reverse(s[..|s| - 1])
  }

  /** After a run of uploads the history lists them newest first, followed
      by the earlier history; the last upload's rows are shown. */
  lemma {:induction false} AddAllHistory(s: Session, files: seq<BomUpload>)
    ensures AddAll(s, files).uploads == Reverse(files) + s.uploads
    ensures files != [] ==> AddAll(s, files).current == files[|files| - 1].data
    ensures AddAll(s, files).tree == s.tree
    decreases |files|
  {
    if files != [] {
      var init := files[..|files| - 1];
      var last := files[|files| - 1];
      AddAllHistory(s, init);
      assert Reverse(files) == [last] + Reverse(init);
      assert BomUpload(last.fileName, last.data) == last;
    }
  }
}
