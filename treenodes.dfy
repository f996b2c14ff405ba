/**
 * The selection tree's check-state and ordering rules (SelectForm.cs): the
 * nodes the scan creates for a game and its DLC (lines 219-240), the
 * removal of stale nodes before a scan (lines 311-314), the parent rule of
 * a DLC node's handler (lines 345-352), a game node's handler (lines
 * 356-359), the order `TreeNodeSorter` defines (lines 371-378) and the
 * all-checkbox sweep (lines 506-522).
 */
module TreeNodes {
  import opened Wrappers
  import opened Text
  import opened Seqs

  /** A node of the selection tree: its name (an app id as text), its
      label, its check box and its children. */
  datatype TreeNode = TreeNode(name: string, text: string, checked: bool, nodes: seq<TreeNode>)

  predicate Numeric(name: string) {
    TryParseInt32(name).Some?
  }

  // Ordering

  /** `TreeNodeSorter.Compare` on the two nodes' names: 1 ("after") when the
      first is not a number, else 0 when the second is not, else 1 exactly
      when the first id is the larger. */
  function Compare(aName: string, bName: string): (r: int)
    ensures r == 0 || r == 1
  {
    match TryParseInt32(aName)
    case None => 1
    case Some(a) =>
      match TryParseInt32(bName)
      case None => 0
      case Some(b) => if a > b then 1 else 0
  }

  /** On the names the scan gives nodes, the comparison is "greater than" on
      the ids; it never answers "before" (a negative value). */
  lemma CompareIds(x: int, y: int)
    requires InInt32(x) && InInt32(y)
    ensures Compare(Int32ToString(x), Int32ToString(y)) == if x > y then 1 else 0
  {
    ParseInt32ToString(x);
    ParseInt32ToString(y);
  }

  /** On numeric names, "answers 1" is a strict order: irreflexive,
      asymmetric and transitive. */
  lemma CompareStrictOnNumbers(a: string, b: string, c: string)
    requires Numeric(a) && Numeric(b) && Numeric(c)
    ensures Compare(a, a) == 0
    ensures Compare(a, b) == 1 ==> Compare(b, a) == 0
    ensures Compare(a, b) == 1 && Compare(b, c) == 1 ==> Compare(a, c) == 1
  {
  }

  /** A non-numeric name is placed after everything, itself included: two
      such names each compare as greater than the other. */
  lemma CompareNonNumeric(a: string, b: string)
    requires !Numeric(a) && !Numeric(b)
    ensures Compare(a, b) == 1 && Compare(b, a) == 1 && Compare(a, a) == 1
  {
  }

  // Nodes the scan creates

  /** A program's node (lines 219-222): named by its id, labelled with its
      name, checked when the selection is enabled; a node found under the
      same name keeps its children. */
  function ProgramNode(appId: int, name: string, enabled: bool, existing: Option<TreeNode>): (n: TreeNode)
    requires InInt32(appId)
    ensures TryParseInt32(n.name) == Some(appId) && n.text == name && n.checked == enabled
    ensures n.nodes == if existing.Some? then existing.value.nodes else []
  {
    ParseInt32ToString(appId);
    var node := if existing.Some? then existing.value else TreeNode("", "", false, []);
    node.(name := Int32ToString(appId), text := name, checked := enabled)
  }

  /** The check state line 239 gives a DLC's node: the selection must hold
      that DLC under that very name. */
  predicate DlcNodeCheckedAsWritten(selected: map<int, string>, id: int, name: string) {
    id in selected && selected[id] == name
  }

  /** A DLC's node is checked exactly when the DLC is selected. */
  predicate DlcNodeChecked(selected: map<int, string>, id: int) {
    id in selected
  }

  /** A DLC's node (lines 236-240): named by its id, labelled with its name,
      checked exactly when the DLC is selected. */
  function DlcNode(id: int, name: string, selected: map<int, string>, existing: Option<TreeNode>): (n: TreeNode)
    requires InInt32(id)
    ensures TryParseInt32(n.name) == Some(id) && n.text == name
    ensures n.checked <==> id in selected
    ensures n.nodes == if existing.Some? then existing.value.nodes else []
  {
    ParseInt32ToString(id);
    var node := if existing.Some? then existing.value else TreeNode("", "", false, []);
    node.(name := Int32ToString(id), text := name, checked := DlcNodeChecked(selected, id))
  }

  /** DLC 5 was selected under the name "Old" and is now resolved as "New";
      with the all-checkbox unchecked the merge leaves the selection as it
      was, so the DLC stays selected while line 239 shows its node unchecked. */
  lemma RenamedDlcShownUnchecked()
    ensures var selected := map[5 := "Old"];
      && 5 in selected
      && !DlcNodeCheckedAsWritten(selected, 5, "New")
      && DlcNode(5, "New", selected, None).checked
  {
    var selected := map[5 := "Old"];
    assert selected[5] != "New" by { assert selected[5][0] != "New"[0]; }
  }

  /** After the merge of a resolved DLC, its node is checked exactly when the
      DLC is selected: always when the all-checkbox is checked, otherwise
      when it was selected before. With the box checked, line 239 agrees. */
  lemma DlcNodeAfterMerge(selected: map<int, string>, dlc: map<int, string>, allChecked: bool, id: int)
    requires id in dlc && InInt32(id)
    ensures var after := if allChecked then selected + dlc else selected;
      && (DlcNode(id, dlc[id], after, None).checked <==> id in after)
      && (DlcNode(id, dlc[id], after, None).checked <==> allChecked || id in selected)
      && (allChecked ==> DlcNodeCheckedAsWritten(after, id, dlc[id]))
  {
  }

  // Check-state handlers

  /** The parent rule (line 351): some child is checked. */
  function AnyChecked(nodes: seq<TreeNode>): (r: bool)
    ensures r <==> exists i | 0 <= i < |nodes| :: nodes[i].checked
  {
    if nodes == [] then false
    else AnyChecked(nodes[..|nodes| - 1]) || nodes[|nodes| - 1].checked
  }

  /** A DLC node is set to `value` (lines 345-352): the game node above it is
      then checked exactly when some DLC node is. */
  function CheckDlcNode(parent: TreeNode, i: nat, value: bool): (r: TreeNode)
    requires i < |parent.nodes|
    ensures |r.nodes| == |parent.nodes| && r.nodes[i] == parent.nodes[i].(checked := value)
    ensures forall j | 0 <= j < |r.nodes| && j != i :: r.nodes[j] == parent.nodes[j]
    ensures r.name == parent.name && r.text == parent.text
    ensures r.checked <==> value || exists j | 0 <= j < |parent.nodes| && j != i :: parent.nodes[j].checked
  {
    var nodes := parent.nodes[i := parent.nodes[i].(checked := value)];
    parent.(nodes := nodes, checked := AnyChecked(nodes))
  }

  /** `ForEach(treeNode => treeNode.Checked = value)` over the children: each
      node takes `value` and keeps its name, label and children, so the parent
      rule then holds exactly when `value` is set and there is a child. */
  function SetAll(nodes: seq<TreeNode>, value: bool): (r: seq<TreeNode>)
    ensures |r| == |nodes|
    ensures forall j | 0 <= j < |r| ::
      && r[j].checked == value
      && r[j].name == nodes[j].name && r[j].text == nodes[j].text && r[j].nodes == nodes[j].nodes
    ensures AnyChecked(r) <==> value && r != []
  {
    seq(|nodes|, j requires 0 <= j < |nodes| => nodes[j].(checked := value))
  }

  /** A game node is set to `value` (lines 356-359): a game with DLC sets all
      its DLC nodes alike; one without keeps them. */
  function CheckGameNode(node: TreeNode, value: bool, hasDlc: bool): TreeNode {
    node.(checked := value, nodes := if hasDlc then SetAll(node.nodes, value) else node.nodes)
  }

  /** After a game with DLC nodes is toggled, the parent rule holds for it. */
  lemma CheckGameNodeConsistent(node: TreeNode, value: bool)
    requires node.nodes != []
    ensures var r := CheckGameNode(node, value, true);
      r.checked == value && AnyChecked(r.nodes) == r.checked
  {
    var r := CheckGameNode(node, value, true);
    assert r.nodes[0].checked == value;
  }

  // Removal of stale nodes

  /** A node with every descendant pruned away whose name is not a number. */
  function PruneNode(n: TreeNode): TreeNode
    decreases n
  {
    n.(nodes := PruneNodes(n.nodes))
  }

  /** The children that survive: those whose name is a number, each pruned. */
  function PruneNodes(nodes: seq<TreeNode>): seq<TreeNode>
    decreases nodes
  {
    if nodes == [] then []
    else
      var last := nodes[|nodes| - 1];
      PruneNodes(nodes[..|nodes| - 1]) + if Numeric(last.name) then [PruneNode(last)] else []
  }

  /** A top-level node survives when its name is the id of a registered selection. */
  predicate Registered(n: TreeNode, registered: set<int>) {
    TryParseInt32(n.name).Some? && TryParseInt32(n.name).value in registered
  }

  function PruneRootOf(registered: set<int>): TreeNode -> seq<TreeNode> {
    n => if Registered(n, registered) then [PruneNode(n)] else []
  }

  /** The tree after lines 311-314: removing a node removes its subtree. */
  function Prune(roots: seq<TreeNode>, registered: set<int>): seq<TreeNode> {
    FlatMap(PruneRootOf(registered), roots)
  }

  /** Every node of the forest has a numeric name. */
  predicate Clean(nodes: seq<TreeNode>)
    decreases nodes
  {
    forall i | 0 <= i < |nodes| :: Numeric(nodes[i].name) && Clean(nodes[i].nodes)
  }

  lemma {:induction false} PruneNodeClean(n: TreeNode)
    ensures Clean(PruneNode(n).nodes)
    decreases n
  {
    PruneNodesClean(n.nodes);
  }

  /** Nothing with a non-numeric name survives below a kept node. */
  lemma {:induction false} PruneNodesClean(nodes: seq<TreeNode>)
    ensures Clean(PruneNodes(nodes))
    decreases nodes
  {
    if nodes != [] {
      var n := |nodes| - 1;
      PruneNodesClean(nodes[..n]);
      PruneNodeClean(nodes[n]);
      var kept := PruneNodes(nodes[..n]);
      var r := PruneNodes(nodes);
      forall i | 0 <= i < |r|
        ensures Numeric(r[i].name) && Clean(r[i].nodes)
      {
        if i < |kept| {
          assert r[i] == kept[i];
        }
      }
    }
  }

  lemma {:induction false} PruneNodeKeepsClean(n: TreeNode)
    requires Clean(n.nodes)
    ensures PruneNode(n) == n
    decreases n
  {
    PruneNodesKeepsClean(n.nodes);
  }

  /** Nothing else is removed: a forest with only numeric names is kept whole. */
  lemma {:induction false} PruneNodesKeepsClean(nodes: seq<TreeNode>)
    requires Clean(nodes)
    ensures PruneNodes(nodes) == nodes
    decreases nodes
  {
    if nodes != [] {
      var n := |nodes| - 1;
      assert Clean(nodes[..n]) by {
        forall i | 0 <= i < n
          ensures Numeric(nodes[..n][i].name) && Clean(nodes[..n][i].nodes)
        {
          assert nodes[..n][i] == nodes[i];
        }
      }
      PruneNodesKeepsClean(nodes[..n]);
      PruneNodeKeepsClean(nodes[n]);
      DropLastAppend(nodes);
    }
  }

  /** The kept top-level nodes are exactly the registered ones, pruned. */
  lemma PruneIff(roots: seq<TreeNode>, registered: set<int>, r: TreeNode)
    ensures r in Prune(roots, registered) <==>
      exists i | 0 <= i < |roots| :: Registered(roots[i], registered) && r == PruneNode(roots[i])
  {
    FlatMapIff(PruneRootOf(registered), roots, r);
    if r in Prune(roots, registered) {
      var i :| 0 <= i < |roots| && r in PruneRootOf(registered)(roots[i]);
      assert Registered(roots[i], registered) && r == PruneNode(roots[i]);
    }
    if exists i | 0 <= i < |roots| :: Registered(roots[i], registered) && r == PruneNode(roots[i]) {
      var i :| 0 <= i < |roots| && Registered(roots[i], registered) && r == PruneNode(roots[i]);
      assert r in PruneRootOf(registered)(roots[i]);
    }
  }

  /** Pruning works root by root: the survivors of two runs of top-level
      nodes are those of the first run followed by those of the second, so
      the kept nodes stay in their order. */
  lemma PruneAppend(a: seq<TreeNode>, b: seq<TreeNode>, registered: set<int>)
    ensures Prune(a + b, registered) == Prune(a, registered) + Prune(b, registered)
  {
    FlatMapAppend(PruneRootOf(registered), a, b);
  }

  /** One top-level node on its own: kept, pruned below, exactly when registered. */
  lemma PruneSingle(n: TreeNode, registered: set<int>)
    ensures Prune([n], registered) == if Registered(n, registered) then [PruneNode(n)] else []
  {
    FlatMapAppend(PruneRootOf(registered), [], [n]);
  }

  /** What survives: registered top-level nodes, numeric names below them. */
  lemma PruneClean(roots: seq<TreeNode>, registered: set<int>)
    ensures forall r | r in Prune(roots, registered) :: Registered(r, registered) && Clean(r.nodes)
  {
    forall r | r in Prune(roots, registered)
      ensures Registered(r, registered) && Clean(r.nodes)
    {
      PruneIff(roots, registered, r);
      var i :| 0 <= i < |roots| && Registered(roots[i], registered) && r == PruneNode(roots[i]);
      PruneNodeClean(roots[i]);
    }
  }

  /** A second pruning removes nothing more. */
  lemma PruneIdempotent(roots: seq<TreeNode>, registered: set<int>)
    ensures Prune(Prune(roots, registered), registered) == Prune(roots, registered)
  {
    var kept := Prune(roots, registered);
    PruneClean(roots, registered);
    forall i | 0 <= i < |kept|
      ensures PruneRootOf(registered)(kept[i]) == [kept[i]]
    {
      assert kept[i] in kept;
      PruneNodeKeepsClean(kept[i]);
    }
    FlatMapUnit(PruneRootOf(registered), kept);
  }

  /** A program node the scan creates survives the next pruning exactly when
      its selection is still registered. */
  lemma ProgramNodeSurvives(appId: int, name: string, enabled: bool, registered: set<int>)
    requires InInt32(appId)
    ensures Registered(ProgramNode(appId, name, enabled, None), registered) <==> appId in registered
  {
  }

  // The all-checkbox sweep

  /** The check states the sweep leaves, `shouldCheck` having the given value
      before the first of `roots`: each node ends with the flag's value once
      it has seen it, and the flag turns on at the first unchecked node. */
  function SweepFrom(roots: seq<bool>, shouldCheck: bool): (r: seq<bool>)
    ensures |r| == |roots|
  {
    if roots == [] then []
    else
      var flag := shouldCheck || !roots[0];
      [flag] + SweepFrom(roots[1..], flag)
  }

  /** The top-level check states after one pass of the sweep. */
  function Swept(roots: seq<bool>): (r: seq<bool>)
    ensures |r| == |roots|
  {
    SweepFrom(roots, false)
  }

  lemma {:induction false} SweepFromAt(roots: seq<bool>, shouldCheck: bool, i: nat)
    requires i < |roots|
    ensures SweepFrom(roots, shouldCheck)[i] == (shouldCheck || false in roots[..i + 1])
  {
    var flag := shouldCheck || !roots[0];
    if i > 0 {
      SweepFromAt(roots[1..], flag, i - 1);
      assert roots[1..][..i] == roots[1..i + 1];
      assert roots[..i + 1] == [roots[0]] + roots[1..i + 1];
    }
  }

  /** After a pass, a top-level node is checked exactly when it or a node
      before it was unchecked. */
  lemma SweptAt(roots: seq<bool>, i: nat)
    requires i < |roots|
    ensures Swept(roots)[i] <==> exists j | 0 <= j <= i :: !roots[j]
  {
    SweepFromAt(roots, false, i);
    if exists j | 0 <= j <= i :: !roots[j] {
      var j :| 0 <= j <= i && !roots[j];
      assert roots[..i + 1][j] == roots[j];
    }
  }

  /** All nodes checked: the pass unchecks every one and clears the box. */
  lemma SweepAllChecked(roots: seq<bool>)
    requires false !in roots
    ensures forall i | 0 <= i < |roots| :: !Swept(roots)[i]
  {
    forall i | 0 <= i < |roots|
      ensures !Swept(roots)[i]
    {
      SweptAt(roots, i);
    }
  }

  /** An unchecked first node: the pass checks every node. */
  lemma SweepFirstUnchecked(roots: seq<bool>)
    requires roots != [] && !roots[0]
    ensures forall i | 0 <= i < |roots| :: Swept(roots)[i]
  {
    forall i | 0 <= i < |roots|
      ensures Swept(roots)[i]
    {
      SweptAt(roots, i);
    }
  }

  /** A checked first node and some unchecked one: the pass unchecks the
      nodes before the first unchecked one and checks the rest; setting the
      box (line 521) then re-runs the sweep, which checks every node. */
  lemma SweepTwice(roots: seq<bool>, k: nat)
    requires k < |roots| && !roots[k] && roots[0]
    ensures !Swept(roots)[0]
    ensures forall i | 0 <= i < |roots| :: Swept(Swept(roots))[i]
  {
    SweptAt(roots, 0);
    SweepFirstUnchecked(Swept(roots));
  }

  // The sweep with the DLC nodes below the top-level nodes

  /** A top-level node as the sweep sees it: its own check box, and whether
      it and every DLC node below it are checked, which is what the quiet
      update of lines 362-364 asks of it. */
  datatype Root = Root(checked: bool, complete: bool)

  /** A node is complete only when it is checked itself. */
  predicate WellFormed(roots: seq<Root>) {
    forall i | 0 <= i < |roots| :: roots[i].complete ==> roots[i].checked
  }

  function Checks(roots: seq<Root>): (r: seq<bool>)
    ensures |r| == |roots|
    ensures forall i | 0 <= i < |roots| :: r[i] == roots[i].checked
  {
    seq(|roots|, i requires 0 <= i < |roots| => roots[i].checked)
  }

  /** One pass of lines 508-519: a node whose box differs from the flag is
      set to it, and the handler it runs sets all its DLC nodes alike (line
      359), so the node is complete exactly when it is now checked. */
  function Pass(roots: seq<Root>): (r: seq<Root>)
    ensures |r| == |roots|
  {
    var flags := Swept(Checks(roots));
    seq(|roots|, i requires 0 <= i < |roots| =>
      if flags[i] != roots[i].checked then Root(flags[i], flags[i]) else roots[i])
  }

  /** Some node up to `i` is unchecked: the flag is on when the pass reaches `i`. */
  predicate Late(roots: seq<Root>, i: nat) {
    exists j | 0 <= j <= i && j < |roots| :: !roots[j].checked
  }

  /** The pass's `shouldCheck` (line 512): some top-level node is unchecked. */
  predicate ShouldCheck(roots: seq<Root>) {
    exists i | 0 <= i < |roots| :: !roots[i].checked
  }

  /** The pass flips some node, so the handler runs at least once. */
  predicate Flips(roots: seq<Root>) {
    exists i | 0 <= i < |roots| :: Pass(roots)[i].checked != roots[i].checked
  }

  /** `TreeNodes.TrueForAll(treeNode => treeNode.Checked)` (line 363). */
  predicate AllComplete(roots: seq<Root>) {
    forall i | 0 <= i < |roots| :: roots[i].complete
  }

  /** The box when line 521 runs: the last handler's quiet update, or the
      state the click gave it when no node flipped. */
  predicate BoxBefore521(roots: seq<Root>, box: bool) {
    if Flips(roots) then AllComplete(Pass(roots)) else box
  }

  /** Line 521 changes the box, so `CheckedChanged` raises the sweep again. */
  predicate Refires(roots: seq<Root>, box: bool) {
    BoxBefore521(roots, box) != ShouldCheck(roots)
  }

  /** A node the flag reaches that is checked but has an unchecked DLC node:
      the pass leaves it as it is. */
  predicate Stale(roots: seq<Root>) {
    exists i | 0 <= i < |roots| :: Late(roots, i) && roots[i].checked && !roots[i].complete
  }

  /** A click on the box as the source runs it: one pass, and another each
      time line 521 raises the event again; `ClickSettles` shows that a third
      pass never raises it. */
  function Click(roots: seq<Root>, box: bool): seq<Root> {
    var s1 := Pass(roots);
    if !Refires(roots, box) then s1
    else
      var s2 := Pass(s1);
      if !Refires(s1, ShouldCheck(roots)) then s2 else Pass(s2)
  }

  /** What one pass does to node `i`: the flag is on once some node up to
      `i` is unchecked, a node it reaches is checked, and a flipped node takes
      its DLC nodes along. */
  lemma PassAt(roots: seq<Root>, i: nat)
    requires i < |roots|
    ensures Late(roots, i) ==> Pass(roots)[i].checked
    ensures Late(roots, i) ==> (Pass(roots)[i].complete <==> !roots[i].checked || roots[i].complete)
    ensures !Late(roots, i) ==> Pass(roots)[i] == Root(false, false)
  {
    SweptAt(Checks(roots), i);
    if !Late(roots, i) {
      assert roots[i].checked;
    }
  }

  /** Every node checked: the pass unchecks every node and its DLC. */
  lemma PassAllChecked(roots: seq<Root>)
    requires !ShouldCheck(roots)
    ensures forall i | 0 <= i < |roots| :: Pass(roots)[i] == Root(false, false)
    ensures roots != [] ==> Flips(roots) && !AllComplete(Pass(roots))
  {
    forall i | 0 <= i < |roots|
      ensures Pass(roots)[i] == Root(false, false)
    {
      PassAt(roots, i);
    }
    if roots != [] {
      assert Pass(roots)[0].checked != roots[0].checked;
    }
  }

  /** The first node unchecked: the pass checks every node, and a node ends
      complete unless it was checked with an unchecked DLC node. */
  lemma PassFirstUnchecked(roots: seq<Root>)
    requires roots != [] && !roots[0].checked
    ensures Flips(roots)
    ensures forall i | 0 <= i < |roots| ::
      Pass(roots)[i].checked && (Pass(roots)[i].complete <==> !roots[i].checked || roots[i].complete)
  {
    forall i | 0 <= i < |roots|
      ensures Pass(roots)[i].checked && (Pass(roots)[i].complete <==> !roots[i].checked || roots[i].complete)
    {
      assert Late(roots, i) by { assert !roots[0].checked; }
      PassAt(roots, i);
    }
    assert Pass(roots)[0].checked != roots[0].checked;
  }

  /** A click with every node checked unchecks every node and its DLC. */
  lemma ClickAllChecked(roots: seq<Root>, box: bool)
    requires roots != [] && !ShouldCheck(roots)
    ensures forall i | 0 <= i < |roots| :: Click(roots, box)[i] == Root(false, false)
  {
    PassAllChecked(roots);
  }

  /** A click with the first node unchecked. */
  lemma {:induction false} ClickFirstUnchecked(roots: seq<Root>, box: bool)
    requires roots != [] && !roots[0].checked
    ensures !Stale(roots) ==> forall i | 0 <= i < |roots| :: Click(roots, box)[i] == Root(true, true)
    ensures Stale(roots) ==> forall i | 0 <= i < |roots| :: Click(roots, box)[i] == Root(false, false)
  {
    var s1 := Pass(roots);
    PassFirstUnchecked(roots);
    if Stale(roots) {
      var i :| 0 <= i < |roots| && Late(roots, i) && roots[i].checked && !roots[i].complete;
      assert !s1[i].complete;
      assert Refires(roots, box);
      PassAllChecked(s1);
    } else {
      forall i | 0 <= i < |roots|
        ensures s1[i] == Root(true, true)
      {
        assert Late(roots, i) by { assert !roots[0].checked; }
      }
    }
  }

  /** Two passes with the first node checked: the first unchecks the nodes
      before the first unchecked one, the second checks every node, and a node
      ends complete unless it is stale. */
  lemma PassTwiceFirstChecked(roots: seq<Root>)
    requires roots != [] && roots[0].checked
    ensures Pass(roots)[0] == Root(false, false) && Flips(roots)
    ensures forall i | 0 <= i < |roots| :: Pass(Pass(roots))[i].checked
    ensures AllComplete(Pass(Pass(roots))) <==> !Stale(roots)
  {
    var s1 := Pass(roots);
    var s2 := Pass(s1);
    PassAt(roots, 0);
    assert !Late(roots, 0);
    assert s1[0].checked != roots[0].checked;
    PassFirstUnchecked(s1);
    forall i | 0 <= i < |roots|
      ensures s2[i].complete <==> !Late(roots, i) || !roots[i].checked || roots[i].complete
    {
      PassAt(roots, i);
    }
    if Stale(roots) {
      var i :| 0 <= i < |roots| && Late(roots, i) && roots[i].checked && !roots[i].complete;
      assert !s2[i].complete;
    }
  }

  /** A click with the first node checked and a later one unchecked: the
      first pass leaves the box unchecked, so line 521 raises a second pass. */
  lemma {:induction false} ClickFirstChecked(roots: seq<Root>, box: bool)
    requires roots != [] && roots[0].checked && ShouldCheck(roots)
    ensures !Stale(roots) ==> forall i | 0 <= i < |roots| :: Click(roots, box)[i] == Root(true, true)
    ensures Stale(roots) ==> forall i | 0 <= i < |roots| :: Click(roots, box)[i] == Root(false, false)
  {
    var s1 := Pass(roots);
    var s2 := Pass(s1);
    PassTwiceFirstChecked(roots);
    assert !AllComplete(s1) by { assert !s1[0].complete; }
    assert Refires(roots, box);
    if Stale(roots) {
      PassAllChecked(s2);
    } else {
      assert !Refires(s1, ShouldCheck(roots));
    }
  }

  /** A click ends after at most three passes: the third never changes the box. */
  lemma ClickSettles(roots: seq<Root>, box: bool)
    ensures Refires(roots, box) && Refires(Pass(roots), ShouldCheck(roots)) ==>
      !Refires(Pass(Pass(roots)), ShouldCheck(Pass(roots)))
  {
    var s1 := Pass(roots);
    if roots == [] {
      assert !Flips(s1) && !ShouldCheck(s1);
    } else if !ShouldCheck(roots) {
      PassAllChecked(roots);
    } else if !roots[0].checked {
      PassFirstUnchecked(roots);
      if !AllComplete(s1) {
        PassAllChecked(s1);
      }
    } else {
      PassAt(roots, 0);
      assert !Late(roots, 0);
      PassFirstUnchecked(s1);
      PassAllChecked(Pass(s1));
    }
  }

  /** The outcome of a click: with every node checked, nothing stays checked;
      with some node unchecked, every node and DLC ends checked unless a node
      from the first unchecked one on was checked with an unchecked DLC node,
      in which case nothing stays checked. */
  lemma ClickOutcome(roots: seq<Root>, box: bool)
    requires roots != []
    ensures !ShouldCheck(roots) ==> forall i | 0 <= i < |roots| :: Click(roots, box)[i] == Root(false, false)
    ensures ShouldCheck(roots) && !Stale(roots) ==> forall i | 0 <= i < |roots| :: Click(roots, box)[i] == Root(true, true)
    ensures ShouldCheck(roots) && Stale(roots) ==> forall i | 0 <= i < |roots| :: Click(roots, box)[i] == Root(false, false)
  {
    if !ShouldCheck(roots) {
      ClickAllChecked(roots, box);
    } else if !roots[0].checked {
      ClickFirstUnchecked(roots, box);
    } else {
      ClickFirstChecked(roots, box);
    }
  }

  /** As written: an unchecked game first and a checked game with one of its
      two DLC unchecked after it; the click that should check everything
      leaves nothing checked. */
  lemma ClickCanUncheckEverything()
    ensures var roots := [Root(false, false), Root(true, false)];
      Click(roots, true) == [Root(false, false), Root(false, false)]
  {
    var roots := [Root(false, false), Root(true, false)];
    assert ShouldCheck(roots) by { assert !roots[0].checked; }
    assert Stale(roots) by { assert Late(roots, 1) by { assert !roots[0].checked; } }
    ClickFirstUnchecked(roots, true);
  }

  /** Corrected: a click sets every node and its DLC to "not everything was
      checked", the state the click gave a box that showed the tree. */
  function IntendedClick(roots: seq<Root>): (r: seq<Root>)
    ensures |r| == |roots| && WellFormed(r)
    ensures !AllComplete(roots) ==> AllComplete(r)
    ensures AllComplete(roots) ==> forall i | 0 <= i < |r| :: !r[i].checked
    ensures roots != [] ==> (AllComplete(r) <==> !AllComplete(roots))
  {
    var c := !AllComplete(roots);
    var r := seq(|roots|, i requires 0 <= i < |roots| => Root(c, c));
    assert roots != [] ==> r[0] == Root(c, c);
    r
  }

  /** The source's click agrees with the corrected one except when a stale
      node is there or every node is checked with some DLC unchecked. */
  lemma ClickAgrees(roots: seq<Root>, box: bool)
    requires roots != [] && WellFormed(roots)
    requires AllComplete(roots) || (ShouldCheck(roots) && !Stale(roots))
    ensures Click(roots, box) == IntendedClick(roots)
  {
    ClickOutcome(roots, box);
    if ShouldCheck(roots) {
      var i :| 0 <= i < |roots| && !roots[i].checked;
      assert !roots[i].complete;
    } else {
      assert AllComplete(roots);
    }
  }

  /** On the input of `ClickCanUncheckEverything` the corrected click checks everything. */
  lemma IntendedClickChecksAll()
    ensures IntendedClick([Root(false, false), Root(true, false)]) == [Root(true, true), Root(true, true)]
  {
    assert !AllComplete([Root(false, false), Root(true, false)]) by {
      assert ![Root(false, false), Root(true, false)][0].complete;
    }
  }

  /** One run of `OnAllCheckBoxChanged` (lines 506-522) over the top-level
      nodes: the states it leaves, `shouldCheck`, and whether line 521 raises
      the event again. `box` is the state the change gave the box. */
  method AllCheckBoxSweep(roots: array<Root>, box: bool) returns (shouldCheck: bool, refires: bool)
    modifies roots
    ensures roots[..] == Pass(old(roots[..]))
    ensures shouldCheck == ShouldCheck(old(roots[..]))
    ensures refires == Refires(old(roots[..]), box)
  {
    ghost var before := roots[..];
    ghost var after := Pass(before);
    var current := box;
    shouldCheck := false;
    var i := 0;
    while i < roots.Length
      invariant 0 <= i <= roots.Length
      invariant forall k | 0 <= k < i :: roots[k] == after[k]
      invariant forall k | i <= k < roots.Length :: roots[k] == before[k]
      invariant shouldCheck <==> exists j | 0 <= j < i :: !before[j].checked
      invariant (exists k | 0 <= k < i :: after[k].checked != before[k].checked) ==> current == AllComplete(roots[..])
      invariant (forall k | 0 <= k < i :: after[k].checked == before[k].checked) ==> current == box
    {
      PassAt(before, i);
      if !roots[i].checked {
        shouldCheck := true;
      }
      assert shouldCheck == Late(before, i);
      if roots[i].checked != shouldCheck {
        roots[i] := Root(shouldCheck, shouldCheck);
        current := AllComplete(roots[..]);
      }
      i := i + 1;
    }
    assert roots[..] == after;
    refires := current != shouldCheck;
  }
}
