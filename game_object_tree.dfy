/**
 * The `GameObject` class shared by Backup/Program.cs and
 * Backup/Program_no_lib.cs: a node of the scene hierarchy with a name, the
 * file id of its Transform and an ordered list of children.
 */
module GameObjectTree {
  import opened Wrappers
  import opened Streams

  datatype GameObject = GameObject(name: Option<string>, transformFileId: int, children: seq<GameObject>)

  /** `new GameObject()`: no name, Transform id 0 (the C# default) and no children. */
  function NewGameObject(): GameObject {
    GameObject(None, 0, [])
  }

  // ---------------------------------------------------------------------------
  // GetGameObjectById

  /** The node itself when its id matches, otherwise the first hit among its children in list order. */
  function GetGameObjectById(g: GameObject, id: int): Option<GameObject>
    decreases g
  {
    if g.transformFileId == id then Some(g) else SearchChildren(g.children, id)
  }

  /** The `foreach` over Children: the first child whose subtree yields a non-null result. */
  function SearchChildren(cs: seq<GameObject>, id: int): Option<GameObject>
    decreases cs
  {
    if cs == [] then None
    else
      match GetGameObjectById(cs[0], id)
      case Some(r) => Some(r)
      case None => SearchChildren(cs[1..], id)
  }

  /** Every node of a subtree, parent before children, children in list order. */
  function PreOrder(g: GameObject): seq<GameObject>
    decreases g
  {
    [g] + PreOrderForest(g.children)
  }

  function PreOrderForest(cs: seq<GameObject>): seq<GameObject>
    decreases cs
  {
    if cs == [] then [] else PreOrder(cs[0]) + PreOrderForest(cs[1..])
  }

  /** The position of the first node carrying `id`, or |nodes| when there is none. */
  function FirstIndexWithId(nodes: seq<GameObject>, id: int): (k: nat)
    ensures k <= |nodes|
    ensures forall j :: 0 <= j < k ==> nodes[j].transformFileId != id
    ensures k < |nodes| ==> nodes[k].transformFileId == id
  {
    if nodes == [] then 0
    else if nodes[0].transformFileId == id then 0
    else 1 + FirstIndexWithId(nodes[1..], id)
  }

  /** The reference search: the first node with the id in a list, or null. */
  function FirstWithId(nodes: seq<GameObject>, id: int): Option<GameObject> {
    var k := FirstIndexWithId(nodes, id);
    if k < |nodes| then Some(nodes[k]) else None
  }

  lemma {:induction false} FirstWithIdAppend(a: seq<GameObject>, b: seq<GameObject>, id: int)
    ensures FirstWithId(a + b, id) == if FirstWithId(a, id).Some? then FirstWithId(a, id) else FirstWithId(b, id)
  {
    if a != [] {
      assert (a + b)[1..] == a[1..] + b;
      if a[0].transformFileId != id {
        FirstWithIdAppend(a[1..], b, id);
      }
    } else {
      assert a + b == b;
    }
  }

  /** GetGameObjectById is the pre-order first match: the node itself, then each child's subtree in turn. */
  lemma {:induction false} GetByIdIsPreOrderFirst(g: GameObject, id: int)
    ensures GetGameObjectById(g, id) == FirstWithId(PreOrder(g), id)
    decreases g
  {
    if g.transformFileId != id {
      SearchChildrenIsPreOrderFirst(g.children, id);
      assert PreOrder(g)[1..] == PreOrderForest(g.children);
    }
  }

  lemma {:induction false} SearchChildrenIsPreOrderFirst(cs: seq<GameObject>, id: int)
    ensures SearchChildren(cs, id) == FirstWithId(PreOrderForest(cs), id)
    decreases cs
  {
    if cs != [] {
      GetByIdIsPreOrderFirst(cs[0], id);
      SearchChildrenIsPreOrderFirst(cs[1..], id);
      FirstWithIdAppend(PreOrder(cs[0]), PreOrderForest(cs[1..]), id);
    }
  }

  /**
   * What the lookup promises its callers: null exactly when no node of the
   * subtree has the id; otherwise a node of the subtree with that id, and no
   * node earlier in pre-order has it.
   */
  lemma GetByIdSpec(g: GameObject, id: int)
    ensures GetGameObjectById(g, id).None? <==> forall n :: n in PreOrder(g) ==> n.transformFileId != id
    ensures GetGameObjectById(g, id).Some? ==>
              exists k :: 0 <= k < |PreOrder(g)| && PreOrder(g)[k] == GetGameObjectById(g, id).value
                && GetGameObjectById(g, id).value.transformFileId == id
                && forall j :: 0 <= j < k ==> PreOrder(g)[j].transformFileId != id
  {
    GetByIdIsPreOrderFirst(g, id);
    var nodes := PreOrder(g);
    var k := FirstIndexWithId(nodes, id);
    if k == |nodes| {
      assert forall n :: n in nodes ==> n.transformFileId != id;
    }
  }

  /** A matching id on the node itself wins without looking at the children. */
  lemma GetByIdSelf(g: GameObject)
    ensures GetGameObjectById(g, g.transformFileId) == Some(g)
  {
  }

  /** A fresh object answers a lookup of id 0 with itself and every other lookup with null. */
  lemma GetByIdOnNewGameObject(id: int)
    ensures GetGameObjectById(NewGameObject(), id) == if id == 0 then Some(NewGameObject()) else None
  {
  }

  // ---------------------------------------------------------------------------
  // WriteToFile

  /** `deep` copies of the depth marker `--` (none for a depth of zero or less). */
  function Dashes(deep: int): string
    decreases if deep < 0 then 0 else deep
  {
    if deep <= 0 then "" else Dashes(deep - 1) + "--"
  }

  /** The lines WriteToFile(file, deep) writes: the literal `Name` for each node, pre-order, children one level deeper. */
  function Dump(g: GameObject, deep: int): seq<string>
    decreases g
  {
    [Dashes(deep) + "Name"] + DumpForest(g.children, deep + 1)
  }

  function DumpForest(cs: seq<GameObject>, deep: int): seq<string>
    decreases cs
  {
    if cs == [] then [] else Dump(cs[0], deep) + DumpForest(cs[1..], deep)
  }

  /** The depth each node of the subtree is written at, in pre-order. */
  function DepthsPreOrder(g: GameObject, deep: int): seq<int>
    decreases g
  {
    [deep] + DepthsForest(g.children, deep + 1)
  }

  function DepthsForest(cs: seq<GameObject>, deep: int): seq<int>
    decreases cs
  {
    if cs == [] then [] else DepthsPreOrder(cs[0], deep) + DepthsForest(cs[1..], deep)
  }

  lemma {:induction false} DumpForestAppend(a: seq<GameObject>, b: seq<GameObject>, deep: int)
    ensures DumpForest(a + b, deep) == DumpForest(a, deep) + DumpForest(b, deep)
  {
    if a != [] {
      assert (a + b)[1..] == a[1..] + b;
      DumpForestAppend(a[1..], b, deep);
    } else {
      assert a + b == b;
    }
  }

  /**
   * One line per node of the subtree, in pre-order: line i is the i-th
   * node's depth in dashes followed by the literal text `Name`.
   */
  lemma {:induction false} DumpLines(g: GameObject, deep: int)
    ensures |Dump(g, deep)| == |PreOrder(g)| == |DepthsPreOrder(g, deep)|
    ensures forall i :: 0 <= i < |Dump(g, deep)| ==> Dump(g, deep)[i] == Dashes(DepthsPreOrder(g, deep)[i]) + "Name"
    decreases g
  {
    DumpForestLines(g.children, deep + 1);
  }

  lemma {:induction false} DumpForestLines(cs: seq<GameObject>, deep: int)
    ensures |DumpForest(cs, deep)| == |PreOrderForest(cs)| == |DepthsForest(cs, deep)|
    ensures forall i :: 0 <= i < |DumpForest(cs, deep)| ==>
              DumpForest(cs, deep)[i] == Dashes(DepthsForest(cs, deep)[i]) + "Name"
    decreases cs
  {
    if cs != [] {
      DumpLines(cs[0], deep);
      DumpForestLines(cs[1..], deep);
      var a, b := Dump(cs[0], deep), DumpForest(cs[1..], deep);
      var da, db := DepthsPreOrder(cs[0], deep), DepthsForest(cs[1..], deep);
      assert forall i :: |a| <= i < |a| + |b| ==> (a + b)[i] == b[i - |a|] && (da + db)[i] == db[i - |a|];
    }
  }

  /** Two trees of the same shape and ids: only the names may differ. */
  predicate SameShape(g: GameObject, h: GameObject)
    decreases g
  {
    && g.transformFileId == h.transformFileId
    && |g.children| == |h.children|
    && forall i :: 0 <= i < |g.children| ==> SameShape(g.children[i], h.children[i])
  }

  /** The dump never shows a node's Name: trees differing only in names dump the same. */
  lemma {:induction false} DumpIgnoresNames(g: GameObject, h: GameObject, deep: int)
    requires SameShape(g, h)
    ensures Dump(g, deep) == Dump(h, deep)
    decreases g
  {
    DumpForestIgnoresNames(g.children, h.children, deep + 1);
  }

  lemma {:induction false} DumpForestIgnoresNames(cs: seq<GameObject>, ds: seq<GameObject>, deep: int)
    requires |cs| == |ds| && forall i :: 0 <= i < |cs| ==> SameShape(cs[i], ds[i])
    ensures DumpForest(cs, deep) == DumpForest(ds, deep)
    decreases cs
  {
    if cs != [] {
      DumpIgnoresNames(cs[0], ds[0], deep);
      DumpForestIgnoresNames(cs[1..], ds[1..], deep);
    }
  }

  /** A node without children dumps as one line; a fresh root at depth 0 as the single line `Name`. */
  lemma DumpOfLeaf(g: GameObject, deep: int)
    requires g.children == []
    ensures Dump(g, deep) == [Dashes(deep) + "Name"]
    ensures Dump(NewGameObject(), 0) == ["Name"]
  {
    assert Dashes(0) + "Name" == "Name";
  }

  /** `WriteToFile(file, deep)`: `deep` times `--`, the line `Name`, then each child one level deeper. */
  method WriteToFile(g: GameObject, file: TextWriter, deep: int)
    modifies file
    ensures file.text == old(file.text) + Render(Dump(g, deep))
    decreases g
  {
    ghost var start := file.text;
    WriteDepthMarker(file, deep);
    file.WriteLine("Name");
    ghost var written := [Dashes(deep) + "Name"];
    RenderOne(Dashes(deep) + "Name");
    assert file.text == start + Render(written);
    var children := g.children;
    var j := 0;
    while j < |children|
      invariant j <= |children|
      invariant written == [Dashes(deep) + "Name"] + DumpForest(children[..j], deep + 1)
      invariant file.text == start + Render(written)
    {
      WriteToFile(children[j], file, deep + 1);
      RenderAppend(written, Dump(children[j], deep + 1));
      ChildWritten([Dashes(deep) + "Name"], children, j, deep + 1);
      written := written + Dump(children[j], deep + 1);
      j := j + 1;
    }
    assert children[..j] == children;
  }

  /** The `for` loop of WriteToFile: `deep` copies of `--`, no line break. */
  method WriteDepthMarker(file: TextWriter, deep: int)
    modifies file
    ensures file.text == old(file.text) + Dashes(deep)
  {
    var i := 0;
    while i < deep
      invariant 0 <= i <= if deep < 0 then 0 else deep
      invariant file.text == old(file.text) + Dashes(i)
    {
      file.Write("--");
      i := i + 1;
    }
  }

  lemma ChildWritten(head: seq<string>, cs: seq<GameObject>, j: nat, deep: int)
    requires j < |cs|
    ensures head + DumpForest(cs[..j + 1], deep) == head + DumpForest(cs[..j], deep) + Dump(cs[j], deep)
  {
    assert cs[..j + 1] == cs[..j] + [cs[j]];
    DumpForestAppend(cs[..j], [cs[j]], deep);
    assert DumpForest([cs[j]], deep) == Dump(cs[j], deep);
  }
}
