/** The Markdown outline export: a title, then for every root node a section with a heading
    at its depth (capped at six `#`), its description, and the sections of its children. */
module MarkdownExport {
  import opened Wrappers
  import opened Sequences
  import opened MindMapTypes
  import WorkflowEditor

  const Title := "# Mind Map\n\n"
  const MaxHeadingLevel := 6
  /** The description the editor gives a fresh topic; it is never exported. */
  const Placeholder := "Click to edit"
  const RootId := "root"

  /** The error the export raises: reading `children` of a node that has none. */
  datatype ExportError = ChildrenMissing(nodeId: string)

  /** A node's child ids; a node without a `children` list is taken as a leaf. */
  function ChildIds(n: Node): seq<string>
  {
    n.children.GetOr([])
  }

  /** `allNodes.find(n => n.id === id)`: the first node carrying that id. */
  function Find(nodes: seq<Node>, id: string): (r: Option<Node>)
    ensures r.None? <==> forall i :: 0 <= i < |nodes| ==> nodes[i].id != id
    ensures r.Some? ==> exists i :: 0 <= i < |nodes| && nodes[i] == r.value && r.value.id == id
                          && forall k :: 0 <= k < i ==> nodes[k].id != id
  {
    if nodes == [] then None
    else if nodes[0].id == id then Some(nodes[0])
    else
      var r := Find(nodes[1..], id);
      assert r.Some? ==> exists i :: 1 <= i < |nodes| && nodes[i] == r.value && r.value.id == id
                          && forall k :: 0 <= k < i ==> nodes[k].id != id by {
        if r.Some? {
          var i :| 0 <= i < |nodes[1..]| && nodes[1..][i] == r.value && r.value.id == id
                   && forall k :: 0 <= k < i ==> nodes[1..][k].id != id;
          assert forall k :: 1 <= k < i + 1 ==> nodes[k] == nodes[1..][k - 1];
        }
      }
      r
  }

  /** Every id that occurs in some node's `children`. */
  function ChildIdSet(nodes: seq<Node>): (r: set<string>)
    ensures forall id :: id in r <==> exists i :: 0 <= i < |nodes| && id in ChildIds(nodes[i])
  {
    if nodes == [] then {}
    else
      var init := nodes[..|nodes| - 1];
      assert forall i :: 0 <= i < |init| ==> init[i] == nodes[i];
      var last := ChildIds(nodes[|nodes| - 1]);
      ChildIdSet(init) + set id | id in last
  }

  /** The root test: a node no one lists as a child, or the node whose id is "root". */
  predicate IsRoot(childIds: set<string>, n: Node)
  {
    n.id !in childIds || n.id == RootId
  }

  /** `nodes.filter(node => !childNodeIds.has(node.id) || node.id === 'root')`. */
  function SelectRoots(nodes: seq<Node>, childIds: set<string>): (r: seq<Node>)
    ensures forall i :: 0 <= i < |r| ==> r[i] in nodes && IsRoot(childIds, r[i])
    ensures forall i :: 0 <= i < |nodes| && IsRoot(childIds, nodes[i]) ==> nodes[i] in r
  {
    Filter(nodes, (n: Node) => IsRoot(childIds, n))
  }

  /** The root nodes of the map, each of them a node of the map that passes the root test. */
  function Roots(nodes: seq<Node>): (r: seq<Node>)
    ensures forall i :: 0 <= i < |r| ==> r[i] in nodes && IsRoot(ChildIdSet(nodes), r[i])
  {
    SelectRoots(nodes, ChildIdSet(nodes))
  }

  /** The roots are exactly the nodes that are no one's child, plus those with id "root",
      in node order, each copy kept. */
  lemma RootsSelect(nodes: seq<Node>)
    ensures forall i :: 0 <= i < |Roots(nodes)| ==> Roots(nodes)[i] in nodes
    ensures forall i :: 0 <= i < |nodes| ==>
      (nodes[i] in Roots(nodes) <==>
        nodes[i].id == RootId || forall j :: 0 <= j < |nodes| ==> nodes[i].id !in ChildIds(nodes[j]))
    ensures IsSubsequence(Roots(nodes), nodes)
    ensures forall n: Node :: IsRoot(ChildIdSet(nodes), n) ==> multiset(Roots(nodes))[n] == multiset(nodes)[n]
  {
    FilterKeepsOrderAndCopies(nodes, (n: Node) => IsRoot(ChildIdSet(nodes), n));
  }

  // ---------------------------------------------------------------- one section

  function Min(a: nat, b: nat): nat
  {
    if a < b then a else b
  }

  /** `'#'.repeat(k)`. */
  function Hashes(k: nat): (r: string)
    ensures |r| == k && forall i :: 0 <= i < k ==> r[i] == '#'
  {
    seq(k, _ => '#')
  }

  /** The number of `#` characters a line starts with: its Markdown heading level. */
  function HeadingLevel(s: string): nat
  {
    if s != [] && s[0] == '#' then 1 + HeadingLevel(s[1..]) else 0
  }

  /** The heading line of a node at `depth`: level min(depth, 6), whatever the name, so never
      more than six; the name follows the `#` run and a space, and a blank line ends it. */
  function Heading(depth: nat, name: string): (r: string)
    ensures HeadingLevel(r) == Min(depth, MaxHeadingLevel) <= MaxHeadingLevel
    ensures |r| == Min(depth, MaxHeadingLevel) + |name| + 3
    ensures r[Min(depth, MaxHeadingLevel)] == ' '
    ensures r[Min(depth, MaxHeadingLevel) + 1..] == name + "\n\n"
  {
    var k := Min(depth, MaxHeadingLevel);
    var rest := " " + name + "\n\n";
    HashesThenSpace(k, rest);
    assert (Hashes(k) + rest)[k + 1..] == name + "\n\n";
    Hashes(k) + rest
  }

  lemma {:induction false} HashesThenSpace(k: nat, rest: string)
    requires rest != [] && rest[0] != '#'
    ensures HeadingLevel(Hashes(k) + rest) == k
  {
    if k > 0 {
      HashesThenSpace(k - 1, rest);
      assert (Hashes(k) + rest)[1..] == Hashes(k - 1) + rest;
    }
  }

  /** `node.properties.description && node.properties.description !== 'Click to edit'`. */
  predicate HasDescription(n: Node)
  {
    "description" in n.properties && n.properties["description"] != "" && n.properties["description"] != Placeholder
  }

  /** The description paragraph: present exactly when the description is present, non-empty and not
      the placeholder, and then the description followed by a blank line. */
  function DescriptionBlock(n: Node): (r: string)
    ensures r != "" <==>
      "description" in n.properties && n.properties["description"] != "" && n.properties["description"] != Placeholder
    ensures r != "" ==> r == n.properties["description"] + "\n\n"
  {
    if HasDescription(n) then n.properties["description"] + "\n\n" else ""
  }

  /** What a node contributes itself: its heading line, then its description paragraph if any. */
  function Section(depth: nat, n: Node): (r: string)
    ensures HeadingLevel(r) == Min(depth, MaxHeadingLevel)
    ensures Heading(depth, n.name) <= r
    ensures r[|Heading(depth, n.name)|..] == DescriptionBlock(n)
  {
    var k := Min(depth, MaxHeadingLevel);
    var h := Heading(depth, n.name);
    var rest := " " + n.name + "\n\n" + DescriptionBlock(n);
    assert h + DescriptionBlock(n) == Hashes(k) + rest;
    HashesThenSpace(k, rest);
    h + DescriptionBlock(n)
  }

  // ---------------------------------------------------------------- the recursion

  /** `rank` witnesses that no node it ranks can reach a cycle: a child of a ranked node is ranked,
      lower than that parent. Nodes on a cycle, and nodes nothing ranked leads to, stay unranked. */
  ghost predicate Ranked(nodes: seq<Node>, rank: map<string, nat>)
  {
    forall i, j :: 0 <= i < |nodes| && 0 <= j < |nodes| && nodes[i].id in rank && nodes[j].id in ChildIds(nodes[i]) ==>
      nodes[j].id in rank && rank[nodes[j].id] < rank[nodes[i].id]
  }

  /** Every node of `roots` is a ranked node of the map. */
  ghost predicate RankedNodes(roots: seq<Node>, nodes: seq<Node>, rank: map<string, nat>)
  {
    forall i :: 0 <= i < |roots| ==> roots[i] in nodes && roots[i].id in rank
  }

  /** Dropping the last root keeps the rest ranked. */
  lemma RankedNodesInit(roots: seq<Node>, nodes: seq<Node>, rank: map<string, nat>)
    requires roots != [] && RankedNodes(roots, nodes, rank)
    ensures RankedNodes(roots[..|roots| - 1], nodes, rank)
    ensures roots[0] in nodes && roots[0].id in rank && roots[|roots| - 1] in nodes && roots[|roots| - 1].id in rank
  {
    assert forall i :: 0 <= i < |roots| - 1 ==> roots[..|roots| - 1][i] == roots[i];
  }

  /** The export starts from the roots, so they are the nodes that must be ranked. */
  ghost predicate RootsRanked(nodes: seq<Node>, rank: map<string, nat>)
  {
    RankedNodes(Roots(nodes), nodes, rank)
  }

  /** Two nodes (or one) that list each other as children are never ranked: `processNode` would
      not return from them. */
  lemma CycleHasNoRank(nodes: seq<Node>, rank: map<string, nat>, i: nat, j: nat)
    requires i < |nodes| && j < |nodes| && Ranked(nodes, rank)
    requires nodes[j].id in ChildIds(nodes[i]) && nodes[i].id in ChildIds(nodes[j])
    ensures nodes[i].id !in rank && nodes[j].id !in rank
  {
  }

  /** Every child id below a parent of rank `bound` that names a node names a ranked one of smaller rank. */
  ghost predicate BelowRank(ids: seq<string>, nodes: seq<Node>, rank: map<string, nat>, bound: nat)
  {
    forall j :: 0 <= j < |nodes| && nodes[j].id in ids ==> nodes[j].id in rank && rank[nodes[j].id] < bound
  }

  /** `processNode(node, allNodes, depth)`. */
  function ProcessNode(n: Node, nodes: seq<Node>, depth: nat, ghost rank: map<string, nat>): (r: string)
    requires Ranked(nodes, rank) && n in nodes && n.id in rank
    ensures Section(depth, n) <= r
    ensures ChildIds(n) == [] ==> r == Section(depth, n)
    decreases rank[n.id], 1, 0
  {
    Section(depth, n) + ProcessChildren(ChildIds(n), nodes, depth + 1, rank, rank[n.id])
  }

  /** The `children.forEach` of `processNode`: each id resolved with `find`, unknown ids skipped. */
  function ProcessChildren(ids: seq<string>, nodes: seq<Node>, depth: nat, ghost rank: map<string, nat>, ghost bound: nat): (r: string)
    requires Ranked(nodes, rank) && BelowRank(ids, nodes, rank, bound)
    ensures (forall k :: 0 <= k < |ids| ==> Find(nodes, ids[k]).None?) ==> r == ""
    decreases bound, 0, |ids|
  {
    if ids == [] then ""
    else
      var here := match Find(nodes, ids[0])
        case None => ""
        case Some(c) => ProcessNode(c, nodes, depth, rank);
      here + ProcessChildren(ids[1..], nodes, depth, rank, bound)
  }

  /** The root sections, one after another. */
  function Sections(roots: seq<Node>, nodes: seq<Node>, ghost rank: map<string, nat>): (r: string)
    requires Ranked(nodes, rank) && RankedNodes(roots, nodes, rank)
    ensures roots != [] ==> ProcessNode(roots[0], nodes, 1, rank) <= r
  {
    if roots == [] then ""
    else
      var init := roots[..|roots| - 1];
      RankedNodesInit(roots, nodes, rank);
      var front, last := Sections(init, nodes, rank), ProcessNode(roots[|roots| - 1], nodes, 1, rank);
      assert ProcessNode(roots[0], nodes, 1, rank) <= front + last by {
        if init == [] {
          assert front + last == last;
        } else {
          assert init[0] == roots[0];
          PrefixExtends(ProcessNode(roots[0], nodes, 1, rank), front, last);
        }
      }
      front + last
  }

  /** The whole document, reading a node without `children` as a leaf. */
  function Markdown(nodes: seq<Node>, ghost rank: map<string, nat>): (r: string)
    requires Ranked(nodes, rank) && RootsRanked(nodes, rank)
    ensures Title <= r
  {
    Title + Sections(Roots(nodes), nodes, rank)
  }

  // ---------------------------------------------------------------- the outline the text renders

  /** A node placed in the outline at a depth. */
  datatype Entry = Entry(depth: nat, node: Node)

  /** The pre-order walk `processNode` makes: the node, then its resolvable children's walks. */
  ghost function OutlineNode(n: Node, nodes: seq<Node>, depth: nat, rank: map<string, nat>): seq<Entry>
    requires Ranked(nodes, rank) && n in nodes && n.id in rank
    decreases rank[n.id], 1, 0
  {
    [Entry(depth, n)] + OutlineChildren(ChildIds(n), nodes, depth + 1, rank, rank[n.id])
  }

  ghost function OutlineChildren(ids: seq<string>, nodes: seq<Node>, depth: nat, rank: map<string, nat>, bound: nat): seq<Entry>
    requires Ranked(nodes, rank) && BelowRank(ids, nodes, rank, bound)
    decreases bound, 0, |ids|
  {
    if ids == [] then []
    else
      var here := match Find(nodes, ids[0])
        case None => []
        case Some(c) => OutlineNode(c, nodes, depth, rank);
      here + OutlineChildren(ids[1..], nodes, depth, rank, bound)
  }

  ghost function DocOutline(roots: seq<Node>, nodes: seq<Node>, rank: map<string, nat>): seq<Entry>
    requires Ranked(nodes, rank) && RankedNodes(roots, nodes, rank)
  {
    if roots == [] then []
    else
      RankedNodesInit(roots, nodes, rank);
      DocOutline(roots[..|roots| - 1], nodes, rank) + OutlineNode(roots[|roots| - 1], nodes, 1, rank)
  }

  /** The text of an outline: each entry's section in turn. */
  function Render(es: seq<Entry>): string
  {
    if es == [] then "" else Section(es[0].depth, es[0].node) + Render(es[1..])
  }

  /** Every entry names a node of the map, at least as deep as `depth`. */
  ghost predicate FromMap(es: seq<Entry>, nodes: seq<Node>, depth: nat)
  {
    forall k :: 0 <= k < |es| ==> es[k].node in nodes && es[k].depth >= depth
  }

  /** Two outlines of map nodes at or below a depth join into one. */
  lemma FromMapConcat(a: seq<Entry>, b: seq<Entry>, nodes: seq<Node>, depth: nat)
    requires FromMap(a, nodes, depth) && FromMap(b, nodes, depth)
    ensures FromMap(a + b, nodes, depth)
  {
    forall k | 0 <= k < |a + b| ensures (a + b)[k].node in nodes && (a + b)[k].depth >= depth {
      if k < |a| {
        assert (a + b)[k] == a[k];
      } else {
        assert (a + b)[k] == b[k - |a|];
      }
    }
  }

  lemma {:induction false} RenderConcat(a: seq<Entry>, b: seq<Entry>)
    ensures Render(a + b) == Render(a) + Render(b)
  {
    if a != [] {
      var head := Section(a[0].depth, a[0].node);
      assert (a + b)[0] == a[0] && (a + b)[1..] == a[1..] + b;
      assert Render(a + b) == head + Render(a[1..] + b);
      RenderConcat(a[1..], b);
      ConcatAssoc(head, Render(a[1..]), Render(b));
    } else {
      assert a + b == b;
    }
  }

  /** `processNode` writes exactly the sections of its pre-order walk, and that walk only visits
      nodes of the map, starting with the node itself at the given depth. */
  lemma {:induction false} ProcessNodeRendersOutline(n: Node, nodes: seq<Node>, depth: nat, rank: map<string, nat>)
    requires Ranked(nodes, rank) && n in nodes && n.id in rank
    ensures ProcessNode(n, nodes, depth, rank) == Render(OutlineNode(n, nodes, depth, rank))
    ensures OutlineNode(n, nodes, depth, rank)[0] == Entry(depth, n)
    ensures FromMap(OutlineNode(n, nodes, depth, rank), nodes, depth)
    decreases rank[n.id], 1, 0
  {
    var kids := WalkSplit(n, nodes, depth, rank);
    ProcessChildrenRendersOutline(ChildIds(n), nodes, depth + 1, rank, rank[n.id]);
    RenderConcat([Entry(depth, n)], kids);
    assert Render([Entry(depth, n)]) == Section(depth, n);
    assert FromMap(kids, nodes, depth);
    FromMapConcat([Entry(depth, n)], kids, nodes, depth);
  }

  lemma {:induction false} ProcessChildrenRendersOutline(ids: seq<string>, nodes: seq<Node>, depth: nat, rank: map<string, nat>, bound: nat)
    requires Ranked(nodes, rank) && BelowRank(ids, nodes, rank, bound)
    ensures ProcessChildren(ids, nodes, depth, rank, bound) == Render(OutlineChildren(ids, nodes, depth, rank, bound))
    ensures FromMap(OutlineChildren(ids, nodes, depth, rank, bound), nodes, depth)
    decreases bound, 0, |ids|
  {
    if ids != [] {
      var rest := OutlineChildren(ids[1..], nodes, depth, rank, bound);
      ProcessChildrenRendersOutline(ids[1..], nodes, depth, rank, bound);
      match Find(nodes, ids[0])
      case None =>
        assert OutlineChildren(ids, nodes, depth, rank, bound) == rest;
      case Some(c) =>
        var here := OutlineNode(c, nodes, depth, rank);
        ProcessNodeRendersOutline(c, nodes, depth, rank);
        RenderConcat(here, rest);
        FromMapConcat(here, rest, nodes, depth);
    }
  }

  /** The document is the title followed by the sections of the roots' walks, and every section
      belongs to a node of the map at depth one or more. */
  lemma {:induction false} MarkdownRendersOutline(nodes: seq<Node>, rank: map<string, nat>)
    requires Ranked(nodes, rank) && RootsRanked(nodes, rank)
    ensures var es := DocOutline(Roots(nodes), nodes, rank);
      Markdown(nodes, rank) == Title + Render(es) && FromMap(es, nodes, 1)
  {
    SectionsRenderOutline(Roots(nodes), nodes, rank);
  }

  lemma {:induction false} SectionsRenderOutline(roots: seq<Node>, nodes: seq<Node>, rank: map<string, nat>)
    requires Ranked(nodes, rank) && RankedNodes(roots, nodes, rank)
    ensures Sections(roots, nodes, rank) == Render(DocOutline(roots, nodes, rank))
    ensures FromMap(DocOutline(roots, nodes, rank), nodes, 1)
  {
    if roots != [] {
      var init, last := roots[..|roots| - 1], roots[|roots| - 1];
      assert RankedNodes(init, nodes, rank) && last in nodes && last.id in rank;
      var front, walk := DocOutline(init, nodes, rank), OutlineNode(last, nodes, 1, rank);
      assert DocOutline(roots, nodes, rank) == front + walk;
      assert Sections(roots, nodes, rank) == Sections(init, nodes, rank) + ProcessNode(last, nodes, 1, rank);
      SectionsRenderOutline(init, nodes, rank);
      ProcessNodeRendersOutline(last, nodes, 1, rank);
      RenderConcat(front, walk);
      FromMapConcat(front, walk, nodes, 1);
    }
  }

  /** A child section sits directly after its parent's children before it: the fold over
      `children` is concatenation in list order. */
  lemma {:induction false} ProcessChildrenSplit(a: seq<string>, b: seq<string>, nodes: seq<Node>, depth: nat, rank: map<string, nat>, bound: nat)
    requires Ranked(nodes, rank) && BelowRank(a + b, nodes, rank, bound)
    ensures BelowRank(a, nodes, rank, bound) && BelowRank(b, nodes, rank, bound)
    ensures ProcessChildren(a + b, nodes, depth, rank, bound)
         == ProcessChildren(a, nodes, depth, rank, bound) + ProcessChildren(b, nodes, depth, rank, bound)
  {
    BelowRankWithin(a, a + b, nodes, rank, bound);
    BelowRankWithin(b, a + b, nodes, rank, bound);
    if a != [] {
      var ab := a + b;
      assert ab[0] == a[0] && ab[1..] == a[1..] + b;
      var h := ChildrenCons(ab, nodes, depth, rank, bound);
      var h' := ChildrenCons(a, nodes, depth, rank, bound);
      ProcessChildrenSplit(a[1..], b, nodes, depth, rank, bound);
      ConcatAssoc(h, ProcessChildren(a[1..], nodes, depth, rank, bound), ProcessChildren(b, nodes, depth, rank, bound));
    } else {
      assert a + b == b;
    }
  }

  /** A non-empty id list gives the text of its first id followed by that of the rest. */
  lemma ChildrenCons(ids: seq<string>, nodes: seq<Node>, depth: nat, rank: map<string, nat>, bound: nat) returns (here: string)
    requires Ranked(nodes, rank) && ids != [] && BelowRank(ids, nodes, rank, bound)
    ensures BelowRank(ids[1..], nodes, rank, bound)
    ensures here == match Find(nodes, ids[0]) case None => "" case Some(c) => ProcessNode(c, nodes, depth, rank)
    ensures ProcessChildren(ids, nodes, depth, rank, bound) == here + ProcessChildren(ids[1..], nodes, depth, rank, bound)
  {
    here := match Find(nodes, ids[0]) case None => "" case Some(c) => ProcessNode(c, nodes, depth, rank);
  }

  /** Fewer ids stay under the same bound. */
  lemma BelowRankWithin(x: seq<string>, y: seq<string>, nodes: seq<Node>, rank: map<string, nat>, bound: nat)
    requires BelowRank(y, nodes, rank, bound) && forall id :: id in x ==> id in y
    ensures BelowRank(x, nodes, rank, bound)
  {
  }

  /** A single child id gives the first node with that id one level down, or nothing if no node has it. */
  lemma ProcessOneChild(id: string, nodes: seq<Node>, depth: nat, rank: map<string, nat>, bound: nat)
    requires Ranked(nodes, rank) && BelowRank([id], nodes, rank, bound)
    ensures Find(nodes, id).None? ==> ProcessChildren([id], nodes, depth, rank, bound) == ""
    ensures Find(nodes, id).Some? ==>
      ProcessChildren([id], nodes, depth, rank, bound) == ProcessNode(Find(nodes, id).value, nodes, depth, rank)
  {
  }

  /** The rank is only a witness: the text does not depend on which one is chosen. */
  lemma {:induction false} ProcessNodeRankIrrelevant(n: Node, nodes: seq<Node>, depth: nat, r1: map<string, nat>, r2: map<string, nat>)
    requires Ranked(nodes, r1) && Ranked(nodes, r2) && n in nodes && n.id in r1 && n.id in r2
    ensures ProcessNode(n, nodes, depth, r1) == ProcessNode(n, nodes, depth, r2)
    decreases r1[n.id], 1, 0
  {
    ProcessChildrenRankIrrelevant(ChildIds(n), nodes, depth + 1, r1, r2, r1[n.id], r2[n.id]);
  }

  lemma {:induction false} ProcessChildrenRankIrrelevant(ids: seq<string>, nodes: seq<Node>, depth: nat,
      r1: map<string, nat>, r2: map<string, nat>, b1: nat, b2: nat)
    requires Ranked(nodes, r1) && Ranked(nodes, r2)
    requires BelowRank(ids, nodes, r1, b1) && BelowRank(ids, nodes, r2, b2)
    ensures ProcessChildren(ids, nodes, depth, r1, b1) == ProcessChildren(ids, nodes, depth, r2, b2)
    decreases b1, 0, |ids|
  {
    if ids != [] {
      ProcessChildrenRankIrrelevant(ids[1..], nodes, depth, r1, r2, b1, b2);
      match Find(nodes, ids[0])
      case None =>
      case Some(c) => ProcessNodeRankIrrelevant(c, nodes, depth, r1, r2);
    }
  }

  // ---------------------------------------------------------------- generateMarkdown, as written

  /** One more root appends its section. */
  lemma SectionsSnoc(roots: seq<Node>, j: nat, nodes: seq<Node>, rank: map<string, nat>)
    requires Ranked(nodes, rank) && RankedNodes(roots, nodes, rank)
    requires j < |roots|
    ensures RankedNodes(roots[..j], nodes, rank) && RankedNodes(roots[..j + 1], nodes, rank)
    ensures Sections(roots[..j + 1], nodes, rank) == Sections(roots[..j], nodes, rank) + ProcessNode(roots[j], nodes, 1, rank)
  {
    assert roots[..j + 1][..j] == roots[..j];
  }

  /** Some node has no `children` list. */
  predicate LacksChildren(nodes: seq<Node>)
  {
    exists i :: 0 <= i < |nodes| && nodes[i].children.None?
  }

  /** The nested `forEach` of `generateMarkdown` that gathers every child id. Reading `children`
      of a node that has none throws; the error names the first such node. */
  method CollectChildIds(nodes: seq<Node>) returns (r: Result<set<string>, ExportError>)
    ensures r.Failure? <==> LacksChildren(nodes)
    ensures r.Failure? ==> exists i :: (0 <= i < |nodes| && nodes[i].children.None?
      && r.error == ChildrenMissing(nodes[i].id) && forall k :: 0 <= k < i ==> nodes[k].children.Some?)
    ensures r.Success? ==> r.value == ChildIdSet(nodes)
  {
    var childNodeIds: set<string> := {};
    for i := 0 to |nodes|
      invariant childNodeIds == ChildIdSet(nodes[..i])
      invariant forall k :: 0 <= k < i ==> nodes[k].children.Some?
    {
      var node := nodes[i];
      if node.children.None? {
        return Failure(ChildrenMissing(node.id));
      }
      var cs := node.children.value;
      for k := 0 to |cs|
        invariant childNodeIds == ChildIdSet(nodes[..i]) + set x | x in cs[..k]
      {
        childNodeIds := childNodeIds + {cs[k]};
      }
      assert cs[..|cs|] == cs;
      assert nodes[..i + 1][..i] == nodes[..i];
    }
    assert nodes[..|nodes|] == nodes;
    return Success(childNodeIds);
  }

  /** `generateMarkdown(mindMap)` as the source runs it: the export fails exactly when some node
      lacks its `children` list (naming the first such node); otherwise it returns the document. */
  method GenerateMarkdown(m: MindMap, ghost rank: map<string, nat>) returns (r: Result<string, ExportError>)
    requires !LacksChildren(m.nodes) ==> Ranked(m.nodes, rank) && RootsRanked(m.nodes, rank)
    ensures r.Failure? <==> LacksChildren(m.nodes)
    ensures r.Failure? ==> exists i :: (0 <= i < |m.nodes| && m.nodes[i].children.None?
      && r.error == ChildrenMissing(m.nodes[i].id) && forall k :: 0 <= k < i ==> m.nodes[k].children.Some?)
    ensures r.Success? ==> r.value == Markdown(m.nodes, rank)
  {
    var collected := CollectChildIds(m.nodes);
    if collected.Failure? {
      return Failure(collected.error);
    }
    var rootNodes := SelectRoots(m.nodes, collected.value);
    assert rootNodes == Roots(m.nodes);
    var markdown := AppendRootSections(Title, rootNodes, m.nodes, rank);
    return Success(markdown);
  }

  /** The `rootNodes.forEach` of `generateMarkdown`: each root's `processNode` text at depth one,
      appended in order to the text so far. */
  method AppendRootSections(start: string, rootNodes: seq<Node>, nodes: seq<Node>, ghost rank: map<string, nat>)
    returns (markdown: string)
    requires Ranked(nodes, rank) && RankedNodes(rootNodes, nodes, rank)
    ensures markdown == start + Sections(rootNodes, nodes, rank)
  {
    markdown := start;
    for j := 0 to |rootNodes|
      invariant RankedNodes(rootNodes[..j], nodes, rank)
      invariant markdown == start + Sections(rootNodes[..j], nodes, rank)
    {
      SectionsSnoc(rootNodes, j, nodes, rank);
      ConcatAssoc(start, Sections(rootNodes[..j], nodes, rank), ProcessNode(rootNodes[j], nodes, 1, rank));
      markdown := markdown + ProcessNode(rootNodes[j], nodes, 1, rank);
    }
    assert rootNodes[..|rootNodes|] == rootNodes;
  }

  // ---------------------------------------------------------------- the default map

  /** The editor's initial node carries no `children`, so exporting the initial map fails. */
  lemma DefaultMapExportFails()
    ensures LacksChildren(WorkflowEditor.DefaultMindMap().nodes)
  {
    assert WorkflowEditor.DefaultMindMap().nodes[0].children.None?;
  }

  /** Read with a missing list as a leaf, the initial map exports as its title and the one heading;
      the placeholder description is left out. */
  lemma DefaultMapMarkdown(nodes: seq<Node>, rank: map<string, nat>)
    requires nodes == WorkflowEditor.DefaultMindMap().nodes && rank == map[RootId := 0]
    ensures Ranked(nodes, rank) && RootsRanked(nodes, rank)
    ensures Markdown(nodes, rank) == Title + "# Main Topic\n\n"
  {
    DefaultMapSection();
    DefaultMapRoots();
    OneSection(nodes[0], nodes, rank);
    assert Markdown(nodes, rank) == Title + Sections(nodes, nodes, rank);
  }

  /** A single root's section is the whole of the sections. */
  lemma OneSection(n: Node, nodes: seq<Node>, rank: map<string, nat>)
    requires Ranked(nodes, rank) && nodes == [n] && n.id in rank
    ensures RankedNodes(nodes, nodes, rank) && Sections(nodes, nodes, rank) == ProcessNode(n, nodes, 1, rank)
  {
    assert nodes[..0] == [];
  }

  lemma DefaultMapRoots()
    ensures Roots(WorkflowEditor.DefaultMindMap().nodes) == WorkflowEditor.DefaultMindMap().nodes
  {
    var nodes := WorkflowEditor.DefaultMindMap().nodes;
    assert ChildIdSet(nodes) == {} by {
      assert nodes[..0] == [];
    }
    FilterAllKept(nodes, (n: Node) => IsRoot({}, n));
  }

  lemma DefaultMapSection()
    ensures var nodes := WorkflowEditor.DefaultMindMap().nodes;
      Ranked(nodes, map[RootId := 0]) && ProcessNode(nodes[0], nodes, 1, map[RootId := 0]) == "# Main Topic\n\n"
  {
    var nodes := WorkflowEditor.DefaultMindMap().nodes;
    var n := nodes[0];
    assert ChildIds(n) == [];
    assert !HasDescription(n);
    assert Hashes(1) == "#";
  }

  // ---------------------------------------------------------------- a cycle no root reaches

  /** With no root the document is the title alone, and no witness is needed. */
  lemma NoRootsExportsTitle(nodes: seq<Node>)
    requires Roots(nodes) == []
    ensures Ranked(nodes, map[]) && RootsRanked(nodes, map[])
    ensures Markdown(nodes, map[]) == Title
  {
  }

  function CycleStart(): Node
  {
    Node("a", "topic", "A", map[], 0.0, 0.0, Some(["b"]))
  }

  function CycleEnd(): Node
  {
    Node("b", "topic", "B", map[], 0.0, 0.0, Some(["a"]))
  }

  /** Two nodes that list each other, and no node called "root": every node is someone's child,
      so there is no root, and both nodes are left out of the document. */
  lemma UnreachableCycleDropped(nodes: seq<Node>)
    requires nodes == [CycleStart(), CycleEnd()]
    ensures Roots(nodes) == []
    ensures Ranked(nodes, map[]) && RootsRanked(nodes, map[])
    ensures Markdown(nodes, map[]) == Title
  {
    assert ChildIdSet(nodes) == {"a", "b"} by {
      assert nodes[..1][..0] == [];
      assert ChildIdSet(nodes[..1]) == {"b"};
    }
    var keep := (n: Node) => IsRoot({"a", "b"}, n);
    assert !keep(nodes[0]) && !keep(nodes[1]) && nodes[1..][1..] == [];
    assert Roots(nodes) == Filter(nodes[1..], keep) == Filter(nodes[1..][1..], keep) == [];
    NoRootsExportsTitle(nodes);
  }

  // ---------------------------------------------------------------- a "root" node that is also a child

  /** Every entry of a root's walk is an entry of the document's outline. */
  lemma {:induction false} DocOutlineHas(roots: seq<Node>, q: Node, nodes: seq<Node>, rank: map<string, nat>)
    requires Ranked(nodes, rank) && RankedNodes(roots, nodes, rank) && q in roots
    ensures q in nodes && q.id in rank
    ensures forall e :: e in OutlineNode(q, nodes, 1, rank) ==> e in DocOutline(roots, nodes, rank)
  {
    var init, last := roots[..|roots| - 1], roots[|roots| - 1];
    assert RankedNodes(init, nodes, rank);
    if q != last {
      assert q in init by {
        var k :| 0 <= k < |roots| && roots[k] == q;
        assert init[k] == q;
      }
      DocOutlineHas(init, q, nodes, rank);
    }
  }

  /** A child id that names a node puts that node's entry, one level down, into the children's walks. */
  lemma {:induction false} OutlineChildrenHas(ids: seq<string>, id: string, c: Node, nodes: seq<Node>, depth: nat,
      rank: map<string, nat>, bound: nat)
    requires Ranked(nodes, rank) && BelowRank(ids, nodes, rank, bound)
    requires id in ids && Find(nodes, id) == Some(c)
    ensures Entry(depth, c) in OutlineChildren(ids, nodes, depth, rank, bound)
  {
    if ids[0] == id {
      assert OutlineNode(c, nodes, depth, rank)[0] == Entry(depth, c);
    } else {
      OutlineChildrenHas(ids[1..], id, c, nodes, depth, rank, bound);
    }
  }

  /** Wherever a walk places a node, it places each resolvable child of that node one level deeper. */
  lemma {:induction false} WalkPlacesChild(n: Node, nodes: seq<Node>, depth: nat, rank: map<string, nat>,
      p: Node, d: nat, id: string, c: Node)
    requires Ranked(nodes, rank) && n in nodes && n.id in rank
    requires Entry(d, p) in OutlineNode(n, nodes, depth, rank) && id in ChildIds(p) && Find(nodes, id) == Some(c)
    ensures Entry(d + 1, c) in OutlineNode(n, nodes, depth, rank)
    decreases rank[n.id], 1, 0
  {
    var kids := WalkSplit(n, nodes, depth, rank);
    if d == depth && p == n {
      HeadPlacesChild(p, nodes, d, rank, id, c);
    } else {
      InTail(Entry(depth, n), kids, OutlineNode(n, nodes, depth, rank), Entry(d, p));
      ChildrenPlaceChild(ChildIds(n), nodes, depth + 1, rank, rank[n.id], p, d, id, c);
      TailIn(Entry(depth, n), kids, OutlineNode(n, nodes, depth, rank), Entry(d + 1, c));
    }
  }

  /** A walk places each resolvable child of its own node one level below it. */
  lemma HeadPlacesChild(n: Node, nodes: seq<Node>, depth: nat, rank: map<string, nat>, id: string, c: Node)
    requires Ranked(nodes, rank) && n in nodes && n.id in rank
    requires id in ChildIds(n) && Find(nodes, id) == Some(c)
    ensures Entry(depth + 1, c) in OutlineNode(n, nodes, depth, rank)
  {
    var kids := WalkSplit(n, nodes, depth, rank);
    OutlineChildrenHas(ChildIds(n), id, c, nodes, depth + 1, rank, rank[n.id]);
    InConcatRight([Entry(depth, n)], kids, Entry(depth + 1, c));
  }

  /** A walk is its node followed by the children's walks. */
  lemma WalkSplit(n: Node, nodes: seq<Node>, depth: nat, rank: map<string, nat>) returns (kids: seq<Entry>)
    requires Ranked(nodes, rank) && n in nodes && n.id in rank
    ensures BelowRank(ChildIds(n), nodes, rank, rank[n.id])
    ensures kids == OutlineChildren(ChildIds(n), nodes, depth + 1, rank, rank[n.id])
    ensures OutlineNode(n, nodes, depth, rank) == [Entry(depth, n)] + kids
  {
    kids := OutlineChildren(ChildIds(n), nodes, depth + 1, rank, rank[n.id]);
  }

  lemma {:induction false} ChildrenPlaceChild(ids: seq<string>, nodes: seq<Node>, depth: nat, rank: map<string, nat>,
      bound: nat, p: Node, d: nat, id: string, c: Node)
    requires Ranked(nodes, rank) && BelowRank(ids, nodes, rank, bound)
    requires Entry(d, p) in OutlineChildren(ids, nodes, depth, rank, bound) && id in ChildIds(p) && Find(nodes, id) == Some(c)
    ensures Entry(d + 1, c) in OutlineChildren(ids, nodes, depth, rank, bound)
    decreases bound, 0, |ids|
  {
    var rest := OutlineChildren(ids[1..], nodes, depth, rank, bound);
    match Find(nodes, ids[0])
    case None =>
      assert OutlineChildren(ids, nodes, depth, rank, bound) == rest;
      ChildrenPlaceChild(ids[1..], nodes, depth, rank, bound, p, d, id, c);
    case Some(k) =>
      var here := OutlineNode(k, nodes, depth, rank);
      assert OutlineChildren(ids, nodes, depth, rank, bound) == here + rest;
      if Entry(d, p) in here {
        WalkPlacesChild(k, nodes, depth, rank, p, d, id, c);
      } else {
        ChildrenPlaceChild(ids[1..], nodes, depth, rank, bound, p, d, id, c);
      }
  }

  /** The same for the whole outline: a node placed at depth d brings each resolvable child at d + 1. */
  lemma {:induction false} OutlinePlacesChild(roots: seq<Node>, nodes: seq<Node>, rank: map<string, nat>,
      p: Node, d: nat, id: string, c: Node)
    requires Ranked(nodes, rank) && RankedNodes(roots, nodes, rank)
    requires Entry(d, p) in DocOutline(roots, nodes, rank) && id in ChildIds(p) && Find(nodes, id) == Some(c)
    ensures Entry(d + 1, c) in DocOutline(roots, nodes, rank)
  {
    var init, last := roots[..|roots| - 1], roots[|roots| - 1];
    RankedNodesInit(roots, nodes, rank);
    var front, walk := DocOutline(init, nodes, rank), OutlineNode(last, nodes, 1, rank);
    assert DocOutline(roots, nodes, rank) == front + walk;
    if Entry(d, p) in walk {
      WalkPlacesChild(last, nodes, 1, rank, p, d, id, c);
    } else {
      OutlinePlacesChild(init, nodes, rank, p, d, id, c);
    }
  }

  /** The node with id "root" is always a root, so it is written at depth one. Wherever the export
      reaches a node that lists it as a child, it is written again one level below that node. */
  lemma RootChildWrittenTwice(nodes: seq<Node>, rank: map<string, nat>, p: Node, d: nat, r: Node)
    requires Ranked(nodes, rank) && RootsRanked(nodes, rank)
    requires Entry(d, p) in DocOutline(Roots(nodes), nodes, rank)
    requires RootId in ChildIds(p) && Find(nodes, RootId) == Some(r)
    ensures Entry(1, r) in DocOutline(Roots(nodes), nodes, rank)
    ensures Entry(d + 1, r) in DocOutline(Roots(nodes), nodes, rank)
  {
    var roots := Roots(nodes);
    assert r in roots by {
      var i :| 0 <= i < |nodes| && nodes[i] == r;
      assert IsRoot(ChildIdSet(nodes), nodes[i]);
    }
    DocOutlineHas(roots, r, nodes, rank);
    assert OutlineNode(r, nodes, 1, rank)[0] == Entry(1, r);
    OutlinePlacesChild(roots, nodes, rank, p, d, RootId, r);
  }

  /** The smallest such map: node "a" lists the node "root", and the export writes "root" twice. */
  function ParentOfRoot(): Node
  {
    Node("a", "topic", "A", map[], 0.0, 0.0, Some([RootId]))
  }

  function RootChild(): Node
  {
    Node(RootId, "topic", "R", map[], 0.0, 0.0, Some([]))
  }

  /** The smallest map in which the export reaches a node listing "root": the section of "root" is
      written under its parent at depth two and again at depth one. */
  lemma RootNodeEmittedTwice(nodes: seq<Node>, rank: map<string, nat>)
    requires nodes == [ParentOfRoot(), RootChild()] && rank == map[RootId := 0, "a" := 1]
    ensures Ranked(nodes, rank) && RootsRanked(nodes, rank)
    ensures Markdown(nodes, rank) == Title + "# A\n\n" + "## R\n\n" + "# R\n\n"
  {
    TwiceRanked(nodes, rank);
    TwiceSections(nodes, rank);
    SectionsOfTwo(nodes, nodes, rank);
    var x, y, z := "# A\n\n", "## R\n\n", "# R\n\n";
    assert Sections(nodes, nodes, rank) == (x + y) + z;
    assert Markdown(nodes, rank) == Title + ((x + y) + z);
    ConcatAssoc(Title, x + y, z);
    ConcatAssoc(Title, x, y);
  }

  /** In the example map both nodes are ranked and both are roots. */
  lemma TwiceRanked(nodes: seq<Node>, rank: map<string, nat>)
    requires nodes == [ParentOfRoot(), RootChild()] && rank == map[RootId := 0, "a" := 1]
    ensures Ranked(nodes, rank) && Roots(nodes) == nodes
    ensures RankedNodes(nodes, nodes, rank) && RootsRanked(nodes, rank)
  {
    assert ChildIds(nodes[0]) == [RootId] && ChildIds(nodes[1]) == [];
    assert ChildIdSet(nodes) == {RootId} by {
      assert nodes[..1][..0] == [];
      assert ChildIdSet(nodes[..1]) == {RootId};
    }
    FilterAllKept(nodes, (n: Node) => IsRoot({RootId}, n));
    assert forall i :: 0 <= i < |nodes| ==> nodes[i].id in rank;
  }

  /** The document body of two roots is the first root's sections followed by the second's. */
  lemma SectionsOfTwo(roots: seq<Node>, nodes: seq<Node>, rank: map<string, nat>)
    requires |roots| == 2 && Ranked(nodes, rank) && RankedNodes(roots, nodes, rank)
    ensures Sections(roots, nodes, rank) == ProcessNode(roots[0], nodes, 1, rank) + ProcessNode(roots[1], nodes, 1, rank)
  {
    var first := roots[..1];
    assert first[..0] == [] && first[0] == roots[0] && roots[..|roots| - 1] == first;
    assert Sections(first, nodes, rank) == ProcessNode(roots[0], nodes, 1, rank);
  }

  /** A heading-only section spelt out: the `#` run, a space, the name and a blank line. */
  lemma SectionText(depth: nat, n: Node, hashes: string)
    requires 1 <= depth <= MaxHeadingLevel && hashes == Hashes(depth) && !HasDescription(n)
    ensures Section(depth, n) == hashes + " " + n.name + "\n\n"
  {
  }

  lemma TwiceSections(nodes: seq<Node>, rank: map<string, nat>)
    requires nodes == [ParentOfRoot(), RootChild()] && rank == map[RootId := 0, "a" := 1]
    ensures Ranked(nodes, rank)
    ensures ProcessNode(nodes[0], nodes, 1, rank) == "# A\n\n" + "## R\n\n"
    ensures ProcessNode(nodes[1], nodes, 1, rank) == "# R\n\n"
  {
    var a, r := nodes[0], nodes[1];
    TwiceRanked(nodes, rank);
    TwiceHeadings(a, r);
    TwiceChildText(nodes, rank);
    assert ChildIds(r) == [] && ChildIds(a) == [RootId];
    assert ProcessNode(a, nodes, 1, rank) == Section(1, a) + ProcessChildren([RootId], nodes, 2, rank, 1);
  }

  lemma TwiceHeadings(a: Node, r: Node)
    requires a == ParentOfRoot() && r == RootChild()
    ensures Section(1, a) == "# A\n\n" && Section(1, r) == "# R\n\n" && Section(2, r) == "## R\n\n"
  {
    assert Section(1, a) == "# A\n\n" by {
      assert Hashes(1) == "#";
      SectionText(1, a, "#");
    }
    assert Section(1, r) == "# R\n\n" by {
      assert Hashes(1) == "#";
      SectionText(1, r, "#");
    }
    assert Section(2, r) == "## R\n\n" by {
      assert Hashes(2) == "##";
      SectionText(2, r, "##");
    }
  }

  lemma TwiceChildText(nodes: seq<Node>, rank: map<string, nat>)
    requires nodes == [ParentOfRoot(), RootChild()] && rank == map[RootId := 0, "a" := 1]
    requires Ranked(nodes, rank) && Section(2, nodes[1]) == "## R\n\n"
    ensures BelowRank([RootId], nodes, rank, 1)
    ensures ProcessChildren([RootId], nodes, 2, rank, 1) == "## R\n\n"
  {
    var r := nodes[1];
    assert Find(nodes, RootId) == Some(r) && ChildIds(r) == [];
    assert ProcessChildren([RootId], nodes, 2, rank, 1) == ProcessNode(r, nodes, 2, rank) + "";
  }

}
