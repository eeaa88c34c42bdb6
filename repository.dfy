/**
 * The content repository seen by the navigation core: an immutable finite tree
 * of nodes, a handle per position, the session's lookup by storage id, the
 * node's ancestor-by-depth operation, and the path mapper between public urls
 * and storage ids.
 */
module Repository {
  import opened Wrappers

  /** A stored node: its storage path, its string properties and its ordered children. */
  datatype Node = Node(path: string, props: map<string, string>, children: seq<Node>)

  /**
   * A node handle: the child indices leading from the repository root to the
   * node. Its length is the node's depth (the repository root has depth 0).
   */
  type Address = seq<nat>

  /** The items a visitor may be handed: nodes, and properties (which it rejects). */
  datatype Item = NodeItem(addr: Address) | PropertyItem(addr: Address, name: string)

  /** The path mapper: translation of storage ids to urls and back, left uninterpreted. */
  datatype PathMapper = PathMapper(getUrl: string -> string, getStorageId: string -> string)

  /** `a` denotes a node of the tree rooted at `n`. */
  predicate ValidAddr(n: Node, a: Address)
    decreases |a|
  {
    a == [] || (a[0] < |n.children| && ValidAddr(n.children[a[0]], a[1..]))
  }

  /** The node a handle denotes. */
  function NodeAt(n: Node, a: Address): Node
    requires ValidAddr(n, a)
    decreases |a|
  {
    if a == [] then n else NodeAt(n.children[a[0]], a[1..])
  }

  /** `q` is a handle on a direct child of the node at `p`. */
  predicate ChildOf(s: Node, q: Address, p: Address)
  {
    ValidAddr(s, p) && |q| == |p| + 1 && q[..|p|] == p && ValidAddr(s, q)
  }

  /** Extending a handle by a child index reaches that child. */
  lemma {:induction false} NodeAtChild(n: Node, p: Address, i: nat)
    requires ValidAddr(n, p) && i < |NodeAt(n, p).children|
    ensures ValidAddr(n, p + [i]) && NodeAt(n, p + [i]) == NodeAt(n, p).children[i]
    decreases |p|
  {
    if p != [] {
      assert (p + [i])[0] == p[0] && (p + [i])[1..] == p[1..] + [i];
      NodeAtChild(n.children[p[0]], p[1..], i);
    } else {
      assert ([] + [i])[1..] == [];
    }
  }

  /** A child handle denotes one of the parent's children, so it is structurally smaller. */
  lemma ChildOfRank(s: Node, q: Address, p: Address)
    requires ChildOf(s, q, p)
    ensures q[|p|] < |NodeAt(s, p).children| && NodeAt(s, q) == NodeAt(s, p).children[q[|p|]]
  {
    assert q == p + [q[|p|]];
    PrefixValid(s, q, |p|, q[|p|]);
    NodeAtChild(s, p, q[|p|]);
  }

  lemma {:induction false} PrefixValid(n: Node, q: Address, k: nat, j: nat)
    requires ValidAddr(n, q) && k < |q| && j == q[k]
    ensures ValidAddr(n, q[..k]) && j < |NodeAt(n, q[..k]).children|
    decreases k
  {
    if k > 0 {
      assert q[..k][0] == q[0] && q[..k][1..] == q[1..][..k - 1];
      PrefixValid(n.children[q[0]], q[1..], k - 1, j);
    }
  }

  /** Every prefix of a handle is a handle: the ancestors of a node exist. */
  lemma PrefixIsValid(n: Node, q: Address, k: nat)
    requires ValidAddr(n, q) && k <= |q|
    ensures ValidAddr(n, q[..k])
  {
    if k < |q| { PrefixValid(n, q, k, q[k]); } else { assert q[..k] == q; }
  }

  /** The handles of the direct children of the node at `a`, in the store's order. */
  function ChildAddrs(s: Node, a: Address): (r: seq<Address>)
    requires ValidAddr(s, a)
    ensures |r| == |NodeAt(s, a).children|
    ensures forall i :: 0 <= i < |r| ==> ChildOf(s, r[i], a) && NodeAt(s, r[i]) == NodeAt(s, a).children[i]
  {
    var r := seq(|NodeAt(s, a).children|, i requires 0 <= i < |NodeAt(s, a).children| => a + [i]);
    assert forall i :: 0 <= i < |r| ==> r[i][..|a|] == a;
    ChildrenReachable(s, a);
    r
  }

  /** The nodes' urls under `mapper` are pairwise distinct. */
  predicate DistinctUrls(mapper: PathMapper, nodes: seq<Node>)
  {
    forall i, j :: 0 <= i < j < |nodes| ==> mapper.getUrl(nodes[i].path) != mapper.getUrl(nodes[j].path)
  }

  /** Every one of the nodes carries the property `name`. */
  predicate AllHave(name: string, nodes: seq<Node>)
  {
    forall i :: 0 <= i < |nodes| ==> name in nodes[i].props
  }

  /** Children with pairwise distinct urls give child handles with pairwise distinct urls. */
  lemma DistinctChildUrls(s: Node, mapper: PathMapper, a: Address)
    requires ValidAddr(s, a) && DistinctUrls(mapper, NodeAt(s, a).children)
    ensures var kids := ChildAddrs(s, a);
      forall i, j :: 0 <= i < j < |kids| ==> mapper.getUrl(NodeAt(s, kids[i]).path) != mapper.getUrl(NodeAt(s, kids[j]).path)
  {
    var n := NodeAt(s, a);
    var kids := ChildAddrs(s, a);
    forall i, j | 0 <= i < j < |kids|
      ensures mapper.getUrl(NodeAt(s, kids[i]).path) != mapper.getUrl(NodeAt(s, kids[j]).path)
    {
      assert NodeAt(s, kids[i]) == n.children[i] && NodeAt(s, kids[j]) == n.children[j];
    }
  }

  lemma ChildrenReachable(s: Node, a: Address)
    requires ValidAddr(s, a)
    ensures forall i: nat :: i < |NodeAt(s, a).children| ==>
      ValidAddr(s, a + [i]) && NodeAt(s, a + [i]) == NodeAt(s, a).children[i]
  {
    forall i: nat | i < |NodeAt(s, a).children|
      ensures ValidAddr(s, a + [i]) && NodeAt(s, a + [i]) == NodeAt(s, a).children[i]
    {
      NodeAtChild(s, a, i);
    }
  }

  /**
   * `$node->getAncestor($depth)`: the ancestor at the given depth; the node itself
   * when `depth` is its own depth; an error for a deeper or negative depth.
   */
  function GetAncestor(a: Address, depth: int): (r: Option<Address>)
    ensures r.Some? <==> 0 <= depth <= |a|
    ensures r.Some? ==> |r.value| == depth && r.value <= a && r.value == a[..depth]
    ensures r == Some(a) <==> depth == |a|
  {
    if 0 <= depth <= |a| then
      assert depth < |a| ==> a[..depth] != a by { assert |a[..depth]| == depth; }
      assert depth == |a| ==> a[..depth] == a;
      Some(a[..depth])
    else None
  }

  /**
   * `$session->getNode($id)`: the first node, in pre-order, stored under `id`.
   */
  function GetNode(n: Node, id: string): (r: Option<Address>)
    ensures r.Some? ==> ValidAddr(n, r.value) && NodeAt(n, r.value).path == id
    decreases n, 1, 0
  {
    if n.path == id then Some([]) else GetNodeAmong(n, id, 0)
  }

  /** Searches the subtrees of `n.children[i..]` in order. */
  function GetNodeAmong(n: Node, id: string, i: nat): (r: Option<Address>)
    requires i <= |n.children|
    ensures r.Some? ==> ValidAddr(n, r.value) && r.value != [] && r.value[0] >= i && NodeAt(n, r.value).path == id
    decreases n, 0, |n.children| - i
  {
    if i == |n.children| then None
    else match GetNode(n.children[i], id)
      case Some(a) =>
        assert ([i] + a)[0] == i && ([i] + a)[1..] == a;
        Some([i] + a)
      case None => GetNodeAmong(n, id, i + 1)
  }

  /** The lookup misses only when no node at all is stored under `id`. */
  lemma {:induction false} GetNodeComplete(n: Node, id: string, a: Address)
    requires GetNode(n, id).None? && ValidAddr(n, a)
    ensures NodeAt(n, a).path != id
    decreases n, 1, 0
  {
    if a != [] {
      GetNodeAmongComplete(n, id, 0, a);
    }
  }

  lemma {:induction false} GetNodeAmongComplete(n: Node, id: string, i: nat, a: Address)
    requires i <= |n.children| && GetNodeAmong(n, id, i).None?
    requires ValidAddr(n, a) && a != [] && a[0] >= i
    ensures NodeAt(n, a).path != id
    decreases n, 0, |n.children| - i
  {
    if a[0] == i {
      GetNodeComplete(n.children[i], id, a[1..]);
    } else {
      GetNodeAmongComplete(n, id, i + 1, a);
    }
  }

  /** `$node->getPropertyValue($name)`, failing when the node has no such property. */
  function PropertyValue(s: Node, a: Address, name: string): (r: Option<string>)
    requires ValidAddr(s, a)
    ensures r.Some? <==> name in NodeAt(s, a).props
    ensures r.Some? ==> r.value == NodeAt(s, a).props[name]
  {
    if name in NodeAt(s, a).props then Some(NodeAt(s, a).props[name]) else None
  }
}
