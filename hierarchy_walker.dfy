/**
 * The part of the hierarchy walker the two walker variants share: root
 * resolution at construction, the direct-children listing and the ancestor
 * (breadcrumb) walk.
 */
module HierarchyWalker {
  import opened Wrappers
  import opened PhpArray
  import opened Repository
  import opened Collecting
  import opened AttributeCollector

  /** The default title property of the walker under Service/. */
  const ServiceDefaultTitleprop := "label"
  /** The default title property of the walker under Services/. */
  const ServicesDefaultTitleprop := "name"

  /**
   * A constructed walker: the session's store, the mapper, the title property
   * and the navigation root, none of which changes after construction.
   */
  datatype Walker = Walker(store: Node, mapper: PathMapper, titleprop: string, rootnode: Address)
  {
    ghost predicate Valid() { ValidAddr(store, rootnode) }
  }

  /**
   * The constructor: the root is the node stored under the storage id of url
   * `/`; construction fails when there is none.
   */
  function NewWalker(store: Node, mapper: PathMapper, titleprop: string): (r: Result<Walker>)
    ensures r.Err? <==> forall a :: ValidAddr(store, a) ==> NodeAt(store, a).path != mapper.getStorageId("/")
    ensures r.Err? ==> r.error == RootNotFound
    ensures r.Ok? ==> (r.value.Valid() && r.value.store == store && r.value.mapper == mapper &&
      r.value.titleprop == titleprop && NodeAt(store, r.value.rootnode).path == mapper.getStorageId("/"))
  {
    match GetNode(store, mapper.getStorageId("/"))
    case None =>
      assert forall a :: ValidAddr(store, a) ==> NodeAt(store, a).path != mapper.getStorageId("/") by {
        forall a | ValidAddr(store, a) ensures NodeAt(store, a).path != mapper.getStorageId("/") {
          GetNodeComplete(store, mapper.getStorageId("/"), a);
        }
      }
      Err(RootNotFound)
    case Some(root) =>
      assert ValidAddr(store, root) && NodeAt(store, root).path == mapper.getStorageId("/");
      Ok(Walker(store, mapper, titleprop, root))
  }

  /** The node a url denotes, or the session's error. */
  function Resolve(w: Walker, url: string): (r: Result<Address>)
    ensures r.Ok? ==> ValidAddr(w.store, r.value) && NodeAt(w.store, r.value).path == w.mapper.getStorageId(url)
    ensures r.Err? ==> (r.error == PathNotFound &&
      forall a :: ValidAddr(w.store, a) ==> NodeAt(w.store, a).path != w.mapper.getStorageId(url))
  {
    match GetNode(w.store, w.mapper.getStorageId(url))
    case None =>
      assert forall a :: ValidAddr(w.store, a) ==> NodeAt(w.store, a).path != w.mapper.getStorageId(url) by {
        forall a | ValidAddr(w.store, a) ensures NodeAt(w.store, a).path != w.mapper.getStorageId(url) {
          GetNodeComplete(w.store, w.mapper.getStorageId(url), a);
        }
      }
      Err(PathNotFound)
    case Some(a) => Ok(a)
  }

  /** The child list `getChildList(url)` returns: `url => title` for every child, in store order. */
  function ChildList(w: Walker, url: string): Result<Entries<string>>
  {
    match Resolve(w, url)
    case Err(e) => Err(e)
    case Ok(a) =>
      var c := Collect(AttrStep(w.store, w.mapper, w.titleprop), [], ChildAddrs(w.store, a));
      if c.ok then Ok(c.entries) else Err(PropertyNotFound)
  }

  /** `visitChildren`: lets the visitor visit every direct child of the node at `url`, in store order. */
  method VisitChildren(w: Walker, url: string, v: AttributeCollectorVisitor) returns (o: Outcome)
    modifies v
    ensures Resolve(w, url).Err? ==> o == Fail(PathNotFound) && v.tree == old(v.tree)
    ensures Resolve(w, url).Ok? ==>
      var c := Collect(AttrStep(w.store, v.mapper, v.titleprop), old(v.tree), ChildAddrs(w.store, Resolve(w, url).value));
      v.tree == c.entries && (o == Pass <==> c.ok) && (!c.ok ==> o == Fail(PropertyNotFound))
  {
    var node := Resolve(w, url);
    if node.Err? {
      return Fail(PathNotFound);
    }
    var kids := ChildAddrs(w.store, node.value);
    ghost var step := AttrStep(w.store, v.mapper, v.titleprop);
    var i := 0;
    while i < |kids|
      invariant 0 <= i <= |kids|
      invariant Collect(step, old(v.tree), kids[..i]) == Collected(v.tree, true)
    {
      CollectAdvance(step, old(v.tree), kids, i, v.tree);
      o := v.Visit(w.store, NodeItem(kids[i]));
      if o.Fail? {
        return;
      }
      i := i + 1;
    }
    assert kids[..i] == kids;
    o := Pass;
  }

  /** `getChildList`: a fresh attribute collector visits the children of `url`. */
  method GetChildList(w: Walker, url: string) returns (r: Result<Entries<string>>)
    ensures r == ChildList(w, url)
  {
    var visitor := new AttributeCollectorVisitor(w.titleprop, w.mapper);
    var o := VisitChildren(w, url, visitor);
    if o.Fail? {
      return Err(o.error);
    }
    r := Ok(visitor.GetArray());
  }

  /** A node without children has an empty child list. */
  lemma ChildListOfLeaf(w: Walker, url: string)
    requires Resolve(w, url).Ok? && NodeAt(w.store, Resolve(w, url).value).children == []
    ensures ChildList(w, url) == Ok([])
  {
  }

  /** The child list fails exactly when no node is stored under the url's storage id, or a child lacks a title. */
  lemma ChildListFails(w: Walker, url: string)
    ensures Resolve(w, url).Err? ==> ChildList(w, url) == Err(PathNotFound)
    ensures Resolve(w, url).Ok? ==>
      (ChildList(w, url).Err? <==>
       exists c :: c in NodeAt(w.store, Resolve(w, url).value).children && w.titleprop !in c.props)
  {
    if Resolve(w, url).Ok? {
      var a := Resolve(w, url).value;
      var kids := ChildAddrs(w.store, a);
      CollectOk(AttrStep(w.store, w.mapper, w.titleprop), [], kids);
      if ChildList(w, url).Err? {
        var c := Collect(AttrStep(w.store, w.mapper, w.titleprop), [], kids);
        var i :| 0 <= i < |kids| && AttrStep(w.store, w.mapper, w.titleprop)(kids[i]).None?;
        assert NodeAt(w.store, a).children[i] in NodeAt(w.store, a).children;
      }
    }
  }

  /**
   * With every child titled and the children's urls pairwise distinct, the
   * child list holds one `url => title` entry per child, in store order.
   */
  lemma ChildListInOrder(w: Walker, url: string)
    requires Resolve(w, url).Ok?
    requires AllHave(w.titleprop, NodeAt(w.store, Resolve(w, url).value).children)
    requires DistinctUrls(w.mapper, NodeAt(w.store, Resolve(w, url).value).children)
    ensures var n := NodeAt(w.store, Resolve(w, url).value);
      ChildList(w, url).Ok? && |ChildList(w, url).value| == |n.children| &&
      forall i :: 0 <= i < |n.children| ==>
        ChildList(w, url).value[i] == (w.mapper.getUrl(n.children[i].path), n.children[i].props[w.titleprop])
  {
    var a := Resolve(w, url).value;
    var kids := ChildAddrs(w.store, a);
    var n := NodeAt(w.store, a);
    forall i | 0 <= i < |kids|
      ensures ValidAddr(w.store, kids[i]) && w.titleprop in NodeAt(w.store, kids[i]).props
    {
      assert NodeAt(w.store, kids[i]) == n.children[i];
    }
    DistinctChildUrls(w.store, w.mapper, a);
    CollectAttributesInOrder(w.store, w.mapper, w.titleprop, kids);
  }

  /** The handles of the ancestors of `a` at depths `from`, `from + 1`, ..., `|a| - 1`. */
  function AncestorAddrs(a: Address, from: nat): seq<Address>
    requires from <= |a|
  {
    seq(|a| - from, k requires 0 <= k < |a| - from => a[..from + k])
  }

  /**
   * The breadcrumb `getAncestors(url)` returns: `url => title` for the ancestors
   * of the node at `url` from the navigation root's depth down to its parent.
   */
  function AncestorList(w: Walker, url: string): Result<Entries<string>>
  {
    match Resolve(w, url)
    case Err(e) => Err(e)
    case Ok(a) =>
      if |w.rootnode| > |a| then Err(AncestorNotFound)
      else
        PrefixesValid(w.store, a);
        var c := Collect(AttrStep(w.store, w.mapper, w.titleprop), [], AncestorAddrs(a, |w.rootnode|));
        if c.ok then Ok(c.entries) else Err(PropertyNotFound)
  }

  lemma PrefixesValid(s: Node, a: Address)
    requires ValidAddr(s, a)
    ensures forall k: nat :: k <= |a| ==> ValidAddr(s, a[..k])
  {
    forall k: nat | k <= |a| ensures ValidAddr(s, a[..k]) { PrefixIsValid(s, a, k); }
  }

  /**
   * `visitAncestors`: starting at the navigation root's depth, fetches the
   * ancestor of the node at `url` at each depth in turn and lets the visitor
   * visit it, until the ancestor fetched is the node itself.
   */
  method VisitAncestors(w: Walker, url: string, v: AttributeCollectorVisitor) returns (o: Outcome)
    modifies v
    ensures Resolve(w, url).Err? ==> o == Fail(PathNotFound) && v.tree == old(v.tree)
    ensures Resolve(w, url).Ok? && |w.rootnode| > |Resolve(w, url).value| ==>
      o == Fail(AncestorNotFound) && v.tree == old(v.tree)
    ensures Resolve(w, url).Ok? && |w.rootnode| <= |Resolve(w, url).value| ==>
      var c := Collect(AttrStep(w.store, v.mapper, v.titleprop), old(v.tree),
                       AncestorAddrs(Resolve(w, url).value, |w.rootnode|));
      v.tree == c.entries && (o == Pass <==> c.ok) && (!c.ok ==> o == Fail(PropertyNotFound))
  {
    var node := Resolve(w, url);
    if node.Err? {
      return Fail(PathNotFound);
    }
    var a := node.value;
    PrefixesValid(w.store, a);
    ghost var step := AttrStep(w.store, v.mapper, v.titleprop);
    ghost var from := |w.rootnode|;
    ghost var chain := if from <= |a| then AncestorAddrs(a, from) else [];
    var i := |w.rootnode|;
    while true
      invariant from <= i
      invariant from > |a| ==> i == from && v.tree == old(v.tree)
      invariant from <= |a| ==> (i <= |a| &&
        Collect(step, old(v.tree), chain[..i - from]) == Collected(v.tree, true))
      decreases |a| + 1 - i
    {
      var ancestor := GetAncestor(a, i);
      i := i + 1;
      if ancestor == Some(a) {
        break;
      }
      if ancestor.None? {
        return Fail(AncestorNotFound);
      }
      ghost var k := i - 1 - from;
      assert chain[k] == ancestor.value;
      CollectAdvance(step, old(v.tree), chain, k, v.tree);
      o := v.Visit(w.store, NodeItem(ancestor.value));
      if o.Fail? {
        return;
      }
    }
    assert chain[..i - 1 - from] == chain;
    o := Pass;
  }

  /** `getAncestors`: a fresh attribute collector visits the ancestors of `url`. */
  method GetAncestors(w: Walker, url: string) returns (r: Result<Entries<string>>)
    ensures r == AncestorList(w, url)
  {
    var visitor := new AttributeCollectorVisitor(w.titleprop, w.mapper);
    var o := VisitAncestors(w, url, visitor);
    if o.Fail? {
      return Err(o.error);
    }
    r := Ok(visitor.GetArray());
  }

  /**
   * The ancestor walk visits `|a| - from` handles, one per depth, in
   * root-to-parent order; each is a proper ancestor of `a`, so the node itself
   * is never visited; the first is the ancestor at depth `from`.
   */
  lemma {:induction false} AncestorAddrsShape(a: Address, from: nat)
    requires from <= |a|
    ensures var chain := AncestorAddrs(a, from);
      |chain| == |a| - from &&
      (forall k :: 0 <= k < |chain| ==> |chain[k]| == from + k && chain[k] < a) &&
      a !in chain &&
      (from < |a| ==> chain[0] == a[..from] && chain[|chain| - 1] == a[..|a| - 1])
  {
    var chain := AncestorAddrs(a, from);
    forall k | 0 <= k < |chain| ensures |chain[k]| == from + k && chain[k] < a {
      assert chain[k] == a[..from + k];
    }
  }

  /** The ancestor nodes of the node at `a` at depths `from`, ..., `|a| - 1`. */
  function AncestorNodes(s: Node, a: Address, from: nat): (r: seq<Node>)
    requires ValidAddr(s, a) && from <= |a|
    ensures |r| == |a| - from
  {
    PrefixesValid(s, a);
    seq(|a| - from, k requires 0 <= k < |a| - from => NodeAt(s, a[..from + k]))
  }

  /**
   * When the node at `url` lies below the navigation root, every ancestor is
   * titled and their urls are pairwise distinct, the breadcrumb has
   * `depth(node) - depth(root)` entries, one per ancestor from the root down to
   * the parent, the first being the root's.
   */
  lemma AncestorListShape(w: Walker, url: string)
    requires w.Valid() && Resolve(w, url).Ok?
    requires var a := Resolve(w, url).value; |w.rootnode| <= |a| && a[..|w.rootnode|] == w.rootnode
    requires var a := Resolve(w, url).value;
      AllHave(w.titleprop, AncestorNodes(w.store, a, |w.rootnode|)) &&
      DistinctUrls(w.mapper, AncestorNodes(w.store, a, |w.rootnode|))
    ensures var a := Resolve(w, url).value;
      var r := AncestorList(w, url);
      r.Ok? && |r.value| == |a| - |w.rootnode| &&
      (forall k :: 0 <= k < |r.value| ==>
        var anc := AncestorNodes(w.store, a, |w.rootnode|)[k];
        r.value[k] == (w.mapper.getUrl(anc.path), anc.props[w.titleprop])) &&
      (|w.rootnode| < |a| ==> r.value[0].0 == w.mapper.getUrl(NodeAt(w.store, w.rootnode).path))
  {
    var a := Resolve(w, url).value;
    var from := |w.rootnode|;
    var chain := AncestorAddrs(a, from);
    var nodes := AncestorNodes(w.store, a, from);
    PrefixesValid(w.store, a);
    forall k | 0 <= k < |chain|
      ensures chain[k] == a[..from + k] && ValidAddr(w.store, chain[k]) && NodeAt(w.store, chain[k]) == nodes[k]
      ensures w.titleprop in NodeAt(w.store, chain[k]).props
    {
    }
    forall k, m | 0 <= k < m < |chain|
      ensures w.mapper.getUrl(NodeAt(w.store, chain[k]).path) != w.mapper.getUrl(NodeAt(w.store, chain[m]).path)
    {
      assert NodeAt(w.store, chain[k]) == nodes[k] && NodeAt(w.store, chain[m]) == nodes[m];
    }
    CollectAttributesInOrder(w.store, w.mapper, w.titleprop, chain);
  }
}
