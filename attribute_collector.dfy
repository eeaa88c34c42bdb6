/** The visitor that collects `url => title` into a flat ordered array. */
module AttributeCollector {
  import opened Wrappers
  import opened PhpArray
  import opened Repository
  import opened Collecting

  /** What one visit of the node at `a` stores: its url and the value of its title property. */
  function AttrStep(s: Node, mapper: PathMapper, titleprop: string): Step<string>
  {
    a => if ValidAddr(s, a) && titleprop in NodeAt(s, a).props
         then Some((mapper.getUrl(NodeAt(s, a).path), NodeAt(s, a).props[titleprop]))
         else None
  }

  class AttributeCollectorVisitor {
    const titleprop: string
    const mapper: PathMapper
    var tree: Entries<string>

    constructor (titleprop: string, mapper: PathMapper)
      ensures this.titleprop == titleprop && this.mapper == mapper
      ensures tree == []
    {
      this.titleprop := titleprop;
      this.mapper := mapper;
      tree := [];
    }

    /**
     * Visits one item of the store `s`: a node's url is mapped to its title;
     * anything else, or a node without the title property, fails and leaves the
     * array as it was.
     */
    method Visit(s: Node, item: Item) returns (o: Outcome)
      requires item.NodeItem? ==> ValidAddr(s, item.addr)
      modifies this
      ensures item.PropertyItem? ==> o == Fail(NotANode) && tree == old(tree)
      ensures item.NodeItem? && titleprop !in NodeAt(s, item.addr).props ==>
        o == Fail(PropertyNotFound) && tree == old(tree)
      ensures item.NodeItem? && titleprop in NodeAt(s, item.addr).props ==>
        o == Pass &&
        tree == Assign(old(tree), mapper.getUrl(NodeAt(s, item.addr).path), NodeAt(s, item.addr).props[titleprop])
      ensures item.NodeItem? ==>
        match AttrStep(s, mapper, titleprop)(item.addr)
        case None => o == Fail(PropertyNotFound) && tree == old(tree)
        case Some(kv) => o == Pass && tree == Assign(old(tree), kv.0, kv.1)
    {
      if !item.NodeItem? {
        return Fail(NotANode);
      }
      var url := mapper.getUrl(NodeAt(s, item.addr).path);
      var title := PropertyValue(s, item.addr, titleprop);
      if title.None? {
        return Fail(PropertyNotFound);
      }
      tree := Assign(tree, url, title.value);
      o := Pass;
    }

    /** The aggregated array. */
    function GetArray(): Entries<string>
      reads this
    {
      tree
    }

    /** Resets the aggregated array to empty. */
    method Reset()
      modifies this
      ensures tree == []
    {
      tree := [];
    }
  }

  /** Visiting a url that is already a key overwrites its title: the size and the key order stay. */
  lemma VisitOverwrites(s: Node, mapper: PathMapper, titleprop: string, tree: Entries<string>, a: Address)
    requires ValidAddr(s, a) && titleprop in NodeAt(s, a).props
    requires mapper.getUrl(NodeAt(s, a).path) in Keys(tree)
    ensures var url := mapper.getUrl(NodeAt(s, a).path);
      var tree' := Assign(tree, url, NodeAt(s, a).props[titleprop]);
      |tree'| == |tree| && Keys(tree') == Keys(tree) && Get(tree', url) == Some(NodeAt(s, a).props[titleprop])
  {
    GetAssignSame(tree, mapper.getUrl(NodeAt(s, a).path), NodeAt(s, a).props[titleprop]);
  }

  /** A visit leaves the titles of all other urls as they were. */
  lemma VisitKeepsOthers(s: Node, mapper: PathMapper, titleprop: string, tree: Entries<string>, a: Address, other: string)
    requires ValidAddr(s, a) && titleprop in NodeAt(s, a).props
    requires other != mapper.getUrl(NodeAt(s, a).path)
    ensures Get(Assign(tree, mapper.getUrl(NodeAt(s, a).path), NodeAt(s, a).props[titleprop]), other) == Get(tree, other)
  {
    GetAssignOther(tree, mapper.getUrl(NodeAt(s, a).path), NodeAt(s, a).props[titleprop], other);
  }

  /**
   * Visiting nodes that all carry the title property and have pairwise distinct
   * urls, starting from an empty array, yields exactly their `url => title`
   * pairs, in visit order.
   */
  lemma CollectAttributesInOrder(s: Node, mapper: PathMapper, titleprop: string, items: seq<Address>)
    requires forall i :: 0 <= i < |items| ==> ValidAddr(s, items[i]) && titleprop in NodeAt(s, items[i]).props
    requires forall i, j :: 0 <= i < j < |items| ==>
      mapper.getUrl(NodeAt(s, items[i]).path) != mapper.getUrl(NodeAt(s, items[j]).path)
    ensures var c := Collect(AttrStep(s, mapper, titleprop), [], items);
      c.ok && |c.entries| == |items| &&
      forall i :: 0 <= i < |items| ==>
        c.entries[i] == (mapper.getUrl(NodeAt(s, items[i]).path), NodeAt(s, items[i]).props[titleprop])
  {
    CollectDistinct(AttrStep(s, mapper, titleprop), [], items);
  }
}
