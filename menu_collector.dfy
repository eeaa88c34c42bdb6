/**
 * The visitor that collects menu records `url => {url, title, selected, node}`,
 * where `selected` says whether the node's url is a byte prefix of the url of
 * the currently opened menu item.
 */
module MenuCollector {
  import opened Wrappers
  import opened PhpArray
  import opened Repository
  import opened Collecting

  /** One menu record as the visitor stores it (the `children` key is added later by the walker). */
  datatype MenuRecord = MenuRecord(url: string, title: string, selected: bool, node: Address)

  /**
   * PHP's binary-safe `strncmp($a, $b, $n)`: compares the first
   * `min(n, |a|, |b|)` characters; when those agree, the result is the
   * difference of the lengths cut at `n`. Only its sign is meaningful.
   */
  function Strncmp(a: string, b: string, n: nat): int
    decreases n
  {
    if n == 0 then 0
    else if a == [] || b == [] then Min(n, |a|) - Min(n, |b|)
    else if a[0] != b[0] then a[0] as int - b[0] as int
    else Strncmp(a[1..], b[1..], n - 1)
  }

  function Min(x: int, y: int): int { if x <= y then x else y }

  /** `strncmp` reports equality exactly when both strings, cut at `n`, are equal. */
  lemma {:induction false} StrncmpZero(a: string, b: string, n: nat)
    ensures Strncmp(a, b, n) == 0 <==> a[..Min(n, |a|)] == b[..Min(n, |b|)]
    decreases n
  {
    if n == 0 {
    } else if a == [] || b == [] {
      assert |a[..Min(n, |a|)]| == Min(n, |a|) && |b[..Min(n, |b|)]| == Min(n, |b|);
    } else {
      StrncmpZero(a[1..], b[1..], n - 1);
      CutCons(a, n);
      CutCons(b, n);
      ConsEqual(a[0], a[1..][..Min(n - 1, |a| - 1)], b[0], b[1..][..Min(n - 1, |b| - 1)]);
    }
  }

  /** Cutting a non-empty string at `n > 0` keeps its head and cuts its tail at `n - 1`. */
  lemma CutCons(a: string, n: nat)
    requires n > 0 && a != []
    ensures a[..Min(n, |a|)] == [a[0]] + a[1..][..Min(n - 1, |a| - 1)]
  {
  }

  lemma ConsEqual(x: char, xs: string, y: char, ys: string)
    ensures [x] + xs == [y] + ys <==> x == y && xs == ys
  {
    if [x] + xs == [y] + ys {
      assert ([x] + xs)[0] == x && ([y] + ys)[0] == y;
      assert ([x] + xs)[1..] == xs && ([y] + ys)[1..] == ys;
    }
  }

  /** `u` is a prefix of `s`. */
  predicate IsPrefix(u: string, s: string)
  {
    |u| <= |s| && s[..|u|] == u
  }

  /** The visitor's test: `strncmp($url, $selectedurl, strlen($url)) === 0`. */
  predicate Selected(url: string, selectedurl: string)
  {
    Strncmp(url, selectedurl, |url|) == 0
  }

  /** A url is selected exactly when it is a prefix of the selected url. */
  lemma SelectedIffPrefix(url: string, selectedurl: string)
    ensures Selected(url, selectedurl) <==> IsPrefix(url, selectedurl)
  {
    StrncmpZero(url, selectedurl, |url|);
    assert url[..|url|] == url;
  }

  /** The opened item itself is selected, and no url longer than it is. */
  lemma SelectedSelfNotLonger(selectedurl: string, url: string)
    ensures Selected(selectedurl, selectedurl)
    ensures |url| > |selectedurl| ==> !Selected(url, selectedurl)
  {
    SelectedIffPrefix(selectedurl, selectedurl);
    SelectedIffPrefix(url, selectedurl);
  }

  /** The test is not aware of path segments: `/bla` counts as selected below `/blabla`. */
  lemma SelectedNotSegmentAware()
    ensures Selected("/bla", "/blabla")
    ensures !Selected("/blabla", "/bla")
  {
    SelectedIffPrefix("/bla", "/blabla");
    SelectedIffPrefix("/blabla", "/bla");
  }

  /**
   * A reading of "on the selected path" that respects path segments: `url` is
   * a prefix of `selectedurl` that ends where a segment ends. The model keeps
   * the visitor's byte test; this predicate only measures the difference.
   */
  predicate OnSelectedPath(url: string, selectedurl: string)
  {
    IsPrefix(url, selectedurl) &&
    (|url| == |selectedurl| || (|url| > 0 && url[|url| - 1] == '/') || selectedurl[|url|] == '/')
  }

  /**
   * The segment-aware reading implies the visitor's test, agrees with it on
   * the opened item itself, and tells `/bla` apart from `/blabla`.
   */
  lemma OnSelectedPathNarrowsSelected(url: string, selectedurl: string)
    ensures OnSelectedPath(url, selectedurl) ==> Selected(url, selectedurl)
    ensures Selected(url, selectedurl) && |url| == |selectedurl| ==> OnSelectedPath(url, selectedurl)
    ensures !OnSelectedPath("/bla", "/blabla") && OnSelectedPath("/bla", "/bla/x")
  {
    SelectedIffPrefix(url, selectedurl);
    assert "/bla/x"[..4] == "/bla";
  }

  /** What one visit of the node at `a` stores. */
  function MenuStep(s: Node, mapper: PathMapper, titleprop: string, selectedurl: string): Step<MenuRecord>
  {
    a => if ValidAddr(s, a) && titleprop in NodeAt(s, a).props
         then var url := mapper.getUrl(NodeAt(s, a).path);
              Some((url, MenuRecord(url, NodeAt(s, a).props[titleprop], Selected(url, selectedurl), a)))
         else None
  }

  class MenuCollectorVisitor {
    const titleprop: string
    const mapper: PathMapper
    const selectedurl: string
    var tree: Entries<MenuRecord>

    constructor (titleprop: string, mapper: PathMapper, selectedurl: string)
      ensures this.titleprop == titleprop && this.mapper == mapper && this.selectedurl == selectedurl
      ensures tree == []
    {
      this.titleprop := titleprop;
      this.mapper := mapper;
      this.selectedurl := selectedurl;
      tree := [];
    }

    /**
     * Visits one item of the store `s`: stores, under the node's url, a record
     * holding that url, the title, the selection flag and the node handle.
     * Anything but a node, or a node without the title property, fails and
     * leaves the array as it was.
     */
    method Visit(s: Node, item: Item) returns (o: Outcome)
      requires item.NodeItem? ==> ValidAddr(s, item.addr)
      modifies this
      ensures item.PropertyItem? ==> o == Fail(NotANode) && tree == old(tree)
      ensures item.NodeItem? && titleprop !in NodeAt(s, item.addr).props ==>
        o == Fail(PropertyNotFound) && tree == old(tree)
      ensures item.NodeItem? && titleprop in NodeAt(s, item.addr).props ==>
        var url := mapper.getUrl(NodeAt(s, item.addr).path);
        o == Pass &&
        tree == Assign(old(tree), url,
          MenuRecord(url, NodeAt(s, item.addr).props[titleprop], IsPrefix(url, selectedurl), item.addr))
      ensures item.NodeItem? ==>
        match MenuStep(s, mapper, titleprop, selectedurl)(item.addr)
        case None => o == Fail(PropertyNotFound) && tree == old(tree)
        case Some(kv) => o == Pass && tree == Assign(old(tree), kv.0, kv.1)
    {
      if !item.NodeItem? {
        return Fail(NotANode);
      }
      var url := mapper.getUrl(NodeAt(s, item.addr).path);
      var title := PropertyValue(s, item.addr, titleprop);
      if title.None? {
        return Fail(PropertyNotFound);
      }
      var selected := Strncmp(url, selectedurl, |url|) == 0;
      SelectedIffPrefix(url, selectedurl);
      tree := Assign(tree, url, MenuRecord(url, title.value, selected, item.addr));
      o := Pass;
    }

    /** The aggregated array. */
    function GetArray(): Entries<MenuRecord>
      reads this
    {
      tree
    }

    /** Resets the aggregated array to empty. */
    method Reset()
      modifies this
      ensures tree == []
    {
      tree := [];
    }
  }

  /**
   * Visiting nodes with pairwise distinct urls, all carrying the title
   * property, from an empty array, yields one record per node in visit order;
   * each record's url is its key and its node is the visited handle.
   */
  lemma CollectMenuInOrder(s: Node, mapper: PathMapper, titleprop: string, selectedurl: string, items: seq<Address>)
    requires forall i :: 0 <= i < |items| ==> ValidAddr(s, items[i]) && titleprop in NodeAt(s, items[i]).props
    requires forall i, j :: 0 <= i < j < |items| ==>
      mapper.getUrl(NodeAt(s, items[i]).path) != mapper.getUrl(NodeAt(s, items[j]).path)
    ensures var c := Collect(MenuStep(s, mapper, titleprop, selectedurl), [], items);
      c.ok && |c.entries| == |items| &&
      forall i :: 0 <= i < |items| ==>
        var url := mapper.getUrl(NodeAt(s, items[i]).path);
        c.entries[i] == (url, MenuRecord(url, NodeAt(s, items[i]).props[titleprop], IsPrefix(url, selectedurl), items[i]))
  {
    var step := MenuStep(s, mapper, titleprop, selectedurl);
    CollectDistinct(step, [], items);
    forall i | 0 <= i < |items|
      ensures Selected(mapper.getUrl(NodeAt(s, items[i]).path), selectedurl) ==
              IsPrefix(mapper.getUrl(NodeAt(s, items[i]).path), selectedurl)
    {
      SelectedIffPrefix(mapper.getUrl(NodeAt(s, items[i]).path), selectedurl);
    }
  }

  /** Every record collected from a list of handles carries its url as key and one of those handles as node. */
  lemma CollectMenuRecordsWellFormed(s: Node, mapper: PathMapper, titleprop: string, selectedurl: string,
                                     items: seq<Address>, e: (string, MenuRecord))
    requires e in Collect(MenuStep(s, mapper, titleprop, selectedurl), [], items).entries
    ensures e.1.url == e.0 && e.1.node in items && ValidAddr(s, e.1.node)
  {
    CollectOrigin(MenuStep(s, mapper, titleprop, selectedurl), [], items, e);
  }
}
