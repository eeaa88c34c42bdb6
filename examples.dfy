/**
 * A small navigation tree, in the shape of the functional test's fixture:
 * the root `/` titled "Home", a child `/test` with the two children
 * `/test/leveltwo` and `/test/otherleveltwo`, and `/test/leveltwo/levelthree`.
 * The mapper used here maps every url to the identical storage id.
 */
module Examples {
  import opened Wrappers
  import opened PhpArray
  import opened Repository
  import opened Collecting
  import opened AttributeCollector
  import opened MenuCollector
  import opened HierarchyWalker
  import opened MenuTree
  import opened ServiceMenu

  function Leaf(path: string, title: string): Node
  {
    Node(path, map["label" := title], [])
  }

  function Fixture(): Node
  {
    Node("/", map["label" := "Home", "jcr:primaryType" := "nt:unstructured"], [
      Node("/test", map["label" := "nav test"], [
        Node("/test/leveltwo", map["label" := "nav leveltwo"], [
          Leaf("/test/leveltwo/levelthree", "nav levelthree")]),
        Leaf("/test/otherleveltwo", "nav otherleveltwo")])])
  }

  function Identity(): PathMapper
  {
    PathMapper(s => s, s => s)
  }

  /** The root is found at url `/`. */
  lemma ConstructWalker()
    ensures NewWalker(Fixture(), Identity(), ServiceDefaultTitleprop) ==
      Ok(Walker(Fixture(), Identity(), "label", []))
  {
  }

  function FixtureWalker(): Walker
  {
    Walker(Fixture(), Identity(), "label", [])
  }

  /** The child list of `/test` holds its two children, in store order. */
  lemma ChildListExample()
    ensures ChildList(FixtureWalker(), "/test") ==
      Ok([("/test/leveltwo", "nav leveltwo"), ("/test/otherleveltwo", "nav otherleveltwo")])
  {
    var f := Fixture();
    var t := f.children[0];
    assert f.path != "/test" && t.path == "/test";
    assert GetNode(t, "/test") == Some([]);
    assert |f.children| == 1 && f.children[0] == t;
    assert [0 as nat] + [] == [0];
    assert GetNodeAmong(f, "/test", 0) == Some([0]);
    assert GetNode(f, "/test") == Some([0]);
    var kids := ChildAddrs(f, [0]);
    assert |kids| == 2 && kids[0] == [0] + [0] && kids[1] == [0] + [1];
    assert [0 as nat] + [0] == [0, 0] && [0 as nat] + [1] == [0, 1];
    assert kids == [[0, 0], [0, 1]];
    assert NodeAt(f, [0, 0]) == t.children[0];
    assert NodeAt(f, [0, 1]) == t.children[1];
    var step := AttrStep(f, Identity(), "label");
    assert step([0, 0]) == Some(("/test/leveltwo", "nav leveltwo"));
    assert step([0, 1]) == Some(("/test/otherleveltwo", "nav otherleveltwo"));
    assert Resolve(FixtureWalker(), "/test") == Ok([0]);
    var e1 := Assign([], "/test/leveltwo", "nav leveltwo");
    assert e1 == [("/test/leveltwo", "nav leveltwo")];
    assert "/test/otherleveltwo" !in Keys(e1);
    var e2 := Assign(e1, "/test/otherleveltwo", "nav otherleveltwo");
    assert e2 == [("/test/leveltwo", "nav leveltwo"), ("/test/otherleveltwo", "nav otherleveltwo")];
    assert kids[1..] == [[0, 1]];
    assert Collect(step, e2, []) == Collected(e2, true);
    assert Collect(step, e1, [[0, 1]]) == Collected(e2, true);
    assert Collect(step, [], kids) == Collected(e2, true);
  }

  /**
   * A walker built with the default title property of the `Services` variant
   * reads `name`, which the fixture's nodes do not carry: construction
   * succeeds, but the child list of `/test` fails.
   */
  lemma ServicesDefaultExample()
    ensures NewWalker(Fixture(), Identity(), ServicesDefaultTitleprop) == Ok(Walker(Fixture(), Identity(), "name", []))
    ensures ChildList(Walker(Fixture(), Identity(), ServicesDefaultTitleprop, []), "/test") == Err(PropertyNotFound)
  {
    var w := Walker(Fixture(), Identity(), ServicesDefaultTitleprop, []);
    var f := Fixture();
    var t := f.children[0];
    assert f.path != "/test" && t.path == "/test";
    assert GetNode(t, "/test") == Some([]);
    assert [0 as nat] + [] == [0];
    assert GetNodeAmong(f, "/test", 0) == Some([0]);
    assert Resolve(w, "/test") == Ok([0]);
    assert NodeAt(f, [0]) == t;
    assert t.children[0] in t.children && "name" !in t.children[0].props;
    ChildListFails(w, "/test");
  }

  /** The breadcrumb of `/test/leveltwo/levelthree` has three entries, the first being the root's. */
  lemma AncestorsExample()
    ensures AncestorList(FixtureWalker(), "/test/leveltwo/levelthree") ==
      Ok([("/", "Home"), ("/test", "nav test"), ("/test/leveltwo", "nav leveltwo")])
  {
    var f := Fixture();
    var id := "/test/leveltwo/levelthree";
    var t := f.children[0];
    var l2 := t.children[0];
    var l3 := l2.children[0];
    assert f.path != id && t.path != id && l2.path != id && l3.path == id;
    assert GetNode(l3, id) == Some([]);
    assert |l2.children| == 1 && |t.children| == 2 && |f.children| == 1;
    assert [0 as nat] + [] == [0];
    assert GetNodeAmong(l2, id, 0) == Some([0]);
    assert GetNode(l2, id) == Some([0]);
    assert [0 as nat] + [0] == [0, 0];
    assert GetNodeAmong(t, id, 0) == Some([0, 0]);
    assert GetNode(t, id) == Some([0, 0]);
    assert [0 as nat] + [0, 0] == [0, 0, 0];
    assert GetNodeAmong(f, id, 0) == Some([0, 0, 0]);
    assert GetNode(f, id) == Some([0, 0, 0]);
    var a: Address := [0, 0, 0];
    assert a[..0] == [] && a[..1] == [0] && a[..2] == [0, 0];
    assert AncestorAddrs(a, 0) == [[], [0], [0, 0]];
    assert NodeAt(f, []) == f;
    assert NodeAt(f, [0]) == t;
    assert NodeAt(f, [0, 0]) == l2;
    assert Resolve(FixtureWalker(), id) == Ok(a);
    var chain := AncestorAddrs(a, 0);
    var step := AttrStep(f, Identity(), "label");
    assert step([]) == Some(("/", "Home"));
    assert step([0]) == Some(("/test", "nav test"));
    assert step([0, 0]) == Some(("/test/leveltwo", "nav leveltwo"));
    var e1 := Assign([], "/", "Home");
    assert e1 == [("/", "Home")];
    assert "/test" !in Keys(e1);
    var e2 := Assign(e1, "/test", "nav test");
    assert e2 == [("/", "Home"), ("/test", "nav test")];
    assert "/test/leveltwo" !in Keys(e2);
    var e3 := Assign(e2, "/test/leveltwo", "nav leveltwo");
    assert e3 == [("/", "Home"), ("/test", "nav test"), ("/test/leveltwo", "nav leveltwo")];
    assert chain[1..] == [[0], [0, 0]] && chain[1..][1..] == [[0, 0]];
    assert Collect(step, e3, []) == Collected(e3, true);
    assert Collect(step, e2, [[0, 0]]) == Collected(e3, true);
    assert Collect(step, e1, [[0], [0, 0]]) == Collected(e3, true);
    assert Collect(step, [], chain) == Collected(e3, true);
  }

  /**
   * A single record at the budget limit, not active, gets the fallback marker
   * (a step of `SelectedRecordNotFollowed`).
   */
  lemma ExpandOneAtLimit(w: Walker, p: Address, path: string, depth: int, curdepth: int, hasElse: bool,
                         key: string, rec: MenuRecord)
    requires ValidAddr(w.store, p) && ChildOf(w.store, rec.node, p) && curdepth >= depth && depth != -1
    ensures ExpandAll(w, p, path, depth, curdepth, NeverActive, hasElse, [(key, rec)]) ==
      Ok([Entry(rec, Fallback(hasElse))])
  {
    var list := [(key, rec)];
    assert list[1..] == [];
    assert ExpandAll(w, p, path, depth, curdepth, NeverActive, hasElse, list[1..]) == Ok([]);
    assert [Entry(rec, Fallback(hasElse))] + [] == [Entry(rec, Fallback(hasElse))];
  }

  /**
   * With the root skipped and the default budget, the record of `/test` lies
   * on the selected path to `/test/leveltwo` and is selected, yet as written
   * its children are `false`.
   */
  lemma SelectedRecordNotFollowed()
    ensures GetMenuSpec(FixtureWalker(), "/test/leveltwo", true, 0, NeverActive) ==
      Ok(Flat([Entry(MenuRecord("/test", "nav test", true, [0]), NotExpanded)]))
  {
    var w := FixtureWalker();
    var f := Fixture();
    assert NodeAt(f, []) == f && PrimaryType in f.props;
    var kids := ChildAddrs(f, []);
    assert |kids| == 1 && kids[0] == [] + [0];
    assert [] + [0 as nat] == [0];
    assert NodeAt(f, [0]) == f.children[0];
    SelectedIffPrefix("/test", "/test/leveltwo");
    assert "/test/leveltwo"[..5] == "/test";
    var rec := MenuRecord("/test", "nav test", true, [0]);
    var step := MenuStep(f, Identity(), "label", "/test/leveltwo");
    assert step([0]) == Some(("/test", rec));
    assert Collect(step, [("/test", rec)], []) == Collected([("/test", rec)], true);
    assert Collect(step, [], kids) == Collected([("/test", rec)], true);
    assert MenuList(w, [], "/test/leveltwo") == Collected([("/test", rec)], true);
    assert ChildOf(f, [0], []);
    ExpandOneAtLimit(w, [], "/test/leveltwo", 0, 0, true, "/test", rec);
    assert MenuRecursive(w, [], "/test/leveltwo", 0, 0, NeverActive, true) == Ok([Entry(rec, NotExpanded)]);
  }
}
