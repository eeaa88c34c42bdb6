/**
 * `getMenu` of the walker under Service/: the root record is collected first
 * (with the fake title property `jcr:primaryType` when the root is skipped),
 * then its children are expanded recursively, with `false` for records that
 * are not followed.
 */
module ServiceMenu {
  import opened Wrappers
  import opened PhpArray
  import opened Repository
  import opened Collecting
  import opened MenuCollector
  import opened HierarchyWalker
  import opened MenuTree

  /** The property read as the root's title when the root is skipped. */
  const PrimaryType := "jcr:primaryType"

  /** The result of `getMenu`: the root record with its children, or just the list of children. */
  datatype Menu = Rooted(root: Entry) | Flat(items: seq<Entry>)

  /** `createMenuVisitor($url, $fake)`: a fresh menu collector for the active url. */
  method CreateMenuVisitor(w: Walker, url: string, fake: bool) returns (v: MenuCollectorVisitor)
    ensures fresh(v) && v.tree == [] && v.mapper == w.mapper && v.selectedurl == url
    ensures v.titleprop == if fake then PrimaryType else w.titleprop
  {
    v := new MenuCollectorVisitor(if fake then PrimaryType else w.titleprop, w.mapper, url);
  }

  /** The menu `getMenu($path, $skiproot, $depth)` builds, reading `$record['active']` by `rule`. */
  function GetMenuSpec(w: Walker, path: string, skiproot: bool, depth: int, rule: ActiveRule): Result<Menu>
    requires w.Valid()
  {
    var titleprop := if skiproot then PrimaryType else w.titleprop;
    match MenuStep(w.store, w.mapper, titleprop, path)(w.rootnode)
    case None => Err(PropertyNotFound)
    case Some(kv) =>
      match MenuRecursive(w, kv.1.node, path, depth, 0, rule, true)
      case Err(e) => Err(e)
      case Ok(children) =>
        if skiproot then Ok(Flat(children)) else Ok(Rooted(Entry(kv.1, Expanded(children))))
  }

  /**
   * `getMenu`: visits the root with a fresh menu collector, then expands the
   * children of the one record it gathered. As the code is written, the
   * builder's `$record['active']` test reads a key the collector never sets
   * (`rule` NeverActive); the intended test reads the selection flag
   * (`rule` SelectedIsActive).
   */
  method GetMenu(w: Walker, path: string, skiproot: bool, depth: int, rule: ActiveRule) returns (r: Result<Menu>)
    requires w.Valid()
    ensures r == GetMenuSpec(w, path, skiproot, depth, rule)
  {
    var visitor := CreateMenuVisitor(w, path, skiproot);
    var o := visitor.Visit(w.store, NodeItem(w.rootnode));
    if o.Fail? {
      return Err(o.error);
    }
    var tree := visitor.GetArray();
    assert tree == [] + [tree[0]];
    var root := tree[0].1;   // the visitor was only at the root, so there is exactly one record
    var children := MenuRecursive(w, root.node, path, depth, 0, rule, true);
    if children.Err? {
      return Err(children.error);
    }
    if !skiproot {
      r := Ok(Rooted(Entry(root, Expanded(children.value))));
    } else {
      r := Ok(Flat(children.value));
    }
  }

  /**
   * The two shapes of the menu: with `skiproot` just the root's expanded
   * children; without it the root record (url, title property value, selection
   * flag and handle of the navigation root) whose `children` are that list.
   */
  lemma GetMenuShape(w: Walker, path: string, skiproot: bool, depth: int, rule: ActiveRule)
    requires w.Valid() && GetMenuSpec(w, path, skiproot, depth, rule).Ok?
    ensures var children := MenuRecursive(w, w.rootnode, path, depth, 0, rule, true);
      children.Ok? &&
      (skiproot ==> (PrimaryType in NodeAt(w.store, w.rootnode).props &&
         GetMenuSpec(w, path, skiproot, depth, rule) == Ok(Flat(children.value)))) &&
      (!skiproot ==>
         var root := NodeAt(w.store, w.rootnode);
         var url := w.mapper.getUrl(root.path);
         w.titleprop in root.props &&
         GetMenuSpec(w, path, skiproot, depth, rule) ==
           Ok(Rooted(Entry(MenuRecord(url, root.props[w.titleprop], IsPrefix(url, path), w.rootnode),
                           Expanded(children.value)))))
  {
    SelectedIffPrefix(w.mapper.getUrl(NodeAt(w.store, w.rootnode).path), path);
  }

  /** The records directly below the root of a menu, whether the root is skipped or not. */
  function TopLevel(m: Menu): seq<Entry>
  {
    match m
    case Flat(items) => items
    case Rooted(root) => if root.children.Expanded? then root.children.items else []
  }

  /**
   * As written, with the default budget 0 every record below the root is
   * `false`, including the one on the selected path: the active branch never
   * fires.
   */
  lemma AsWrittenActivePathNotFollowed(w: Walker, path: string, skiproot: bool)
    requires w.Valid() && GetMenuSpec(w, path, skiproot, 0, NeverActive).Ok?
    ensures var top := TopLevel(GetMenuSpec(w, path, skiproot, 0, NeverActive).value);
      forall i :: 0 <= i < |top| ==> top[i].children == NotExpanded
  {
    BudgetRule(w, w.rootnode, path, 0, 0, NeverActive, true);
  }

  /** With the selection flag read as active, every selected record at every level is expanded. */
  lemma CorrectedActivePathFollowed(w: Walker, path: string, skiproot: bool, depth: int)
    requires w.Valid() && GetMenuSpec(w, path, skiproot, depth, SelectedIsActive).Ok?
    ensures SelectedExpanded(TopLevel(GetMenuSpec(w, path, skiproot, depth, SelectedIsActive).value))
  {
    ActiveAlwaysExpanded(w, w.rootnode, path, depth, 0, true);
  }

  /**
   * With the selection flag read as active and a budget `depth >= 0`, a record
   * is expanded exactly when it is selected or its nesting level below the
   * nearest selected record, or below the root (direct children being at
   * level 0), is less than `depth`; every other record is `false`. With the
   * default budget 0, the top-level records that are `false` are exactly the
   * unselected ones.
   */
  lemma CorrectedBudget(w: Walker, path: string, skiproot: bool, depth: int)
    requires w.Valid() && depth >= 0 && GetMenuSpec(w, path, skiproot, depth, SelectedIsActive).Ok?
    ensures WithinBudget(TopLevel(GetMenuSpec(w, path, skiproot, depth, SelectedIsActive).value), 0, depth, SelectedIsActive, true)
    ensures depth == 0 ==> var top := TopLevel(GetMenuSpec(w, path, skiproot, depth, SelectedIsActive).value);
      forall i :: 0 <= i < |top| ==> (top[i].children == NotExpanded <==> !top[i].record.selected)
  {
    BudgetRule(w, w.rootnode, path, depth, 0, SelectedIsActive, true);
  }

  /** With an unlimited budget no record of the menu is `false`. */
  lemma UnlimitedMenuHasNoFalse(w: Walker, path: string, skiproot: bool, rule: ActiveRule)
    requires w.Valid() && GetMenuSpec(w, path, skiproot, -1, rule).Ok?
    ensures AllExpanded(TopLevel(GetMenuSpec(w, path, skiproot, -1, rule).value))
    ensures NoneNotExpanded(TopLevel(GetMenuSpec(w, path, skiproot, -1, rule).value))
  {
    UnlimitedExpandsAll(w, w.rootnode, path, 0, rule, true);
  }

  /**
   * Without active records and with a budget `depth >= 0`, a record at nesting
   * level k below the root (the first level being 0) is expanded exactly when
   * `k < depth`, and is `false` otherwise.
   */
  lemma BudgetAsWritten(w: Walker, path: string, skiproot: bool, depth: int)
    requires w.Valid() && depth >= 0 && GetMenuSpec(w, path, skiproot, depth, NeverActive).Ok?
    ensures WithinBudget(TopLevel(GetMenuSpec(w, path, skiproot, depth, NeverActive).value), 0, depth, NeverActive, true)
  {
    BudgetRule(w, w.rootnode, path, depth, 0, NeverActive, true);
  }
}
