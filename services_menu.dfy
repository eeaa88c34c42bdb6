/**
 * `getMenu` and `getMenuRecursive` of the older walker under Services/: the
 * root record is always returned, and the recursion has no else branch.
 * As written, `getMenu` calls the four-parameter `getMenuRecursive` with three
 * arguments, and `getMenuRecursive` loops over its records by value, so the
 * `children` it computes are thrown away.
 */
module ServicesMenu {
  import opened Wrappers
  import opened PhpArray
  import opened Repository
  import opened Collecting
  import opened MenuCollector
  import opened HierarchyWalker
  import opened MenuTree

  /**
   * `getMenuRecursive` as written: the recursive calls still run (and may throw),
   * but their results are assigned to a copy of each record, so the visitor's
   * list comes back unchanged.
   */
  function RecursiveAsWritten(w: Walker, p: Address, path: string, depth: int, curdepth: int, rule: ActiveRule)
    : (r: Result<Entries<MenuRecord>>)
    requires ValidAddr(w.store, p)
    ensures r.Ok? ==> MenuList(w, p, path).ok && r.value == MenuList(w, p, path).entries
    decreases NodeAt(w.store, p), 1, 0
  {
    var c := MenuList(w, p, path);
    if !c.ok then Err(PropertyNotFound)
    else
      MenuListChildren(w, p, path);
      match DiscardAll(w, p, path, depth, curdepth, rule, c.entries)
      case Fail(e) => Err(e)
      case Pass => Ok(c.entries)
  }

  /** The by-value loop: runs each record's recursion for its exceptions only. */
  function DiscardAll(w: Walker, p: Address, path: string, depth: int, curdepth: int,
                      rule: ActiveRule, list: Entries<MenuRecord>): Outcome
    requires ValidAddr(w.store, p)
    requires forall i :: 0 <= i < |list| ==> ChildOf(w.store, list[i].1.node, p)
    decreases NodeAt(w.store, p), 0, |list|
  {
    if list == [] then Pass
    else
      var rec := list[0].1;
      ChildOfRank(w.store, rec.node, p);
      var sub :=
        if IsActive(rule, rec) then RecursiveAsWritten(w, rec.node, path, depth, 0, rule)
        else if curdepth < depth then RecursiveAsWritten(w, rec.node, path, depth, curdepth + 1, rule)
        else if depth == -1 then RecursiveAsWritten(w, rec.node, path, depth, -1, rule)
        else Ok([]);
      if sub.Err? then Fail(sub.error)
      else DiscardAll(w, p, path, depth, curdepth, rule, list[1..])
  }

  /**
   * The as-written recursion fails exactly when the intended one (which keeps
   * the children it computes) fails: they visit the same nodes.
   */
  lemma {:induction false} AsWrittenFailsLikeIntended(w: Walker, p: Address, path: string, depth: int, curdepth: int, rule: ActiveRule)
    requires ValidAddr(w.store, p)
    ensures RecursiveAsWritten(w, p, path, depth, curdepth, rule).Ok? <==>
            MenuRecursive(w, p, path, depth, curdepth, rule, false).Ok?
    decreases NodeAt(w.store, p), 1, 0
  {
    if MenuList(w, p, path).ok {
      MenuListChildren(w, p, path);
      AsWrittenFailsLikeIntendedAll(w, p, path, depth, curdepth, rule, MenuList(w, p, path).entries);
    }
  }

  lemma {:induction false} AsWrittenFailsLikeIntendedAll(w: Walker, p: Address, path: string, depth: int, curdepth: int,
                                                         rule: ActiveRule, list: Entries<MenuRecord>)
    requires ValidAddr(w.store, p)
    requires forall i :: 0 <= i < |list| ==> ChildOf(w.store, list[i].1.node, p)
    ensures DiscardAll(w, p, path, depth, curdepth, rule, list).Pass? <==>
            ExpandAll(w, p, path, depth, curdepth, rule, false, list).Ok?
    decreases NodeAt(w.store, p), 0, |list|
  {
    if list != [] {
      var rec := list[0].1;
      ChildOfRank(w.store, rec.node, p);
      if IsActive(rule, rec) {
        AsWrittenFailsLikeIntended(w, rec.node, path, depth, 0, rule);
      } else if curdepth < depth {
        AsWrittenFailsLikeIntended(w, rec.node, path, depth, curdepth + 1, rule);
      } else if depth == -1 {
        AsWrittenFailsLikeIntended(w, rec.node, path, depth, -1, rule);
      }
      AsWrittenFailsLikeIntendedAll(w, p, path, depth, curdepth, rule, list[1..]);
    }
  }

  /** The root's own record, as a fresh menu collector gathers it. */
  function RootRecord(w: Walker, path: string): (r: Option<MenuRecord>)
    requires w.Valid()
    ensures r.Some? <==> w.titleprop in NodeAt(w.store, w.rootnode).props
    ensures r.Some? ==> r.value.node == w.rootnode && r.value.url == w.mapper.getUrl(NodeAt(w.store, w.rootnode).path)
  {
    match MenuStep(w.store, w.mapper, w.titleprop, path)(w.rootnode)
    case None => None
    case Some(kv) => Some(kv.1)
  }

  /**
   * `getMenu($path, $depth)` as written: after the root visit, the call
   * `getMenuRecursive($tree, $depth, 0)` lacks the fourth argument, so it
   * always fails.
   */
  function GetMenuAsWritten(w: Walker, path: string, depth: int): (r: Result<Entry>)
    requires w.Valid()
    ensures r.Err? && (w.titleprop in NodeAt(w.store, w.rootnode).props <==> r.error == TooFewArguments)
  {
    match RootRecord(w, path)
    case None => Err(PropertyNotFound)
    case Some(_) => Err(TooFewArguments)
  }

  /**
   * `getMenu($path, $depth)` as intended: the root record, whose `children`
   * are the expansion of its children down the active path and to `depth`.
   */
  function GetMenu(w: Walker, path: string, depth: int, rule: ActiveRule): (r: Result<Entry>)
    requires w.Valid()
    ensures r.Ok? ==> (Some(r.value.record) == RootRecord(w, path) && r.value.children.Expanded? &&
      Ok(r.value.children.items) == MenuRecursive(w, w.rootnode, path, depth, 0, rule, false))
  {
    match RootRecord(w, path)
    case None => Err(PropertyNotFound)
    case Some(root) =>
      match MenuRecursive(w, root.node, path, depth, 0, rule, false)
      case Err(e) => Err(e)
      case Ok(children) => Ok(Entry(root, Expanded(children)))
  }

  /** The intended menu never holds a `false` marker: records not followed have no `children` key. */
  lemma IntendedMenuHasNoFalse(w: Walker, path: string, depth: int, rule: ActiveRule)
    requires w.Valid() && GetMenu(w, path, depth, rule).Ok?
    ensures GetMenu(w, path, depth, rule).value.children.Expanded?
    ensures NoneNotExpanded(GetMenu(w, path, depth, rule).value.children.items)
  {
    WithoutElseNeverFalse(w, w.rootnode, path, depth, 0, rule);
  }

  /**
   * The discrepancy: wherever the intended recursion succeeds, the as-written
   * one returns only the flat records of the first level, with no `children`
   * at all, even for records the intended one expands.
   */
  lemma AsWrittenDropsChildren(w: Walker, path: string, depth: int, rule: ActiveRule)
    requires w.Valid() && MenuRecursive(w, w.rootnode, path, depth, 0, rule, false).Ok?
    ensures var intended := MenuRecursive(w, w.rootnode, path, depth, 0, rule, false).value;
      var asWritten := RecursiveAsWritten(w, w.rootnode, path, depth, 0, rule);
      asWritten.Ok? && |asWritten.value| == |intended| &&
      forall i :: 0 <= i < |intended| ==> asWritten.value[i].1 == intended[i].record
  {
    AsWrittenFailsLikeIntended(w, w.rootnode, path, depth, 0, rule);
    MenuListChildren(w, w.rootnode, path);
  }
}
