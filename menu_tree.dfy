/**
 * The recursive menu builder `getMenuRecursive` of both walker variants:
 * every child of a node becomes a record, and each record's children are
 * expanded when it is active, when the current depth is still within the
 * budget, or when the budget is unlimited (-1); otherwise they get a fallback
 * marker.
 */
module MenuTree {
  import opened Wrappers
  import opened PhpArray
  import opened Repository
  import opened Collecting
  import opened MenuCollector
  import opened HierarchyWalker

  /**
   * The value of a record's `children` key. A nested array is kept as the
   * sequence of its records: its keys are the records' own urls, as the
   * collector stores them.
   */
  datatype Children =
    | NotExpanded                  // `false`: not followed
    | Absent                       // no `children` key set
    | Expanded(items: seq<Entry>)  // the nested array of child records

  /** A menu record with its `children` key. */
  datatype Entry = Entry(record: MenuRecord, children: Children)

  /**
   * What the builder reads as `$record['active']`. The collector only stores
   * `selected`, so as written the key is never set (NeverActive); the intended
   * reading is the selection flag (SelectedIsActive).
   */
  datatype ActiveRule = NeverActive | SelectedIsActive

  predicate IsActive(rule: ActiveRule, r: MenuRecord)
  {
    rule == SelectedIsActive && r.selected
  }

  /** The records a fresh menu collector gathers from the children of the node at `p`. */
  function MenuList(w: Walker, p: Address, path: string): Collected<MenuRecord>
    requires ValidAddr(w.store, p)
  {
    Collect(MenuStep(w.store, w.mapper, w.titleprop, path), [], ChildAddrs(w.store, p))
  }

  /** Each collected record is keyed by its own url and denotes a child of `p`. */
  lemma MenuListChildren(w: Walker, p: Address, path: string)
    requires ValidAddr(w.store, p)
    ensures var l := MenuList(w, p, path).entries;
      forall i :: 0 <= i < |l| ==> l[i].1.url == l[i].0 && ChildOf(w.store, l[i].1.node, p)
  {
    var l := MenuList(w, p, path).entries;
    var kids := ChildAddrs(w.store, p);
    forall i | 0 <= i < |l| ensures l[i].1.url == l[i].0 && ChildOf(w.store, l[i].1.node, p) {
      CollectMenuRecordsWellFormed(w.store, w.mapper, w.titleprop, path, kids, l[i]);
    }
  }

  function Expansion(r: Result<seq<Entry>>): Result<Children>
  {
    match r
    case Err(e) => Err(e)
    case Ok(items) => Ok(Expanded(items))
  }

  /**
   * What a record that is neither active nor within the budget gets: `false`
   * in the variant with an else branch, no `children` key in the one without.
   */
  function Fallback(hasElse: bool): Children
  {
    if hasElse then NotExpanded else Absent
  }

  /**
   * `getMenuRecursive($parentrecord, $path, $depth, $curdepth)` for the record
   * whose node is `p`; `hasElse` says whether a record to which none of the
   * three expansion rules applies gets `false`.
   */
  function MenuRecursive(w: Walker, p: Address, path: string, depth: int, curdepth: int,
                         rule: ActiveRule, hasElse: bool): Result<seq<Entry>>
    requires ValidAddr(w.store, p)
    decreases NodeAt(w.store, p), 1, 0
  {
    var c := MenuList(w, p, path);
    if !c.ok then Err(PropertyNotFound)
    else
      MenuListChildren(w, p, path);
      ExpandAll(w, p, path, depth, curdepth, rule, hasElse, c.entries)
  }

  /**
   * The value the loop sets as the `children` of record `rec` (a child of `p`):
   * the recursion with counter 0 when active, with `curdepth + 1` within the
   * budget, with -1 when unlimited, and the fallback marker otherwise.
   */
  function RecordChildren(w: Walker, p: Address, path: string, depth: int, curdepth: int,
                          rule: ActiveRule, hasElse: bool, rec: MenuRecord): Result<Children>
    requires ValidAddr(w.store, p) && ChildOf(w.store, rec.node, p)
    decreases NodeAt(w.store, p), 0, 0
  {
    ChildOfRank(w.store, rec.node, p);
    if IsActive(rule, rec) then Expansion(MenuRecursive(w, rec.node, path, depth, 0, rule, hasElse))
    else if curdepth < depth then Expansion(MenuRecursive(w, rec.node, path, depth, curdepth + 1, rule, hasElse))
    else if depth == -1 then Expansion(MenuRecursive(w, rec.node, path, depth, -1, rule, hasElse))
    else Ok(Fallback(hasElse))
  }

  /** The loop over the collected records, setting each record's `children`. */
  function ExpandAll(w: Walker, p: Address, path: string, depth: int, curdepth: int,
                     rule: ActiveRule, hasElse: bool, list: Entries<MenuRecord>): (r: Result<seq<Entry>>)
    requires ValidAddr(w.store, p)
    requires forall i :: 0 <= i < |list| ==> ChildOf(w.store, list[i].1.node, p)
    ensures r.Ok? ==> (|r.value| == |list| && forall i :: 0 <= i < |list| ==> r.value[i].record == list[i].1)
    decreases NodeAt(w.store, p), 0, |list|
  {
    if list == [] then Ok([])
    else
      var rec := list[0].1;
      match RecordChildren(w, p, path, depth, curdepth, rule, hasElse, rec)
      case Err(e) => Err(e)
      case Ok(children) =>
        match ExpandAll(w, p, path, depth, curdepth, rule, hasElse, list[1..])
        case Err(e) => Err(e)
        case Ok(rest) =>
          assert forall i :: 1 <= i < |list| ==> list[i] == list[1..][i - 1];
          Ok([Entry(rec, children)] + rest)
  }

  /** One step of the loop: the first record, then the rest. */
  lemma ExpandAllCons(w: Walker, p: Address, path: string, depth: int, curdepth: int,
                      rule: ActiveRule, hasElse: bool, list: Entries<MenuRecord>)
    requires ValidAddr(w.store, p) && list != []
    requires forall i :: 0 <= i < |list| ==> ChildOf(w.store, list[i].1.node, p)
    ensures var head := RecordChildren(w, p, path, depth, curdepth, rule, hasElse, list[0].1);
      var tail := ExpandAll(w, p, path, depth, curdepth, rule, hasElse, list[1..]);
      var r := ExpandAll(w, p, path, depth, curdepth, rule, hasElse, list);
      (r.Ok? <==> head.Ok? && tail.Ok?) &&
      (r.Ok? ==> r.value == [Entry(list[0].1, head.value)] + tail.value)
  {
  }

  /** Every record at every level is expanded. */
  predicate AllExpanded(items: seq<Entry>)
    decreases Expanded(items)
  {
    forall i :: 0 <= i < |items| ==>
      items[i].children.Expanded? && AllExpanded(items[i].children.items)
  }

  /** No record at any level carries the `false` marker. */
  predicate NoneNotExpanded(items: seq<Entry>)
    decreases Expanded(items)
  {
    forall i :: 0 <= i < |items| ==>
      items[i].children != NotExpanded &&
      (items[i].children.Expanded? ==> NoneNotExpanded(items[i].children.items))
  }

  lemma {:induction false} AllExpandedNoneNotExpanded(items: seq<Entry>)
    requires AllExpanded(items)
    ensures NoneNotExpanded(items)
    decreases Expanded(items)
  {
    forall i | 0 <= i < |items| ensures NoneNotExpanded(items[i].children.items) {
      AllExpandedNoneNotExpanded(items[i].children.items);
    }
  }

  /** With an unlimited budget (-1) every record at every level is expanded, so none is `false`. */
  lemma {:induction false} UnlimitedExpandsAll(w: Walker, p: Address, path: string, curdepth: int,
                                               rule: ActiveRule, hasElse: bool)
    requires ValidAddr(w.store, p) && MenuRecursive(w, p, path, -1, curdepth, rule, hasElse).Ok?
    ensures AllExpanded(MenuRecursive(w, p, path, -1, curdepth, rule, hasElse).value)
    ensures NoneNotExpanded(MenuRecursive(w, p, path, -1, curdepth, rule, hasElse).value)
    decreases NodeAt(w.store, p), 1, 0
  {
    MenuListChildren(w, p, path);
    UnlimitedExpandAll(w, p, path, curdepth, rule, hasElse, MenuList(w, p, path).entries);
    AllExpandedNoneNotExpanded(MenuRecursive(w, p, path, -1, curdepth, rule, hasElse).value);
  }

  lemma {:induction false} UnlimitedExpandAll(w: Walker, p: Address, path: string, curdepth: int,
                                              rule: ActiveRule, hasElse: bool, list: Entries<MenuRecord>)
    requires ValidAddr(w.store, p)
    requires forall i :: 0 <= i < |list| ==> ChildOf(w.store, list[i].1.node, p)
    requires ExpandAll(w, p, path, -1, curdepth, rule, hasElse, list).Ok?
    ensures AllExpanded(ExpandAll(w, p, path, -1, curdepth, rule, hasElse, list).value)
    decreases NodeAt(w.store, p), 0, |list|
  {
    if list != [] {
      ExpandAllCons(w, p, path, -1, curdepth, rule, hasElse, list);
      UnlimitedExpandOne(w, p, path, curdepth, rule, hasElse, list[0].1);
      UnlimitedExpandAll(w, p, path, curdepth, rule, hasElse, list[1..]);
    }
  }

  lemma {:induction false} UnlimitedExpandOne(w: Walker, p: Address, path: string, curdepth: int,
                                              rule: ActiveRule, hasElse: bool, rec: MenuRecord)
    requires ValidAddr(w.store, p) && ChildOf(w.store, rec.node, p)
    requires RecordChildren(w, p, path, -1, curdepth, rule, hasElse, rec).Ok?
    ensures var c := RecordChildren(w, p, path, -1, curdepth, rule, hasElse, rec).value;
      c.Expanded? && AllExpanded(c.items)
    decreases NodeAt(w.store, p), 0, 0
  {
    ChildOfRank(w.store, rec.node, p);
    var next := if IsActive(rule, rec) then 0 else if curdepth < -1 then curdepth + 1 else -1;
    UnlimitedExpandsAll(w, rec.node, path, next, rule, hasElse);
  }


  /**
   * The depth budget with a limited `depth`: a record reached at current depth
   * `curdepth` is expanded with its children checked at 0 when it is active,
   * and otherwise expanded with its children checked at `curdepth + 1` exactly
   * when `curdepth < depth`; every other record carries the fallback marker.
   */
  predicate WithinBudget(items: seq<Entry>, curdepth: int, depth: int, rule: ActiveRule, hasElse: bool)
    decreases Expanded(items)
  {
    forall i :: 0 <= i < |items| ==>
      if IsActive(rule, items[i].record)
      then items[i].children.Expanded? && WithinBudget(items[i].children.items, 0, depth, rule, hasElse)
      else if curdepth < depth
      then items[i].children.Expanded? && WithinBudget(items[i].children.items, curdepth + 1, depth, rule, hasElse)
      else items[i].children == Fallback(hasElse)
  }

  /**
   * When the budget is not unlimited, a record is expanded exactly when it is
   * active or its current depth is below `depth`; the counter restarts at 0
   * below an active record. With no active record (NeverActive), the records
   * at nesting level k below the call are expanded exactly when
   * `curdepth + k < depth`.
   */
  lemma {:induction false} BudgetRule(w: Walker, p: Address, path: string, depth: int, curdepth: int,
                                      rule: ActiveRule, hasElse: bool)
    requires ValidAddr(w.store, p) && depth != -1
    requires MenuRecursive(w, p, path, depth, curdepth, rule, hasElse).Ok?
    ensures WithinBudget(MenuRecursive(w, p, path, depth, curdepth, rule, hasElse).value, curdepth, depth, rule, hasElse)
    decreases NodeAt(w.store, p), 1, 0
  {
    MenuListChildren(w, p, path);
    BudgetRuleAll(w, p, path, depth, curdepth, rule, hasElse, MenuList(w, p, path).entries);
  }

  lemma {:induction false} BudgetRuleAll(w: Walker, p: Address, path: string, depth: int, curdepth: int,
                                         rule: ActiveRule, hasElse: bool, list: Entries<MenuRecord>)
    requires ValidAddr(w.store, p) && depth != -1
    requires forall i :: 0 <= i < |list| ==> ChildOf(w.store, list[i].1.node, p)
    requires ExpandAll(w, p, path, depth, curdepth, rule, hasElse, list).Ok?
    ensures WithinBudget(ExpandAll(w, p, path, depth, curdepth, rule, hasElse, list).value, curdepth, depth, rule, hasElse)
    decreases NodeAt(w.store, p), 0, |list|
  {
    if list != [] {
      ExpandAllCons(w, p, path, depth, curdepth, rule, hasElse, list);
      BudgetRuleOne(w, p, path, depth, curdepth, rule, hasElse, list[0].1);
      BudgetRuleAll(w, p, path, depth, curdepth, rule, hasElse, list[1..]);
    }
  }

  lemma {:induction false} BudgetRuleOne(w: Walker, p: Address, path: string, depth: int, curdepth: int,
                                         rule: ActiveRule, hasElse: bool, rec: MenuRecord)
    requires ValidAddr(w.store, p) && ChildOf(w.store, rec.node, p) && depth != -1
    requires RecordChildren(w, p, path, depth, curdepth, rule, hasElse, rec).Ok?
    ensures var c := RecordChildren(w, p, path, depth, curdepth, rule, hasElse, rec).value;
      if IsActive(rule, rec) then c.Expanded? && WithinBudget(c.items, 0, depth, rule, hasElse)
      else if curdepth < depth then c.Expanded? && WithinBudget(c.items, curdepth + 1, depth, rule, hasElse)
      else c == Fallback(hasElse)
    decreases NodeAt(w.store, p), 0, 0
  {
    ChildOfRank(w.store, rec.node, p);
    if IsActive(rule, rec) {
      BudgetRule(w, rec.node, path, depth, 0, rule, hasElse);
    } else if curdepth < depth {
      BudgetRule(w, rec.node, path, depth, curdepth + 1, rule, hasElse);
    }
  }


  /** Every selected record at every level is expanded. */
  predicate SelectedExpanded(items: seq<Entry>)
    decreases Expanded(items)
  {
    forall i :: 0 <= i < |items| ==>
      (items[i].record.selected ==> items[i].children.Expanded?) &&
      (items[i].children.Expanded? ==> SelectedExpanded(items[i].children.items))
  }

  /** When the selection flag counts as active, the records on the selected path are always expanded. */
  lemma {:induction false} ActiveAlwaysExpanded(w: Walker, p: Address, path: string, depth: int, curdepth: int, hasElse: bool)
    requires ValidAddr(w.store, p)
    requires MenuRecursive(w, p, path, depth, curdepth, SelectedIsActive, hasElse).Ok?
    ensures SelectedExpanded(MenuRecursive(w, p, path, depth, curdepth, SelectedIsActive, hasElse).value)
    decreases NodeAt(w.store, p), 1, 0
  {
    MenuListChildren(w, p, path);
    ActiveAlwaysExpandedAll(w, p, path, depth, curdepth, hasElse, MenuList(w, p, path).entries);
  }

  lemma {:induction false} ActiveAlwaysExpandedAll(w: Walker, p: Address, path: string, depth: int, curdepth: int,
                                                   hasElse: bool, list: Entries<MenuRecord>)
    requires ValidAddr(w.store, p)
    requires forall i :: 0 <= i < |list| ==> ChildOf(w.store, list[i].1.node, p)
    requires ExpandAll(w, p, path, depth, curdepth, SelectedIsActive, hasElse, list).Ok?
    ensures SelectedExpanded(ExpandAll(w, p, path, depth, curdepth, SelectedIsActive, hasElse, list).value)
    decreases NodeAt(w.store, p), 0, |list|
  {
    if list != [] {
      ExpandAllCons(w, p, path, depth, curdepth, SelectedIsActive, hasElse, list);
      ActiveAlwaysExpandedOne(w, p, path, depth, curdepth, hasElse, list[0].1);
      ActiveAlwaysExpandedAll(w, p, path, depth, curdepth, hasElse, list[1..]);
    }
  }

  lemma {:induction false} ActiveAlwaysExpandedOne(w: Walker, p: Address, path: string, depth: int, curdepth: int,
                                                   hasElse: bool, rec: MenuRecord)
    requires ValidAddr(w.store, p) && ChildOf(w.store, rec.node, p)
    requires RecordChildren(w, p, path, depth, curdepth, SelectedIsActive, hasElse, rec).Ok?
    ensures var c := RecordChildren(w, p, path, depth, curdepth, SelectedIsActive, hasElse, rec).value;
      (rec.selected ==> c.Expanded?) && (c.Expanded? ==> SelectedExpanded(c.items))
    decreases NodeAt(w.store, p), 0, 0
  {
    ChildOfRank(w.store, rec.node, p);
    var next := if rec.selected then 0 else if curdepth < depth then curdepth + 1 else -1;
    if rec.selected || curdepth < depth || depth == -1 {
      ActiveAlwaysExpanded(w, rec.node, path, depth, next, hasElse);
    }
  }


  /** A leaf's expansion is the empty list. */
  lemma LeafExpandsEmpty(w: Walker, p: Address, path: string, depth: int, curdepth: int, rule: ActiveRule, hasElse: bool)
    requires ValidAddr(w.store, p) && NodeAt(w.store, p).children == []
    ensures MenuRecursive(w, p, path, depth, curdepth, rule, hasElse) == Ok([])
  {
  }

  /**
   * With the children's urls pairwise distinct, a successful expansion holds one
   * record per child of the node at `p`, in store order, keyed by the child's
   * url, with its title, its prefix-selection flag and its handle.
   */
  lemma OneRecordPerChild(w: Walker, p: Address, path: string, depth: int, curdepth: int, rule: ActiveRule, hasElse: bool)
    requires ValidAddr(w.store, p)
    requires DistinctUrls(w.mapper, NodeAt(w.store, p).children)
    requires MenuRecursive(w, p, path, depth, curdepth, rule, hasElse).Ok?
    ensures var n := NodeAt(w.store, p);
      var items := MenuRecursive(w, p, path, depth, curdepth, rule, hasElse).value;
      |items| == |n.children| &&
      forall i :: 0 <= i < |n.children| ==>
        var url := w.mapper.getUrl(n.children[i].path);
        w.titleprop in n.children[i].props &&
        items[i].record == MenuRecord(url, n.children[i].props[w.titleprop], IsPrefix(url, path), p + [i])
  {
    var n := NodeAt(w.store, p);
    var kids := ChildAddrs(w.store, p);
    var step := MenuStep(w.store, w.mapper, w.titleprop, path);
    assert MenuList(w, p, path).ok;
    CollectOk(step, [], kids);
    forall i | 0 <= i < |kids|
      ensures ValidAddr(w.store, kids[i]) && NodeAt(w.store, kids[i]) == n.children[i]
      ensures w.titleprop in NodeAt(w.store, kids[i]).props
    {
      assert step(kids[i]).Some?;
    }
    DistinctChildUrls(w.store, w.mapper, p);
    CollectMenuInOrder(w.store, w.mapper, w.titleprop, path, kids);
    MenuListChildren(w, p, path);
  }

  /** In the variant without an else branch (`hasElse` false), no record at any level is `false`. */
  lemma {:induction false} WithoutElseNeverFalse(w: Walker, p: Address, path: string, depth: int, curdepth: int, rule: ActiveRule)
    requires ValidAddr(w.store, p) && MenuRecursive(w, p, path, depth, curdepth, rule, false).Ok?
    ensures NoneNotExpanded(MenuRecursive(w, p, path, depth, curdepth, rule, false).value)
    decreases NodeAt(w.store, p), 1, 0
  {
    MenuListChildren(w, p, path);
    WithoutElseNeverFalseAll(w, p, path, depth, curdepth, rule, MenuList(w, p, path).entries);
  }

  lemma {:induction false} WithoutElseNeverFalseAll(w: Walker, p: Address, path: string, depth: int, curdepth: int,
                                                    rule: ActiveRule, list: Entries<MenuRecord>)
    requires ValidAddr(w.store, p)
    requires forall i :: 0 <= i < |list| ==> ChildOf(w.store, list[i].1.node, p)
    requires ExpandAll(w, p, path, depth, curdepth, rule, false, list).Ok?
    ensures NoneNotExpanded(ExpandAll(w, p, path, depth, curdepth, rule, false, list).value)
    decreases NodeAt(w.store, p), 0, |list|
  {
    if list != [] {
      ExpandAllCons(w, p, path, depth, curdepth, rule, false, list);
      WithoutElseNeverFalseOne(w, p, path, depth, curdepth, rule, list[0].1);
      WithoutElseNeverFalseAll(w, p, path, depth, curdepth, rule, list[1..]);
    }
  }

  lemma {:induction false} WithoutElseNeverFalseOne(w: Walker, p: Address, path: string, depth: int, curdepth: int,
                                                    rule: ActiveRule, rec: MenuRecord)
    requires ValidAddr(w.store, p) && ChildOf(w.store, rec.node, p)
    requires RecordChildren(w, p, path, depth, curdepth, rule, false, rec).Ok?
    ensures var c := RecordChildren(w, p, path, depth, curdepth, rule, false, rec).value;
      c != NotExpanded && (c.Expanded? ==> NoneNotExpanded(c.items))
    decreases NodeAt(w.store, p), 0, 0
  {
    ChildOfRank(w.store, rec.node, p);
    if IsActive(rule, rec) {
      WithoutElseNeverFalse(w, rec.node, path, depth, 0, rule);
    } else if curdepth < depth {
      WithoutElseNeverFalse(w, rec.node, path, depth, curdepth + 1, rule);
    } else if depth == -1 {
      WithoutElseNeverFalse(w, rec.node, path, depth, -1, rule);
    }
  }
}
