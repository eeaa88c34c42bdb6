# Navigation hierarchy walker — a Dafny model

This project models the navigation core of the Symfony CMF NavigationBundle.
The core is a *hierarchy walker* over a PHPCR content repository plus two
*visitors*. Given the url of a page, the walker answers three questions:

- the child list: `url => title` for every direct child, in store order;
- the breadcrumb: `url => title` for every ancestor, from the navigation root
  down to the parent;
- the menu tree: nested menu records built down the selected path and to a
  depth budget.

A path mapper translates urls to storage ids and back. The walker visits nodes
with an `AttributeCollectorVisitor`, which collects `url => title` pairs, or a
`MenuCollectorVisitor`, which collects menu records
`url => {url, title, selected, node}`.

The repository keeps two variants of the walker.

- **`Service/HierarchyWalker.php`**: the default title property is `label`.
  `getMenu` can skip the root and reads the fake title `jcr:primaryType` when it
  does. `getMenuRecursive` marks records it does not follow with `false`.
- **`Services/HierarchyWalker.php`**: the default title property is `name`.
  `getMenu` always returns the root record. `getMenuRecursive` has no else
  branch.

The constructor, `getChildList`, `visitChildren`, `getAncestors` and
`visitAncestors` are the same code in both files. Within
`Service/HierarchyWalker.php:54-135` and `Services/HierarchyWalker.php:55-136`
the only difference is the default title property, so one model,
`HierarchyWalker`, serves both. The two constants `ServiceDefaultTitleprop` and
`ServicesDefaultTitleprop` record the two defaults. The second difference
between the files is `createMenuVisitor`: only the `Service` variant has its
`$fake` parameter, which reads `jcr:primaryType` as the title.

How the model is built:

- **The repository** is an immutable tree of `Node`s (storage path, string
  properties, ordered children).
  - A node handle is an `Address`: the child indices from the repository root.
  - A node's depth is the length of its handle.
  - `getAncestor(d)` is the prefix of length `d`, and fails beyond the node's
    own depth.
  - `getNode(id)` is a preorder search. It is proved to find a node stored
    under `id` or to fail only when there is none.
- **The path mapper** is a pair of uninterpreted total functions.
- **A PHP ordered array** is a sequence of key/value pairs: `PhpArray.Assign`
  overwrites an existing key in place and appends a new key at the end.
- **A walk** lets one visitor visit a sequence of nodes. `Collecting.Collect`
  is the fold of one visit over the sequence. It stops at the first visit that
  throws.
- **The visitors** are classes whose `tree` field each `Visit` updates.
- **The walk methods** `VisitChildren` and `VisitAncestors` keep the source's
  loops. Each is proved against `Collect`.
- **The menu builder** `getMenuRecursive` is a recursive function over the
  tree, `MenuTree.MenuRecursive`. It takes two parameters:
  - `rule` says what `$record['active']` reads: nothing, as written
    (`NeverActive`), or the selection flag, as evidently intended
    (`SelectedIsActive`);
  - `hasElse` says which variant's fallback applies.

The visitor decides `selected` with a byte-prefix test (`strncmp`). As the
source's own comment says, that test does not respect path segments: `/bla`
counts as selected under `/blabla`. The model keeps the test as written.
`SelectedNotSegmentAware` proves the defect, and `OnSelectedPathNarrowsSelected`
compares the test with a segment-aware one.

## Model

| member | source | states |
|---|---|---|
| Repository.GetNode | Service/HierarchyWalker.php:95 | a node found for a storage id is a valid handle whose node has that path |
| Repository.GetNodeComplete | Service/HierarchyWalker.php:95 | when the lookup fails, no node of the repository has that path |
| Repository.GetAncestor | Service/HierarchyWalker.php:132 | the ancestor at depth `d` exists iff `0 <= d <= depth`; it is the handle's prefix of length `d`; it is the node itself exactly when `d` is the node's depth |
| Repository.ChildAddrs | Service/HierarchyWalker.php:96 | one handle per child, in the store's order, each denoting that child |
| Repository.DistinctChildUrls | Service/HierarchyWalker.php:96-97 | children with pairwise distinct urls give child handles with pairwise distinct urls |
| Repository.PropertyValue | Service/AttributeCollectorVisitor.php:43 | `getPropertyValue` succeeds iff the node has the property, and then returns its value |
| PhpArray.Get | Tests/Functional/Services/HierarchyWalkerTest.php:33 | reading a key succeeds iff the key is in the array |
| PhpArray.Assign | Service/AttributeCollectorVisitor.php:43 | `$tree[$url] = v`: an existing key keeps its position and the key order; the other entries stay as they were; a new key is appended at the end; no other entry appears |
| PhpArray.GetAssignSame | Service/AttributeCollectorVisitor.php:43 | after the assignment, the key reads as the assigned value |
| PhpArray.GetAssignOther | Service/AttributeCollectorVisitor.php:43 | after the assignment, every other key reads as before |
| PhpArray.AssignDistinct | Service/AttributeCollectorVisitor.php:43 | assignment keeps keys unique |
| Collecting.Collect | Service/HierarchyWalker.php:96-98 | the walk: each node's visit assigns its pair in turn, and the first visit that throws stops it; what it computes is stated by CollectOk, CollectDistinct, CollectOrigin and CollectPrefixFails |
| Collecting.CollectOk | Service/HierarchyWalker.php:96-98 | a walk completes iff no visit throws |
| Collecting.CollectSnoc | Service/HierarchyWalker.php:96-98 | one more visit at the end of a completed walk assigns that node's pair, or stops the walk |
| Collecting.CollectPrefixFails | Service/HierarchyWalker.php:96-98 | after the first visit that throws, the rest of the sequence changes nothing |
| Collecting.CollectAdvance | Service/HierarchyWalker.php:96-98 | the loop step: the next visit extends the walk of the prefix, or ends the walk of the whole sequence with the array as it was |
| Collecting.CollectDistinct | Service/HierarchyWalker.php:96-98 | when every visit succeeds and the keys are fresh and pairwise distinct, the walk appends exactly the visited pairs, in visit order |
| Collecting.CollectOrigin | Service/HierarchyWalker.php:96-98 | every entry of the result was there before or was stored by the visit of one of the nodes |
| Collecting.CollectDistinctKeys | Service/HierarchyWalker.php:96-98 | a walk keeps the array's keys unique |
| AttributeCollector.AttrStep | Service/AttributeCollectorVisitor.php:42-43 | what one visit stores: the node's url and the value of its title property, or a failure when the node lacks it; `AttributeCollectorVisitor.Visit` is proved to do exactly this step |
| AttributeCollector.AttributeCollectorVisitor.constructor | Service/AttributeCollectorVisitor.php:25-30 | keeps the title property and mapper; the array starts empty |
| AttributeCollector.AttributeCollectorVisitor.Visit | Service/AttributeCollectorVisitor.php:36-44 | a non-node fails and a node without the title property fails, both leaving the array unchanged; otherwise the node's url is assigned its title |
| AttributeCollector.AttributeCollectorVisitor.Reset | Service/AttributeCollectorVisitor.php:57-60 | the array is empty again |
| AttributeCollector.VisitOverwrites | Service/AttributeCollectorVisitor.php:43 | visiting a url already present overwrites its title and keeps the size and key order |
| AttributeCollector.VisitKeepsOthers | Service/AttributeCollectorVisitor.php:42-43 | a visit leaves every other url's title unchanged |
| AttributeCollector.CollectAttributesInOrder | Service/AttributeCollectorVisitor.php:42-43 | visiting titled nodes with distinct urls, starting from an empty array, yields exactly their `url => title` pairs, in visit order |
| MenuCollector.Strncmp | Service/MenuCollectorVisitor.php:48 | PHP's binary-safe `strncmp`; its zero case is characterised by StrncmpZero |
| MenuCollector.Selected | Service/MenuCollectorVisitor.php:48 | the selection test `strncmp($url, $selectedurl, strlen($url)) === 0`; SelectedIffPrefix proves it is the prefix relation |
| MenuCollector.StrncmpZero | Service/MenuCollectorVisitor.php:48 | `strncmp(a, b, n)` is 0 iff `a` and `b`, each cut at `n`, are equal |
| MenuCollector.SelectedIffPrefix | Service/MenuCollectorVisitor.php:48 | a url is selected iff it is a prefix of the selected url |
| MenuCollector.SelectedSelfNotLonger | Service/MenuCollectorVisitor.php:48 | the selected url itself is selected, and no longer url is |
| MenuCollector.SelectedNotSegmentAware | Service/MenuCollectorVisitor.php:48 | `/bla` counts as selected under `/blabla`: the test ignores path segments |
| MenuCollector.OnSelectedPathNarrowsSelected | Service/MenuCollectorVisitor.php:48 | a segment-aware reading implies the byte test, agrees with it on equal lengths, and tells `/bla` from `/blabla` |
| MenuCollector.MenuStep | Service/MenuCollectorVisitor.php:46-50 | what one visit stores: under the url, the record of url, title, selection flag and node, or a failure for an untitled node; `MenuCollectorVisitor.Visit` is proved to do exactly this step, and CollectMenuInOrder states the walk over it |
| MenuCollector.MenuCollectorVisitor.constructor | Service/MenuCollectorVisitor.php:25-29 | keeps the title property, mapper and selected url; the array starts empty |
| MenuCollector.MenuCollectorVisitor.Visit | Service/MenuCollectorVisitor.php:40-51 | same failure cases as the attribute collector; otherwise stores, under the url, the record of url, title, prefix-selection flag and node |
| MenuCollector.MenuCollectorVisitor.Reset | Service/AttributeCollectorVisitor.php:57-60 | the inherited `reset`: the array is empty again |
| MenuCollector.CollectMenuInOrder | Service/MenuCollectorVisitor.php:46-50 | visiting titled nodes with distinct urls yields one record per node in visit order, each keyed by its url |
| MenuCollector.CollectMenuRecordsWellFormed | Service/MenuCollectorVisitor.php:50 | every collected record's url equals its key, and its node is one of the visited handles |
| HierarchyWalker.NewWalker | Service/HierarchyWalker.php:54-64 | construction fails exactly when no node is stored under the storage id of `/`; otherwise the root is such a node, and the mapper and title property are kept |
| HierarchyWalker.Resolve | Service/HierarchyWalker.php:95 | the node a url denotes has the url's storage id as its path; resolution fails only when no such node exists |
| HierarchyWalker.ChildList | Service/HierarchyWalker.php:80-99 | the child list; GetChildList is proved equal to it, and ChildListFails and ChildListInOrder state when it fails and what it holds |
| HierarchyWalker.VisitChildren | Service/HierarchyWalker.php:93-99 | the visitor's array ends as the walk over the node's children, from the array it held before; the outcome says whether a visit threw |
| HierarchyWalker.GetChildList | Service/HierarchyWalker.php:80-85 | returns the `url => title` walk over the url's children from an empty array, or the error |
| HierarchyWalker.ChildListOfLeaf | Service/HierarchyWalker.php:93-99 | a node without children has an empty child list |
| HierarchyWalker.ChildListFails | Service/HierarchyWalker.php:80-99 | the child list fails iff the url resolves to no node or some child lacks the title property |
| HierarchyWalker.ChildListInOrder | Service/HierarchyWalker.php:78-85 | with titled children and distinct urls, one `url => title` entry per child, in store order |
| HierarchyWalker.AncestorAddrs | Service/HierarchyWalker.php:131-134 | the handles the `while` loop visits; AncestorAddrsShape states their count, depths and order |
| HierarchyWalker.AncestorList | Service/HierarchyWalker.php:113-135 | the breadcrumb; GetAncestors is proved equal to it, and AncestorListShape states what it holds |
| HierarchyWalker.PrefixesValid | Service/HierarchyWalker.php:132 | every ancestor of a node exists |
| HierarchyWalker.VisitAncestors | Service/HierarchyWalker.php:128-135 | fails if the url does not resolve, or if the node lies above the root's depth; otherwise the array is the walk over the ancestors at depths from the root's down to the parent's |
| HierarchyWalker.GetAncestors | Service/HierarchyWalker.php:115-120 | returns that walk from an empty array, or the error |
| HierarchyWalker.AncestorAddrsShape | Service/HierarchyWalker.php:131-134 | the ancestor walk visits one proper ancestor per depth, root to parent, never the node itself |
| HierarchyWalker.AncestorNodes | Service/HierarchyWalker.php:131-134 | one ancestor node per depth between the root's and the node's |
| HierarchyWalker.AncestorListShape | Service/HierarchyWalker.php:113-120 | below the root, with titled ancestors with distinct urls, the breadcrumb has `depth(node) - depth(root)` entries, one `url => title` per ancestor root to parent, the root's first |
| MenuTree.IsActive | Service/HierarchyWalker.php:221 | what `$record['active']` reads: never true as written, the selection flag as intended |
| MenuTree.MenuList | Service/HierarchyWalker.php:214-219 | the records a fresh menu collector gathers from a node's children; OneRecordPerChild and MenuListChildren state what they are |
| MenuTree.MenuRecursive | Service/HierarchyWalker.php:212-232 | `getMenuRecursive` of both variants (with `hasElse` false it is `Services/HierarchyWalker.php:198-216` with the children kept); its meaning is stated by OneRecordPerChild, BudgetRule, ActiveAlwaysExpanded, UnlimitedExpandsAll and WithoutElseNeverFalse |
| MenuTree.RecordChildren | Service/HierarchyWalker.php:221-229 | the `children` the loop sets for one record; BudgetRuleOne, ActiveAlwaysExpandedOne, UnlimitedExpandOne and WithoutElseNeverFalseOne state it |
| MenuTree.MenuListChildren | Service/HierarchyWalker.php:214-219 | each record the child visitor collects is keyed by its own url and denotes a child of the parent |
| MenuTree.ExpandAll | Service/HierarchyWalker.php:220-230 | the loop keeps every record, in order; only its `children` are set |
| MenuTree.ExpandAllCons | Service/HierarchyWalker.php:220-230 | the loop fails iff the first record's expansion or the rest's fails; otherwise the first result is the first record with its `children` |
| MenuTree.AllExpandedNoneNotExpanded | Service/HierarchyWalker.php:182 | a menu whose records are all expanded holds no `false` |
| MenuTree.UnlimitedExpandsAll | Service/HierarchyWalker.php:225-226 | with budget -1, every record at every level is expanded |
| MenuTree.UnlimitedExpandAll | Service/HierarchyWalker.php:225-226 | the same for each record of the loop |
| MenuTree.UnlimitedExpandOne | Service/HierarchyWalker.php:225-226 | the same for one record |
| MenuTree.BudgetRule | Service/HierarchyWalker.php:221-228 | with a limited budget, under either reading of `'active'`, a record is expanded iff it is active or its current depth is below the budget; the counter restarts at 0 below an active record; every other record gets the fallback |
| MenuTree.BudgetRuleAll | Service/HierarchyWalker.php:221-228 | the same for each record of the loop |
| MenuTree.BudgetRuleOne | Service/HierarchyWalker.php:221-228 | the same for one record |
| MenuTree.ActiveAlwaysExpanded | Service/HierarchyWalker.php:221-222 | when the active test reads the selection flag, every selected record at every level is expanded |
| MenuTree.ActiveAlwaysExpandedAll | Service/HierarchyWalker.php:221-222 | the same for each record of the loop |
| MenuTree.ActiveAlwaysExpandedOne | Service/HierarchyWalker.php:221-222 | the same for one record |
| MenuTree.LeafExpandsEmpty | Service/HierarchyWalker.php:182 | a node without children expands to the empty array |
| MenuTree.OneRecordPerChild | Service/HierarchyWalker.php:214-219 | with distinct child urls, one record per child in store order, each with the child's url, title, prefix-selection flag and handle |
| MenuTree.WithoutElseNeverFalse | Services/HierarchyWalker.php:207-213 | without the else branch, no record at any level is `false` |
| MenuTree.WithoutElseNeverFalseAll | Services/HierarchyWalker.php:207-213 | the same for each record of the loop |
| MenuTree.WithoutElseNeverFalseOne | Services/HierarchyWalker.php:207-213 | the same for one record |
| ServiceMenu.GetMenuSpec | Service/HierarchyWalker.php:184-201 | the menu `getMenu` builds, for either reading of `'active'`; the method GetMenu is proved equal to it, and GetMenuShape states its two shapes |
| ServiceMenu.CreateMenuVisitor | Service/HierarchyWalker.php:149-152 | a fresh, empty collector for the url, reading `jcr:primaryType` when `fake`, else the walker's title property |
| ServiceMenu.GetMenu | Service/HierarchyWalker.php:184-201 | visits the root, then expands its record's children; returns the bare children when skipping the root, else the root record with them |
| ServiceMenu.GetMenuShape | Service/HierarchyWalker.php:184-201 | the two result shapes: the root's expanded children alone, or the root record (url, title, selection flag, handle) holding them |
| ServiceMenu.AsWrittenActivePathNotFollowed | Service/HierarchyWalker.php:221 | as written, with the default budget 0, every top-level record is `false`, selected or not |
| ServiceMenu.CorrectedActivePathFollowed | Service/HierarchyWalker.php:221-222 | with the selection flag as the active test, every selected record at every level is expanded |
| ServiceMenu.CorrectedBudget | Service/HierarchyWalker.php:221-228 | with the selection flag as the active test and a budget `depth >= 0`, a record is expanded iff it is selected or lies within `depth` levels below the nearest selected record or the root, and is `false` otherwise; with budget 0 a top-level record is `false` iff it is unselected |
| ServiceMenu.UnlimitedMenuHasNoFalse | Service/HierarchyWalker.php:225-226 | with budget -1 the whole menu is expanded and holds no `false` |
| ServiceMenu.BudgetAsWritten | Service/HierarchyWalker.php:223-228 | as written, the menu is expanded exactly to the depth budget below the root |
| ServicesMenu.RecursiveAsWritten | Services/HierarchyWalker.php:198-216 | as written, a successful recursion returns the visitor's flat list unchanged |
| ServicesMenu.DiscardAll | Services/HierarchyWalker.php:206-213 | the by-value loop: each record's recursion runs only for its failures; AsWrittenFailsLikeIntendedAll states that it fails exactly when the intended loop does |
| ServicesMenu.AsWrittenFailsLikeIntended | Services/HierarchyWalker.php:206-213 | the as-written recursion fails iff the intended one does |
| ServicesMenu.AsWrittenFailsLikeIntendedAll | Services/HierarchyWalker.php:206-213 | the same for the by-value loop over the records |
| ServicesMenu.RootRecord | Services/HierarchyWalker.php:181-184 | the root's record exists iff the root has the title property; it carries the root's url and handle |
| ServicesMenu.GetMenuAsWritten | Services/HierarchyWalker.php:179-187 | as written, `getMenu` always fails, with the argument-count error exactly when the root is titled |
| ServicesMenu.GetMenu | Services/HierarchyWalker.php:179-187 | as intended: the root record whose `children` are the expansion of the root |
| ServicesMenu.IntendedMenuHasNoFalse | Services/HierarchyWalker.php:177 | no record of the intended menu is `false` |
| ServicesMenu.AsWrittenDropsChildren | Services/HierarchyWalker.php:206-213 | wherever the intended recursion succeeds, the as-written one returns the same first-level records, with no `children` |
| Examples.ConstructWalker | Service/HierarchyWalker.php:54-64 | on the fixture tree, the walker's root is the repository root |
| Examples.ServicesDefaultExample | Services/HierarchyWalker.php:55 | a walker with the `Services` default title property `name` is built on the fixture, but its child list of `/test` fails, since the fixture's titles are under `label` |
| Examples.ChildListExample | Tests/Functional/Services/HierarchyWalkerTest.php:21-34 | the children of `/test` are `/test/leveltwo` and `/test/otherleveltwo`, in that order, with their titles |
| Examples.AncestorsExample | Tests/Functional/Services/HierarchyWalkerTest.php:36-44 | the breadcrumb of `/test/leveltwo/levelthree` has three entries, the first `/ => Home` |
| Examples.ExpandOneAtLimit | Service/HierarchyWalker.php:227-228 | a step of SelectedRecordNotFollowed: one unselected record at the budget limit gets the fallback marker |
| Examples.SelectedRecordNotFollowed | Service/HierarchyWalker.php:221 | on the fixture, the selected record `/test` gets `false`, as written |

## Left out

- The repository session, the Jackalope loader and PHPCR node internals are replaced by the immutable node tree. Node types, namespaces, non-string properties and lazy loading are not modelled.
- The path mapper's implementation is not part of this model. Its two translations are uninterpreted parameters.
- The functional test builds the walker with a string prefix instead of a mapper, from an older constructor. The examples use the identity mapper on a tree shaped like the test's fixture.
- Controllers, the `Navigation` document and the dependency-injection extension are outside the core.
- `visitChildren` and `visitAncestors` accept any `ItemVisitorInterface`. The model passes only the attribute collector, the visitor the walker itself creates.
- PHP converts numeric-string array keys to integers. Keys are kept as strings.
- The visitor classes of the `Services` namespace are not part of this model. They are taken to behave like those of `Service`, which key their records by url (`Service/MenuCollectorVisitor.php:50`). Under that visitor, `$tree[0]` (`Services/HierarchyWalker.php:184`) reads an undefined key. ServicesMenu.RootRecord and ServicesMenu.GetMenu correct it to the first record, as `reset($tree)` does at `Service/HierarchyWalker.php:193`.
- PHP before 7.1 runs a call with too few arguments, passing `null` with a warning. The model follows PHP 7.1 and later, which throw (`TooFewArguments`).
- Reading the undefined key `'active'` (`Service/HierarchyWalker.php:221`, `Services/HierarchyWalker.php:207`) raises a PHP notice. The model keeps only the `null` value that the read yields.
- Exceptions are modelled as error values of a `Result` or `Outcome`. Their classes and messages are not modelled.
- MenuCollector.Strncmp: only the sign of the result is meaningful. Characters stand for bytes.
- AttributeCollector.AttributeCollectorVisitor.GetArray: this getter only reads the `tree` field and carries no contract of its own.
- MenuCollector.MenuCollectorVisitor.GetArray: this getter only reads the `tree` field and carries no contract of its own.
- The menu node `node` of a record is its handle, not a live node object.

## Findings

| source | as written | input that shows it | evidently intended | confidence | as-written member | corrected member |
|---|---|---|---|---|---|---|
| Service/HierarchyWalker.php:221 | `$record['active']` reads a key the menu collector never sets (it stores `selected`), so the active branch never fires | on the fixture, `getMenu('/test/leveltwo', true, 0)`: the selected record `/test` gets `children => false` | `$record['selected']`, so the selected path is always expanded and the depth budget restarts below each selected record (ServiceMenu.CorrectedBudget) | not executed | ServiceMenu.AsWrittenActivePathNotFollowed | ServiceMenu.CorrectedActivePathFollowed |
| Services/HierarchyWalker.php:206-213 | `foreach ($list as $record)` assigns `children` to a copy, so the computed children are discarded | a direct call `getMenuRecursive($rootrecord, $path, -1, 0)` (say from a subclass, since `getMenu` fails first at line 185) on a root with a child: the returned records have no `children` | assign through the key, `$list[$key]['children']`, as the `Service` variant does | not executed | ServicesMenu.AsWrittenDropsChildren | ServicesMenu.IntendedMenuHasNoFalse |
| Services/HierarchyWalker.php:185 | `getMenuRecursive($tree, $depth, 0)` passes three arguments to a four-parameter method, leaving out `$path` | any `getMenu` call whose root has the title property | `getMenuRecursive($tree, $path, $depth, 0)` | not executed | ServicesMenu.GetMenuAsWritten | ServicesMenu.GetMenu |
