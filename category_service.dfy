/** The category manager: the rows that default seeding, creation, partial
    update and soft delete produce, and the filtered, ordered category list.
    The state changes themselves are the methods of Db.Store; this module
    holds the definitions they are proved against. */
module CategoryService {
  import opened Models

  /** One entry of the default-category catalog: a root and the names of its
      children, in catalog order. */
  datatype CatalogEntry = CatalogEntry(
    categoryName: string,
    inoutType: InOut,
    className: Option<string>,
    sortOrder: Option<int>,
    children: seq<string>)

  /** The body of a create request; a null optional field stays null. */
  datatype CategoryRequest = CategoryRequest(
    categoryName: string,
    parentNo: Option<nat>,
    className: Option<string>,
    inoutType: InOut,
    sortOrder: Option<int>)

  /** The body of a modify request; a null field leaves the column as it is. */
  datatype CategoryPatch = CategoryPatch(
    categoryName: Option<string>,
    parentNo: Option<nat>,
    className: Option<string>,
    inoutType: Option<InOut>,
    sortOrder: Option<int>)

  /** Every row sits under its own number, below the next number to hand out,
      with consistent soft-delete columns. */
  predicate CategoryTableOk(cats: map<nat, Category>, next: nat)
  {
    forall k :: k in cats ==> cats[k].categoryNo == k && k < next && cats[k].life.WellFormed()
  }

  // ---------------------------------------------------------------------
  // Default seeding

  /** The root row seeded for catalog entry `e`. */
  function RootRow(e: CatalogEntry, no: nat, memberNo: nat, now: Time): Category
  {
    Category(no, Some(memberNo), e.categoryName, if |e.children| == 0 then F else T,
             None, e.className, F, e.inoutType, e.sortOrder, Created(now))
  }

  /** The row seeded for the child at position `j` of entry `e`, whose root is `rootNo`. */
  function ChildRow(e: CatalogEntry, rootNo: nat, j: nat, memberNo: nat, now: Time): Category
    requires j < |e.children|
  {
    Category(rootNo + 1 + j, Some(memberNo), e.children[j], F, Some(rootNo),
             None, F, e.inoutType, Some(j + 1), Created(now))
  }

  /** The rows seeded for the first `k` children of `e`, numbered after the root. */
  function ChildRows(e: CatalogEntry, rootNo: nat, memberNo: nat, now: Time, k: nat): map<nat, Category>
    requires k <= |e.children|
  {
    if k == 0 then map[]
    else ChildRows(e, rootNo, memberNo, now, k - 1)[rootNo + k := ChildRow(e, rootNo, k - 1, memberNo, now)]
  }

  /** The root and all children seeded for entry `e`. */
  function EntryRows(e: CatalogEntry, no: nat, memberNo: nat, now: Time): map<nat, Category>
  {
    ChildRows(e, no, memberNo, now, |e.children|)[no := RootRow(e, no, memberNo, now)]
  }

  /** The number of rows the first `n` catalog entries produce. */
  function SeedSize(cat: seq<CatalogEntry>, n: nat): nat
    requires n <= |cat|
  {
    if n == 0 then 0 else SeedSize(cat, n - 1) + 1 + |cat[n - 1].children|
  }

  /** The number the root of entry `i` receives when seeding starts at `first`. */
  function RootNo(cat: seq<CatalogEntry>, first: nat, i: nat): nat
    requires i <= |cat|
  {
    first + SeedSize(cat, i)
  }

  /** The rows seeded for the first `n` catalog entries, starting at number
      `first`: each root, then its children, entry after entry. */
  function SeedRows(cat: seq<CatalogEntry>, first: nat, memberNo: nat, now: Time, n: nat): map<nat, Category>
    requires n <= |cat|
  {
    if n == 0 then map[]
    else SeedRows(cat, first, memberNo, now, n - 1) + EntryRows(cat[n - 1], RootNo(cat, first, n - 1), memberNo, now)
  }

  lemma {:induction false} ChildRowsAt(e: CatalogEntry, rootNo: nat, memberNo: nat, now: Time, k: nat)
    requires k <= |e.children|
    ensures forall key :: key in ChildRows(e, rootNo, memberNo, now, k) <==> rootNo < key <= rootNo + k
    ensures forall j :: 0 <= j < k ==> ChildRows(e, rootNo, memberNo, now, k)[rootNo + 1 + j] == ChildRow(e, rootNo, j, memberNo, now)
  {
    if k > 0 {
      ChildRowsAt(e, rootNo, memberNo, now, k - 1);
    }
  }

  lemma {:induction false} SeedSizeGrows(cat: seq<CatalogEntry>, i: nat, n: nat)
    requires i < n <= |cat|
    ensures SeedSize(cat, i) + 1 + |cat[i].children| <= SeedSize(cat, n)
  {
    if i < n - 1 {
      SeedSizeGrows(cat, i, n - 1);
    }
  }

  /** Seeding `n` entries fills exactly the numbers first .. first + SeedSize - 1. */
  lemma {:induction false} SeedRowsKeys(cat: seq<CatalogEntry>, first: nat, memberNo: nat, now: Time, n: nat)
    requires n <= |cat|
    ensures forall key :: key in SeedRows(cat, first, memberNo, now, n) <==> first <= key < first + SeedSize(cat, n)
  {
    if n > 0 {
      SeedRowsKeys(cat, first, memberNo, now, n - 1);
      ChildRowsAt(cat[n - 1], RootNo(cat, first, n - 1), memberNo, now, |cat[n - 1].children|);
    }
  }

  /** Within the number range of entry `i`, the seeded table holds that entry's rows. */
  lemma {:induction false} SeedRowsAt(cat: seq<CatalogEntry>, first: nat, memberNo: nat, now: Time, n: nat, i: nat, key: nat)
    requires i < n <= |cat|
    requires RootNo(cat, first, i) <= key <= RootNo(cat, first, i) + |cat[i].children|
    ensures key in EntryRows(cat[i], RootNo(cat, first, i), memberNo, now)
    ensures key in SeedRows(cat, first, memberNo, now, n)
    ensures SeedRows(cat, first, memberNo, now, n)[key] == EntryRows(cat[i], RootNo(cat, first, i), memberNo, now)[key]
  {
    var e := cat[i];
    ChildRowsAt(e, RootNo(cat, first, i), memberNo, now, |e.children|);
    assert key in EntryRows(e, RootNo(cat, first, i), memberNo, now);
    if i < n - 1 {
      SeedRowsAt(cat, first, memberNo, now, n - 1, i, key);
      SeedSizeGrows(cat, i, n - 1);
      var last := cat[n - 1];
      ChildRowsAt(last, RootNo(cat, first, n - 1), memberNo, now, |last.children|);
      assert key !in EntryRows(last, RootNo(cat, first, n - 1), memberNo, now);
    }
  }

  /** Adding a live row under the next free number keeps the table well keyed. */
  lemma AddCategoryKeepsTableOk(cats: map<nat, Category>, next: nat, c: Category)
    requires CategoryTableOk(cats, next)
    requires c.categoryNo == next && c.life.WellFormed()
    ensures CategoryTableOk(cats[next := c], next + 1)
  {
  }

  /** One child insert of the seeding batch, as a step on the seeded table. */
  lemma ChildStep(seeded: map<nat, Category>, e: CatalogEntry, rootNo: nat, memberNo: nat, now: Time, j: nat, root: Category)
    requires j < |e.children|
    ensures (seeded + ChildRows(e, rootNo, memberNo, now, j)[rootNo := root])[rootNo + 1 + j := ChildRow(e, rootNo, j, memberNo, now)]
            == seeded + ChildRows(e, rootNo, memberNo, now, j + 1)[rootNo := root]
  {
  }

  /** The inner loop of insert_default_categories: the root of `entry` under
      number `next`, then its children one by one under the following numbers. */
  method SeedEntry(cats: map<nat, Category>, next: nat, entry: CatalogEntry, memberNo: nat, now: Time)
    returns (cats': map<nat, Category>, next': nat)
    requires CategoryTableOk(cats, next)
    ensures cats' == cats + EntryRows(entry, next, memberNo, now)
    ensures next' == next + 1 + |entry.children|
    ensures CategoryTableOk(cats', next')
  {
    var rootNo := next;
    var root := RootRow(entry, rootNo, memberNo, now);
    AddCategoryKeepsTableOk(cats, next, root);
    cats', next' := cats[rootNo := root], next + 1;
    var j := 0;
    while j < |entry.children|
      invariant 0 <= j <= |entry.children|
      invariant CategoryTableOk(cats', next')
      invariant next' == rootNo + 1 + j
      invariant cats' == cats + ChildRows(entry, rootNo, memberNo, now, j)[rootNo := root]
    {
      var child := ChildRow(entry, rootNo, j, memberNo, now);
      AddCategoryKeepsTableOk(cats', next', child);
      ChildStep(cats, entry, rootNo, memberNo, now, j, root);
      cats', next' := cats'[next' := child], next' + 1;
      j := j + 1;
    }
  }

  /** The outer loop of insert_default_categories: the catalog entries in
      order, each numbered on from where the previous one ended. */
  method SeedCatalog(cats: map<nat, Category>, next: nat, catalog: seq<CatalogEntry>, memberNo: nat, now: Time)
    returns (cats': map<nat, Category>, next': nat)
    requires CategoryTableOk(cats, next)
    ensures cats' == cats + SeedRows(catalog, next, memberNo, now, |catalog|)
    ensures next' == next + SeedSize(catalog, |catalog|)
    ensures CategoryTableOk(cats', next')
  {
    cats', next' := cats, next;
    var i := 0;
    while i < |catalog|
      invariant 0 <= i <= |catalog|
      invariant CategoryTableOk(cats', next')
      invariant cats' == cats + SeedRows(catalog, next, memberNo, now, i)
      invariant next' == RootNo(catalog, next, i)
    {
      ghost var entryRows := EntryRows(catalog[i], RootNo(catalog, next, i), memberNo, now);
      cats', next' := SeedEntry(cats', next', catalog[i], memberNo, now);
      UnionAssociative(cats, SeedRows(catalog, next, memberNo, now, i), entryRows);
      assert SeedRows(catalog, next, memberNo, now, i + 1) == SeedRows(catalog, next, memberNo, now, i) + entryRows;
      assert RootNo(catalog, next, i + 1) == RootNo(catalog, next, i) + 1 + |catalog[i].children|;
      i := i + 1;
    }
  }

  /** The root seeded for entry `i` is owned by the new member, has no parent,
      copies the entry's name and type, starts live, and has has_children = 'T'
      exactly when the entry lists children. */
  lemma SeededRoot(cat: seq<CatalogEntry>, first: nat, memberNo: nat, now: Time, i: nat)
    requires i < |cat|
    ensures var rows := SeedRows(cat, first, memberNo, now, |cat|);
            var no := RootNo(cat, first, i);
            && no in rows
            && rows[no].categoryNo == no
            && rows[no].memberNo == Some(memberNo)
            && rows[no].parentNo == None
            && (rows[no].hasChildren == T <==> |cat[i].children| > 0)
            && rows[no].categoryName == cat[i].categoryName
            && rows[no].inoutType == cat[i].inoutType
            && rows[no].life.Active() && rows[no].life.delDt == None
  {
    SeedRowsAt(cat, first, memberNo, now, |cat|, i, RootNo(cat, first, i));
  }

  /** The child at position `j` of entry `i` hangs under that entry's root,
      has sort_order j + 1, no children, the root's income/expense type and
      owner, and the catalog's child name. */
  lemma SeededChild(cat: seq<CatalogEntry>, first: nat, memberNo: nat, now: Time, i: nat, j: nat)
    requires i < |cat| && j < |cat[i].children|
    ensures var rows := SeedRows(cat, first, memberNo, now, |cat|);
            var root := RootNo(cat, first, i);
            var no := root + 1 + j;
            && no in rows
            && rows[no].categoryNo == no
            && rows[no].parentNo == Some(root)
            && rows[no].sortOrder == Some(j + 1)
            && rows[no].hasChildren == F
            && rows[no].inoutType == cat[i].inoutType
            && rows[no].memberNo == Some(memberNo)
            && rows[no].categoryName == cat[i].children[j]
            && rows[no].life.Active() && rows[no].life.delDt == None
  {
    var root := RootNo(cat, first, i);
    SeedRowsAt(cat, first, memberNo, now, |cat|, i, root + 1 + j);
    ChildRowsAt(cat[i], root, memberNo, now, |cat[i].children|);
    assert EntryRows(cat[i], root, memberNo, now)[root + 1 + j] == ChildRow(cat[i], root, j, memberNo, now);
  }

  // ---------------------------------------------------------------------
  // Create, modify, delete

  /** The row create_category inserts: owned by the caller, no children yet. */
  function NewCategory(req: CategoryRequest, no: nat, memberNo: nat, now: Time): Category
  {
    Category(no, Some(memberNo), req.categoryName, F, req.parentNo, req.className,
             F, req.inoutType, req.sortOrder, Created(now))
  }

  /** The lookup and ownership check shared by modify and delete: the row must
      exist and be live, and its owner must be the caller. */
  function FindCategory(cats: map<nat, Category>, memberNo: nat, categoryNo: nat): (r: Result<Category>)
    ensures r == Err(NotFound) <==> categoryNo !in cats || !cats[categoryNo].life.Active()
    ensures r == Err(NoPermission) <==>
              categoryNo in cats && cats[categoryNo].life.Active() && cats[categoryNo].memberNo != Some(memberNo)
    ensures r.Ok? ==> categoryNo in cats && r.value == cats[categoryNo]
    ensures r.Ok? || r == Err(NotFound) || r == Err(NoPermission)
    ensures categoryNo in cats && cats[categoryNo].memberNo == None ==> r.Err?
  {
    if categoryNo !in cats || cats[categoryNo].life.isDeleted != F then Err(NotFound)
    else if cats[categoryNo].memberNo != Some(memberNo) then Err(NoPermission)
    else Ok(cats[categoryNo])
  }

  /** The row after modify_category: every non-null request field overwrites its
      column; the number, owner, flags and audit columns are out of the request's
      reach; a request with only nulls changes nothing. */
  function ApplyCategoryPatch(c: Category, p: CategoryPatch): (r: Category)
    ensures r.categoryNo == c.categoryNo && r.memberNo == c.memberNo
    ensures r.hasChildren == c.hasChildren && r.isSystem == c.isSystem && r.life == c.life
    ensures p.categoryName.Some? ==> r.categoryName == p.categoryName.value
    ensures p.categoryName.None? ==> r.categoryName == c.categoryName
    ensures p.parentNo.Some? ==> r.parentNo == p.parentNo
    ensures p.parentNo.None? ==> r.parentNo == c.parentNo
    ensures p.className.Some? ==> r.className == p.className
    ensures p.className.None? ==> r.className == c.className
    ensures p.inoutType.Some? ==> r.inoutType == p.inoutType.value
    ensures p.inoutType.None? ==> r.inoutType == c.inoutType
    ensures p.sortOrder.Some? ==> r.sortOrder == p.sortOrder
    ensures p.sortOrder.None? ==> r.sortOrder == c.sortOrder
    ensures p == CategoryPatch(None, None, None, None, None) ==> r == c
  {
    var withName := match p.categoryName case Some(n) => c.(categoryName := n) case None => c;
    var withParent := match p.parentNo case Some(n) => withName.(parentNo := Some(n)) case None => withName;
    var withClass := match p.className case Some(n) => withParent.(className := Some(n)) case None => withParent;
    var withType := match p.inoutType case Some(t) => withClass.(inoutType := t) case None => withClass;
    match p.sortOrder case Some(o) => withType.(sortOrder := Some(o)) case None => withType
  }

  /** A deleted category is no longer found, so a second delete fails. */
  lemma DeletedCategoryNotFound(cats: map<nat, Category>, memberNo: nat, categoryNo: nat, now: Time)
    requires FindCategory(cats, memberNo, categoryNo).Ok?
    ensures var c := cats[categoryNo];
            FindCategory(cats[categoryNo := c.(life := SoftDeleted(c.life, now))], memberNo, categoryNo) == Err(NotFound)
  {
  }

  /** A modified category is found again by its owner as the patched row. */
  lemma ModifiedCategoryFound(cats: map<nat, Category>, memberNo: nat, categoryNo: nat, p: CategoryPatch)
    requires FindCategory(cats, memberNo, categoryNo).Ok?
    ensures var c := ApplyCategoryPatch(cats[categoryNo], p);
            FindCategory(cats[categoryNo := c], memberNo, categoryNo) == Ok(c)
  {
  }

  // ---------------------------------------------------------------------
  // Listing

  /** The filter of get_category_list: a live row of the caller with the given
      income/expense type and exactly the given parent (none: a root). */
  predicate Listed(c: Category, memberNo: nat, inoutType: InOut, parentNo: Option<nat>)
  {
    c.memberNo == Some(memberNo) && c.inoutType == inoutType && c.life.isDeleted == F && c.parentNo == parentNo
  }

  /** Ascending sort_order with nulls first, as MySQL orders nulls. */
  predicate SortOrderBefore(x: Option<int>, y: Option<int>)
  {
    match (x, y)
    case (None, Some(_)) => true
    case (Some(a), Some(b)) => a < b
    case _ => false
  }

  /** The list order: (sort_order, category_no) ascending. */
  predicate ListedBefore(a: Category, b: Category)
  {
    SortOrderBefore(a.sortOrder, b.sortOrder) || (a.sortOrder == b.sortOrder && a.categoryNo < b.categoryNo)
  }

  predicate InListOrder(s: seq<Category>)
  {
    forall i, j :: 0 <= i < j < |s| ==> ListedBefore(s[i], s[j])
  }

  lemma ListedBeforeTransitive(a: Category, b: Category, c: Category)
    requires ListedBefore(a, b) && ListedBefore(b, c)
    ensures ListedBefore(a, c)
  {
  }

  /** The rows with number below `bound` that pass the filter, by ascending number. */
  function SelectListed(cats: map<nat, Category>, bound: nat, memberNo: nat, inoutType: InOut, parentNo: Option<nat>): (r: seq<Category>)
    requires forall k :: k in cats ==> cats[k].categoryNo == k
    ensures forall c :: c in r <==>
              c.categoryNo < bound && c.categoryNo in cats && cats[c.categoryNo] == c && Listed(c, memberNo, inoutType, parentNo)
    ensures forall i, j :: 0 <= i < j < |r| ==> r[i].categoryNo < r[j].categoryNo
  {
    if bound == 0 then []
    else
      var rest := SelectListed(cats, bound - 1, memberNo, inoutType, parentNo);
      var k := bound - 1;
      if k in cats && Listed(cats[k], memberNo, inoutType, parentNo) then rest + [cats[k]] else rest
  }

  /** Putting in front of an ordered list a row that comes before all of it keeps the order. */
  lemma ConsInOrder(x: Category, t: seq<Category>)
    requires InListOrder(t)
    requires forall d :: d in t ==> ListedBefore(x, d)
    ensures InListOrder([x] + t)
  {
    forall i, j | 0 <= i < j < |[x] + t| ensures ListedBefore(([x] + t)[i], ([x] + t)[j]) {
      if i > 0 {
        assert ([x] + t)[i] == t[i - 1] && ([x] + t)[j] == t[j - 1];
      } else {
        assert ([x] + t)[j] == t[j - 1];
      }
    }
  }

  /** Inserts `c` into a list already in list order. */
  function InsertInOrder(c: Category, s: seq<Category>): (r: seq<Category>)
    requires InListOrder(s)
    requires forall d :: d in s ==> d.categoryNo != c.categoryNo
    ensures multiset(r) == multiset(s) + multiset{c}
    ensures InListOrder(r)
  {
    if s == [] then [c]
    else if ListedBefore(c, s[0]) then
      InsertFront(c, s);
      [c] + s
    else
      var tail := InsertInOrder(c, s[1..]);
      InsertBehind(c, s, tail);
      assert s == [s[0]] + s[1..];
      [s[0]] + tail
  }

  lemma InsertFront(c: Category, s: seq<Category>)
    requires InListOrder(s) && s != [] && ListedBefore(c, s[0])
    ensures InListOrder([c] + s)
  {
    forall d | d in s ensures ListedBefore(c, d) {
      var j :| 0 <= j < |s| && s[j] == d;
      if j > 0 {
        ListedBeforeTransitive(c, s[0], s[j]);
      }
    }
    ConsInOrder(c, s);
  }

  lemma InsertBehind(c: Category, s: seq<Category>, tail: seq<Category>)
    requires InListOrder(s) && s != [] && !ListedBefore(c, s[0]) && c.categoryNo != s[0].categoryNo
    requires InListOrder(tail) && multiset(tail) == multiset(s[1..]) + multiset{c}
    ensures InListOrder([s[0]] + tail)
  {
    forall d | d in tail ensures ListedBefore(s[0], d) {
      assert d in multiset(tail);
      if d != c {
        assert d in multiset(s[1..]);
        var j :| 0 <= j < |s[1..]| && s[1..][j] == d;
        assert s[j + 1] == d;
      }
    }
    ConsInOrder(s[0], tail);
  }

  /** Sorts rows with pairwise different numbers into list order. */
  function SortInListOrder(s: seq<Category>): (r: seq<Category>)
    requires forall i, j :: 0 <= i < j < |s| ==> s[i].categoryNo != s[j].categoryNo
    ensures multiset(r) == multiset(s)
    ensures InListOrder(r)
  {
    if s == [] then []
    else
      var sorted := SortInListOrder(s[1..]);
      assert forall d :: d in sorted ==> d in multiset(s[1..]);
      assert forall d :: d in s[1..] ==> d.categoryNo != s[0].categoryNo;
      assert s == [s[0]] + s[1..];
      InsertInOrder(s[0], sorted)
  }

  /** get_category_list: exactly the caller's live rows of the given type and
      parent, each once, ordered by (sort_order, category_no). */
  function CategoryList(cats: map<nat, Category>, next: nat, memberNo: nat, inoutType: InOut, parentNo: Option<nat>): (r: seq<Category>)
    requires CategoryTableOk(cats, next)
    ensures forall k :: k in cats ==> (cats[k] in r <==> Listed(cats[k], memberNo, inoutType, parentNo))
    ensures forall c :: c in r ==> c.categoryNo in cats && cats[c.categoryNo] == c
    ensures InListOrder(r)
    ensures forall i, j :: 0 <= i < j < |r| ==> r[i].categoryNo != r[j].categoryNo
  {
    var selected := SelectListed(cats, next, memberNo, inoutType, parentNo);
    var r := SortInListOrder(selected);
    assert forall c :: c in r <==> c in multiset(selected);
    r
  }

  /** A category just created is in the list for its owner, type and parent. */
  lemma CreatedCategoryIsListed(cats: map<nat, Category>, next: nat, req: CategoryRequest, memberNo: nat, now: Time)
    requires CategoryTableOk(cats, next)
    ensures var c := NewCategory(req, next, memberNo, now);
            c in CategoryList(cats[next := c], next + 1, memberNo, req.inoutType, req.parentNo)
  {
    var c := NewCategory(req, next, memberNo, now);
    assert CategoryTableOk(cats[next := c], next + 1);
  }
}
