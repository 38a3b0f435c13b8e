/** The database the three services work on: one map per table from primary
    key to row, and the next number each table's auto-increment key hands
    out. Each method is one service function, from its lookups to its single
    commit. A method stages its writes in local copies and assigns the fields
    only at the commit, so an operation that fails leaves the store as it was. */
module Db {
  import opened Models
  import opened CategoryService
  import opened AccountService
  import opened MembersService

  class Store {
    var members: map<nat, Member>
    var categories: map<nat, Category>
    var accountLogs: map<nat, AccountLog>
    var logDetails: map<nat, LogDetail>
    var nextMemberNo: nat
    var nextCategoryNo: nat
    var nextAccountLogNo: nat
    var nextLogDetailNo: nat

    /** The constraints of the schema that the services keep: keys, the unique
        login id, the foreign keys of detail rows, and consistent soft deletes. */
    ghost predicate Valid()
      reads this
    {
      && MemberTableOk(members, nextMemberNo)
      && UniqueLoginIds(members)
      && CategoryTableOk(categories, nextCategoryNo)
      && LogTableOk(accountLogs, nextAccountLogNo)
      && DetailTableOk(logDetails, nextLogDetailNo)
      && DetailLinksOk(logDetails, accountLogs, categories)
    }

    constructor ()
      ensures Valid()
      ensures members == map[] && categories == map[] && accountLogs == map[] && logDetails == map[]
    {
      members, categories, accountLogs, logDetails := map[], map[], map[], map[];
      nextMemberNo, nextCategoryNo, nextAccountLogNo, nextLogDetailNo := 0, 0, 0, 0;
    }

    // -------------------------------------------------------------------
    // Category manager

    /** insert_default_categories: for each catalog entry, a root owned by the
        member, then the entry's children under it. */
    method InsertDefaultCategories(memberNo: nat, catalog: seq<CatalogEntry>, now: Time)
      requires Valid()
      modifies this
      ensures Valid()
      ensures categories == old(categories) + SeedRows(catalog, old(nextCategoryNo), memberNo, now, |catalog|)
      ensures nextCategoryNo == old(nextCategoryNo) + SeedSize(catalog, |catalog|)
      ensures members == old(members) && accountLogs == old(accountLogs) && logDetails == old(logDetails)
      ensures nextMemberNo == old(nextMemberNo) && nextAccountLogNo == old(nextAccountLogNo)
      ensures nextLogDetailNo == old(nextLogDetailNo)
    {
      // Nothing in the model can fail between the commits after each root and
      // after each child batch, so the batches are staged and assigned at once.
      var cats, next := SeedCatalog(categories, nextCategoryNo, catalog, memberNo, now);
      DetailLinksGrowCategories(logDetails, accountLogs, categories, cats);
      categories, nextCategoryNo := cats, next;
    }

    /** create_category: one new row owned by the caller with has_children = 'F';
        no other row changes, the parent's has_children included. */
    method CreateCategory(memberNo: nat, req: CategoryRequest, now: Time) returns (c: Category)
      requires Valid()
      modifies this
      ensures Valid()
      ensures c == NewCategory(req, old(nextCategoryNo), memberNo, now)
      ensures c.memberNo == Some(memberNo) && c.hasChildren == F && c.isSystem == F
      ensures c.life.Active() && c.life.delDt == None
      ensures c.categoryNo !in old(categories) && categories == old(categories)[c.categoryNo := c]
      ensures nextCategoryNo == old(nextCategoryNo) + 1
      ensures members == old(members) && accountLogs == old(accountLogs) && logDetails == old(logDetails)
      ensures nextMemberNo == old(nextMemberNo) && nextAccountLogNo == old(nextAccountLogNo)
      ensures nextLogDetailNo == old(nextLogDetailNo)
    {
      c := NewCategory(req, nextCategoryNo, memberNo, now);
      categories := categories[c.categoryNo := c];
      nextCategoryNo := nextCategoryNo + 1;
    }

    /** modify_category: fails when the row is missing or deleted, or is not the
        caller's; otherwise overwrites the non-null request fields of that row. */
    method ModifyCategory(memberNo: nat, categoryNo: nat, patch: CategoryPatch) returns (r: Result<Category>)
      requires Valid()
      modifies this
      ensures Valid()
      ensures r.Err? ==> r == FindCategory(old(categories), memberNo, categoryNo) && categories == old(categories)
      ensures r.Ok? ==> && FindCategory(old(categories), memberNo, categoryNo).Ok?
                        && r.value == ApplyCategoryPatch(old(categories)[categoryNo], patch)
                        && categories == old(categories)[categoryNo := r.value]
      ensures nextCategoryNo == old(nextCategoryNo)
      ensures members == old(members) && accountLogs == old(accountLogs) && logDetails == old(logDetails)
      ensures nextMemberNo == old(nextMemberNo) && nextAccountLogNo == old(nextAccountLogNo)
      ensures nextLogDetailNo == old(nextLogDetailNo)
    {
      var found := FindCategory(categories, memberNo, categoryNo);
      if found.Err? {
        return found;
      }
      var updated := ApplyCategoryPatch(found.value, patch);
      categories := categories[categoryNo := updated];
      r := Ok(updated);
    }

    /** delete_category: the same checks as modify; then only that row is marked
        deleted at `now`. Its children and the detail lines naming it are left alone. */
    method DeleteCategory(memberNo: nat, categoryNo: nat, now: Time) returns (r: Result<Category>)
      requires Valid()
      modifies this
      ensures Valid()
      ensures r.Err? ==> r == FindCategory(old(categories), memberNo, categoryNo) && categories == old(categories)
      ensures r.Ok? ==> && FindCategory(old(categories), memberNo, categoryNo).Ok?
                        && r.value == old(categories)[categoryNo].(life := SoftDeleted(old(categories)[categoryNo].life, now))
                        && r.value.life.isDeleted == T && r.value.life.delDt == Some(now)
                        && categories == old(categories)[categoryNo := r.value]
      ensures nextCategoryNo == old(nextCategoryNo)
      ensures members == old(members) && accountLogs == old(accountLogs) && logDetails == old(logDetails)
      ensures nextMemberNo == old(nextMemberNo) && nextAccountLogNo == old(nextAccountLogNo)
      ensures nextLogDetailNo == old(nextLogDetailNo)
    {
      var found := FindCategory(categories, memberNo, categoryNo);
      if found.Err? {
        return found;
      }
      var deleted := found.value.(life := SoftDeleted(found.value.life, now));
      categories := categories[categoryNo := deleted];
      r := Ok(deleted);
    }

    /** get_category_list on this store. */
    function GetCategoryList(memberNo: nat, inoutType: InOut, parentNo: Option<nat>): (r: seq<Category>)
      reads this
      requires Valid()
      ensures forall k :: k in categories ==> (categories[k] in r <==> Listed(categories[k], memberNo, inoutType, parentNo))
      ensures forall c :: c in r ==> c.categoryNo in categories && categories[c.categoryNo] == c
      ensures InListOrder(r)
    {
      CategoryList(categories, nextCategoryNo, memberNo, inoutType, parentNo)
    }

    // -------------------------------------------------------------------
    // Transaction manager

    /** create_account: the header, then one detail row per line; any line whose
        category is outside `categorySet` fails the whole call and nothing is
        committed. `categorySet` is what get_all_category_nos_list returns for
        the caller; of it the model assumes only that it names existing rows. */
    method CreateAccount(memberNo: nat, req: AccountRequest, categorySet: set<nat>, now: Time) returns (r: Result<AccountLog>)
      requires Valid()
      requires categorySet <= categories.Keys
      modifies this
      ensures Valid()
      ensures r.Err? <==> !AllCategoriesAllowed(req.detailList, categorySet)
      ensures r.Err? ==> && r.error == InvalidCategory
                         && accountLogs == old(accountLogs) && logDetails == old(logDetails)
                         && nextAccountLogNo == old(nextAccountLogNo) && nextLogDetailNo == old(nextLogDetailNo)
      ensures r.Ok? ==> && r.value == NewAccountLog(req, old(nextAccountLogNo), memberNo, now)
                        && r.value.accountLogNo !in old(accountLogs)
                        && accountLogs == old(accountLogs)[r.value.accountLogNo := r.value]
                        && logDetails == old(logDetails) + DetailRows(req.detailList, r.value.accountLogNo, old(nextLogDetailNo), now)
                        && nextAccountLogNo == old(nextAccountLogNo) + 1
                        && nextLogDetailNo == old(nextLogDetailNo) + |req.detailList|
      ensures members == old(members) && categories == old(categories)
      ensures nextMemberNo == old(nextMemberNo) && nextCategoryNo == old(nextCategoryNo)
    {
      var logNo := nextAccountLogNo;
      var header := NewAccountLog(req, logNo, memberNo, now);
      var lines := req.detailList;
      var ok, staged, nextDetail := StageDetails(logDetails, lines, logNo, nextLogDetailNo, categorySet, now);
      if !ok {
        return Err(InvalidCategory);
      }
      DetailRowsLinks(lines, logNo, nextLogDetailNo, now, categorySet);
      CommitKeepsDetailTables(logDetails, nextLogDetailNo, DetailRows(lines, logNo, nextLogDetailNo, now), nextDetail,
                              accountLogs, accountLogs[logNo := header], categories, logNo, categorySet);
      accountLogs, logDetails := accountLogs[logNo := header], staged;
      nextAccountLogNo, nextLogDetailNo := logNo + 1, nextDetail;
      r := Ok(header);
    }

    /** modify_account: the checks of delete_account, then the header patch and
        one new detail row per line without log_detail_no; lines with a
        log_detail_no leave the existing rows as they are. Every line passes the
        category check of create_account, and a failing line commits nothing,
        the header patch included. */
    method ModifyAccount(memberNo: nat, accountNo: nat, patch: AccountPatch, categorySet: set<nat>, now: Time)
      returns (r: Result<AccountLog>)
      requires Valid()
      requires categorySet <= categories.Keys
      modifies this
      ensures Valid()
      ensures r.Ok? || r == Err(NotFound) || r == Err(InvalidCategory)
      ensures r == Err(NotFound) <==> FindAccount(old(accountLogs), memberNo, accountNo).Err?
      ensures r == Err(InvalidCategory) <==>
                FindAccount(old(accountLogs), memberNo, accountNo).Ok? && !AllCategoriesAllowed(patch.detailList, categorySet)
      ensures r.Err? ==> accountLogs == old(accountLogs) && logDetails == old(logDetails) && nextLogDetailNo == old(nextLogDetailNo)
      ensures r.Ok? ==> && accountNo in old(accountLogs)
                        && r.value == ApplyAccountPatch(old(accountLogs)[accountNo], patch)
                        && accountLogs == old(accountLogs)[accountNo := r.value]
                        && logDetails == old(logDetails) + DetailRows(NewLines(patch.detailList), accountNo, old(nextLogDetailNo), now)
                        && nextLogDetailNo == old(nextLogDetailNo) + |NewLines(patch.detailList)|
                        && (forall k :: k in old(logDetails) ==> k in logDetails && logDetails[k] == old(logDetails)[k])
      ensures members == old(members) && categories == old(categories)
      ensures nextMemberNo == old(nextMemberNo) && nextCategoryNo == old(nextCategoryNo)
      ensures nextAccountLogNo == old(nextAccountLogNo)
    {
      var found := FindAccount(accountLogs, memberNo, accountNo);
      if found.Err? {
        return Err(NotFound);
      }
      var header := ApplyAccountPatch(found.value, patch);
      var lines := patch.detailList;
      var ok, staged, nextDetail := StageNewDetails(logDetails, lines, accountNo, nextLogDetailNo, categorySet, now);
      if !ok {
        return Err(InvalidCategory);
      }
      NewLinesAllowed(lines, categorySet);
      DetailRowsLinks(NewLines(lines), accountNo, nextLogDetailNo, now, categorySet);
      CommitKeepsDetailTables(logDetails, nextLogDetailNo, DetailRows(NewLines(lines), accountNo, nextLogDetailNo, now),
                              nextDetail, accountLogs, accountLogs[accountNo := header], categories, accountNo, categorySet);
      accountLogs, logDetails := accountLogs[accountNo := header], staged;
      nextLogDetailNo := nextDetail;
      r := Ok(header);
    }

    /** delete_account: fails like modify_account when the header is missing,
        deleted or not the caller's; otherwise marks the header deleted and runs
        the cascade over all of its detail rows. */
    method DeleteAccount(memberNo: nat, accountNo: nat, now: Time) returns (r: Result<AccountLog>)
      requires Valid()
      modifies this
      ensures Valid()
      ensures r.Err? <==> FindAccount(old(accountLogs), memberNo, accountNo).Err?
      ensures r.Err? ==> r.error == NotFound && accountLogs == old(accountLogs) && logDetails == old(logDetails)
      ensures r.Ok? ==> && accountNo in old(accountLogs)
                        && r.value == old(accountLogs)[accountNo].(life := SoftDeleted(old(accountLogs)[accountNo].life, now))
                        && accountLogs == old(accountLogs)[accountNo := r.value]
                        && logDetails == CascadeDelete(old(logDetails), accountNo, now)
      ensures members == old(members) && categories == old(categories)
      ensures nextMemberNo == old(nextMemberNo) && nextCategoryNo == old(nextCategoryNo)
      ensures nextAccountLogNo == old(nextAccountLogNo) && nextLogDetailNo == old(nextLogDetailNo)
    {
      var found := FindAccount(accountLogs, memberNo, accountNo);
      if found.Err? {
        return Err(NotFound);
      }
      var header := found.value.(life := SoftDeleted(found.value.life, now));
      accountLogs := accountLogs[accountNo := header];
      logDetails := CascadeDelete(logDetails, accountNo, now);
      r := Ok(header);
    }

    // -------------------------------------------------------------------
    // Member manager

    /** create_member: fails when any row, deleted or not, holds the login id;
        otherwise stores the member with the hash of the password. */
    method CreateMember(req: MemberRequest, hash: string -> string, now: Time) returns (r: Result<Member>)
      requires Valid()
      modifies this
      ensures Valid()
      ensures r.Err? <==> LoginIdTaken(old(members), req.memberId)
      ensures r.Err? ==> r.error == DuplicateMemberId && members == old(members) && nextMemberNo == old(nextMemberNo)
      ensures r.Ok? ==> && r.value == NewMember(req, old(nextMemberNo), hash, now)
                        && r.value.memberPw == hash(req.memberPw)
                        && r.value.memberId == req.memberId && r.value.memberName == req.memberName
                        && r.value.memberEmail == req.memberEmail
                        && r.value.memberNo !in old(members)
                        && members == old(members)[r.value.memberNo := r.value]
                        && nextMemberNo == old(nextMemberNo) + 1
      ensures categories == old(categories) && accountLogs == old(accountLogs) && logDetails == old(logDetails)
      ensures nextCategoryNo == old(nextCategoryNo) && nextAccountLogNo == old(nextAccountLogNo)
      ensures nextLogDetailNo == old(nextLogDetailNo)
    {
      if exists k :: k in members && members[k].memberId == req.memberId {
        return Err(DuplicateMemberId);
      }
      var m := NewMember(req, nextMemberNo, hash, now);
      RegistrationKeepsIdsUnique(members, m.memberNo, m);
      members := members[m.memberNo := m];
      nextMemberNo := nextMemberNo + 1;
      r := Ok(m);
    }

    /** login_proc on this store, without the tokens. */
    function LoginProc(memberId: string, memberPw: string, verify: (string, string) -> bool): (r: Result<LoginData>)
      reads this
      requires Valid()
      ensures r.Ok? || r == Err(NotFound) || r == Err(PasswordMismatch)
      ensures r == Err(NotFound) <==>
                !exists k :: k in members && members[k].memberId == memberId && members[k].life.Active()
      ensures r == Err(PasswordMismatch) <==>
                exists k :: k in members && members[k].memberId == memberId && members[k].life.Active()
                            && !verify(memberPw, members[k].memberPw)
      ensures r.Ok? ==>
                exists k :: k in members && members[k].memberId == memberId && members[k].life.Active()
                            && verify(memberPw, members[k].memberPw)
                            && r.value == LoginData(k, members[k].memberId, members[k].memberName, members[k].memberEmail)
    {
      Login(members, memberId, memberPw, verify)
    }

    /** member_modify: fails when the caller has no live row; otherwise skips the
        null fields and stores the others, the password hashed. */
    method MemberModify(memberNo: nat, patch: MemberPatch, hash: string -> string) returns (r: Result<Member>)
      requires Valid()
      modifies this
      ensures Valid()
      ensures r.Err? <==> FindMember(old(members), memberNo).Err?
      ensures r.Err? ==> r.error == NotFound && members == old(members)
      ensures r.Ok? ==> && memberNo in old(members)
                        && r.value == ApplyMemberPatch(old(members)[memberNo], patch, hash)
                        && members == old(members)[memberNo := r.value]
      ensures nextMemberNo == old(nextMemberNo)
      ensures categories == old(categories) && accountLogs == old(accountLogs) && logDetails == old(logDetails)
      ensures nextCategoryNo == old(nextCategoryNo) && nextAccountLogNo == old(nextAccountLogNo)
      ensures nextLogDetailNo == old(nextLogDetailNo)
    {
      var found := FindMember(members, memberNo);
      if found.Err? {
        return found;
      }
      var updated := ApplyMemberPatch(found.value, patch, hash);
      members := members[memberNo := updated];
      r := Ok(updated);
    }

    /** member_delete: fails when the caller has no live row; otherwise marks
        only that member deleted at `now`. */
    method MemberDelete(memberNo: nat, now: Time) returns (r: Result<Member>)
      requires Valid()
      modifies this
      ensures Valid()
      ensures r.Err? <==> FindMember(old(members), memberNo).Err?
      ensures r.Err? ==> r.error == NotFound && members == old(members)
      ensures r.Ok? ==> && memberNo in old(members)
                        && r.value == old(members)[memberNo].(life := SoftDeleted(old(members)[memberNo].life, now))
                        && r.value.life.isDeleted == T && r.value.life.delDt == Some(now)
                        && members == old(members)[memberNo := r.value]
      ensures nextMemberNo == old(nextMemberNo)
      ensures categories == old(categories) && accountLogs == old(accountLogs) && logDetails == old(logDetails)
      ensures nextCategoryNo == old(nextCategoryNo) && nextAccountLogNo == old(nextAccountLogNo)
      ensures nextLogDetailNo == old(nextLogDetailNo)
    {
      var found := FindMember(members, memberNo);
      if found.Err? {
        return found;
      }
      var deleted := found.value.(life := SoftDeleted(found.value.life, now));
      members := members[memberNo := deleted];
      r := Ok(deleted);
    }
  }
}
