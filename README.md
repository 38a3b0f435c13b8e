# Account book back end: a Dafny model of its services

The account book back end keeps four MySQL tables: members, categories, account-log
headers (one dated transaction with a counterpart) and log details (the lines of a
transaction, each with an amount, an income/expense type and an optional category).
Every table has the same audit columns and is soft-deleted: `is_deleted = 'T'` with a
deletion time instead of a `DELETE`. Three service modules work on the tables:

- the category manager: it seeds a new member's default category tree from a catalog,
  creates categories, modifies them field by field, soft-deletes them and lists them,
  filtered and ordered;
- the transaction manager: it creates a header and its detail lines after checking every
  line's category, patches a header and adds new lines, and soft-deletes a header
  together with all of its lines;
- the member manager: it registers a member under a unique login id with a hashed
  password, decides a login, patches the profile and soft-deletes the member.

The model has five modules:

- `Models` (`models.dfy`): the row shapes, the column defaults, the audit columns
  (`Lifecycle`, `Created`, `SoftDeleted`) and the service errors.
- `CategoryService`, `AccountService`, `MembersService`: the rows each operation
  produces, the lookups and ownership checks, the patches, the listing, and the
  properties proved about them. These modules also hold the services' loops, written
  as methods that change no state (the seeding loops and the detail-staging loops).
- `Db` (`store.dfy`): the class `Store`. It has one map field per table, from primary
  key to row, and one auto-increment counter per table. There is one method per service
  function.
  - `Valid()` is the invariant every method keeps: each row sits under its own key below
    the counter, its deletion columns agree with each other, login ids are unique, and
    every detail row references an existing header and, when it has one, an existing
    category. A detail row is also deleted exactly when its header is.
  - Each method states its whole new state against the functions of the service modules.

A service call is one transaction. The methods stage their writes and assign the fields
at the commit, so a call that raises leaves the store unchanged.

`modify_account` and `delete_account` report another member's header as
`Error.NotFound` (app/services/account_service.py:55-56 and :108-109). They do not raise
the `NoPermission` error that the category manager raises for another member's
category (app/services/category_service.py:79-80).

Foreign calls are parameters:

- the password hash is `hash: string -> string`;
- password verification is `verify: (string, string) -> bool`;
- the category numbers that `get_all_category_nos_list` returns for the caller are
  `categorySet: set<nat>`, and the model assumes only that they name existing rows;
- the contents of `categories.json` are `catalog: seq<CatalogEntry>`;
- `func.now()` is `now: Time`.

## Model

| member | source | states |
|---|---|---|
| CategoryService.SeedEntry | app/services/category_service.py:19-45 | one catalog entry adds its root under the next number, then its children under the numbers that follow; the numbering advances by 1 + the number of children; the table stays well keyed |
| CategoryService.SeedCatalog | app/services/category_service.py:10-45 | seeding adds exactly the rows `SeedRows` describes, entry after entry, and advances the counter by the total number of rows; the table stays well keyed |
| CategoryService.SeedRowsKeys | app/services/category_service.py:19-45 | the seeded rows fill exactly the numbers from the first one to the first one + SeedSize - 1, with no gaps |
| CategoryService.SeededRoot | app/services/category_service.py:20-29 | each entry's root is owned by the member, has no parent, keeps the entry's name and income/expense type, starts live, and has has_children = 'T' exactly when the entry lists children |
| CategoryService.SeededChild | app/services/category_service.py:34-41 | child j of an entry hangs under that entry's root, carries the catalog's child name, has sort_order j + 1, has_children = 'F', the root's income/expense type and the member as owner, and starts live |
| CategoryService.AddCategoryKeepsTableOk | app/database/models.py:44-57 | a live row that gets the next auto-increment number keeps the category table keyed |
| CategoryService.FindCategory | app/services/category_service.py:68-80 | NotFound exactly when the row is missing or deleted; NoPermission exactly when it is live but owned by someone else, a system category with a null owner included; otherwise the row itself; no other outcome |
| CategoryService.ApplyCategoryPatch | app/services/category_service.py:82-88 | every non-null request field overwrites its column and every null one keeps it; number, owner, has_children, is_system and audit columns never change; an all-null request is the identity |
| CategoryService.ModifiedCategoryFound | app/services/category_service.py:68-91 | after a modify the owner finds the patched row under the same number |
| CategoryService.DeletedCategoryNotFound | app/services/category_service.py:101-116 | after a soft delete the row is not found, so a second modify or delete fails with NotFound |
| CategoryService.SelectListed | app/services/category_service.py:128-136 | selects exactly the table's rows that pass the filter (owner, income/expense type, live, exact parent or root), in ascending number |
| CategoryService.InsertInOrder | app/services/category_service.py:132 | inserting into an ordered list gives the same elements plus the new one, still ordered by (sort_order, category_no) |
| CategoryService.SortInListOrder | app/services/category_service.py:132 | the result is a permutation of the input, ordered by sort_order ascending with nulls first, then by category_no |
| CategoryService.CategoryList | app/services/category_service.py:122-139 | a row of the table is in the list exactly when it passes the filter; every listed element is a row of the table; the list is ordered; no number appears twice |
| Db.Store.GetCategoryList | app/services/category_service.py:122-139 | on the store's category table: a row is listed exactly when it passes the filter; every listed element is a row of the table; the list is in (sort_order, category_no) order |
| CategoryService.CreatedCategoryIsListed | app/services/category_service.py:54-59 | a category just created appears in its owner's list for its type and parent |
| Db.Store.InsertDefaultCategories | app/services/category_service.py:10-45 | the category table gains exactly the seeded rows and the counter moves past them; nothing else changes; Valid is kept |
| Db.Store.CreateCategory | app/services/category_service.py:49-59 | one new row under a number not yet in use, owned by the caller, has_children = 'F', live; no other row changes (not the parent's has_children either); Valid is kept |
| Db.Store.ModifyCategory | app/services/category_service.py:62-91 | the error of the lookup with the table unchanged, or that one row replaced by its patch; Valid is kept |
| Db.Store.DeleteCategory | app/services/category_service.py:95-119 | the error of the lookup with the table unchanged, or only that row marked deleted at `now`; Valid is kept |
| AccountService.DetailRowsSpec | app/services/account_service.py:24-29 | the lines insert exactly one row each, numbered consecutively from the first free number in request order; each row belongs to the header, copies its line's fields, defaults important to 1 and is_fixed_cost to 'F', and starts live |
| AccountService.DetailRowsLinks | app/services/account_service.py:24-29 | when every line passed the category check, every inserted row names no category or one from the caller's set |
| AccountService.StageDetails | app/services/account_service.py:24-29 | it succeeds exactly when every line's category is null or in the caller's set; on success it stages exactly the rows of DetailRows |
| AccountService.StageNewDetails | app/services/account_service.py:72-85 | it succeeds exactly when every line's category is null or in the caller's set; on success it stages rows only for the lines without a log_detail_no |
| AccountService.NewLinesMembers | app/services/account_service.py:76-85 | the new lines are exactly the request's lines without a log_detail_no, each as many times as the request repeats it, so every such line inserts its own row |
| AccountService.NewLinesAllowed | app/services/account_service.py:72-79 | when all the request's lines pass the category check, so do its new lines |
| AccountService.CommitKeepsDetailTables | app/database/models.py:113-128 | committing a live header with new detail rows attached to it keeps the detail keys and both foreign keys of tb_log_detail |
| AccountService.DetailLinksGrowCategories | app/database/models.py:122-128 | adding categories keeps the category foreign key of detail rows satisfied |
| AccountService.FindAccount | app/services/account_service.py:44-56 | an error exactly when the header is missing, deleted or another member's, and the error is always NotFound; otherwise the header itself |
| AccountService.ApplyAccountPatch | app/services/account_service.py:59-65 | std_date and opponent_name are overwritten only when non-null; number, owner and audit columns stay; the detail list never reaches the header; all-null fields are the identity |
| AccountService.CascadeDelete | app/services/account_service.py:114-115 | every detail row of the header is marked deleted at `now`, whatever its state before, with no other column changed; every other row is unchanged; no row appears or disappears |
| AccountService.CascadeIdempotent | app/services/account_service.py:114-115 | running the cascade a second time changes nothing |
| AccountService.DeletedAccountNotFound | app/services/account_service.py:97-112 | after delete_account the header is not found, so a second modify or delete fails |
| Db.Store.CreateAccount | app/services/account_service.py:8-34 | InvalidCategory exactly when some line's category is outside the caller's set, with nothing committed; otherwise a new header under the next number plus exactly its DetailRows; Valid is kept |
| Db.Store.ModifyAccount | app/services/account_service.py:37-88 | NotFound exactly when the lookup fails; InvalidCategory exactly when it succeeds and some line fails the check, with nothing committed (the header patch included); otherwise the patched header plus rows for the new lines only, and existing rows unchanged; Valid is kept |
| Db.Store.DeleteAccount | app/services/account_service.py:91-118 | NotFound exactly when the lookup fails; otherwise the header is marked deleted and the cascade runs over its detail rows; Valid is kept, including "a detail row is deleted exactly when its header is" |
| MembersService.RegistrationKeepsIdsUnique | app/database/models.py:35 | inserting a member whose login id no row holds keeps the unique constraint on member_id |
| MembersService.Login | app/services/members_service.py:31-48 | NotFound exactly when no live member holds the id; PasswordMismatch exactly when one does and the password does not verify against its stored hash; no other error, so a verifying password gives Ok with that member's number, id, name and email |
| Db.Store.LoginProc | app/services/members_service.py:31-48 | on the store's member table: only Ok, NotFound or PasswordMismatch; NotFound exactly when no live member holds the id; PasswordMismatch exactly when one does and the password does not verify against its stored hash, so a verifying password gives Ok; on Ok, the data of the live member with that id whose stored hash verifies |
| MembersService.RegisteredMemberCanLogIn | app/services/members_service.py:21-41 | a freshly registered member logs in with the raw password it registered with, whenever verification accepts a password against its own hash |
| MembersService.DeletedMemberCannotLogIn | app/services/members_service.py:33-38 | after member_delete the login id no longer logs in: NotFound |
| MembersService.FindMember | app/services/members_service.py:59-62 | NotFound exactly when the number is missing or deleted; otherwise the row |
| MembersService.ApplyMemberPatch | app/services/members_service.py:64-73 | a non-null password is stored hashed; a non-null name or email is stored as given; null fields are skipped; number, login id and audit columns stay; an all-null request is the identity |
| Db.Store.CreateMember | app/services/members_service.py:11-29 | DuplicateMemberId exactly when any row, deleted or not, holds the login id, with nothing stored; otherwise one new member under the next number with the hashed password; Valid, and with it id uniqueness, is kept |
| Db.Store.MemberModify | app/services/members_service.py:57-76 | NotFound with members unchanged when there is no live row; otherwise only that row replaced by its patch; Valid is kept |
| Db.Store.MemberDelete | app/services/members_service.py:78-89 | NotFound with members unchanged when there is no live row; otherwise only that member marked deleted at `now`; Valid is kept |

## Left out

- The HTTP routers, `main.py` and the connection setup are not part of this model.
- Access and refresh tokens are left out. So are `ACCESS_TOKEN_EXPIRE_MINUTES` and `REFRESH_TOKEN_EXPIRE_HOURS`. Login returns only the member data that goes into the tokens.
- Password hashing and verification are parameters. They depend on an auth library outside the core.
- Reading `categories.json` becomes the `catalog` parameter. The catalog's own format is not checked.
- CategoryService.RootRow: the source copies every catalog key except `children` into the root row. The model's `CatalogEntry` carries only category_name, inout_type, class_name and sort_order. A catalog column outside these four, such as is_system, is not carried over; is_system is always 'F'.
- The children of a seeded root are inserted concurrently (`asyncio.gather`). The model inserts them in catalog order, which fixes child j at root number + 1 + j. The order the database would actually use is not modelled.
- Seeding commits after each root and after each child batch. Nothing can fail in between in the model, so `InsertDefaultCategories` assigns the seeded table once.
- `upd_dt`'s on-update refresh is not modelled. A row's `upd_dt` stays at its insertion time.
- A failed call leaves the counters where they were. MySQL would keep the auto-increment values a rolled-back insert used up, so numbers have no gaps in the model.
- `get_all_category_nos_list` is not part of this model. Its result is the `categorySet` parameter, assumed only to name existing categories.
- The member foreign keys of tb_category and tb_account_log are not part of `Valid`.
- Column widths and the ranges of the unsigned integer types are not modelled: VARCHAR lengths, SMALLINT member numbers, TINYINT importance.
- Db.Store.CreateAccount: a `log_detail_no` sent in a create request would become an explicit primary key. The model always numbers new rows itself.
- `modify_account` builds a `log_detail_nos` list that nothing reads. It is not modelled. A line that carries a log_detail_no changes nothing, as in the code.
- The request schemas for categories and transactions are not part of the source files. The request datatypes carry the fields the services read. The member patch carries the router's three optional fields.
- The setattr loops over the request's fields become one explicit update per field.
- `has_children` is maintained neither by create_category nor by delete_category. Creating a child leaves its parent's flag alone, as the code does.
- delete_category does not cascade to child categories or to the detail rows that name the category.
- MembersService.Login and Db.Store.LoginProc: login ids compare as exact strings, not under the database's collation. MySQL's default collations compare VARCHARs without regard to case. In the source, "Alice" therefore logs in as an existing "alice"; in the model that login gives NotFound.
- Db.Store.CreateMember: the duplicate check and `UniqueLoginIds` use exact string equality too. The source rejects "Alice" when "alice" exists, and so does the unique key of tb_members; the model registers it. The collation is a database setting outside the code.
- Concurrency between requests is not modelled. Each service call is one atomic transaction on the store.
