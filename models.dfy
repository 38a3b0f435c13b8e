/** Record shapes of the four tables of the account book: tb_members,
    tb_category, tb_account_log and tb_log_detail, with the column defaults
    and nullability of the ORM model. Every row carries its own primary key,
    so that a table is a map from that key to the row. */
module Models {

  datatype Option<+T> = None | Some(value: T)
  {
    /** The value, or `default` when the column was left null. */
    function GetOr(default: T): T
    {
      if Some? then value else default
    }
  }

  /** The failures the services raise. */
  datatype Error =
    | NotFound           // no live row with that number (for account logs: or not the caller's)
    | NoPermission       // the category belongs to another member (or to nobody)
    | InvalidCategory    // a detail line names a category outside the caller's set
    | DuplicateMemberId  // the login id is already registered
    | PasswordMismatch   // the password does not verify against the stored hash

  datatype Result<+T> = Ok(value: T) | Err(error: Error)

  /** A CHAR(1) column holding 'T' or 'F'. */
  datatype Flag = T | F

  /** A CHAR(1) income/expense column: 'I' for income, 'O' for expense. */
  datatype InOut = I | O

  /** A DATETIME value; the model only copies it. */
  type Time = int

  /** A DATE value (std_date). */
  type Date = int

  /** The audit columns every table shares: reg_dt, upd_dt, is_deleted, del_dt. */
  datatype Lifecycle = Lifecycle(regDt: Time, updDt: Time, isDeleted: Flag, delDt: Option<Time>)
  {
    predicate Active()
    {
      isDeleted == F
    }

    /** del_dt is set exactly on the rows that are soft-deleted. */
    predicate WellFormed()
    {
      isDeleted == F <==> delDt == None
    }
  }

  /** The audit columns of a freshly inserted row: both timestamps default to
      the insertion time, is_deleted defaults to 'F' and del_dt is null. */
  function Created(now: Time): Lifecycle
  {
    Lifecycle(now, now, F, None)
  }

  /** The soft-delete transition: is_deleted = 'T', del_dt = now. */
  function SoftDeleted(l: Lifecycle, now: Time): Lifecycle
  {
    l.(isDeleted := T, delDt := Some(now))
  }

  /** tb_members: member_id is unique across the whole table. */
  datatype Member = Member(
    memberNo: nat,
    memberId: string,
    memberPw: string,       // the password hash, never the raw password
    memberName: string,
    memberEmail: string,
    life: Lifecycle)

  /** tb_category. member_no is null for a system default category and
      parent_no is null for a root. inout_type and sort_order are read and
      written by the category service although the ORM model declares no
      such columns. */
  datatype Category = Category(
    categoryNo: nat,
    memberNo: Option<nat>,
    categoryName: string,
    hasChildren: Flag,
    parentNo: Option<nat>,
    className: Option<string>,
    isSystem: Flag,
    inoutType: InOut,
    sortOrder: Option<int>,
    life: Lifecycle)

  /** tb_account_log: the header of one dated transaction; always owned. */
  datatype AccountLog = AccountLog(
    accountLogNo: nat,
    memberNo: nat,
    stdDate: Date,
    opponentName: string,
    life: Lifecycle)

  /** tb_log_detail: one line of a transaction. account_log_no references
      tb_account_log; a non-null category_no references tb_category. */
  datatype LogDetail = LogDetail(
    logDetailNo: nat,
    accountLogNo: nat,
    detailContents: string,
    amounts: nat,
    ioType: InOut,
    categoryNo: Option<nat>,
    important: nat,
    isFixedCost: Flag,
    life: Lifecycle)

  // Map algebra the staged inserts rely on.

  lemma UnionUpdate<K, V>(a: map<K, V>, b: map<K, V>, k: K, v: V)
    ensures (a + b)[k := v] == a + b[k := v]
  {
  }

  lemma UnionAssociative<K, V>(a: map<K, V>, b: map<K, V>, c: map<K, V>)
    ensures (a + b) + c == a + (b + c)
  {
  }
}
