/** The transaction manager: account-log headers with their detail lines, the
    category check every line passes, and the soft-delete cascade. The state
    changes are the methods of Db.Store; this module holds the definitions
    they are proved against. */
module AccountService {
  import opened Models

  /** One detail line of a request. A line with a log_detail_no names a row
      that already exists; important and is_fixed_cost fall back to the column
      defaults when left out. */
  datatype DetailLine = DetailLine(
    logDetailNo: Option<nat>,
    detailContents: string,
    amounts: nat,
    ioType: InOut,
    categoryNo: Option<nat>,
    important: Option<nat>,
    isFixedCost: Option<Flag>)

  /** The body of a create request. */
  datatype AccountRequest = AccountRequest(stdDate: Date, opponentName: string, detailList: seq<DetailLine>)

  /** The body of a modify request; a null header field leaves the column as it is. */
  datatype AccountPatch = AccountPatch(stdDate: Option<Date>, opponentName: Option<string>, detailList: seq<DetailLine>)

  /** Every header sits under its own number, below the next number to hand out. */
  predicate LogTableOk(logs: map<nat, AccountLog>, next: nat)
  {
    forall k :: k in logs ==> logs[k].accountLogNo == k && k < next && logs[k].life.WellFormed()
  }

  /** Every detail row sits under its own number, below the next number to hand out. */
  predicate DetailTableOk(details: map<nat, LogDetail>, next: nat)
  {
    forall k :: k in details ==> details[k].logDetailNo == k && k < next && details[k].life.WellFormed()
  }

  /** The foreign keys of tb_log_detail hold: every row belongs to an existing
      header and names no category or an existing one. A row is deleted exactly
      when its header is, since headers are only deleted together with their rows. */
  predicate DetailLinksOk(details: map<nat, LogDetail>, logs: map<nat, AccountLog>, cats: map<nat, Category>)
  {
    forall k :: k in details ==>
      && details[k].accountLogNo in logs
      && (details[k].categoryNo.Some? ==> details[k].categoryNo.value in cats)
      && details[k].life.isDeleted == logs[details[k].accountLogNo].life.isDeleted
  }

  /** A line passes the category check when it names no category or one of the caller's. */
  predicate CategoryAllowed(line: DetailLine, categorySet: set<nat>)
  {
    line.categoryNo.None? || line.categoryNo.value in categorySet
  }

  predicate AllCategoriesAllowed(lines: seq<DetailLine>, categorySet: set<nat>)
  {
    forall i :: 0 <= i < |lines| ==> CategoryAllowed(lines[i], categorySet)
  }

  /** The header create_account inserts for the caller. */
  function NewAccountLog(req: AccountRequest, no: nat, memberNo: nat, now: Time): AccountLog
  {
    AccountLog(no, memberNo, req.stdDate, req.opponentName, Created(now))
  }

  /** The row inserted for `line` under number `no`, attached to header `logNo`. */
  function DetailRow(line: DetailLine, no: nat, logNo: nat, now: Time): LogDetail
  {
    LogDetail(no, logNo, line.detailContents, line.amounts, line.ioType, line.categoryNo,
              line.important.GetOr(1), line.isFixedCost.GetOr(F), Created(now))
  }

  /** The rows inserted for `lines`, one per line in order, numbered from `first`. */
  function DetailRows(lines: seq<DetailLine>, logNo: nat, first: nat, now: Time): map<nat, LogDetail>
  {
    if |lines| == 0 then map[]
    else
      var n := |lines| - 1;
      DetailRows(lines[..n], logNo, first, now)[first + n := DetailRow(lines[n], first + n, logNo, now)]
  }

  lemma {:induction false} DetailRowsAt(lines: seq<DetailLine>, logNo: nat, first: nat, now: Time)
    ensures var rows := DetailRows(lines, logNo, first, now);
            && |rows| == |lines|
            && (forall k :: k in rows <==> first <= k < first + |lines|)
            && (forall k :: k in rows ==> rows[k] == DetailRow(lines[k - first], k, logNo, now))
  {
    if |lines| > 0 {
      var n := |lines| - 1;
      DetailRowsAt(lines[..n], logNo, first, now);
      var rows := DetailRows(lines[..n], logNo, first, now);
      assert first + n !in rows;
      forall k | k in rows ensures lines[..n][k - first] == lines[k - first] {
      }
    }
  }

  /** `lines` inserts exactly |lines| rows, numbered first .. first + |lines| - 1;
      the row numbered first + i carries line i, belongs to header `logNo`,
      takes the defaults important = 1 and is_fixed_cost = 'F' where the line
      leaves them out, and starts live. */
  lemma DetailRowsSpec(lines: seq<DetailLine>, logNo: nat, first: nat, now: Time)
    ensures var rows := DetailRows(lines, logNo, first, now);
            && |rows| == |lines|
            && (forall k :: k in rows <==> first <= k < first + |lines|)
            && (forall k :: k in rows ==>
                  var line := lines[k - first];
                  && rows[k].logDetailNo == k
                  && rows[k].accountLogNo == logNo
                  && rows[k].detailContents == line.detailContents
                  && rows[k].amounts == line.amounts
                  && rows[k].ioType == line.ioType
                  && rows[k].categoryNo == line.categoryNo
                  && rows[k].important == (if line.important.Some? then line.important.value else 1)
                  && rows[k].isFixedCost == (if line.isFixedCost.Some? then line.isFixedCost.value else F)
                  && rows[k].life == Created(now))
  {
    DetailRowsAt(lines, logNo, first, now);
  }

  /** One more line adds one more row, under the next number. */
  lemma DetailRowsSnoc(lines: seq<DetailLine>, line: DetailLine, logNo: nat, first: nat, now: Time)
    ensures DetailRows(lines + [line], logNo, first, now)
            == DetailRows(lines, logNo, first, now)[first + |lines| := DetailRow(line, first + |lines|, logNo, now)]
  {
    assert (lines + [line])[..|lines|] == lines;
  }

  /** Adding categories keeps the detail foreign keys satisfied. */
  lemma DetailLinksGrowCategories(details: map<nat, LogDetail>, logs: map<nat, AccountLog>,
                                  cats: map<nat, Category>, cats': map<nat, Category>)
    requires DetailLinksOk(details, logs, cats)
    requires cats.Keys <= cats'.Keys
    ensures DetailLinksOk(details, logs, cats')
  {
  }

  /** Every row inserted for `lines` lies in first .. first + |lines| - 1 under
      its own number, belongs to header `logNo`, starts live, and names a
      category of `categorySet` when every line passed the category check. */
  lemma DetailRowsLinks(lines: seq<DetailLine>, logNo: nat, first: nat, now: Time, categorySet: set<nat>)
    requires AllCategoriesAllowed(lines, categorySet)
    ensures var rows := DetailRows(lines, logNo, first, now);
            forall k :: k in rows ==>
              && first <= k < first + |lines|
              && rows[k].logDetailNo == k && rows[k].accountLogNo == logNo && rows[k].life == Created(now)
              && (rows[k].categoryNo.Some? ==> rows[k].categoryNo.value in categorySet)
  {
    DetailRowsAt(lines, logNo, first, now);
    var rows := DetailRows(lines, logNo, first, now);
    forall k | k in rows ensures rows[k].categoryNo.Some? ==> rows[k].categoryNo.value in categorySet {
      assert CategoryAllowed(lines[k - first], categorySet);
    }
  }

  /** Committing a live header `logNo` (new or patched) together with new
      detail rows attached to it keeps the detail table keyed and its foreign
      keys satisfied. */
  lemma CommitKeepsDetailTables(details: map<nat, LogDetail>, first: nat, added: map<nat, LogDetail>, last: nat,
                                logs: map<nat, AccountLog>, logs': map<nat, AccountLog>, cats: map<nat, Category>,
                                logNo: nat, categorySet: set<nat>)
    requires DetailTableOk(details, first) && DetailLinksOk(details, logs, cats) && first <= last
    requires forall k :: k in added ==>
               && first <= k < last && added[k].logDetailNo == k && added[k].accountLogNo == logNo
               && added[k].life.Active() && added[k].life.WellFormed()
               && (added[k].categoryNo.Some? ==> added[k].categoryNo.value in categorySet)
    requires forall k :: k in logs ==> k in logs' && (k != logNo ==> logs'[k] == logs[k])
    requires logNo in logs ==> logs[logNo].life.Active()
    requires logNo in logs' && logs'[logNo].life.Active()
    requires categorySet <= cats.Keys
    ensures DetailTableOk(details + added, last) && DetailLinksOk(details + added, logs', cats)
  {
  }

  /** The loop of create_account over the request's lines: it stops at the
      first line whose category fails the check, and otherwise stages one row
      per line, numbered on from `first`. */
  method StageDetails(details: map<nat, LogDetail>, lines: seq<DetailLine>, logNo: nat, first: nat,
                      categorySet: set<nat>, now: Time)
    returns (ok: bool, staged: map<nat, LogDetail>, next: nat)
    ensures ok <==> AllCategoriesAllowed(lines, categorySet)
    ensures ok ==> staged == details + DetailRows(lines, logNo, first, now) && next == first + |lines|
  {
    staged, next := details, first;
    var i := 0;
    while i < |lines|
      invariant 0 <= i <= |lines|
      invariant AllCategoriesAllowed(lines[..i], categorySet)
      invariant staged == details + DetailRows(lines[..i], logNo, first, now)
      invariant next == first + i
    {
      var item := lines[i];
      if item.categoryNo.Some? && item.categoryNo.value !in categorySet {
        assert !CategoryAllowed(lines[i], categorySet);
        return false, details, first;
      }
      assert lines[..i + 1] == lines[..i] + [item];
      DetailRowsSnoc(lines[..i], item, logNo, first, now);
      UnionUpdate(details, DetailRows(lines[..i], logNo, first, now), next, DetailRow(item, next, logNo, now));
      staged := staged[next := DetailRow(item, next, logNo, now)];
      next := next + 1;
      i := i + 1;
    }
    assert lines[..i] == lines;
    ok := true;
  }

  /** The lines of a modify request that carry no log_detail_no, in request order. */
  function NewLines(lines: seq<DetailLine>): (r: seq<DetailLine>)
    ensures |r| <= |lines|
  {
    if |lines| == 0 then []
    else
      var n := |lines| - 1;
      NewLines(lines[..n]) + (if lines[n].logDetailNo.None? then [lines[n]] else [])
  }

  /** The new lines are exactly the request's lines without a log_detail_no,
      each as often as the request repeats it, so every such line inserts its
      own row. */
  lemma {:induction false} NewLinesMembers(lines: seq<DetailLine>)
    ensures forall l :: multiset(NewLines(lines))[l] == if l.logDetailNo.None? then multiset(lines)[l] else 0
    ensures forall l :: l in NewLines(lines) <==> l in lines && l.logDetailNo.None?
  {
    if |lines| > 0 {
      var n := |lines| - 1;
      NewLinesMembers(lines[..n]);
      assert lines == lines[..n] + [lines[n]];
      assert multiset(lines) == multiset(lines[..n]) + multiset{lines[n]};
      forall l ensures l in NewLines(lines) <==> l in multiset(NewLines(lines)) {
      }
      forall l ensures l in lines <==> l in multiset(lines) {
      }
    }
  }

  lemma NewLinesSnoc(lines: seq<DetailLine>, line: DetailLine)
    ensures NewLines(lines + [line]) == NewLines(lines) + (if line.logDetailNo.None? then [line] else [])
  {
    assert (lines + [line])[..|lines|] == lines;
  }

  /** The new lines of a request whose lines all pass the category check pass it too. */
  lemma NewLinesAllowed(lines: seq<DetailLine>, categorySet: set<nat>)
    requires AllCategoriesAllowed(lines, categorySet)
    ensures AllCategoriesAllowed(NewLines(lines), categorySet)
  {
    var added := NewLines(lines);
    NewLinesMembers(lines);
    forall i | 0 <= i < |added| ensures CategoryAllowed(added[i], categorySet) {
      assert added[i] in added;
      var j :| 0 <= j < |lines| && lines[j] == added[i];
    }
  }

  /** The loop of modify_account over the request's lines: every line is
      checked, and only the lines without a log_detail_no stage a new row. */
  method StageNewDetails(details: map<nat, LogDetail>, lines: seq<DetailLine>, logNo: nat, first: nat,
                         categorySet: set<nat>, now: Time)
    returns (ok: bool, staged: map<nat, LogDetail>, next: nat)
    ensures ok <==> AllCategoriesAllowed(lines, categorySet)
    ensures ok ==> staged == details + DetailRows(NewLines(lines), logNo, first, now)
                   && next == first + |NewLines(lines)|
  {
    staged, next := details, first;
    var i := 0;
    while i < |lines|
      invariant 0 <= i <= |lines|
      invariant AllCategoriesAllowed(lines[..i], categorySet)
      invariant staged == details + DetailRows(NewLines(lines[..i]), logNo, first, now)
      invariant next == first + |NewLines(lines[..i])|
    {
      var item := lines[i];
      if item.categoryNo.Some? && item.categoryNo.value !in categorySet {
        assert !CategoryAllowed(lines[i], categorySet);
        return false, details, first;
      }
      ghost var prev := NewLines(lines[..i]);
      assert lines[..i + 1] == lines[..i] + [item];
      NewLinesSnoc(lines[..i], item);
      if item.logDetailNo.None? {
        assert NewLines(lines[..i + 1]) == prev + [item];
        DetailRowsSnoc(prev, item, logNo, first, now);
        UnionUpdate(details, DetailRows(prev, logNo, first, now), next, DetailRow(item, next, logNo, now));
        staged := staged[next := DetailRow(item, next, logNo, now)];
        next := next + 1;
      } else {
        assert NewLines(lines[..i + 1]) == prev;
      }
      i := i + 1;
    }
    assert lines[..i] == lines;
    ok := true;
  }

  /** The lookup shared by modify and delete: a missing row, a deleted row and
      another member's row all fail with the same error. */
  function FindAccount(logs: map<nat, AccountLog>, memberNo: nat, accountNo: nat): (r: Result<AccountLog>)
    ensures r.Err? <==> accountNo !in logs || !logs[accountNo].life.Active() || logs[accountNo].memberNo != memberNo
    ensures r.Err? ==> r.error == NotFound
    ensures r.Ok? ==> accountNo in logs && r.value == logs[accountNo]
  {
    if accountNo !in logs || logs[accountNo].life.isDeleted != F then Err(NotFound)
    else if logs[accountNo].memberNo != memberNo then Err(NotFound)
    else Ok(logs[accountNo])
  }

  /** The header after modify_account: the non-null header fields overwrite
      their columns; the number, owner and audit columns stay; the detail list
      never reaches the header. */
  function ApplyAccountPatch(log: AccountLog, p: AccountPatch): (r: AccountLog)
    ensures r.accountLogNo == log.accountLogNo && r.memberNo == log.memberNo && r.life == log.life
    ensures r.stdDate == if p.stdDate.Some? then p.stdDate.value else log.stdDate
    ensures r.opponentName == if p.opponentName.Some? then p.opponentName.value else log.opponentName
    ensures p.stdDate.None? && p.opponentName.None? ==> r == log
  {
    var withDate := match p.stdDate case Some(d) => log.(stdDate := d) case None => log;
    match p.opponentName case Some(n) => withDate.(opponentName := n) case None => withDate
  }

  /** The bulk update of delete_account: every detail row of header `logNo` is
      marked deleted at `now`, whatever its state before; no other row and no
      other column changes. */
  function CascadeDelete(details: map<nat, LogDetail>, logNo: nat, now: Time): (r: map<nat, LogDetail>)
    ensures r.Keys == details.Keys
    ensures forall k :: k in details && details[k].accountLogNo == logNo ==>
              && r[k].life == SoftDeleted(details[k].life, now)
              && r[k].life.isDeleted == T && r[k].life.delDt == Some(now)
              && r[k].life.regDt == details[k].life.regDt && r[k].life.updDt == details[k].life.updDt
              && r[k].(life := details[k].life) == details[k]
    ensures forall k :: k in details && details[k].accountLogNo != logNo ==> r[k] == details[k]
  {
    map k | k in details :: if details[k].accountLogNo == logNo then details[k].(life := SoftDeleted(details[k].life, now)) else details[k]
  }

  /** Running the cascade a second time changes nothing. */
  lemma CascadeIdempotent(details: map<nat, LogDetail>, logNo: nat, now: Time)
    ensures CascadeDelete(CascadeDelete(details, logNo, now), logNo, now) == CascadeDelete(details, logNo, now)
  {
    var once := CascadeDelete(details, logNo, now);
    var twice := CascadeDelete(once, logNo, now);
    forall k | k in once ensures twice[k] == once[k] {
      if details[k].accountLogNo == logNo {
        assert once[k].life.isDeleted == T && once[k].life.delDt == Some(now);
        assert once[k].accountLogNo == logNo;
      }
    }
  }

  /** A deleted header is no longer found, so a second delete fails. */
  lemma DeletedAccountNotFound(logs: map<nat, AccountLog>, memberNo: nat, accountNo: nat, now: Time)
    requires FindAccount(logs, memberNo, accountNo).Ok?
    ensures var h := logs[accountNo];
            FindAccount(logs[accountNo := h.(life := SoftDeleted(h.life, now))], memberNo, accountNo) == Err(NotFound)
  {
  }
}
