/**
  `OneDriveConnector`: the local index table it keeps up to date, and the
  operations built on it — `update_local_info`, `find_db`, `create_local_db`
  and `operate_db`.

  What the server and the disk answer is passed in: the listing each refresh
  receives, the statuses each upload receives, whether the local file exists,
  its bytes, and whether SQLite accepts a `CREATE TABLE` statement.
 */
module Connector {
  import opened Text
  import opened IndexCache
  import opened ChunkedUpload
  import opened Statements

  /** The server's answers to one `post_file` call: the session status and the replies to the PUTs. */
  datatype UploadScript = UploadScript(sessionStatus: int, replies: seq<Reply>)

  /** The server's answers during one `find_db`: the listing, the upload, the listing after the upload. */
  datatype FindScript = FindScript(listing: Option<seq<Item>>, upload: UploadScript, relisting: Option<seq<Item>>)

  /**
    The server's and SQLite's answers during one `create_local_db`, after its
    `find_db`: the bytes of the new database file, its upload, the listing
    after it, and whether each of the two `CREATE TABLE` statements runs.
   */
  datatype CreateScript = CreateScript(
    find: FindScript, newFile: seq<bv8>, upload: UploadScript, relisting: Option<seq<Item>>,
    newTableOk: bool, tableOk: bool)

  /** What `find_db` decides from whether the file exists locally and the row the cache has for it. */
  datatype Decision = UploadLocal | DownloadRow(rowId: nat) | Keep | Missing

  /** The transfer `find_db` starts: an upload with its conflict behaviour, a download by key, or none. */
  datatype Step = NoTransfer | Upload(behavior: string, trace: Trace) | Download(key: nat)

  datatype FindResult = FindResult(table: Table, outcome: Outcome, step: Step)

  /**
    The table afterwards, how the call ended, the SQL run on the database file
    in order, and the transfers: the step `find_db` took (`NoTransfer` when it
    took none), then the upload of a newly created file, if any.
   */
  datatype CreateResult = CreateResult(table: Table, outcome: Outcome, executed: seq<string>, steps: seq<Step>)

  /** The decision table of `find_db`; the download key is the row's `_id`, its first column. */
  function Decide(localExists: bool, row: Option<Row>): (d: Decision)
    ensures (d.UploadLocal? || d.DownloadRow?) <==> localExists != row.Some?
    ensures d.DownloadRow? ==> row.Some? && d.rowId == row.value.rowId
    ensures d == Missing <==> !localExists && row.None?
  {
    if localExists then (if row.None? then UploadLocal else Keep)
    else if row.Some? then DownloadRow(row.value.rowId)
    else Missing
  }

  /** Whether a `post_file` call ended by raising, or the model's reply script ran out before it ended. */
  predicate Unfinished(o: Outcome) {
    o == Outcome.Raises || o == Pending
  }

  /**
    `find_db` on the table `t`: refresh (its result is ignored), look the name
    up, act on the decision. After an upload it refreshes again; an exception
    from the upload leaves `find_db` at once.
   */
  function FindDbSpec(t: Table, fileName: string, localExists: bool, bytes: seq<bv8>, s: FindScript): (r: FindResult)
    ensures r.outcome in {ReturnsTrue, ReturnsFalse, Outcome.Raises, Pending}
  {
    var refreshed := Refresh(t, s.listing).table;
    match Decide(localExists, Lookup(refreshed.rows, fileName))
    case UploadLocal =>
      var trace := Transfer(bytes, s.upload.sessionStatus, s.upload.replies);
      if Unfinished(trace.outcome) then FindResult(refreshed, trace.outcome, Upload("fail", trace))
      else FindResult(Refresh(refreshed, s.relisting).table, ReturnsTrue, Upload("fail", trace))
    case DownloadRow(k) => FindResult(refreshed, ReturnsTrue, Download(k))
    case Keep => FindResult(refreshed, ReturnsTrue, NoTransfer)
    case Missing => FindResult(refreshed, ReturnsFalse, NoTransfer)
  }

  /**
    `create_local_db`: when `find_db` finds the file nowhere, create it with the
    table, upload it and refresh; then run `CREATE TABLE IF NOT EXISTS` and
    return whether it ran. An exception from `find_db`, from the first
    `CREATE TABLE` or from the upload leaves the call at once.
   */
  function CreateLocalDbSpec(t: Table, fileName: string, tableName: string, data: seq<Column>,
                             localExists: bool, bytes: seq<bv8>, s: CreateScript): CreateResult
  {
    var found := FindDbSpec(t, fileName, localExists, bytes, s.find);
    AfterFind(found.table, found.outcome, found.step, tableName, data, s)
  }

  /** `create_local_db` from the point where `find_db` has returned `found` after taking `findStep`. */
  function AfterFind(t: Table, found: Outcome, findStep: Step, tableName: string, data: seq<Column>,
                     s: CreateScript): CreateResult {
    if Unfinished(found) then CreateResult(t, found, [], [findStep])
    else if found.Truthy() then CreateResult(t, Ensured(s), [CreateTableSql(tableName, data)], [findStep])
    else NewDb(t, findStep, tableName, data, s)
  }

  /** What the final `CREATE TABLE IF NOT EXISTS` makes `create_local_db` return. */
  function Ensured(s: CreateScript): Outcome {
    if s.tableOk then ReturnsTrue else ReturnsFalse
  }

  /**
    `create_local_db` when `find_db` found the file nowhere: create the file
    with the table, upload it with `fail`, refresh the index, then run
    `CREATE TABLE IF NOT EXISTS`.
   */
  function NewDb(t: Table, findStep: Step, tableName: string, data: seq<Column>, s: CreateScript): CreateResult {
    if !s.newTableOk then CreateResult(t, Outcome.Raises, [NewTableSql(tableName, data)], [findStep])
    else
      var trace := Transfer(s.newFile, s.upload.sessionStatus, s.upload.replies);
      var steps := [findStep, Upload("fail", trace)];
      if Unfinished(trace.outcome) then CreateResult(t, trace.outcome, [NewTableSql(tableName, data)], steps)
      else CreateResult(Refresh(t, s.relisting).table, Ensured(s),
                        [NewTableSql(tableName, data), CreateTableSql(tableName, data)], steps)
  }

  class OneDriveConnector {
    /** The rows of `onedrive_info` in the local index database, in `_id` order. */
    var rows: seq<Row>
    /** Its AUTOINCREMENT counter: the largest `_id` handed out so far. */
    var lastId: nat

    function Index(): Table
      reads this
    {
      Table(rows, lastId)
    }

    /**
      `init_app`'s `CREATE TABLE IF NOT EXISTS onedrive_info`: a table already
      stored in the index database is kept, otherwise the table starts empty.
     */
    constructor (stored: Option<Table>)
      requires stored.Some? ==> IndexCache.Valid(stored.value)
      ensures Index() == if stored.Some? then stored.value else Table([], 0)
      ensures IndexCache.Valid(Index())
    {
      if stored.Some? {
        rows, lastId := stored.value.rows, stored.value.lastId;
      } else {
        rows, lastId := [], 0;
      }
    }

    /**
      `update_local_info` on the listing the server sent (`None` when the
      response has no `value` array): one upsert per item in order, then the
      eviction of unlisted names. It keeps the table consistent.
     */
    method UpdateLocalInfo(listing: Option<seq<Item>>) returns (ok: bool)
      modifies this
      ensures Refreshed(Index(), ok) == Refresh(old(Index()), listing)
      ensures IndexCache.Valid(old(Index())) ==> IndexCache.Valid(Index())
    {
      if listing.None? {
        return false;
      }
      var items := listing.value;
      var i := 0;
      while i < |items|
        invariant 0 <= i <= |items|
        invariant UpsertAll(old(Index()), items) == UpsertAll(Index(), items[i..])
        invariant IndexCache.Valid(old(Index())) ==> IndexCache.Valid(Index())
      {
        assert items[i..][0] == items[i] && items[i..][1..] == items[i + 1..];
        var item := items[i];
        if item.id.None? || item.name.None? {
          return false;
        }
        UpsertItem(item.id.value, item.name.value);
        i := i + 1;
      }
      if IndexCache.Valid(Index()) {
        EvictValid(Index(), Names(items));
      }
      rows := Evict(rows, Names(items));
      return true;
    }

    /** One turn of the refresh loop: the UPDATE of the row named `name`, or the INSERT of a new one. */
    method UpsertItem(id: string, name: string)
      modifies this
      ensures Index() == Upsert(old(Index()), id, name)
      ensures IndexCache.Valid(old(Index())) ==> IndexCache.Valid(Index())
    {
      if Lookup(rows, name).Some? {
        rows := SetIdWhereName(rows, name, id);
      } else {
        lastId := lastId + 1;
        rows := rows + [Row(lastId, id, name)];
      }
      if IndexCache.Valid(old(Index())) {
        UpsertValid(old(Index()), id, name);
      }
    }

    /**
      `find_db(file_name)`: the outcome is `ReturnsTrue` or `ReturnsFalse` as
      `find_db` returns, or how the upload it started left it.
     */
    method FindDb(fileName: string, localExists: bool, bytes: seq<bv8>, s: FindScript)
      returns (outcome: Outcome, step: Step)
      modifies this
      ensures FindResult(Index(), outcome, step) == FindDbSpec(old(Index()), fileName, localExists, bytes, s)
      ensures IndexCache.Valid(old(Index())) ==> IndexCache.Valid(Index())
    {
      var _ := UpdateLocalInfo(s.listing);
      var row := Lookup(rows, fileName);
      match Decide(localExists, row)
      case UploadLocal =>
        var puts, posted := PostFile(bytes, s.upload.sessionStatus, s.upload.replies);
        step := Upload("fail", Trace(puts, posted));
        if Unfinished(posted) {
          return posted, step;
        }
        var _ := UpdateLocalInfo(s.relisting);
        outcome := ReturnsTrue;
      case DownloadRow(k) =>
        outcome, step := ReturnsTrue, Download(k);
      case Keep =>
        outcome, step := ReturnsTrue, NoTransfer;
      case Missing =>
        outcome, step := ReturnsFalse, NoTransfer;
    }

    /**
      `create_local_db(file_name, table_name, data)`; `executed` lists the
      statements run on the database file, `steps` the transfers started.
     */
    method CreateLocalDb(fileName: string, tableName: string, data: seq<Column>,
                         localExists: bool, bytes: seq<bv8>, s: CreateScript)
      returns (outcome: Outcome, executed: seq<string>, steps: seq<Step>)
      modifies this
      ensures CreateResult(Index(), outcome, executed, steps)
        == CreateLocalDbSpec(old(Index()), fileName, tableName, data, localExists, bytes, s)
      ensures IndexCache.Valid(old(Index())) ==> IndexCache.Valid(Index())
    {
      var found, step := FindDb(fileName, localExists, bytes, s.find);
      outcome, executed, steps := CreateAfterFind(found, step, tableName, data, s);
    }

    /** The rest of `create_local_db` once `find_db` has returned `found` after taking `findStep`. */
    method CreateAfterFind(found: Outcome, findStep: Step, tableName: string, data: seq<Column>, s: CreateScript)
      returns (outcome: Outcome, executed: seq<string>, steps: seq<Step>)
      modifies this
      ensures CreateResult(Index(), outcome, executed, steps) == AfterFind(old(Index()), found, findStep, tableName, data, s)
      ensures IndexCache.Valid(old(Index())) ==> IndexCache.Valid(Index())
    {
      if Unfinished(found) {
        return found, [], [findStep];
      }
      if !found.Truthy() {
        outcome, executed, steps := CreateNewDb(findStep, tableName, data, s);
      } else {
        executed, steps := [CreateTableSql(tableName, data)], [findStep];
        outcome := if s.tableOk then ReturnsTrue else ReturnsFalse;
      }
    }

    /** `create_local_db` when `find_db` found the file nowhere. */
    method CreateNewDb(findStep: Step, tableName: string, data: seq<Column>, s: CreateScript)
      returns (outcome: Outcome, executed: seq<string>, steps: seq<Step>)
      modifies this
      ensures CreateResult(Index(), outcome, executed, steps) == NewDb(old(Index()), findStep, tableName, data, s)
      ensures IndexCache.Valid(old(Index())) ==> IndexCache.Valid(Index())
    {
      var create := NewTableSql(tableName, data);
      if !s.newTableOk {
        return Outcome.Raises, [create], [findStep];
      }
      var puts, posted := PostFile(s.newFile, s.upload.sessionStatus, s.upload.replies);
      steps := [findStep, Upload("fail", Trace(puts, posted))];
      if Unfinished(posted) {
        return posted, [create], steps;
      }
      var _ := UpdateLocalInfo(s.relisting);
      executed := [create, CreateTableSql(tableName, data)];
      outcome := if s.tableOk then ReturnsTrue else ReturnsFalse;
    }

    /**
      `operate_db(file_name, table_name, *args)`: the dispatch, and the
      `replace` upload of the database file that follows every call that
      neither raises nor selects. It does not touch the index.
     */
    method OperateDb(tableName: string, args: seq<Arg>, bytes: seq<bv8>, upload: UploadScript)
      returns (dispatch: Dispatch, step: Step)
      ensures dispatch == Statements.OperateDb(tableName, args)
      ensures step.Upload? <==> UploadsAfter(dispatch)
      ensures step.Upload? ==>
        step == Upload("replace", Transfer(bytes, upload.sessionStatus, upload.replies))
      ensures !step.Upload? ==> step == NoTransfer
    {
      dispatch := Statements.OperateDb(tableName, args);
      step := NoTransfer;
      if UploadsAfter(dispatch) {
        var puts, outcome := PostFile(bytes, upload.sessionStatus, upload.replies);
        step := Upload("replace", Trace(puts, outcome));
      }
    }
  }

  // ---------------------------------------------------------------------------
  // What find_db and create_local_db guarantee

  /**
    On a complete listing and a consistent table, `find_db` returns False
    exactly when the file is neither local nor listed; it uploads (with
    `fail`) exactly when the file is local but not listed; it downloads
    exactly when the file is listed but not local, and the key it passes is
    the cache row's `_id` — kept from before the refresh when the row already
    existed — not the remote item id.
   */
  lemma FindDbDecision(t: Table, fileName: string, localExists: bool, bytes: seq<bv8>, s: FindScript, items: seq<Item>)
    requires IndexCache.Valid(t)
    requires s.listing == Some(items)
    requires forall i | 0 <= i < |items| :: items[i].id.Some? && items[i].name.Some?
    ensures var r := FindDbSpec(t, fileName, localExists, bytes, s);
      && (r.outcome == ReturnsFalse <==> !localExists && fileName !in Names(items))
      && (r.step.Upload? <==> localExists && fileName !in Names(items))
      && (r.step.Upload? ==> r.step.behavior == "fail")
      && (r.step.Download? <==> !localExists && fileName in Names(items))
      && (r.step.Download? ==>
            var row := Lookup(Refresh(t, s.listing).table.rows, fileName);
            row.Some? && r.step.key == row.value.rowId && LastId(items, fileName) == Some(row.value.id)
            && (Lookup(t.rows, fileName).Some? ==> r.step.key == Lookup(t.rows, fileName).value.rowId))
  {
    RefreshedLookup(t, items, fileName);
  }

  /** `find_db` returns True whenever the file exists locally, whatever the upload did, unless it raised. */
  lemma FindDbLocalFile(t: Table, fileName: string, bytes: seq<bv8>, s: FindScript)
    ensures var r := FindDbSpec(t, fileName, true, bytes, s);
      r.outcome == ReturnsTrue || (r.step.Upload? && Unfinished(r.outcome) && r.outcome == r.step.trace.outcome)
    ensures var r := FindDbSpec(t, fileName, true, bytes, s);
      !r.step.Download?
  {
  }

  /**
    After an upload whose session request failed, `find_db` still returns
    True: it ignores what `post_file` returned.
   */
  lemma FindDbIgnoresUploadResult(t: Table, fileName: string, bytes: seq<bv8>, s: FindScript)
    requires s.upload.sessionStatus != 200
    requires Lookup(Refresh(t, s.listing).table.rows, fileName).None?
    ensures var r := FindDbSpec(t, fileName, true, bytes, s);
      r.outcome == ReturnsTrue && r.step == Upload("fail", Trace([], ReturnsFalse))
  {
  }

  /**
    `create_local_db` returns False only when its final `CREATE TABLE IF NOT
    EXISTS` fails; when it returns, that statement, with the columns rendered
    from `data`, is the last one run, and it follows the creation of a new
    database file, and the new file's upload follows `find_db`'s own
    transfer, exactly when `find_db` found the file nowhere.
   */
  lemma CreateLocalDbReturns(t: Table, fileName: string, tableName: string, data: seq<Column>,
                             localExists: bool, bytes: seq<bv8>, s: CreateScript)
    ensures var r := CreateLocalDbSpec(t, fileName, tableName, data, localExists, bytes, s);
      (r.outcome == ReturnsTrue || r.outcome == ReturnsFalse) ==>
        && (r.outcome == ReturnsTrue <==> s.tableOk)
        && |r.executed| >= 1 && r.executed[|r.executed| - 1] == CreateTableSql(tableName, data)
        && (r.executed[0] == NewTableSql(tableName, data) <==>
              FindDbSpec(t, fileName, localExists, bytes, s.find).outcome == ReturnsFalse)
        && r.steps[0] == FindDbSpec(t, fileName, localExists, bytes, s.find).step
        && (|r.steps| == 2 <==> FindDbSpec(t, fileName, localExists, bytes, s.find).outcome == ReturnsFalse)
  {
    var found := FindDbSpec(t, fileName, localExists, bytes, s.find);
    AfterFindReturns(found.table, found.outcome, found.step, tableName, data, s);
  }

  /** `create_local_db` after `find_db` returned `found`: see `CreateLocalDbReturns`. */
  lemma AfterFindReturns(t: Table, found: Outcome, findStep: Step, tableName: string, data: seq<Column>,
                         s: CreateScript)
    ensures var r := AfterFind(t, found, findStep, tableName, data, s);
      (r.outcome == ReturnsTrue || r.outcome == ReturnsFalse) ==>
        && (r.outcome == ReturnsTrue <==> s.tableOk)
        && |r.executed| >= 1 && r.executed[|r.executed| - 1] == CreateTableSql(tableName, data)
        && (r.executed[0] == NewTableSql(tableName, data) <==> !found.Truthy())
        && |r.steps| >= 1 && r.steps[0] == findStep && (|r.steps| == 2 <==> !found.Truthy())
  {
    NewTableDiffers(tableName, data);
  }

  /** The two `CREATE TABLE` texts differ (they differ right after the table name). */
  lemma NewTableDiffers(tableName: string, data: seq<Column>)
    ensures NewTableSql(tableName, data) != CreateTableSql(tableName, data)
  {
    var head := CreateTableHead + tableName;
    assert NewTableSql(tableName, data)[|head| + 1] == '\n';
    assert CreateTableSql(tableName, data)[|head| + 1] == '(';
  }

  /**
    When the file exists nowhere and everything succeeds, `create_local_db`
    creates the file with the table, uploads that file with `fail` in one PUT
    (after `find_db` transferred nothing), refreshes the index from the new
    listing and returns True.
   */
  lemma CreateLocalDbNewFile(t: Table, fileName: string, tableName: string, data: seq<Column>,
                             bytes: seq<bv8>, s: CreateScript)
    requires Lookup(Refresh(t, s.find.listing).table.rows, fileName).None?
    requires s.newTableOk && s.tableOk
    requires s.upload.sessionStatus == 200 && |s.newFile| >= 1
    requires |s.upload.replies| >= 1 && s.upload.replies[0].status == 201
    ensures var r := CreateLocalDbSpec(t, fileName, tableName, data, false, bytes, s);
      && r.outcome == ReturnsTrue
      && r.executed == [NewTableSql(tableName, data), CreateTableSql(tableName, data)]
      && r.table == Refresh(Refresh(t, s.find.listing).table, s.relisting).table
      && r.steps == [NoTransfer, Upload("fail", Transfer(s.newFile, s.upload.sessionStatus, s.upload.replies))]
      && r.steps[1].trace == Trace([NextPut(s.newFile, 0, 0)], ReturnsTrue)
  {
    AcceptedAtOnce(s.newFile, s.upload.replies);
    var found := FindDbSpec(t, fileName, false, bytes, s.find);
    assert found.outcome == ReturnsFalse && found.table == Refresh(t, s.find.listing).table;
  }
}
