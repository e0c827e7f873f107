/**
  The local index cache of `OneDriveConnector`: the `onedrive_info` table
  (`_id INTEGER PRIMARY KEY AUTOINCREMENT, id TEXT, name TEXT`) that mirrors
  the remote folder's listing, and its refresh, `update_local_info`.

  The table is a value here: its rows in `_id` order and the AUTOINCREMENT
  counter (the largest `_id` ever handed out). The connector class keeps one
  and changes it in place; this module states what a refresh does to it.
 */
module IndexCache {
  import opened Text

  /** A row of `onedrive_info`: surrogate `_id`, remote file `id`, file `name`. */
  datatype Row = Row(rowId: nat, id: string, name: string)

  /** The table: rows in `_id` order and the largest `_id` handed out so far. */
  datatype Table = Table(rows: seq<Row>, lastId: nat)

  /** An item of the remote listing; a key missing from its JSON object is `None`. */
  datatype Item = Item(id: Option<string>, name: Option<string>)

  /** A table after a refresh, and the boolean the refresh returned. */
  datatype Refreshed = Refreshed(table: Table, ok: bool)

  /**
    What the refresh keeps true of the table: `_id`s increase along the rows
    and none exceeds the counter, and no two rows share a name.
   */
  predicate Valid(t: Table) {
    (forall i | 0 <= i < |t.rows| :: 0 < t.rows[i].rowId <= t.lastId) &&
    (forall i, j | 0 <= i < j < |t.rows| :: t.rows[i].rowId < t.rows[j].rowId && t.rows[i].name != t.rows[j].name)
  }

  /** `SELECT * FROM onedrive_info WHERE name=?` followed by `fetchone()`: the first row with that name. */
  function Lookup(rows: seq<Row>, name: string): (r: Option<Row>)
    ensures r.Some? ==> r.value in rows && r.value.name == name
    ensures r.None? <==> forall i | 0 <= i < |rows| :: rows[i].name != name
  {
    if rows == [] then None
    else if rows[0].name == name then Some(rows[0])
    else Lookup(rows[1..], name)
  }

  /** `UPDATE onedrive_info SET id=? WHERE name=?`. */
  function SetIdWhereName(rows: seq<Row>, name: string, id: string): (r: seq<Row>)
    ensures |r| == |rows|
    ensures forall i | 0 <= i < |rows| ::
      r[i].rowId == rows[i].rowId && r[i].name == rows[i].name &&
      r[i].id == (if rows[i].name == name then id else rows[i].id)
  {
    seq(|rows|, i requires 0 <= i < |rows| => if rows[i].name == name then rows[i].(id := id) else rows[i])
  }

  /** One item of the refresh loop: update the row with that name, or insert a row with a fresh `_id`. */
  function Upsert(t: Table, id: string, name: string): (r: Table)
    ensures t.lastId <= r.lastId <= t.lastId + 1 && |t.rows| <= |r.rows| <= |t.rows| + 1
    ensures forall i | 0 <= i < |t.rows| :: r.rows[i].rowId == t.rows[i].rowId && r.rows[i].name == t.rows[i].name
  {
    if Lookup(t.rows, name).Some? then Table(SetIdWhereName(t.rows, name, id), t.lastId)
    else Table(t.rows + [Row(t.lastId + 1, id, name)], t.lastId + 1)
  }

  /**
    The loop over the listing: one upsert per item, in order. The flag is
    False when an item lacks `id` or `name`: the loop stops there, with the
    upserts of the earlier items already committed.
   */
  function UpsertAll(t: Table, items: seq<Item>): (r: Refreshed)
    ensures t.lastId <= r.table.lastId && |t.rows| <= |r.table.rows|
    ensures forall i | 0 <= i < |t.rows| ::
      r.table.rows[i].rowId == t.rows[i].rowId && r.table.rows[i].name == t.rows[i].name
    decreases |items|
  {
    if items == [] then Refreshed(t, true)
    else if items[0].id.None? || items[0].name.None? then Refreshed(t, false)
    else UpsertAll(Upsert(t, items[0].id.value, items[0].name.value), items[1..])
  }

  /** `[item['name'] for item in drive_items]`, for the items that have a name. */
  function Names(items: seq<Item>): seq<string> {
    if items == [] then []
    else (if items[0].name.Some? then [items[0].name.value] else []) + Names(items[1..])
  }

  /** `DELETE FROM onedrive_info WHERE name NOT IN (...)`. */
  function Evict(rows: seq<Row>, names: seq<string>): (r: seq<Row>)
    ensures forall x | x in r :: x in rows && x.name in names
  {
    if rows == [] then []
    else (if rows[0].name in names then [rows[0]] else []) + Evict(rows[1..], names)
  }

  /**
    `update_local_info` on the listing, `None` when the response holds no
    `value` array: nothing changes and the result is False.
   */
  function Refresh(t: Table, listing: Option<seq<Item>>): (r: Refreshed)
    ensures t.lastId <= r.table.lastId
    ensures r.ok ==> listing.Some? && forall x | x in r.table.rows :: x.name in Names(listing.value)
  {
    match listing
    case None => Refreshed(t, false)
    case Some(items) =>
      var upserted := UpsertAll(t, items);
      if !upserted.ok then upserted
      else Refreshed(Table(Evict(upserted.table.rows, Names(items)), upserted.table.lastId), true)
  }

  /** The id of the last listed item with name `n`, as a Python dict built from the listing would hold. */
  function LastId(items: seq<Item>, n: string): Option<string> {
    if items == [] then None
    else
      var later := LastId(items[1..], n);
      if later.Some? then later
      else if items[0].name == Some(n) && items[0].id.Some? then items[0].id
      else None
  }

  /** The cache as a name-to-id map. */
  function IndexMap(rows: seq<Row>): map<string, string> {
    if rows == [] then map[] else IndexMap(rows[1..])[rows[0].name := rows[0].id]
  }

  /** The listing as a name-to-id map: every listed name, with the id of its last item. */
  function ListedMap(items: seq<Item>): map<string, string>
    requires forall i | 0 <= i < |items| :: items[i].id.Some? && items[i].name.Some?
  {
    map n | n in Names(items) :: LastIdOfListed(items, n)
  }

  function LastIdOfListed(items: seq<Item>, n: string): string
    requires forall i | 0 <= i < |items| :: items[i].id.Some? && items[i].name.Some?
    requires n in Names(items)
  {
    LastIdListed(items, n);
    LastId(items, n).value
  }

  // ---------------------------------------------------------------------------
  // Row-level facts

  lemma {:induction false} LastIdListed(items: seq<Item>, n: string)
    requires forall i | 0 <= i < |items| :: items[i].id.Some? && items[i].name.Some?
    ensures LastId(items, n).Some? <==> n in Names(items)
  {
    if items != [] {
      LastIdListed(items[1..], n);
    }
  }

  lemma {:induction false} IndexMapLookup(rows: seq<Row>, n: string)
    ensures n in IndexMap(rows) <==> Lookup(rows, n).Some?
    ensures n in IndexMap(rows) ==> IndexMap(rows)[n] == Lookup(rows, n).value.id
  {
    if rows != [] {
      IndexMapLookup(rows[1..], n);
    }
  }

  lemma {:induction false} LookupSetId(rows: seq<Row>, name: string, id: string, n: string)
    ensures Lookup(SetIdWhereName(rows, name, id), n) ==
      if n == name && Lookup(rows, n).Some? then Some(Lookup(rows, n).value.(id := id)) else Lookup(rows, n)
  {
    if rows != [] {
      LookupSetId(rows[1..], name, id, n);
      assert SetIdWhereName(rows, name, id)[1..] == SetIdWhereName(rows[1..], name, id);
    }
  }

  lemma {:induction false} LookupAppend(rows: seq<Row>, row: Row, n: string)
    ensures Lookup(rows + [row], n) ==
      if Lookup(rows, n).Some? then Lookup(rows, n) else if row.name == n then Some(row) else None
  {
    if rows != [] {
      assert (rows + [row])[1..] == rows[1..] + [row];
      LookupAppend(rows[1..], row, n);
    } else {
      assert [row][1..] == [];
    }
  }

  lemma {:induction false} LookupEvict(rows: seq<Row>, names: seq<string>, n: string)
    ensures Lookup(Evict(rows, names), n) == if n in names then Lookup(rows, n) else None
  {
    if rows != [] {
      LookupEvict(rows[1..], names, n);
      if rows[0].name in names {
        assert ([rows[0]] + Evict(rows[1..], names))[1..] == Evict(rows[1..], names);
      } else {
        assert [] + Evict(rows[1..], names) == Evict(rows[1..], names);
      }
    }
  }

  /** After one upsert, the row of `name` holds `id`, keeping its `_id` or taking the next one. */
  lemma UpsertRow(t: Table, id: string, name: string, n: string)
    ensures var u := Upsert(t, id, name);
      Lookup(u.rows, n) ==
        if n != name then Lookup(t.rows, n)
        else if Lookup(t.rows, n).Some? then Some(Row(Lookup(t.rows, n).value.rowId, id, name))
        else Some(Row(t.lastId + 1, id, name))
    ensures Upsert(t, id, name).lastId == if Lookup(t.rows, name).Some? then t.lastId else t.lastId + 1
  {
    var found := Lookup(t.rows, name);
    var u := Upsert(t, id, name);
    if found.Some? {
      assert u == Table(SetIdWhereName(t.rows, name, id), t.lastId);
      LookupSetId(t.rows, name, id, n);
    } else {
      assert u == Table(t.rows + [Row(t.lastId + 1, id, name)], t.lastId + 1);
      LookupAppend(t.rows, Row(t.lastId + 1, id, name), n);
    }
  }

  lemma UpsertValid(t: Table, id: string, name: string)
    requires Valid(t)
    ensures Valid(Upsert(t, id, name))
  {
    if Lookup(t.rows, name).None? {
      var rows := t.rows + [Row(t.lastId + 1, id, name)];
      assert forall i | 0 <= i < |t.rows| :: rows[i] == t.rows[i];
    }
  }

  lemma {:induction false} EvictValid(t: Table, names: seq<string>)
    requires Valid(t)
    ensures Valid(Table(Evict(t.rows, names), t.lastId))
    decreases |t.rows|
  {
    if t.rows != [] {
      EvictValid(Table(t.rows[1..], t.lastId), names);
      if t.rows[0].name in names {
        ValidHead(t);
        ValidCons(t.rows[0], Evict(t.rows[1..], names), t.lastId);
      }
    }
  }

  /** In a valid table the first row comes before, and is named apart from, every later one. */
  lemma ValidHead(t: Table)
    requires Valid(t) && t.rows != []
    ensures Valid(Table(t.rows[1..], t.lastId)) && 0 < t.rows[0].rowId <= t.lastId
    ensures forall x | x in t.rows[1..] :: t.rows[0].rowId < x.rowId && t.rows[0].name != x.name
  {
    forall x | x in t.rows[1..] ensures t.rows[0].rowId < x.rowId && t.rows[0].name != x.name {
      var j :| 0 <= j < |t.rows[1..]| && t.rows[1..][j] == x;
      assert t.rows[j + 1] == x;
    }
  }

  /** A row put in front of a valid table keeps it valid when it comes first and is named apart. */
  lemma ValidCons(row: Row, rest: seq<Row>, lastId: nat)
    requires Valid(Table(rest, lastId)) && 0 < row.rowId <= lastId
    requires forall x | x in rest :: row.rowId < x.rowId && row.name != x.name
    ensures Valid(Table([row] + rest, lastId))
  {
    var r := [row] + rest;
    forall i, j | 0 <= i < j < |r| ensures r[i].rowId < r[j].rowId && r[i].name != r[j].name {
      assert r[j] == rest[j - 1];
      if i > 0 {
        assert r[i] == rest[i - 1];
      }
    }
  }

  /**
    The loop over a complete listing: each listed name's row holds the id of
    its last item and keeps the `_id` it had, or gets one above the old
    counter; rows of names not listed are untouched.
   */
  lemma {:induction false} UpsertAllRows(t: Table, items: seq<Item>, n: string)
    requires Valid(t)
    requires forall i | 0 <= i < |items| :: items[i].id.Some? && items[i].name.Some?
    ensures var u := UpsertAll(t, items);
      && u.ok && Valid(u.table) && t.lastId <= u.table.lastId
      && (n !in Names(items) ==> Lookup(u.table.rows, n) == Lookup(t.rows, n))
      && (n in Names(items) ==>
            && Lookup(u.table.rows, n).Some?
            && LastId(items, n) == Some(Lookup(u.table.rows, n).value.id)
            && (Lookup(t.rows, n).Some? ==> Lookup(u.table.rows, n).value.rowId == Lookup(t.rows, n).value.rowId)
            && (Lookup(t.rows, n).None? ==> t.lastId < Lookup(u.table.rows, n).value.rowId))
    decreases |items|
  {
    if items != [] {
      var id, name := items[0].id.value, items[0].name.value;
      var t1 := Upsert(t, id, name);
      UpsertValid(t, id, name);
      UpsertRow(t, id, name, n);
      UpsertAllRows(t1, items[1..], n);
      LastIdListed(items[1..], n);
    }
  }

  // ---------------------------------------------------------------------------
  // What a refresh guarantees

  /**
    A refresh on a complete listing succeeds and leaves the cache equal, as a
    name-to-id map, to the listing: exactly the listed names, each with the id
    of its last listed item. Rows of unlisted names are gone, so an empty
    listing empties the table.
   */
  lemma RefreshMirrorsListing(t: Table, items: seq<Item>)
    requires Valid(t)
    requires forall i | 0 <= i < |items| :: items[i].id.Some? && items[i].name.Some?
    ensures var r := Refresh(t, Some(items));
      r.ok && Valid(r.table) && IndexMap(r.table.rows) == ListedMap(items)
  {
    var u := UpsertAll(t, items);
    var r := Refresh(t, Some(items));
    forall n ensures (n in IndexMap(r.table.rows) <==> n in ListedMap(items)) &&
                     (n in ListedMap(items) ==> IndexMap(r.table.rows)[n] == ListedMap(items)[n]) {
      UpsertAllRows(t, items, n);
      LookupEvict(u.table.rows, Names(items), n);
      IndexMapLookup(r.table.rows, n);
    }
    UpsertAllRows(t, items, "");
    EvictValid(u.table, Names(items));
  }

  /**
    After a successful refresh a name has a row exactly when it is listed;
    that row holds the id of the name's last item and keeps the `_id` the
    name had before the refresh.
   */
  lemma RefreshedLookup(t: Table, items: seq<Item>, n: string)
    requires Valid(t)
    requires forall i | 0 <= i < |items| :: items[i].id.Some? && items[i].name.Some?
    ensures var row := Lookup(Refresh(t, Some(items)).table.rows, n);
      && (row.Some? <==> n in Names(items))
      && (row.Some? ==> LastId(items, n) == Some(row.value.id))
      && (row.Some? && Lookup(t.rows, n).Some? ==> row.value.rowId == Lookup(t.rows, n).value.rowId)
  {
    var refreshed := Refresh(t, Some(items)).table;
    RefreshMirrorsListing(t, items);
    IndexMapLookup(refreshed.rows, n);
    if n in Names(items) {
      RefreshKeepsRowIds(t, items, n);
      LastIdListed(items, n);
      assert ListedMap(items)[n] == LastId(items, n).value;
    } else {
      assert n !in ListedMap(items);
    }
  }

  /**
    A successful refresh keeps the `_id` of every row whose name is still
    listed, and gives each newly listed name an `_id` above the old counter.
   */
  lemma RefreshKeepsRowIds(t: Table, items: seq<Item>, n: string)
    requires Valid(t)
    requires forall i | 0 <= i < |items| :: items[i].id.Some? && items[i].name.Some?
    requires n in Names(items)
    ensures var r := Refresh(t, Some(items));
      && Lookup(r.table.rows, n).Some?
      && (Lookup(t.rows, n).Some? ==> Lookup(r.table.rows, n).value.rowId == Lookup(t.rows, n).value.rowId)
      && (Lookup(t.rows, n).None? ==> t.lastId < Lookup(r.table.rows, n).value.rowId)
  {
    UpsertAllRows(t, items, n);
    LookupEvict(UpsertAll(t, items).table.rows, Names(items), n);
  }

  /**
    An item without `id` or `name` makes the refresh return False right
    there: the items before it stay upserted and nothing is evicted.
   */
  lemma {:induction false} RefreshStopsAtIncompleteItem(t: Table, items: seq<Item>, k: nat)
    requires k < |items|
    requires forall i | 0 <= i < k :: items[i].id.Some? && items[i].name.Some?
    requires items[k].id.None? || items[k].name.None?
    ensures Refresh(t, Some(items)) == Refreshed(UpsertAll(t, items[..k]).table, false)
    decreases k
  {
    if k > 0 {
      var t1 := Upsert(t, items[0].id.value, items[0].name.value);
      RefreshStopsAtIncompleteItem(t1, items[1..], k - 1);
      assert items[1..][..k - 1] == items[..k][1..];
    }
  }

  // ---------------------------------------------------------------------------
  // Idempotence

  /** Every row whose name is a key of `m` holds the id `m` gives it. */
  predicate Agrees(rows: seq<Row>, m: map<string, string>) {
    forall i | 0 <= i < |rows| :: rows[i].name in m ==> rows[i].id == m[rows[i].name]
  }

  /** When every listed name already has a row that holds its listed id, the loop changes nothing. */
  lemma {:induction false} UpsertAllUnchanged(t: Table, items: seq<Item>)
    requires Valid(t)
    requires forall i | 0 <= i < |items| :: items[i].id.Some? && items[i].name.Some?
    requires forall i | 0 <= i < |items| :: Lookup(t.rows, items[i].name.value).Some?
    requires Agrees(t.rows, ListedMap(items))
    ensures UpsertAll(t, items) == Refreshed(t, true)
  {
    // An induction over the items would pass through states that disagree
    // with the final one (a name listed twice holds its earlier id for a
    // while), so the loop is described by the row relabelling it performs.
    forall i | 0 <= i < |t.rows| ensures t.rows[i].name in IndexMap(t.rows) && IndexMap(t.rows)[t.rows[i].name] == t.rows[i].id {
      LookupOfValid(t, i);
      IndexMapLookup(t.rows, t.rows[i].name);
    }
    var m := IndexMap(t.rows);
    UpsertAllRelabels(t, items, m);
    var u := UpsertAll(t, items);
    forall i | 0 <= i < |t.rows| ensures u.table.rows[i] == t.rows[i] {
      var r := t.rows[i];
      if r.name in Names(items) {
        assert r.id == LastIdOfListed(items, r.name);
        LastIdRelabel(m, items, r.name);
      } else {
        RelabelledKeeps(m, items, r.name);
      }
    }
    assert u.table.rows == t.rows;
  }

  /** The ids the loop leaves when every listed name already has a row, starting from the map `m`. */
  function Relabelled(m: map<string, string>, items: seq<Item>): (r: map<string, string>)
    ensures m.Keys <= r.Keys
    decreases |items|
  {
    if items == [] then m
    else if items[0].id.Some? && items[0].name.Some? then Relabelled(m[items[0].name.value := items[0].id.value], items[1..])
    else Relabelled(m, items[1..])
  }

  lemma {:induction false} LastIdRelabel(m: map<string, string>, items: seq<Item>, n: string)
    requires forall i | 0 <= i < |items| :: items[i].id.Some? && items[i].name.Some?
    requires n in Names(items)
    ensures n in Relabelled(m, items) && LastId(items, n) == Some(Relabelled(m, items)[n])
    decreases |items|
  {
    LastIdListed(items, n);
    LastIdListed(items[1..], n);
    if n in Names(items[1..]) {
      LastIdRelabel(m[items[0].name.value := items[0].id.value], items[1..], n);
    } else {
      RelabelledKeeps(m[items[0].name.value := items[0].id.value], items[1..], n);
    }
  }

  lemma {:induction false} RelabelledKeeps(m: map<string, string>, items: seq<Item>, n: string)
    requires n !in Names(items)
    ensures (n in Relabelled(m, items) <==> n in m) && (n in m ==> Relabelled(m, items)[n] == m[n])
    decreases |items|
  {
    if items != [] {
      if items[0].id.Some? && items[0].name.Some? {
        RelabelledKeeps(m[items[0].name.value := items[0].id.value], items[1..], n);
      } else {
        RelabelledKeeps(m, items[1..], n);
      }
    }
  }

  /** An upsert of a name that has a row rewrites ids only, and the map updated alike still describes the rows. */
  lemma RelabelStep(t: Table, id: string, name: string, m: map<string, string>)
    requires Valid(t) && Lookup(t.rows, name).Some?
    requires forall i | 0 <= i < |t.rows| :: t.rows[i].name in m && m[t.rows[i].name] == t.rows[i].id
    ensures var t1 := Upsert(t, id, name);
      && Valid(t1) && t1.lastId == t.lastId && |t1.rows| == |t.rows|
      && (forall i | 0 <= i < |t.rows| :: t1.rows[i] == t.rows[i].(id := t1.rows[i].id))
      && (forall i | 0 <= i < |t1.rows| :: t1.rows[i].name in m[name := id] && m[name := id][t1.rows[i].name] == t1.rows[i].id)
  {
    var t1 := Upsert(t, id, name);
    assert t1 == Table(SetIdWhereName(t.rows, name, id), t.lastId);
    UpsertValid(t, id, name);
    forall i | 0 <= i < |t1.rows| ensures t1.rows[i].name in m[name := id] && m[name := id][t1.rows[i].name] == t1.rows[i].id {
      assert t1.rows[i].name == t.rows[i].name;
    }
  }

  /**
    When every listed name already has a row, the loop keeps the rows and the
    counter and only rewrites ids: row `i` ends with the id the listing gives
    its name, or keeps its own.
   */
  lemma {:induction false} UpsertAllRelabels(t: Table, items: seq<Item>, m: map<string, string>)
    requires Valid(t)
    requires forall i | 0 <= i < |items| :: items[i].id.Some? && items[i].name.Some?
    requires forall i | 0 <= i < |items| :: Lookup(t.rows, items[i].name.value).Some?
    requires forall i | 0 <= i < |t.rows| :: t.rows[i].name in m && m[t.rows[i].name] == t.rows[i].id
    ensures var u := UpsertAll(t, items);
      && u.ok && u.table.lastId == t.lastId && |u.table.rows| == |t.rows|
      && forall i | 0 <= i < |t.rows| ::
           u.table.rows[i] == t.rows[i].(id := Relabelled(m, items)[t.rows[i].name])
    decreases |items|
  {
    if items == [] {
      forall i | 0 <= i < |t.rows| ensures t.rows[i] == t.rows[i].(id := m[t.rows[i].name]) { }
    } else {
      var id, name := items[0].id.value, items[0].name.value;
      var t1 := Upsert(t, id, name);
      RelabelStep(t, id, name, m);
      var m1 := m[name := id];
      assert UpsertAll(t, items) == UpsertAll(t1, items[1..]);
      assert Relabelled(m, items) == Relabelled(m1, items[1..]);
      forall i | 0 <= i < |items| - 1 ensures Lookup(t1.rows, items[1..][i].name.value).Some? {
        UpsertRow(t, id, name, items[1..][i].name.value);
      }
      UpsertAllRelabels(t1, items[1..], m1);
      var u := UpsertAll(t1, items[1..]);
      forall i | 0 <= i < |t.rows|
        ensures u.table.rows[i] == t.rows[i].(id := Relabelled(m, items)[t.rows[i].name])
      {
        assert t1.rows[i] == t.rows[i].(id := t1.rows[i].id);
      }
    }
  }

  /**
    Refreshing again with the same listing changes nothing: same rows, same
    `_id`s, same ids, same counter, and the refresh succeeds.
   */
  lemma RefreshIdempotent(t: Table, items: seq<Item>)
    requires Valid(t)
    requires forall i | 0 <= i < |items| :: items[i].id.Some? && items[i].name.Some?
    ensures var once := Refresh(t, Some(items)).table;
      Refresh(once, Some(items)) == Refreshed(once, true)
  {
    var once := Refresh(t, Some(items)).table;
    MirrorAgrees(t, items);
    UpsertAllUnchanged(once, items);
    EvictKeepsListed(once.rows, Names(items));
  }

  /**
    After a successful refresh every row's name is listed and the row holds
    the listed id, and every listed name has a row.
   */
  lemma MirrorAgrees(t: Table, items: seq<Item>)
    requires Valid(t)
    requires forall i | 0 <= i < |items| :: items[i].id.Some? && items[i].name.Some?
    ensures var once := Refresh(t, Some(items)).table;
      && Valid(once) && Agrees(once.rows, ListedMap(items))
      && (forall i | 0 <= i < |once.rows| :: once.rows[i].name in Names(items))
      && (forall i | 0 <= i < |items| :: Lookup(once.rows, items[i].name.value).Some?)
  {
    var once := Refresh(t, Some(items)).table;
    RefreshMirrorsListing(t, items);
    forall i | 0 <= i < |once.rows|
      ensures once.rows[i].name in Names(items) && once.rows[i].name in ListedMap(items)
      ensures once.rows[i].id == ListedMap(items)[once.rows[i].name]
    {
      LookupOfValid(once, i);
      IndexMapLookup(once.rows, once.rows[i].name);
    }
    forall i | 0 <= i < |items| ensures Lookup(once.rows, items[i].name.value).Some? {
      NameListed(items, i);
      IndexMapLookup(once.rows, items[i].name.value);
    }
  }

  lemma {:induction false} NameListed(items: seq<Item>, i: nat)
    requires i < |items| && items[i].name.Some?
    ensures items[i].name.value in Names(items)
  {
    if i > 0 {
      NameListed(items[1..], i - 1);
    }
  }

  lemma {:induction false} LookupOfValid(t: Table, i: nat)
    requires Valid(t) && i < |t.rows|
    ensures Lookup(t.rows, t.rows[i].name) == Some(t.rows[i])
    decreases i
  {
    if i > 0 {
      LookupOfValid(Table(t.rows[1..], t.lastId), i - 1);
    }
  }

  lemma {:induction false} EvictKeepsListed(rows: seq<Row>, names: seq<string>)
    requires forall i | 0 <= i < |rows| :: rows[i].name in names
    ensures Evict(rows, names) == rows
  {
    if rows != [] {
      EvictKeepsListed(rows[1..], names);
    }
  }
}
