/**
 * services/database_service.py: the password_entries table and the three
 * operations on it.  The table is held in memory in rowid order, which is
 * ascending id order, together with the AUTOINCREMENT counter (the largest
 * id ever handed out).  Passwords are stored encrypted; notes and every
 * other column are stored as given.
 */
module DatabaseServices {
  import opened Wrappers
  import opened Base64Url
  import opened CryptoLibrary
  import opened EncryptionServices
  import opened Timestamps
  import opened PasswordEntries
  import opened Text

  /** The largest rowid SQLite hands out; AUTOINCREMENT fails beyond it. */
  const MaxRowId: int := 0x7FFF_FFFF_FFFF_FFFF

  /** One row of password_entries.  website and password are NOT NULL; the
      other text columns may hold NULL (None). */
  datatype Row = Row(
    id: int, website: string, username: Option<string>, email: Option<string>,
    password: string, notes: Option<string>,
    dateCreated: Option<string>, dateModified: Option<string>)

  /** Ids are positive, strictly increasing in rowid order, and never above
      the AUTOINCREMENT counter, which itself stays within SQLite's range. */
  ghost predicate TableOk(rows: seq<Row>, lastId: int) {
    && 0 <= lastId <= MaxRowId
    && (forall i :: 0 <= i < |rows| ==> 0 < rows[i].id <= lastId)
    && (forall i, j :: 0 <= i < j < |rows| ==> rows[i].id < rows[j].id)
  }

  // ---- SELECT ... ORDER BY website ----

  ghost predicate SortedByWebsite(rows: seq<Row>) {
    forall i, j :: 0 <= i < j < |rows| ==> LexLe(rows[i].website, rows[j].website)
  }

  /** Places row before the first row whose website is not smaller. */
  function InsertByWebsite(row: Row, rows: seq<Row>): (r: seq<Row>)
    ensures multiset(r) == multiset(rows) + multiset{row}
    ensures |r| == |rows| + 1
    ensures r[0] == row || (rows != [] && r[0] == rows[0])
  {
    if rows == [] || LexLe(row.website, rows[0].website) then [row] + rows
    else
      assert rows == [rows[0]] + rows[1..];
      [rows[0]] + InsertByWebsite(row, rows[1..])
  }

  lemma PrependKeepsSorted(x: Row, rows: seq<Row>)
    requires SortedByWebsite(rows) && (rows == [] || LexLe(x.website, rows[0].website))
    ensures SortedByWebsite([x] + rows)
  {
    var r := [x] + rows;
    forall i, j | 0 <= i < j < |r| ensures LexLe(r[i].website, r[j].website) {
      assert r[j] == rows[j - 1];
      if i == 0 {
        if j > 1 { LexLeTransitive(x.website, rows[0].website, rows[j - 1].website); }
      } else {
        assert r[i] == rows[i - 1];
      }
    }
  }

  lemma {:induction false} InsertKeepsSorted(row: Row, rows: seq<Row>)
    requires SortedByWebsite(rows)
    ensures SortedByWebsite(InsertByWebsite(row, rows))
  {
    if rows == [] || LexLe(row.website, rows[0].website) {
      PrependKeepsSorted(row, rows);
    } else {
      var tail := InsertByWebsite(row, rows[1..]);
      InsertKeepsSorted(row, rows[1..]);
      LexLeTotal(row.website, rows[0].website);
      assert |rows| > 1 ==> LexLe(rows[0].website, rows[1].website);
      assert LexLe(rows[0].website, tail[0].website);
      PrependKeepsSorted(rows[0], tail);
    }
  }


  /** The engine's ORDER BY website, here an insertion sort that keeps
      rowid order among equal websites.  The result is sorted and holds
      exactly the rows of the table. */
  function OrderByWebsite(rows: seq<Row>): (r: seq<Row>)
    ensures multiset(r) == multiset(rows)
    ensures |r| == |rows|
    ensures SortedByWebsite(r)
  {
    if rows == [] then []
    else
      var rest := OrderByWebsite(rows[1..]);
      InsertKeepsSorted(rows[0], rest);
      assert rows == [rows[0]] + rows[1..];
      InsertByWebsite(rows[0], rest)
  }

  // ---- Row to PasswordEntry, as get_all_entries does it ----

  /** `column or ""` */
  function OrEmpty(column: Option<string>): (s: string)
    ensures column.None? ==> s == []
    ensures column.Some? ==> s == column.value
  {
    if column.Some? then column.value else []
  }

  /** `datetime.fromisoformat(column) if column else datetime.now()`:
      NULL and the empty text read the clock; other text is parsed and may
      fail. */
  function ReadTimestamp(iso: IsoCodec, column: Option<string>, now: Timestamp): (t: Option<Timestamp>)
    ensures column.None? || column.value == [] ==> t == Some(now)
    ensures column.Some? && column.value != [] ==> t == iso.parse(column.value)
  {
    if column.None? || column.value == [] then Some(now) else iso.parse(column.value)
  }

  ghost predicate DatesReadable(iso: IsoCodec, row: Row, now: Timestamp) {
    ReadTimestamp(iso, row.dateCreated, now).Some? && ReadTimestamp(iso, row.dateModified, now).Some?
  }

  /** One row as an entry.  Only an unreadable timestamp makes it fail: the
      password column goes through decrypt, which turns every failure into
      "". */
  function LoadRow(lib: Library, svc: EncryptionService, iso: IsoCodec, now: Timestamp, row: Row): (e: Option<EntryData>)
    ensures e.Some? <==> DatesReadable(iso, row, now)
    ensures e.Some? ==> e.value.id == row.id && e.value.website == row.website
  {
    match (ReadTimestamp(iso, row.dateCreated, now), ReadTimestamp(iso, row.dateModified, now))
    case (Some(created), Some(modified)) =>
      Some(EntryData(row.id, row.website, OrEmpty(row.username), OrEmpty(row.email),
                     Decrypt(lib, svc, row.password), OrEmpty(row.notes), created, modified))
    case _ => None
  }

  /** The columns of a loaded row: NULL texts become "", the password is
      what decrypt makes of the stored text, and the dates are read as
      above. */
  lemma LoadRowColumns(lib: Library, svc: EncryptionService, iso: IsoCodec, now: Timestamp, row: Row)
    requires LoadRow(lib, svc, iso, now, row).Some?
    ensures var e := LoadRow(lib, svc, iso, now, row).value;
      && e.username == OrEmpty(row.username) && e.email == OrEmpty(row.email) && e.notes == OrEmpty(row.notes)
      && e.password == Decrypt(lib, svc, row.password)
      && e.dateCreated == ReadTimestamp(iso, row.dateCreated, now).value
      && e.dateModified == ReadTimestamp(iso, row.dateModified, now).value
  {
  }

  /** All rows as entries, in order; None when some row cannot be read. */
  function LoadRows(lib: Library, svc: EncryptionService, iso: IsoCodec, now: Timestamp, rows: seq<Row>): (r: Option<seq<EntryData>>)
    ensures r.Some? <==> forall i :: 0 <= i < |rows| ==> DatesReadable(iso, rows[i], now)
    ensures r.Some? ==> |r.value| == |rows|
    decreases |rows|
  {
    if rows == [] then Some([])
    else match LoadRow(lib, svc, iso, now, rows[0])
      case None => None
      case Some(e) =>
        match LoadRows(lib, svc, iso, now, rows[1..])
        case None =>
          assert forall i :: 0 <= i < |rows| - 1 ==> rows[1..][i] == rows[i + 1];
          None
        case Some(rest) =>
          assert forall i :: 1 <= i < |rows| ==> rows[i] == rows[1..][i - 1];
          Some([e] + rest)
  }

  /** Each loaded entry is its own row, loaded. */
  lemma {:induction false} LoadRowsEach(lib: Library, svc: EncryptionService, iso: IsoCodec, now: Timestamp, rows: seq<Row>)
    requires LoadRows(lib, svc, iso, now, rows).Some?
    ensures forall i :: 0 <= i < |rows| ==>
      LoadRow(lib, svc, iso, now, rows[i]) == Some(LoadRows(lib, svc, iso, now, rows).value[i])
    decreases |rows|
  {
    if rows != [] {
      var rest := LoadRows(lib, svc, iso, now, rows[1..]);
      LoadRowsEach(lib, svc, iso, now, rows[1..]);
      forall i | 1 <= i < |rows|
        ensures LoadRow(lib, svc, iso, now, rows[i]) == Some(LoadRows(lib, svc, iso, now, rows).value[i])
      {
        assert rows[i] == rows[1..][i - 1];
        assert LoadRows(lib, svc, iso, now, rows).value[i] == rest.value[i - 1];
      }
    }
  }
  /** One unreadable row makes the whole load fail. */
  lemma LoadRowsFails(lib: Library, svc: EncryptionService, iso: IsoCodec, now: Timestamp, rows: seq<Row>, i: int)
    requires 0 <= i < |rows| && LoadRow(lib, svc, iso, now, rows[i]).None?
    ensures LoadRows(lib, svc, iso, now, rows).None?
  {
    assert !DatesReadable(iso, rows[i], now);
  }

  /** Loading row by row and loading the table agree. */
  lemma {:induction false} LoadRowsOfEach(lib: Library, svc: EncryptionService, iso: IsoCodec, now: Timestamp,
                                          rows: seq<Row>, es: seq<EntryData>)
    requires |es| == |rows| && forall j :: 0 <= j < |rows| ==> LoadRow(lib, svc, iso, now, rows[j]) == Some(es[j])
    ensures LoadRows(lib, svc, iso, now, rows) == Some(es)
    decreases |rows|
  {
    if rows != [] {
      LoadRowsOfEach(lib, svc, iso, now, rows[1..], es[1..]);
      assert es == [es[0]] + es[1..];
    }
  }




  // ---- What save_entry writes ----

  /** The row INSERT writes for a new entry with the given ciphertext. */
  function InsertedRow(id: int, e: EntryData, cipher: string, iso: IsoCodec): (r: Row)
    ensures r.id == id && r.website == e.website && r.password == cipher
    ensures OrEmpty(r.username) == e.username && OrEmpty(r.email) == e.email && OrEmpty(r.notes) == e.notes
    ensures IsoSound(iso) ==> forall now :: && ReadTimestamp(iso, r.dateCreated, now) == Some(e.dateCreated)
                                            && ReadTimestamp(iso, r.dateModified, now) == Some(e.dateModified)
  {
    Row(id, e.website, Some(e.username), Some(e.email), cipher, Some(e.notes),
        Some(iso.format(e.dateCreated)), Some(iso.format(e.dateModified)))
  }

  /** UPDATE ... WHERE id=?: the matching row takes the new website,
      username, email, password, notes and date_modified and keeps its id
      and date_created; every other row is unchanged. */
  function UpdateById(rows: seq<Row>, id: int, e: EntryData, cipher: string, modified: string): (r: seq<Row>)
    ensures |r| == |rows|
    ensures forall i :: 0 <= i < |rows| ==> r[i].id == rows[i].id && r[i].dateCreated == rows[i].dateCreated
    ensures forall i :: 0 <= i < |rows| && rows[i].id != id ==> r[i] == rows[i]
    ensures forall i :: 0 <= i < |rows| && rows[i].id == id ==>
      r[i] == Row(id, e.website, Some(e.username), Some(e.email), cipher, Some(e.notes), rows[i].dateCreated, Some(modified))
  {
    seq(|rows|, i requires 0 <= i < |rows| =>
      if rows[i].id == id
      then rows[i].(website := e.website, username := Some(e.username), email := Some(e.email),
                    password := cipher, notes := Some(e.notes), dateModified := Some(modified))
      else rows[i])
  }

  /** DELETE ... WHERE id=?: exactly the rows with other ids remain.  This
      speaks of membership; that the kept rows stay in id order is
      DeleteKeepsOrder. */
  function DeleteById(rows: seq<Row>, id: int): (r: seq<Row>)
    ensures forall x :: x in r <==> x in rows && x.id != id
    ensures |r| <= |rows|
    ensures (forall i :: 0 <= i < |rows| ==> rows[i].id != id) ==> r == rows
  {
    if rows == [] then []
    else (if rows[0].id == id then [] else [rows[0]]) + DeleteById(rows[1..], id)
  }

  lemma {:induction false} DeleteKeepsOrder(rows: seq<Row>, id: int, lastId: int)
    requires TableOk(rows, lastId)
    ensures TableOk(DeleteById(rows, id), lastId)
  {
    if rows != [] {
      DeleteKeepsOrder(rows[1..], id, lastId);
      var rest := DeleteById(rows[1..], id);
      if rows[0].id != id {
        forall j | 0 <= j < |rest| ensures rows[0].id < rest[j].id {
          LaterRowsAboveFirst(rows, lastId, rest[j]);
        }
        PrependKeepsTable(rows[0], rest, lastId);
        assert DeleteById(rows, id) == [rows[0]] + rest;
      } else {
        assert DeleteById(rows, id) == rest;
      }
    }
  }

  lemma LaterRowsAboveFirst(rows: seq<Row>, lastId: int, x: Row)
    requires TableOk(rows, lastId) && rows != [] && x in rows[1..]
    ensures rows[0].id < x.id
  {
    var k :| 0 <= k < |rows[1..]| && rows[1..][k] == x;
    assert rows[k + 1] == x;
  }

  lemma PrependKeepsTable(x: Row, rows: seq<Row>, lastId: int)
    requires TableOk(rows, lastId) && 0 < x.id <= lastId
    requires forall j :: 0 <= j < |rows| ==> x.id < rows[j].id
    ensures TableOk([x] + rows, lastId)
  {
    var r := [x] + rows;
    forall i, j | 0 <= i < j < |r| ensures r[i].id < r[j].id {
      assert r[j] == rows[j - 1];
      if i > 0 { assert r[i] == rows[i - 1]; }
    }
  }

  /** An INSERT takes the next AUTOINCREMENT id, which is above every id
      in the table, so appending its row keeps the table well formed. */
  lemma AppendKeepsTable(rows: seq<Row>, lastId: int, row: Row)
    requires TableOk(rows, lastId) && lastId < MaxRowId && row.id == lastId + 1
    ensures TableOk(rows + [row], lastId + 1)
  {
    var r := rows + [row];
    forall i, j | 0 <= i < j < |r| ensures r[i].id < r[j].id {
      assert r[i] == rows[i];
      if j < |rows| { assert r[j] == rows[j]; }
    }
  }

  lemma UpdateKeepsTable(rows: seq<Row>, lastId: int, id: int, e: EntryData, cipher: string, modified: string)
    requires TableOk(rows, lastId)
    ensures TableOk(UpdateById(rows, id, e, cipher, modified), lastId)
  {
  }

  // ---- Properties of a load ----

  ghost predicate DistinctIds(rows: seq<Row>) {
    forall i, j :: 0 <= i < j < |rows| ==> rows[i].id != rows[j].id
  }

  lemma PrependKeepsDistinct(x: Row, rows: seq<Row>)
    requires DistinctIds(rows) && forall y :: y in rows ==> y.id != x.id
    ensures DistinctIds([x] + rows)
  {
    var r := [x] + rows;
    forall i, j | 0 <= i < j < |r| ensures r[i].id != r[j].id {
      assert r[j] == rows[j - 1];
      if i > 0 { assert r[i] == rows[i - 1]; }
    }
  }

  /** A row that is in a table with distinct ids, other than its first,
      does not share the first row's id. */
  lemma LaterRowsAvoidFirstId(rows: seq<Row>, x: Row)
    requires DistinctIds(rows) && rows != [] && x in multiset(rows[1..])
    ensures x.id != rows[0].id
  {
    var k :| 0 <= k < |rows[1..]| && rows[1..][k] == x;
    assert rows[k + 1] == x;
  }

  lemma {:induction false} InsertKeepsDistinct(row: Row, rows: seq<Row>)
    requires DistinctIds(rows) && forall x :: x in rows ==> x.id != row.id
    ensures DistinctIds(InsertByWebsite(row, rows))
  {
    if rows == [] || LexLe(row.website, rows[0].website) {
      PrependKeepsDistinct(row, rows);
    } else {
      var tail := InsertByWebsite(row, rows[1..]);
      assert forall x :: x in rows[1..] ==> x in rows;
      InsertKeepsDistinct(row, rows[1..]);
      forall x | x in tail ensures x.id != rows[0].id {
        assert x in multiset(tail);
        if x != row {
          LaterRowsAvoidFirstId(rows, x);
        }
      }
      PrependKeepsDistinct(rows[0], tail);
    }
  }

  lemma {:induction false} OrderKeepsDistinct(rows: seq<Row>)
    requires DistinctIds(rows)
    ensures DistinctIds(OrderByWebsite(rows))
  {
    if rows != [] {
      var rest := OrderByWebsite(rows[1..]);
      OrderKeepsDistinct(rows[1..]);
      forall x | x in rest ensures x.id != rows[0].id {
        assert x in multiset(rest);
        LaterRowsAvoidFirstId(rows, x);
      }
      InsertKeepsDistinct(rows[0], rest);
    }
  }

  /** Loading keeps each row's id and website in place. */
  lemma LoadKeepsKeys(lib: Library, svc: EncryptionService, iso: IsoCodec, now: Timestamp, rows: seq<Row>)
    requires LoadRows(lib, svc, iso, now, rows).Some?
    ensures var es := LoadRows(lib, svc, iso, now, rows).value;
      |es| == |rows| && forall i :: 0 <= i < |es| ==> es[i].id == rows[i].id && es[i].website == rows[i].website
  {
    var es := LoadRows(lib, svc, iso, now, rows).value;
    LoadRowsEach(lib, svc, iso, now, rows);
    forall i | 0 <= i < |es| ensures es[i].id == rows[i].id && es[i].website == rows[i].website {
      assert LoadRow(lib, svc, iso, now, rows[i]) == Some(es[i]);
    }
  }

  /** What get_all_entries returns for a well-formed table, when it
      returns: exactly one entry per stored row (the ids are the table's
      ids, each once), ordered non-decreasingly by website. */
  lemma LoadedEntriesMatchTable(lib: Library, svc: EncryptionService, iso: IsoCodec, now: Timestamp,
                                rows: seq<Row>, lastId: int)
    requires TableOk(rows, lastId)
    requires LoadRows(lib, svc, iso, now, OrderByWebsite(rows)).Some?
    ensures var es := LoadRows(lib, svc, iso, now, OrderByWebsite(rows)).value;
      && |es| == |rows|
      && (forall i, j :: 0 <= i < j < |es| ==> LexLe(es[i].website, es[j].website))
      && (forall i, j :: 0 <= i < j < |es| ==> es[i].id != es[j].id)
      && (forall k :: 0 <= k < |rows| ==> HasId(es, rows[k].id))
  {
    var ordered := OrderByWebsite(rows);
    var es := LoadRows(lib, svc, iso, now, ordered).value;
    assert DistinctIds(rows);
    OrderKeepsDistinct(rows);
    LoadKeepsKeys(lib, svc, iso, now, ordered);
    assert SortedByWebsite(ordered) && DistinctIds(ordered);
    forall i, j | 0 <= i < j < |es| ensures LexLe(es[i].website, es[j].website) && es[i].id != es[j].id {
      assert es[i].website == ordered[i].website && es[j].website == ordered[j].website;
      assert es[i].id == ordered[i].id && es[j].id == ordered[j].id;
    }
    PermutationKeepsIds(rows, ordered, es);
  }

  /** Some entry has the id. */
  ghost predicate HasId(es: seq<EntryData>, id: int) {
    exists i :: 0 <= i < |es| && es[i].id == id
  }

  /** Entries that carry the ids of a reordering of rows carry every id of
      rows. */
  lemma PermutationKeepsIds(rows: seq<Row>, ordered: seq<Row>, es: seq<EntryData>)
    requires multiset(ordered) == multiset(rows) && |es| == |ordered|
    requires forall i :: 0 <= i < |es| ==> es[i].id == ordered[i].id
    ensures forall k :: 0 <= k < |rows| ==> HasId(es, rows[k].id)
  {
    forall k | 0 <= k < |rows| ensures HasId(es, rows[k].id) {
      assert rows[k] in multiset(ordered);
      assert rows[k] in ordered;
      var i :| 0 <= i < |ordered| && ordered[i] == rows[k];
      assert es[i].id == rows[k].id;
    }
  }

  /** A row written by INSERT loads back as the entry that was saved (under
      its new id): the password decrypts to what was typed, the other texts
      come back verbatim, the timestamps parse back. */
  lemma InsertThenLoad(lib: Library, svc: EncryptionService, iso: IsoCodec, now: Timestamp,
                       id: int, e: EntryData, iv: seq<byte>, fernetTime: int)
    requires Sound(lib) && IsoSound(iso) && EncryptionServices.Valid(svc)
    ensures LoadRow(lib, svc, iso, now, InsertedRow(id, e, Encrypt(lib, svc, iv, fernetTime, e.password), iso))
         == Some(e.(id := id))
  {
    DecryptEncrypt(lib, svc, iv, fernetTime, e.password);
  }

  /** A row rewritten by UPDATE loads back with the edited fields, the new
      modification time and its original creation column. */
  lemma UpdateThenLoad(lib: Library, svc: EncryptionService, iso: IsoCodec, now: Timestamp,
                       rows: seq<Row>, k: int, e: EntryData, iv: seq<byte>, fernetTime: int, modified: Timestamp)
    requires Sound(lib) && IsoSound(iso) && EncryptionServices.Valid(svc)
    requires 0 <= k < |rows| && rows[k].id == e.id
    requires ReadTimestamp(iso, rows[k].dateCreated, now).Some?
    ensures var updated := UpdateById(rows, e.id, e, Encrypt(lib, svc, iv, fernetTime, e.password), iso.format(modified));
      LoadRow(lib, svc, iso, now, updated[k])
      == Some(e.(dateCreated := ReadTimestamp(iso, rows[k].dateCreated, now).value, dateModified := modified))
  {
    DecryptEncrypt(lib, svc, iv, fernetTime, e.password);
  }

  class DatabaseService {
    const lib: Library
    const iso: IsoCodec
    const encryption: EncryptionService
    var rows: seq<Row>
    var lastId: int

    ghost predicate Valid()
      reads this
    {
      TableOk(rows, lastId) && EncryptionServices.Valid(encryption)
    }

    /** DatabaseService(master_password) opening a database file that holds
        storedRows and whose AUTOINCREMENT counter is storedLastId. */
    constructor (lib: Library, iso: IsoCodec, masterPassword: string, storedRows: seq<Row>, storedLastId: int)
      requires NewService(lib, masterPassword).Some?
      requires TableOk(storedRows, storedLastId)
      ensures Valid()
      ensures this.lib == lib && this.iso == iso && encryption == NewService(lib, masterPassword).value
      ensures rows == storedRows && lastId == storedLastId
    {
      this.lib := lib;
      this.iso := iso;
      encryption := NewService(lib, masterPassword).value;
      rows := storedRows;
      lastId := storedLastId;
    }

    /** The PasswordEntry(...) that get_all_entries builds from one row;
        None where datetime.fromisoformat raises. */
    method EntryOfRow(row: Row, now: Timestamp) returns (e: Option<PasswordEntry>)
      ensures e.Some? <==> LoadRow(lib, encryption, iso, now, row).Some?
      ensures e.Some? ==> fresh(e.value) && Some(e.value.Data()) == LoadRow(lib, encryption, iso, now, row)
    {
      var created := ReadTimestamp(iso, row.dateCreated, now);
      var modified := ReadTimestamp(iso, row.dateModified, now);
      if created.None? || modified.None? {
        return None;
      }
      var entry := new PasswordEntry(row.id, row.website, OrEmpty(row.username), OrEmpty(row.email),
                                     Decrypt(lib, encryption, row.password), OrEmpty(row.notes),
                                     created, modified, now, now);
      return Some(entry);
    }

    /** The entries the table holds, in the order get_all_entries reads
        them, or None if some row's dates cannot be read. */
    ghost function Loaded(now: Timestamp): Option<seq<EntryData>>
      reads this
    {
      LoadRows(lib, encryption, iso, now, OrderByWebsite(rows))
    }

    /** get_all_entries: one new entry per row, in website order.  An
        unreadable timestamp raises (None); a password that cannot be
        decrypted loads as "". */
    method GetAllEntries(now: Timestamp) returns (r: Option<seq<PasswordEntry>>)
      requires Valid()
      ensures r.Some? <==> Loaded(now).Some?
      ensures r.Some? ==> |r.value| == |Loaded(now).value| == |rows|
      ensures r.Some? ==> forall i :: 0 <= i < |r.value| ==>
        fresh(r.value[i]) && r.value[i].Data() == Loaded(now).value[i]
    {
      r := EntriesOfRows(OrderByWebsite(rows), now);
    }

    /** The loop of get_all_entries over the rows the SELECT returned. */
    method EntriesOfRows(ordered: seq<Row>, now: Timestamp) returns (r: Option<seq<PasswordEntry>>)
      ensures r.Some? <==> LoadRows(lib, encryption, iso, now, ordered).Some?
      ensures r.Some? ==> |r.value| == |ordered|
      ensures r.Some? ==> forall i :: 0 <= i < |r.value| ==>
        fresh(r.value[i]) && r.value[i].Data() == LoadRows(lib, encryption, iso, now, ordered).value[i]
    {
      var entries: seq<PasswordEntry> := [];
      ghost var loaded: seq<EntryData> := [];
      for i := 0 to |ordered|
        invariant |entries| == |loaded| == i
        invariant forall j :: 0 <= j < i ==> LoadRow(lib, encryption, iso, now, ordered[j]) == Some(loaded[j])
        invariant forall j :: 0 <= j < i ==> fresh(entries[j]) && entries[j].Data() == loaded[j]
      {
        var entry := EntryOfRow(ordered[i], now);
        if entry.None? {
          LoadRowsFails(lib, encryption, iso, now, ordered, i);
          return None;
        }
        entries := entries + [entry.value];
        loaded := loaded + [entry.value.Data()];
      }
      LoadRowsOfEach(lib, encryption, iso, now, ordered, loaded);
      return Some(entries);
    }

    /** save_entry.  The password is encrypted first.  id 0 inserts a row
        under a new id above every earlier one and leaves the entry as it
        was (its id stays 0); any other id stamps the entry's
        date_modified with the clock and then rewrites the row with that
        id, if there is one.  Opening the database can fail before any of
        this (connectFails): then nothing changes, the entry included.  A
        failure of the statement or the commit (storageFails) comes after
        the stamp and leaves the table unchanged.  Either returns false. */
    method SaveEntry(entry: PasswordEntry, iv: seq<byte>, fernetTime: int, now: Timestamp,
                     connectFails: bool, storageFails: bool)
      returns (ok: bool)
      requires Valid()
      modifies this`rows, this`lastId, entry`dateModified
      ensures Valid()
      ensures connectFails ==>
        !ok && rows == old(rows) && lastId == old(lastId) && entry.dateModified == old(entry.dateModified)
      ensures !connectFails && old(entry.id) == 0 ==>
        && entry.dateModified == old(entry.dateModified)
        && ok == (!storageFails && old(lastId) < MaxRowId)
        && (ok ==> (lastId == old(lastId) + 1 &&
                    rows == old(rows) + [InsertedRow(lastId, entry.Data(),
                                                     Encrypt(lib, encryption, iv, fernetTime, entry.password), iso)]))
        && (!ok ==> rows == old(rows) && lastId == old(lastId))
      ensures !connectFails && old(entry.id) != 0 ==>
        && entry.dateModified == now
        && ok == !storageFails
        && lastId == old(lastId)
        && (ok ==> rows == UpdateById(old(rows), entry.id, entry.Data(),
                                      Encrypt(lib, encryption, iv, fernetTime, entry.password), iso.format(now)))
        && (!ok ==> rows == old(rows))
    {
      if connectFails {
        return false;
      }
      var encryptedPassword := Encrypt(lib, encryption, iv, fernetTime, entry.password);
      if entry.id == 0 {
        if storageFails || lastId == MaxRowId {
          return false;
        }
        AppendKeepsTable(rows, lastId, InsertedRow(lastId + 1, entry.Data(), encryptedPassword, iso));
        lastId := lastId + 1;
        rows := rows + [InsertedRow(lastId, entry.Data(), encryptedPassword, iso)];
      } else {
        entry.dateModified := now;
        if storageFails {
          return false;
        }
        UpdateKeepsTable(rows, lastId, entry.id, entry.Data(), encryptedPassword, iso.format(now));
        rows := UpdateById(rows, entry.id, entry.Data(), encryptedPassword, iso.format(now));
      }
      return true;
    }

    /** delete_entry: removes the row with that id, if any, and reports
        success even when no row matched. */
    method DeleteEntry(entryId: int, storageFails: bool) returns (ok: bool)
      requires Valid()
      modifies this`rows
      ensures Valid()
      ensures ok == !storageFails
      ensures ok ==> rows == DeleteById(old(rows), entryId)
      ensures !ok ==> rows == old(rows)
    {
      if storageFails {
        return false;
      }
      DeleteKeepsOrder(rows, entryId, lastId);
      rows := DeleteById(rows, entryId);
      return true;
    }
  }
}
