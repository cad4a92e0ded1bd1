/**
 * The password entry store. The SQLite table `passwords` is a map from row id
 * to row; the `password` column holds the base 64 text of the cipher's output
 * and is opened again on `read`. Timestamps are the clock's readings, passed
 * in as the text `to_rfc3339` produced.
 */
module Database {
  import opened Basics
  import Base64
  import C = Cipher

  /** A credential as callers see it; `password` is plaintext, except in search results. */
  datatype PasswordEntry = PasswordEntry(
    id: Option<int>,
    service: string,
    username: string,
    password: string,
    url: string,
    notes: string,
    createdAt: string,
    updatedAt: string)

  /** One row of the `passwords` table; `password` is the stored base 64 text. */
  datatype Row = Row(
    service: string,
    username: string,
    password: string,
    url: string,
    notes: string,
    createdAt: string,
    updatedAt: string)

  /** Why a stored password could not be opened (the source panics in `unwrap`). */
  datatype OpenError = NotBase64 | NotDecryptable

  /** `PasswordEntry::new`: an unsaved entry stamped with two clock readings. */
  function NewEntry(service: string, username: string, password: string, url: string, notes: string,
                    now1: string, now2: string): (e: PasswordEntry)
    ensures e.id.None?
    ensures e.service == service && e.username == username && e.password == password
    ensures e.url == url && e.notes == notes
    ensures e.createdAt == now1 && e.updatedAt == now2
  {
    PasswordEntry(None, service, username, password, url, notes, now1, now2)
  }

  /** What `create` and `update` write to the password column: base 64 of the ciphertext. */
  function Seal(c: C.Cipher, key: string, plain: string): (stored: string)
    ensures Base64.Decode(stored) == Some(c.encrypt(key, plain))
  {
    Base64.DecodeEncode(c.encrypt(key, plain));
    Base64.Encode(c.encrypt(key, plain))
  }

  /** What `read` does with a stored password: base 64 decoding, then decryption. */
  function Open(c: C.Cipher, key: string, stored: string): (r: Result<string, OpenError>)
    ensures r.Ok? ==> exists ct :: stored == Base64.Encode(ct) && c.decrypt(key, ct) == Some(r.value)
    ensures r == Err(NotBase64) <==> Base64.Decode(stored).None?
    ensures r.Ok? <==> exists ct :: stored == Base64.Encode(ct) && c.decrypt(key, ct).Some?
  {
    match Base64.Decode(stored)
    case None =>
      NoEncoding(stored);
      Err(NotBase64)
    case Some(ct) =>
      Base64.EncodeDecode(stored);
      OnlyEncoding(stored, ct);
      match c.decrypt(key, ct)
      case None => Err(NotDecryptable)
      case Some(plain) => Ok(plain)
  }

  /** A text the decoder refuses is the encoding of nothing. */
  lemma NoEncoding(stored: string)
    requires Base64.Decode(stored).None?
    ensures forall ct :: stored != Base64.Encode(ct)
  {
    forall ct ensures stored != Base64.Encode(ct) {
      Base64.DecodeEncode(ct);
    }
  }

  /** A text that decodes to `ct` is the encoding of `ct` and of nothing else. */
  lemma OnlyEncoding(stored: string, ct: seq<byte>)
    requires Base64.Decode(stored) == Some(ct)
    ensures forall other :: stored == Base64.Encode(other) ==> other == ct
  {
    forall other | stored == Base64.Encode(other) ensures other == ct {
      Base64.DecodeEncode(other);
    }
  }

  /** A stored password opens to the plaintext it was sealed from. */
  lemma OpenSeal(c: C.Cipher, key: string, plain: string)
    requires c.RoundTrips()
    ensures Open(c, key, Seal(c, key, plain)) == Ok(plain)
  {
    Base64.DecodeEncode(c.encrypt(key, plain));
  }

  /** The row `create` inserts: the entry's text fields, its sealed password and fresh timestamps. */
  function StoredRow(c: C.Cipher, key: string, e: PasswordEntry, now1: string, now2: string): Row {
    Row(e.service, e.username, Seal(c, key, e.password), e.url, e.notes, now1, now2)
  }

  /** A row as `read` returns it, with its opened password. */
  function Opened(id: int, row: Row, plain: string): PasswordEntry {
    PasswordEntry(Some(id), row.service, row.username, plain, row.url, row.notes, row.createdAt, row.updatedAt)
  }

  /** A row as `search` returns it, with the password column as stored. */
  function Listed(id: int, row: Row): PasswordEntry {
    PasswordEntry(Some(id), row.service, row.username, row.password, row.url, row.notes, row.createdAt, row.updatedAt)
  }

  /** `s` contains `q` as a contiguous substring. */
  predicate Contains(s: string, q: string) {
    exists i :: 0 <= i <= |s| - |q| && q <= s[i..]
  }

  /** The `WHERE service LIKE '%q%' OR username LIKE '%q%'` filter, as a plain substring test. */
  predicate RowMatches(row: Row, q: string): (b: bool)
    ensures b ==> |q| <= |row.service| || |q| <= |row.username|
    ensures q == [] ==> b
  {
    assert q == [] ==> q <= row.service[0..];
    Contains(row.service, q) || Contains(row.username, q)
  }

  /** Every row's stored password opens. */
  ghost predicate AllOpen(c: C.Cipher, key: string, t: map<int, Row>) {
    forall id :: id in t ==> Open(c, key, t[id].password).Ok?
  }

  /** The rows that open, as `read` would return them, by id. */
  ghost function PlainView(c: C.Cipher, key: string, t: map<int, Row>): map<int, PasswordEntry> {
    map id | id in t && Open(c, key, t[id].password).Ok? :: Opened(id, t[id], Open(c, key, t[id].password).value)
  }

  /** The rows `search(q)` selects, as it returns them, by id. */
  ghost function Matching(t: map<int, Row>, q: string): map<int, PasswordEntry> {
    map id | id in t && RowMatches(t[id], q) :: Listed(id, t[id])
  }

  /**
   * `es` lists exactly the entries of `want`, each once, in some order: every
   * element is the entry `want` holds for its id, no id repeats, and every id
   * of `want` appears.
   */
  ghost predicate Enumerates(es: seq<PasswordEntry>, want: map<int, PasswordEntry>) {
    && (forall i :: 0 <= i < |es| ==> es[i].id.Some? && es[i].id.value in want && want[es[i].id.value] == es[i])
    && (forall i, j :: 0 <= i < j < |es| ==> es[i].id != es[j].id)
    && (forall id :: id in want ==> exists i :: 0 <= i < |es| && es[i].id == Some(id))
  }

  /**
   * A scan that still has the ids `todo` to visit has listed, each once,
   * exactly the entries of `want` whose ids it has visited.
   */
  ghost predicate ListedSoFar(es: seq<PasswordEntry>, want: map<int, PasswordEntry>, todo: set<int>) {
    && (forall i :: 0 <= i < |es| ==>
         es[i].id.Some? && es[i].id.value in want && es[i].id.value !in todo && want[es[i].id.value] == es[i])
    && (forall i, j :: 0 <= i < j < |es| ==> es[i].id != es[j].id)
    && (forall id :: id in want && id !in todo ==> exists i :: 0 <= i < |es| && es[i].id == Some(id))
  }

  /** A scan visits an id that `want` does not hold, and lists nothing. */
  lemma ListedSoFarSkip(es: seq<PasswordEntry>, want: map<int, PasswordEntry>, todo: set<int>, id: int)
    requires ListedSoFar(es, want, todo) && id in todo && id !in want
    ensures ListedSoFar(es, want, todo - {id})
  {
  }

  /** A scan visits an id that `want` holds, and lists its entry. */
  lemma ListedSoFarAdd(es: seq<PasswordEntry>, want: map<int, PasswordEntry>, todo: set<int>, id: int)
    requires ListedSoFar(es, want, todo) && id in todo && id in want && want[id].id == Some(id)
    ensures ListedSoFar(es + [want[id]], want, todo - {id})
  {
    var es' := es + [want[id]];
    forall k | k in want && k !in todo - {id}
      ensures exists i :: 0 <= i < |es'| && es'[i].id == Some(k)
    {
      if k == id {
        assert es'[|es|].id == Some(k);
      } else {
        var i :| 0 <= i < |es| && es[i].id == Some(k);
        assert es'[i] == es[i];
      }
    }
  }

  /** A scan with nothing left to visit has listed `want` exactly. */
  lemma ListedSoFarDone(es: seq<PasswordEntry>, want: map<int, PasswordEntry>)
    requires ListedSoFar(es, want, {})
    ensures Enumerates(es, want)
  {
  }

  /** When every row opens, the view holds every row. */
  lemma ViewKeys(c: C.Cipher, key: string, t: map<int, Row>)
    requires AllOpen(c, key, t)
    ensures PlainView(c, key, t).Keys == t.Keys
  {
    assert forall id :: id in PlainView(c, key, t) <==> id in t;
  }

  /** An enumeration has exactly one element per entry. */
  lemma {:induction false} EnumeratesLength(es: seq<PasswordEntry>, want: map<int, PasswordEntry>)
    requires Enumerates(es, want)
    ensures |es| == |want|
  {
    if |es| == 0 {
      NoIdsMeansEmpty(want.Keys);
    } else {
      var n := |es| - 1;
      var last := es[n].id.value;
      var front := es[..n];
      var rest := want - {last};
      forall id | id in rest
        ensures exists i :: 0 <= i < |front| && front[i].id == Some(id)
      {
        var i :| 0 <= i < |es| && es[i].id == Some(id);
        assert i != n;
        assert front[i] == es[i];
      }
      EnumeratesLength(front, rest);
      assert want.Keys == rest.Keys + {last};
    }
  }

  /** A set of ids with no members is empty; used to pick a member of a non-empty set. */
  lemma NoIdsMeansEmpty(ids: set<int>)
    ensures (forall x :: x !in ids) ==> ids == {}
  {
    if forall x :: x !in ids {
      assert forall x :: x in ids <==> x in {};
    }
  }

  /** `m` is at least every element of `ids`. */
  predicate Bounds(m: int, ids: set<int>) {
    forall k :: k in ids ==> k <= m
  }

  /** SQLite hands out positive row ids, so every id in a stored table is at least 1. */
  ghost predicate PositiveIds(t: map<int, Row>) {
    forall id :: id in t ==> 1 <= id
  }

  /**
   * The id SQLite gives a new row of a table with an `INTEGER PRIMARY KEY`
   * and no `AUTOINCREMENT`: one more than the largest id present, or 1.
   */
  function NextRowId(ids: set<int>): (id: int)
    ensures id !in ids
    ensures forall k :: k in ids ==> k < id
    ensures ids == {} ==> id == 1
    ensures ids != {} ==> id - 1 in ids
  {
    if ids == {} then 1
    else
      HasLargest(ids);
      var m :| m in ids && Bounds(m, ids);
      m + 1
  }

  /** A finite non-empty set of integers has a largest element. */
  lemma {:induction false} HasLargest(ids: set<int>)
    requires ids != {}
    ensures exists m :: m in ids && Bounds(m, ids)
  {
    NoIdsMeansEmpty(ids);
    var x :| x in ids;
    var rest := ids - {x};
    if rest == {} {
      forall k | k in ids ensures k <= x {
        assert k in rest || k == x;
      }
      assert Bounds(x, ids);
    } else {
      HasLargest(rest);
      var m :| m in rest && Bounds(m, rest);
      var top := if m < x then x else m;
      forall k | k in ids ensures k <= top {
        assert k in rest || k == x;
      }
      assert top in ids && Bounds(top, ids);
    }
  }

  /** The table after `INSERT`: the row under a fresh id. */
  function Inserted(t: map<int, Row>, row: Row): (r: map<int, Row>)
    ensures NextRowId(t.Keys) !in t && r.Keys == t.Keys + {NextRowId(t.Keys)}
    ensures r[NextRowId(t.Keys)] == row && forall k :: k in t ==> r[k] == t[k]
  {
    t[NextRowId(t.Keys) := row]
  }

  /**
   * The table after `UPDATE ... WHERE id = ?7`: the row with the entry's id,
   * if any, gets the entry's text fields, its sealed password and `now` as
   * `updated_at`; `created_at` stays. A `None` id binds SQL NULL, which
   * matches no row.
   */
  function Updated(c: C.Cipher, key: string, t: map<int, Row>, e: PasswordEntry, now: string): (r: map<int, Row>)
    ensures r.Keys == t.Keys
    ensures forall k :: k in t && Some(k) != e.id ==> r[k] == t[k]
  {
    if e.id.Some? && e.id.value in t then
      var old_row := t[e.id.value];
      t[e.id.value := Row(e.service, e.username, Seal(c, key, e.password), e.url, e.notes, old_row.createdAt, now)]
    else
      t
  }

  /** The table after `DELETE ... WHERE id = ?1`. */
  function Deleted(t: map<int, Row>, id: int): (r: map<int, Row>)
    ensures r.Keys == t.Keys - {id}
    ensures forall k :: k in r ==> r[k] == t[k]
  {
    t - {id}
  }

  /**
   * Create then read: the new row gets an id no row had, opens to the
   * entry's plaintext with the entry's text fields and the two clock
   * readings, and every existing row and what it opens to is unchanged.
   */
  lemma CreateThenRead(c: C.Cipher, key: string, t: map<int, Row>, e: PasswordEntry, now1: string, now2: string)
    requires c.RoundTrips()
    ensures var id := NextRowId(t.Keys);
      var t' := Inserted(t, StoredRow(c, key, e, now1, now2));
      && id !in t
      && t'.Keys == t.Keys + {id} && |t'| == |t| + 1
      && (forall k :: k in t ==> t'[k] == t[k])
      && t'[id].password == Seal(c, key, e.password)
      && id in PlainView(c, key, t')
      && PlainView(c, key, t')[id] == PasswordEntry(Some(id), e.service, e.username, e.password, e.url, e.notes, now1, now2)
      && (forall k :: k in t ==> (k in PlainView(c, key, t') <==> k in PlainView(c, key, t)))
      && (forall k :: k in PlainView(c, key, t) ==> PlainView(c, key, t')[k] == PlainView(c, key, t)[k])
      && (AllOpen(c, key, t) ==> AllOpen(c, key, t'))
  {
    var id, row := NextRowId(t.Keys), StoredRow(c, key, e, now1, now2);
    InsertedTable(t, row);
    OpenSeal(c, key, e.password);
    InsertedView(c, key, t, id, row);
  }

  /** Inserting adds the fresh id with the new row and keeps every other row. */
  lemma InsertedTable(t: map<int, Row>, row: Row)
    ensures var id, t' := NextRowId(t.Keys), Inserted(t, row);
      && id !in t
      && t'.Keys == t.Keys + {id} && |t'| == |t| + 1
      && t'[id] == row
      && (forall k :: k in t ==> t'[k] == t[k])
  {
    var id := NextRowId(t.Keys);
    assert |t.Keys + {id}| == |t.Keys| + 1;
  }

  /** Adding a row at a fresh id adds its opened entry to the view and keeps the rest. */
  lemma InsertedView(c: C.Cipher, key: string, t: map<int, Row>, id: int, row: Row)
    requires id !in t
    ensures var t' := t[id := row];
      && (forall k :: k in t ==> (k in PlainView(c, key, t') <==> k in PlainView(c, key, t)))
      && (forall k :: k in PlainView(c, key, t) ==> PlainView(c, key, t')[k] == PlainView(c, key, t)[k])
      && (Open(c, key, row.password).Ok? ==>
            && id in PlainView(c, key, t')
            && PlainView(c, key, t')[id] == Opened(id, row, Open(c, key, row.password).value)
            && (AllOpen(c, key, t) ==> AllOpen(c, key, t')))
  {
  }

  /**
   * Update: a row with the entry's id gets the new fields and plaintext and
   * `now` as `updated_at`, keeps its id and `created_at`; no other row
   * changes. With a `None` or unknown id the table is unchanged.
   */
  lemma UpdateThenRead(c: C.Cipher, key: string, t: map<int, Row>, e: PasswordEntry, now: string)
    requires c.RoundTrips()
    ensures var t' := Updated(c, key, t, e, now);
      && t'.Keys == t.Keys
      && (forall k :: k in t && Some(k) != e.id ==> t'[k] == t[k])
      && (e.id.None? || e.id.value !in t ==> t' == t)
      && (e.id.Some? && e.id.value in t ==>
            var id := e.id.value;
            && id in PlainView(c, key, t')
            && PlainView(c, key, t')[id]
               == PasswordEntry(e.id, e.service, e.username, e.password, e.url, e.notes, t[id].createdAt, now))
      && (AllOpen(c, key, t) ==> AllOpen(c, key, t'))
  {
    if e.id.Some? && e.id.value in t {
      OpenSeal(c, key, e.password);
    }
  }

  /**
   * Delete: the row with that id is gone and every other row is unchanged;
   * an absent id leaves the table as it was; deleting the only row leaves
   * nothing to read.
   */
  lemma DeleteThenRead(c: C.Cipher, key: string, t: map<int, Row>, id: int)
    ensures id !in Deleted(t, id)
    ensures forall k :: k in t && k != id ==> k in Deleted(t, id) && Deleted(t, id)[k] == t[k]
    ensures Deleted(t, id).Keys == t.Keys - {id}
    ensures id !in t ==> Deleted(t, id) == t
    ensures t.Keys == {id} ==> PlainView(c, key, Deleted(t, id)) == map[]
    ensures AllOpen(c, key, t) ==> AllOpen(c, key, Deleted(t, id))
  {
    if t.Keys == {id} {
      assert Deleted(t, id).Keys == {};
    }
  }

  /**
   * Ids are not monotonic: deleting the row with the largest id and
   * creating another gives the new row an id no larger than the deleted one,
   * and the very same id when the deleted row was the only one.
   */
  lemma NewestIdIsReused(t: map<int, Row>, id: int)
    requires PositiveIds(t) && id in t && forall k :: k in t ==> k <= id
    ensures NextRowId(Deleted(t, id).Keys) <= id
    ensures t.Keys == {id} ==> NextRowId(Deleted(t, id).Keys) == 1
  {
    var rest := Deleted(t, id).Keys;
    if rest != {} {
      assert NextRowId(rest) - 1 in t;
    } else {
      assert NextRowId(rest) == 1;
    }
  }

  /**
   * What `search` returns: only rows whose service or username contains the
   * query, each with the password column exactly as stored, never opened.
   */
  lemma SearchScope(es: seq<PasswordEntry>, t: map<int, Row>, q: string)
    requires Enumerates(es, Matching(t, q))
    ensures forall i :: 0 <= i < |es| ==>
      && es[i].id.Some? && es[i].id.value in t
      && (Contains(es[i].service, q) || Contains(es[i].username, q))
      && es[i].password == t[es[i].id.value].password
    ensures forall id :: id in t && !Contains(t[id].service, q) && !Contains(t[id].username, q) ==>
      forall i :: 0 <= i < |es| ==> es[i].id != Some(id)
  {
  }

  /** The empty query is contained in every string, so it selects every row. */
  lemma EmptyQueryMatchesAll(t: map<int, Row>)
    ensures Matching(t, "").Keys == t.Keys
  {
    forall id | id in t ensures RowMatches(t[id], "") {
      assert "" <= t[id].service[0..];
    }
  }

  /** A table whose one row matches a query matches the query in that row alone. */
  lemma OnlyRowMatches(t: map<int, Row>, q: string, id: int)
    requires t.Keys == {id} && RowMatches(t[id], q)
    ensures Matching(t, q).Keys == {id}
  {
  }

  lemma UpdatedServiceMatches()
    ensures Contains("updated_service", "updated")
  {
    assert "updated" <= "updated_service"[0..];
  }

  class Database {
    var table: map<int, Row>
    const cipher: C.Cipher
    const key: string

    /** Ids the store assigns are positive. */
    ghost predicate Valid()
      reads this
    {
      PositiveIds(table)
    }

    /**
     * `Database::new`: opens the store's file under the master password.
     * `CREATE TABLE IF NOT EXISTS` keeps the rows earlier runs stored there,
     * so the table is `stored`, empty on first use.
     */
    constructor (cipher: C.Cipher, key: string, stored: map<int, Row>)
      requires PositiveIds(stored)
      ensures Valid() && table == stored
      ensures this.cipher == cipher && this.key == key
    {
      this.cipher := cipher;
      this.key := key;
      table := stored;
    }

    /**
     * `create`: inserts one row under a fresh id; `entry.id` and the entry's
     * timestamps are ignored. The clock is read twice, once per timestamp.
     */
    method Create(entry: PasswordEntry, now1: string, now2: string)
      requires Valid()
      modifies this
      ensures Valid()
      ensures table == Inserted(old(table), StoredRow(cipher, key, entry, now1, now2))
    {
      var id := NextRowId(table.Keys);
      table := table[id := StoredRow(cipher, key, entry, now1, now2)];
    }

    /** `update`: rewrites the row with the entry's id; a miss changes nothing and still succeeds. */
    method Update(entry: PasswordEntry, now: string)
      requires Valid()
      modifies this
      ensures Valid()
      ensures table == Updated(cipher, key, old(table), entry, now)
    {
      if entry.id.Some? && entry.id.value in table {
        var id := entry.id.value;
        var row := table[id];
        table := table[id := Row(entry.service, entry.username, Seal(cipher, key, entry.password),
                                 entry.url, entry.notes, row.createdAt, now)];
      }
    }

    /** `delete`: removes the row with that id, if there is one. */
    method Delete(id: int)
      requires Valid()
      modifies this
      ensures Valid()
      ensures table == Deleted(old(table), id)
    {
      table := table - {id};
    }

    /**
     * `read`: every row with its password opened. One row that does not open
     * aborts the whole read (the source panics); no row is skipped.
     */
    method Read() returns (r: Result<seq<PasswordEntry>, OpenError>)
      ensures r.Ok? <==> AllOpen(cipher, key, table)
      ensures r.Ok? ==> Enumerates(r.value, PlainView(cipher, key, table)) && |r.value| == |table|
      ensures r.Err? ==> exists id :: id in table && Open(cipher, key, table[id].password) == Err(r.error)
    {
      ghost var want := PlainView(cipher, key, table);
      var es: seq<PasswordEntry> := [];
      var todo := table.Keys;
      while todo != {}
        invariant todo <= table.Keys
        invariant forall id :: id in table && id !in todo ==> Open(cipher, key, table[id].password).Ok?
        invariant ListedSoFar(es, want, todo)
        decreases todo
      {
        NoIdsMeansEmpty(todo);
        var id :| id in todo;
        match Open(cipher, key, table[id].password)
        case Err(e) =>
          assert id in table && Open(cipher, key, table[id].password) == Err(e);
          return Err(e);
        case Ok(plain) =>
          ListedSoFarAdd(es, want, todo, id);
          es := es + [Opened(id, table[id], plain)];
          todo := todo - {id};
      }
      assert AllOpen(cipher, key, table);
      ListedSoFarDone(es, want);
      ViewKeys(cipher, key, table);
      EnumeratesLength(es, want);
      return Ok(es);
    }

    /**
     * `search`: the rows whose service or username contains `q`, with the
     * password column as stored (still sealed).
     */
    method Search(q: string) returns (es: seq<PasswordEntry>)
      ensures Enumerates(es, Matching(table, q))
    {
      ghost var want := Matching(table, q);
      es := [];
      var todo := table.Keys;
      while todo != {}
        invariant todo <= table.Keys
        invariant ListedSoFar(es, want, todo)
        decreases todo
      {
        NoIdsMeansEmpty(todo);
        var id :| id in todo;
        if RowMatches(table[id], q) {
          ListedSoFarAdd(es, want, todo, id);
          es := es + [Listed(id, table[id])];
        } else {
          ListedSoFarSkip(es, want, todo, id);
        }
        todo := todo - {id};
      }
    }
  }

  /**
   * The store's own create/read/update/search/delete scenario, replayed on
   * a sound cipher: one entry is created and read back with its password
   * opened, its service renamed, found by a substring of the new name, and
   * deleted, after which nothing is left.
   */
  method CrudScenario(c: C.Cipher, key: string, now1: string, now2: string, now3: string, later: string)
      returns (created: seq<PasswordEntry>, updated: seq<PasswordEntry>, found: seq<PasswordEntry>, remaining: seq<PasswordEntry>)
    requires c.RoundTrips()
    ensures |created| == 1 && created[0].id == Some(1)
    ensures created[0].service == "test_service" && created[0].password == "test_pass"
    ensures created[0].createdAt == now1 && created[0].updatedAt == now2
    ensures |updated| == 1 && updated[0].service == "updated_service" && updated[0].password == "test_pass"
    ensures updated[0].createdAt == now1 && updated[0].updatedAt == later
    ensures |found| == 1 && found[0].service == "updated_service" && found[0].id == Some(1)
    ensures remaining == []
  {
    var db := new Database(c, key, map[]);
    var entry := NewEntry("test_service", "test_user", "test_pass", "https://example.com", "test notes", now3, now3);
    db.Create(entry, now1, now2);
    CreateThenRead(c, key, map[], entry, now1, now2);
    assert db.table.Keys == {1};
    var r := db.Read();
    assert r.Ok?;
    created := r.value;
    assert created[0].id == Some(1);

    var renamed := created[0].(service := "updated_service");
    ghost var before := db.table;
    db.Update(renamed, later);
    UpdateThenRead(c, key, before, renamed, later);
    r := db.Read();
    assert r.Ok?;
    updated := r.value;
    ViewKeys(c, key, db.table);
    assert updated[0].id == Some(1);

    found := db.Search("updated");
    assert db.table[1].service == renamed.service;
    UpdatedServiceMatches();
    OnlyRowMatches(db.table, "updated", 1);
    EnumeratesLength(found, Matching(db.table, "updated"));
    assert found[0].id == Some(1);

    ghost var last := db.table;
    db.Delete(1);
    DeleteThenRead(c, key, last, 1);
    r := db.Read();
    assert r.Ok?;
    remaining := r.value;
    assert |remaining| == |db.table| == 0;
  }
}
