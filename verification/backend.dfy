/** The Flask API's two endpoints over the `medications` table, with the
    SQLite table held as a sequence of rows plus the AUTOINCREMENT counter.

    `POST /log` (`log_med`) validates and stores one entry; `GET /medications`
    (`get_medications`) lists every entry, most recent timestamp first.
    A request body is a JSON object: a map from keys to values, where a value
    is JSON `null` or a string. */
module MedicationStore {
  import opened Strings

  /** A JSON value in a request body: `null` or a string. */
  datatype Value = Null | Str(s: string)

  type Request = map<string, Value>

  /** One row of `medications (id, medication, timestamp, source, notes)`;
      `source` and `notes` are nullable columns. */
  datatype Row = Row(id: int, medication: string, timestamp: string, source: Value, notes: Value)

  /** The table's rows in insertion order, and the id AUTOINCREMENT hands out next. */
  datatype Table = Table(rows: seq<Row>, nextId: int)

  /** No two rows share an id. */
  predicate IdsDistinct(rows: seq<Row>) {
    forall i, j :: 0 <= i < j < |rows| ==> rows[i].id != rows[j].id
  }

  /** Ids are positive, below the counter, and distinct (`INTEGER PRIMARY KEY AUTOINCREMENT`). */
  predicate Valid(tb: Table) {
    && 1 <= tb.nextId
    && (forall i :: 0 <= i < |tb.rows| ==> 1 <= tb.rows[i].id < tb.nextId)
    && IdsDistinct(tb.rows)
  }

  predicate HasId(tb: Table, id: int) {
    exists i :: 0 <= i < |tb.rows| && tb.rows[i].id == id
  }

  /** `init_db`: the freshly created, empty table. */
  function InitDb(): (tb: Table)
    ensures Valid(tb) && |tb.rows| == 0
    ensures forall id :: !HasId(tb, id)
  {
    Table([], 1)
  }

  /** `data.get(key, default)`. */
  function Get(req: Request, key: string, default: Value): (v: Value)
    ensures key in req ==> v == req[key]
    ensures key !in req ==> v == default
  {
    if key in req then req[key] else default
  }

  /** Python truthiness of a JSON value: `None` and `''` are false. */
  predicate Truthy(v: Value) {
    v.Str? && |v.s| > 0
  }

  datatype Body = Error(error: string) | Message(message: string)

  datatype Response = Response(body: Body, status: int)

  datatype LogResult = LogResult(response: Response, table: Table)

  const RequiredError: string := "Medication and timestamp are required!"
  const LoggedMessage: string := "Medication logged successfully!"

  /** The request carries a non-empty string under `key`. */
  predicate Supplies(req: Request, key: string) {
    key in req && req[key].Str? && req[key].s != ""
  }

  /** `log_med`: rejects a request lacking a medication or a timestamp with
      400 and leaves the table alone; otherwise appends exactly one row with a
      fresh id, defaulting `source` to "nfc" and `notes` to "", and answers 201. */
  function LogMed(tb: Table, req: Request): (r: LogResult)
    requires Valid(tb)
    ensures Valid(r.table)
    ensures r.response.status == 201 || r.response.status == 400
    ensures r.response.status == 201 <==> Supplies(req, "medication") && Supplies(req, "timestamp")
    ensures r.response.status == 400 ==>
      r.table == tb && r.response.body == Error(RequiredError)
    ensures r.response.status == 201 ==>
      && r.response.body == Message(LoggedMessage)
      && |r.table.rows| == |tb.rows| + 1
      && r.table.rows[..|tb.rows|] == tb.rows
      && !HasId(tb, r.table.rows[|tb.rows|].id)
      && r.table.rows[|tb.rows|].medication == req["medication"].s
      && r.table.rows[|tb.rows|].timestamp == req["timestamp"].s
      && r.table.rows[|tb.rows|].source == (if "source" in req then req["source"] else Str("nfc"))
      && r.table.rows[|tb.rows|].notes == (if "notes" in req then req["notes"] else Str(""))
  {
    var medication := Get(req, "medication", Null);
    var timestamp := Get(req, "timestamp", Null);
    var source := Get(req, "source", Str("nfc"));
    var notes := Get(req, "notes", Str(""));
    if !Truthy(medication) || !Truthy(timestamp) then
      LogResult(Response(Error(RequiredError), 400), tb)
    else
      var row := Row(tb.nextId, medication.s, timestamp.s, source, notes);
      LogResult(Response(Message(LoggedMessage), 201), Table(tb.rows + [row], tb.nextId + 1))
  }

  // ----- listing -----

  /** Most recent first: timestamps never increase along the sequence, in
      SQLite's code-point order on TEXT. */
  predicate SortedByTimestampDesc(s: seq<Row>) {
    forall i, j :: 0 <= i < j < |s| ==> LexLe(s[j].timestamp, s[i].timestamp)
  }

  /** Putting a row no older than every row of a sorted sequence in front keeps it sorted. */
  lemma PrependNewest(x: Row, s: seq<Row>)
    requires SortedByTimestampDesc(s)
    requires forall y :: y in s ==> LexLe(y.timestamp, x.timestamp)
    ensures SortedByTimestampDesc([x] + s)
  {
    var t := [x] + s;
    forall i, j | 0 <= i < j < |t|
      ensures LexLe(t[j].timestamp, t[i].timestamp)
    {
      if i == 0 {
        assert t[j] in s;
      } else {
        assert t[i] == s[i - 1] && t[j] == s[j - 1];
      }
    }
  }

  /** Inserts a row into a sorted sequence just before the first row it is no older than. */
  function InsertByTimestamp(x: Row, s: seq<Row>): (r: seq<Row>)
    requires SortedByTimestampDesc(s)
    ensures SortedByTimestampDesc(r)
    ensures multiset(r) == multiset(s) + multiset{x}
    decreases |s|
  {
    if |s| == 0 then [x]
    else if LexLe(s[0].timestamp, x.timestamp) then
      NewerThanSortedRows(x, s);
      PrependNewest(x, s);
      [x] + s
    else
      LexLeTotal(s[0].timestamp, x.timestamp);
      var rest := InsertByTimestamp(x, s[1..]);
      assert s == [s[0]] + s[1..];
      forall y | y in rest
        ensures LexLe(y.timestamp, s[0].timestamp)
      {
        assert y in multiset(rest);
        if y != x {
          assert y in s[1..];
        }
      }
      PrependNewest(s[0], rest);
      [s[0]] + rest
  }

  /** A row no older than the head of a sorted sequence is no older than any of its rows. */
  lemma NewerThanSortedRows(x: Row, s: seq<Row>)
    requires SortedByTimestampDesc(s) && |s| > 0
    requires LexLe(s[0].timestamp, x.timestamp)
    ensures forall y :: y in s ==> LexLe(y.timestamp, x.timestamp)
  {
    forall y | y in s
      ensures LexLe(y.timestamp, x.timestamp)
    {
      var j :| 0 <= j < |s| && s[j] == y;
      if j > 0 {
        LexLeTransitive(y.timestamp, s[0].timestamp, x.timestamp);
      }
    }
  }

  /** `ORDER BY timestamp DESC`: the rows, most recent first. */
  function SortByTimestampDesc(rows: seq<Row>): (r: seq<Row>)
    ensures SortedByTimestampDesc(r)
    ensures multiset(r) == multiset(rows)
  {
    if |rows| == 0 then []
    else
      assert rows == [rows[0]] + rows[1..];
      InsertByTimestamp(rows[0], SortByTimestampDesc(rows[1..]))
  }

  datatype ListResult = ListResult(rows: seq<Row>, status: int)

  /** `get_medications`: every stored row exactly once, most recent first, with 200. */
  function GetMedications(tb: Table): (r: ListResult)
    ensures r.status == 200
    ensures multiset(r.rows) == multiset(tb.rows)
    ensures SortedByTimestampDesc(r.rows)
  {
    ListResult(SortByTimestampDesc(tb.rows), 200)
  }

  // ----- properties across the two endpoints -----

  /** After an accepted `POST /log`, the history holds exactly the old rows
      plus the new one; after a rejected one, it holds the old rows only. */
  lemma LoggedEntryIsListed(tb: Table, req: Request)
    requires Valid(tb)
    ensures var r := LogMed(tb, req);
      r.response.status == 201 ==>
        multiset(GetMedications(r.table).rows)
          == multiset(tb.rows) + multiset{r.table.rows[|tb.rows|]}
    ensures var r := LogMed(tb, req);
      r.response.status == 400 ==> multiset(GetMedications(r.table).rows) == multiset(tb.rows)
  {
    var r := LogMed(tb, req);
    if r.response.status == 201 {
      assert r.table.rows == tb.rows + [r.table.rows[|tb.rows|]];
    }
  }

  /** A value occurring twice in a sequence sits at two distinct positions. */
  lemma {:induction false} TwiceAtTwoPositions<T>(s: seq<T>, x: T)
    requires multiset(s)[x] >= 2
    ensures exists i, j :: 0 <= i < j < |s| && s[i] == x && s[j] == x
  {
    assert s == [s[0]] + s[1..];
    if s[0] == x {
      assert x in multiset(s[1..]);
      var j :| 0 <= j < |s[1..]| && s[1..][j] == x;
      assert s[j + 1] == x;
    } else {
      TwiceAtTwoPositions(s[1..], x);
      var i, j :| 0 <= i < j < |s[1..]| && s[1..][i] == x && s[1..][j] == x;
      assert s[i + 1] == x && s[j + 1] == x;
    }
  }

  /** A value at two positions of a sequence occurs in it at least twice. */
  lemma RepeatCountsTwice<T>(s: seq<T>, i: int, j: int)
    requires 0 <= i < j < |s| && s[i] == s[j]
    ensures multiset(s)[s[i]] >= 2
  {
    assert s == s[..i] + [s[i]] + s[i + 1..j] + [s[j]] + s[j + 1..];
  }

  /** Reordering rows cannot make two of them share an id. */
  lemma PermutationKeepsIdsDistinct(s: seq<Row>, t: seq<Row>)
    requires multiset(s) == multiset(t)
    requires IdsDistinct(t)
    ensures IdsDistinct(s)
  {
    forall i, j | 0 <= i < j < |s|
      ensures s[i].id != s[j].id
    {
      if s[i] == s[j] {
        RepeatCountsTwice(s, i, j);
        TwiceAtTwoPositions(t, s[i]);
      } else {
        assert s[i] in multiset(t) && s[j] in multiset(t);
        var p :| 0 <= p < |t| && t[p] == s[i];
        var q :| 0 <= q < |t| && t[q] == s[j];
        assert p != q;
      }
    }
  }

  /** No entry is listed twice: the listing's ids are pairwise distinct. */
  lemma ListingIdsDistinct(tb: Table)
    requires Valid(tb)
    ensures IdsDistinct(GetMedications(tb).rows)
  {
    PermutationKeepsIdsDistinct(GetMedications(tb).rows, tb.rows);
  }
}
