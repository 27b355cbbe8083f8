/** The summary cache (db_utils.py): a database of named tables, each holding rows
    `(pr_id TEXT PRIMARY KEY, summary TEXT)`. One SummaryStore object stands for the
    database file named by `db_name`; connections and commits are not modelled. */
module DbUtils {
  import opened Wrappers

  /** The rows of one table, by primary key `pr_id`. */
  type Table = map<string, string>

  /** The tables of one database, by name. */
  type Tables = map<string, Table>

  /** A fetched row `(pr_id, summary)`. */
  datatype Row = Row(prId: string, summary: string)

  /** The two ways an insert raises: the table is missing ("no such table"), or the
      key is already present (primary-key constraint). */
  datatype DbError = NoSuchTable | DuplicateKey

  // ---------------------------------------------------------------------------
  // The operations on the table map
  // ---------------------------------------------------------------------------

  /** `CREATE TABLE IF NOT EXISTS`: afterwards the table exists; every table that
      already existed, including this one, keeps all its rows. */
  function WithTable(db: Tables, name: string): (r: Tables)
    ensures r.Keys == db.Keys + {name}
    ensures forall t :: t in db ==> r[t] == db[t]
    ensures name !in db ==> r[name] == map[]
  {
    if name in db then db else db[name := map[]]
  }

  /** The row `SELECT pr_id, summary ... WHERE pr_id = ?` finds: an exact key match,
      or none (also when the table is missing). */
  function Lookup(db: Tables, name: string, prId: string): (row: Option<Row>)
    ensures row.Some? <==> name in db && prId in db[name]
    ensures row.Some? ==> row.value.prId == prId && row.value.summary == db[name][prId]
  {
    if name in db && prId in db[name] then Some(Row(prId, db[name][prId])) else None
  }

  /** `INSERT INTO name (pr_id, summary)`: fails on a missing table or a present key;
      otherwise adds exactly that row and changes nothing else. */
  function Insert(db: Tables, name: string, prId: string, summary: string): (r: Result<Tables, DbError>)
    ensures name !in db ==> r == Err(NoSuchTable)
    ensures name in db && prId in db[name] ==> r == Err(DuplicateKey)
    ensures r.Ok? ==> name in db && prId !in db[name]
    ensures r.Ok? ==> r.value.Keys == db.Keys
    ensures r.Ok? ==> forall t :: t in db && t != name ==> r.value[t] == db[t]
    ensures r.Ok? ==> r.value[name].Keys == db[name].Keys + {prId}
    ensures r.Ok? ==> r.value[name][prId] == summary
    ensures r.Ok? ==> forall k :: k in db[name] ==> r.value[name][k] == db[name][k]
  {
    if name !in db then Err(NoSuchTable)
    else if prId in db[name] then Err(DuplicateKey)
    else Ok(db[name := db[name][prId := summary]])
  }

  // ---------------------------------------------------------------------------
  // The database object
  // ---------------------------------------------------------------------------

  class SummaryStore {
    var tables: Tables

    /** A database with no tables yet. */
    constructor ()
      ensures tables == map[]
    {
      tables := map[];
    }

    /** create_table */
    method CreateTable(name: string)
      modifies this
      ensures tables == WithTable(old(tables), name)
    {
      if name !in tables {
        tables := tables[name := map[]];
      }
    }

    /** fetch_pr_details_by_id: the matching row or None; a missing table is created
        (empty) and reported as None instead of failing. */
    method FetchPrDetailsById(name: string, prId: string) returns (row: Option<Row>)
      modifies this
      ensures row == Lookup(old(tables), name, prId)
      ensures tables == WithTable(old(tables), name)
      ensures name in old(tables) ==> tables == old(tables)
    {
      if name in tables {
        if prId in tables[name] {
          row := Some(Row(prId, tables[name][prId]));
        } else {
          row := None;
        }
      } else {
        CreateTable(name);
        row := None;
      }
    }

    /** insert_pr_details: the raised error as a Fail outcome, the database unchanged. */
    method InsertPrDetails(name: string, prId: string, summary: string) returns (outcome: Outcome<DbError>)
      modifies this
      ensures Insert(old(tables), name, prId, summary).Ok? ==>
        outcome == Pass && tables == Insert(old(tables), name, prId, summary).value
      ensures Insert(old(tables), name, prId, summary).Err? ==>
        outcome == Fail(Insert(old(tables), name, prId, summary).error) && tables == old(tables)
    {
      if name !in tables {
        outcome := Fail(NoSuchTable);
      } else if prId in tables[name] {
        outcome := Fail(DuplicateKey);
      } else {
        tables := tables[name := tables[name][prId := summary]];
        outcome := Pass;
      }
    }
  }

  // ---------------------------------------------------------------------------
  // Properties across operations
  // ---------------------------------------------------------------------------

  /** Creating a table twice is creating it once. */
  lemma CreateTableIdempotent(db: Tables, name: string)
    ensures WithTable(WithTable(db, name), name) == WithTable(db, name)
  {
  }

  /** A fetch on a missing table finds nothing and leaves the table existing and empty. */
  lemma FetchMissingTable(db: Tables, name: string, prId: string)
    requires name !in db
    ensures Lookup(db, name, prId) == None
    ensures name in WithTable(db, name) && WithTable(db, name)[name] == map[]
  {
  }

  /** Round trip: after a successful insert, a fetch of that key returns what was stored. */
  lemma InsertThenFetch(db: Tables, name: string, prId: string, summary: string)
    requires Insert(db, name, prId, summary).Ok?
    ensures Lookup(Insert(db, name, prId, summary).value, name, prId) == Some(Row(prId, summary))
  {
  }

  /** An insert leaves every other key of every table as the fetch saw it. */
  lemma InsertKeepsOtherRows(db: Tables, name: string, prId: string, summary: string,
                             otherName: string, otherId: string)
    requires Insert(db, name, prId, summary).Ok?
    requires otherName != name || otherId != prId
    ensures Lookup(Insert(db, name, prId, summary).value, otherName, otherId) == Lookup(db, otherName, otherId)
  {
  }

  /** A duplicate insert fails on the key; InsertPrDetails then leaves the tables, and so
      the original summary, as they were. */
  lemma DuplicateInsertKeepsOriginal(db: Tables, name: string, prId: string, summary: string)
    requires Lookup(db, name, prId).Some?
    ensures Insert(db, name, prId, summary) == Err(DuplicateKey)
  {
  }

  /** Unlike a fetch, an insert into a missing table does not create it. */
  lemma InsertDoesNotCreate(db: Tables, name: string, prId: string, summary: string)
    requires name !in db
    ensures Insert(db, name, prId, summary) == Err(NoSuchTable)
    ensures Insert(WithTable(db, name), name, prId, summary).Ok?
  {
  }

  /** The cache protocol: a fetch that misses (creating the table if need be)
      followed by an insert of that key always succeeds, and a second fetch then hits. */
  lemma MissThenStoreThenHit(db: Tables, name: string, prId: string, summary: string)
    requires Lookup(db, name, prId) == None
    ensures Insert(WithTable(db, name), name, prId, summary).Ok?
    ensures Lookup(Insert(WithTable(db, name), name, prId, summary).value, name, prId)
         == Some(Row(prId, summary))
  {
  }

  /** The same protocol run on a database object: fetch, miss, insert, fetch again. */
  method CacheSummary(store: SummaryStore, name: string, prId: string, summary: string)
    returns (cached: Row)
    modifies store
    ensures old(Lookup(store.tables, name, prId)).Some? ==>
      cached == old(Lookup(store.tables, name, prId)).value && store.tables == old(WithTable(store.tables, name))
    ensures old(Lookup(store.tables, name, prId)).None? ==>
      cached == Row(prId, summary) && Lookup(store.tables, name, prId) == Some(cached)
    ensures old(Lookup(store.tables, name, prId)).None? ==>
      store.tables == Insert(old(WithTable(store.tables, name)), name, prId, summary).value
  {
    var found := store.FetchPrDetailsById(name, prId);
    if found.Some? {
      cached := found.value;
    } else {
      var outcome := store.InsertPrDetails(name, prId, summary);
      assert outcome == Pass;
      var again := store.FetchPrDetailsById(name, prId);
      cached := again.value;
    }
  }
}
