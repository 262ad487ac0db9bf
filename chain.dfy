/**
 * The chain store (python_core/lib/chain.py): the `chain_entries` table with
 * its unique `index` column, the queries over it, `add_entry` and
 * `import_from_json`. The database is modelled by its committed contents, a
 * map from `index` to row; the surrogate `id` and `created_at` columns are
 * not modelled.
 */
module Chain {
  import opened Wrappers
  import opened Primitives

  /**
   * A row of `chain_entries`. `metadata` is the nullable text column: None is
   * SQL NULL, Some(v) is the text `json.dumps(v)`, which `json.loads` reads
   * back as v.
   */
  datatype ChainEntry = ChainEntry(
    index: int,
    timestamp: string,
    framePath: string,
    frameHash: string,
    previousHash: string,
    entryHash: string,
    signature: string,
    metadata: Option<Json>)

  /** What `add_entry` stores for its metadata argument: `json.dumps(metadata) if metadata else None`. */
  function StoredMetadata(metadata: Json): Option<Json>
  {
    if Truthy(metadata) then Some(metadata) else None
  }

  /** What `to_dict` reads back from the column: `json.loads(text) if text else {}`. */
  function LoadedMetadata(column: Option<Json>): Json
  {
    match column
    case None => JObject(map[])
    case Some(v) => v
  }

  /** `ChainEntry.to_dict`: all eight columns, `frame_path` among them. */
  function ToDict(e: ChainEntry): (d: Dict)
    ensures d.Keys == {"index", "timestamp", "frame_path", "frame_hash", "previous_hash",
                       "entry_hash", "signature", "metadata"}
    ensures d["frame_path"] == JStr(e.framePath) && d["signature"] == JStr(e.signature)
  {
    map["index" := JInt(e.index), "timestamp" := JStr(e.timestamp), "frame_path" := JStr(e.framePath),
        "frame_hash" := JStr(e.frameHash), "previous_hash" := JStr(e.previousHash),
        "entry_hash" := JStr(e.entryHash), "signature" := JStr(e.signature),
        "metadata" := LoadedMetadata(e.metadata)]
  }

  /** Metadata round trip: empty or missing metadata is stored as NULL and read back as `{}`; other metadata reads back unchanged. */
  lemma MetadataRoundTrip(metadata: Json)
    ensures !Truthy(metadata) ==> StoredMetadata(metadata) == None && LoadedMetadata(StoredMetadata(metadata)) == JObject(map[])
    ensures Truthy(metadata) ==> LoadedMetadata(StoredMetadata(metadata)) == metadata
  {
  }

  /** The committed table, keyed by the unique `index` column. */
  type Table = map<int, ChainEntry>

  /** Every row sits under its own index. */
  ghost predicate WellKeyed(t: Table)
  {
    forall k :: k in t ==> t[k].index == k
  }

  /** Some element of a non-empty set. */
  lemma SomeElement(s: set<int>) returns (y: int)
    requires s != {}
    ensures y in s
  {
    assert exists x :: x in s by {
      if forall x :: x !in s {
        assert false;
      }
    }
    y :| y in s;
  }

  /** A non-empty finite set of integers has a greatest element. */
  lemma {:induction false} MaxExists(s: set<int>)
    requires s != {}
    ensures exists m :: m in s && forall x :: x in s ==> x <= m
    decreases s
  {
    var y := SomeElement(s);
    if s == {y} {
      assert forall x :: x in s ==> x <= y;
    } else {
      MaxExists(s - {y});
      var m :| m in s - {y} && forall x :: x in s - {y} ==> x <= m;
      var top := if y <= m then m else y;
      forall x | x in s
        ensures x <= top
      {
        if x != y {
          assert x in s - {y};
        }
      }
      assert top in s;
    }
  }

  /** The greatest element of a non-empty set of indices. */
  function MaxKey(s: set<int>): (m: int)
    requires s != {}
    ensures m in s && forall x :: x in s ==> x <= m
  {
    MaxExists(s);
    var m :| m in s && forall x :: x in s ==> x <= m;
    m
  }

  /** The indices in ascending order: the `ORDER BY index ASC` of the queries. */
  function SortedKeys(s: set<int>): (r: seq<int>)
    ensures |r| == |s|
    ensures forall i, j :: 0 <= i < j < |r| ==> r[i] < r[j]
    ensures forall x :: x in r <==> x in s
    decreases s
  {
    if s == {} then []
    else
      var m := MaxKey(s);
      SortedKeys(s - {m}) + [m]
  }

  /** `get_entry_by_index`: the row with that index, or None. */
  function GetEntryByIndex(t: Table, index: int): (r: Option<ChainEntry>)
    requires WellKeyed(t)
    ensures r.None? <==> index !in t
    ensures r.Some? ==> r.value.index == index && t[index] == r.value
  {
    if index in t then Some(t[index]) else None
  }

  /** `get_latest_entry`: the row with the greatest index, or None for an empty table. */
  function GetLatestEntry(t: Table): (r: Option<ChainEntry>)
    requires WellKeyed(t)
    ensures r.None? <==> t == map[]
    ensures r.Some? ==> r.value.index in t && t[r.value.index] == r.value
    ensures r.Some? ==> forall k :: k in t ==> k <= r.value.index
  {
    if t == map[] then None
    else
      Some(t[MaxKey(t.Keys)])
  }

  /** `get_chain_length`: the number of rows. */
  function GetChainLength(t: Table): (r: nat)
    ensures r == |t.Keys|
    ensures r == 0 <==> t == map[]
  {
    |t|
  }

  /** `get_all_entries`: every row, in strictly ascending index order. */
  function GetAllEntries(t: Table): (r: seq<ChainEntry>)
    requires WellKeyed(t)
    ensures |r| == GetChainLength(t)
    ensures forall i :: 0 <= i < |r| ==> r[i].index in t && t[r[i].index] == r[i]
    ensures forall i, j :: 0 <= i < j < |r| ==> r[i].index < r[j].index
  {
    var keys := SortedKeys(t.Keys);
    assert forall i :: 0 <= i < |keys| ==> keys[i] in t;
    assert |keys| == |t| by {
      assert |keys| == |t.Keys|;
    }
    RowsAt(t, keys)
  }

  /** The rows stored under the given indices, in that order. */
  function RowsAt(t: Table, keys: seq<int>): (r: seq<ChainEntry>)
    requires WellKeyed(t)
    requires forall i :: 0 <= i < |keys| ==> keys[i] in t
    ensures |r| == |keys|
    ensures forall i :: 0 <= i < |r| ==> r[i] == t[keys[i]] && r[i].index == keys[i]
  {
    seq(|keys|, i requires 0 <= i < |keys| => t[keys[i]])
  }

  /** Every row appears in `get_all_entries`. */
  lemma GetAllEntriesComplete(t: Table, k: int)
    requires WellKeyed(t) && k in t
    ensures t[k] in GetAllEntries(t)
  {
    var keys := SortedKeys(t.Keys);
    var i :| 0 <= i < |keys| && keys[i] == k;
    assert GetAllEntries(t)[i] == t[k];
  }

  /** The failures `import_from_json` and the unique constraint can raise. */
  datatype StoreError =
    | IntegrityError          // the unique `index` constraint rejected the commit
    | MissingKey(key: string) // KeyError on the entry dict
    | BadValue(key: string)   // a field of the wrong JSON type

  function IntField(d: Dict, key: string): Result<int, StoreError>
  {
    if key !in d then Err(MissingKey(key))
    else match d[key]
      case JInt(i) => Ok(i)
      case _ => Err(BadValue(key))
  }

  function StrField(d: Dict, key: string): Result<string, StoreError>
  {
    if key !in d then Err(MissingKey(key))
    else match d[key]
      case JStr(s) => Ok(s)
      case _ => Err(BadValue(key))
  }

  /** The row `import_from_json` constructs from one exported dict, reading the fields in the order `import_from_json` reads them. */
  function ImportedRow(d: Dict): Result<ChainEntry, StoreError>
  {
    var index :- IntField(d, "index");
    var timestamp :- StrField(d, "timestamp");
    var framePath :- StrField(d, "frame_path");
    var frameHash :- StrField(d, "frame_hash");
    var previousHash :- StrField(d, "previous_hash");
    var entryHash :- StrField(d, "entry_hash");
    var signature :- StrField(d, "signature");
    var metadata := if "metadata" in d then d["metadata"] else JNull;
    Ok(ChainEntry(index, timestamp, framePath, frameHash, previousHash, entryHash, signature, Some(metadata)))
  }

  /**
   * The rows `import_from_json` stages for the dicts of `data`. The session does
   * not autoflush, so the existence check sees only the committed table: a dict
   * is skipped when its index is committed, and staged otherwise.
   */
  function ImportRows(committed: Table, data: seq<Dict>): (r: Result<seq<ChainEntry>, StoreError>)
    ensures r.Ok? ==> |r.value| <= |data|
    ensures r.Ok? ==> forall i :: 0 <= i < |r.value| ==> r.value[i].index !in committed
    ensures r.Ok? ==> forall i :: 0 <= i < |r.value| ==>
                        exists j :: 0 <= j < |data| && ImportedRow(data[j]) == Ok(r.value[i])
    decreases |data|
  {
    if data == [] then Ok([])
    else
      var init, last := data[..|data| - 1], data[|data| - 1];
      var pending :- ImportRows(committed, init);
      var index :- IntField(last, "index");
      if index in committed then Ok(pending)
      else
        var row :- ImportedRow(last);
        Ok(pending + [row])
  }

  /** Every dict whose index is not committed is read into a row, and that row is staged. */
  lemma {:induction false} ImportRowsComplete(committed: Table, data: seq<Dict>, j: nat)
    requires ImportRows(committed, data).Ok?
    requires j < |data| && IntField(data[j], "index").Ok? && IntField(data[j], "index").value !in committed
    ensures ImportedRow(data[j]).Ok? && ImportedRow(data[j]).value in ImportRows(committed, data).value
    decreases |data|
  {
    var init := data[..|data| - 1];
    if j < |data| - 1 {
      assert init[j] == data[j];
      ImportRowsComplete(committed, init, j);
    }
  }

  /** No two staged rows share an index. */
  predicate DistinctIndices(rows: seq<ChainEntry>)
  {
    forall i, j :: 0 <= i < j < |rows| ==> rows[i].index != rows[j].index
  }

  /** The table after the staged rows are committed. */
  function Inserted(t: Table, rows: seq<ChainEntry>): Table
    decreases |rows|
  {
    if rows == [] then t
    else Inserted(t, rows[..|rows| - 1])[rows[|rows| - 1].index := rows[|rows| - 1]]
  }

  /** Committing fresh, distinct rows keeps the old rows, adds exactly the new ones, and grows the table by their number. */
  lemma {:induction false} InsertedFresh(t: Table, rows: seq<ChainEntry>)
    requires WellKeyed(t)
    requires DistinctIndices(rows)
    requires forall i :: 0 <= i < |rows| ==> rows[i].index !in t
    ensures WellKeyed(Inserted(t, rows))
    ensures |Inserted(t, rows)| == |t| + |rows|
    ensures forall k :: k in t ==> k in Inserted(t, rows) && Inserted(t, rows)[k] == t[k]
    ensures forall i :: 0 <= i < |rows| ==>
              rows[i].index in Inserted(t, rows) && Inserted(t, rows)[rows[i].index] == rows[i]
    ensures forall k :: k in Inserted(t, rows) ==>
              k in t || exists i :: 0 <= i < |rows| && rows[i].index == k
    decreases |rows|
  {
    if rows != [] {
      var init, last := rows[..|rows| - 1], rows[|rows| - 1];
      assert forall i :: 0 <= i < |init| ==> init[i] == rows[i];
      InsertedFresh(t, init);
      var u := Inserted(t, init);
      assert forall i :: 0 <= i < |init| ==> init[i].index != last.index;
      assert last.index !in u;
      assert Inserted(t, rows) == u[last.index := last];
    }
  }

  /**
   * `import_from_json` on the committed table `t`: the staged rows are
   * committed when their indices are distinct; otherwise the commit raises
   * and nothing is stored. Returns the new table and the count of rows added.
   */
  function Imported(t: Table, data: seq<Dict>): Result<(Table, nat), StoreError>
  {
    var pending :- ImportRows(t, data);
    if DistinctIndices(pending) then Ok((Inserted(t, pending), |pending|)) else Err(IntegrityError)
  }

  /** The dict was read into a row, and that row is stored under its index. */
  predicate Stored(t: Table, row: Result<ChainEntry, StoreError>)
  {
    row.Ok? && row.value.index in t && t[row.value.index] == row.value
  }

  /** A staged row of a fresh, distinct batch is found under its index after the commit. */
  lemma StagedRowStored(t: Table, rows: seq<ChainEntry>, row: ChainEntry)
    requires WellKeyed(t) && DistinctIndices(rows)
    requires forall i :: 0 <= i < |rows| ==> rows[i].index !in t
    requires row in rows
    ensures Stored(Inserted(t, rows), Ok(row))
  {
    InsertedFresh(t, rows);
    var i :| 0 <= i < |rows| && rows[i] == row;
  }

  /**
   * Import adds only entries whose index is not stored yet: every existing row
   * is kept unchanged, every new row was built from a dict of the input, and
   * the returned count equals the number of rows added.
   */
  lemma ImportSkipsExisting(t: Table, data: seq<Dict>)
    requires WellKeyed(t)
    requires Imported(t, data).Ok?
    ensures var (t', count) := Imported(t, data).value;
      && WellKeyed(t')
      && (forall k :: k in t ==> k in t' && t'[k] == t[k])
      && GetChainLength(t') == GetChainLength(t) + count
      && (forall k :: k in t' && k !in t ==> exists j :: 0 <= j < |data| && ImportedRow(data[j]) == Ok(t'[k]))
  {
    var pending := ImportRows(t, data).value;
    var t' := Inserted(t, pending);
    assert Imported(t, data).value == (t', |pending|);
    InsertedFresh(t, pending);
    forall k | k in t' && k !in t
      ensures exists j :: 0 <= j < |data| && ImportedRow(data[j]) == Ok(t'[k])
    {
      var i :| 0 <= i < |pending| && pending[i].index == k;
      assert t'[k] == pending[i];
    }
  }

  /**
   * Import adds every entry whose index is not stored yet: each such dict is
   * read into a row, and that row is found under its index afterwards.
   */
  lemma ImportStoresFresh(t: Table, data: seq<Dict>, j: nat)
    requires WellKeyed(t)
    requires Imported(t, data).Ok?
    requires j < |data| && IntField(data[j], "index").Ok? && IntField(data[j], "index").value !in t
    ensures Stored(Imported(t, data).value.0, ImportedRow(data[j]))
  {
    var pending := ImportRows(t, data).value;
    ImportRowsComplete(t, data, j);
    StagedRowStored(t, pending, ImportedRow(data[j]).value);
  }

  /** A staging error in a prefix of the input is the error of the whole import loop. */
  lemma {:induction false} ImportRowsErrorPersists(t: Table, data: seq<Dict>, n: nat)
    requires n <= |data|
    requires ImportRows(t, data[..n]).Err?
    ensures ImportRows(t, data) == ImportRows(t, data[..n])
    decreases |data| - n
  {
    if n < |data| {
      var next := data[..n + 1];
      assert next[..n] == data[..n];
      assert ImportRows(t, next) == ImportRows(t, data[..n]);
      ImportRowsErrorPersists(t, data, n + 1);
    } else {
      assert data[..n] == data;
    }
  }

  /**
   * After `add_entry` stores a row under a fresh index, the table is one row
   * longer, `get_entry_by_index` finds that row, and every other row is kept.
   */
  lemma AddedEntryFound(t: Table, row: ChainEntry)
    requires WellKeyed(t) && row.index !in t
    ensures WellKeyed(t[row.index := row])
    ensures GetChainLength(t[row.index := row]) == GetChainLength(t) + 1
    ensures GetEntryByIndex(t[row.index := row], row.index) == Some(row)
    ensures forall k :: k in t ==> GetEntryByIndex(t[row.index := row], k) == GetEntryByIndex(t, k)
  {
    assert t[row.index := row].Keys == t.Keys + {row.index};
  }

  /** `ProvenanceChain`: the committed contents of the `chain_entries` table. */
  class ProvenanceChain {
    var rows: Table

    ghost predicate Valid()
      reads this
    {
      WellKeyed(rows)
    }

    /** Opening the database: the committed rows of `chain.db`, none for a new file. */
    constructor (stored: Table)
      requires WellKeyed(stored)
      ensures Valid() && rows == stored
    {
      rows := stored;
    }

    /**
     * `add_entry`: insert one row and commit. No sequence or linkage check is
     * made; only the unique `index` constraint can reject the row, in which
     * case the commit raises and the table is unchanged.
     */
    method AddEntry(index: int, timestamp: string, framePath: string, frameHash: string, previousHash: string,
                    entryHash: string, signature: string, metadata: Json) returns (r: Result<ChainEntry, StoreError>)
      requires Valid()
      modifies this
      ensures Valid()
      ensures index in old(rows) ==> r == Err(IntegrityError) && rows == old(rows)
      ensures index !in old(rows) ==>
        var row := ChainEntry(index, timestamp, framePath, frameHash, previousHash, entryHash, signature,
                              StoredMetadata(metadata));
        r == Ok(row) && rows == old(rows)[index := row]
    {
      if index in rows {
        return Err(IntegrityError);
      }
      var row := ChainEntry(index, timestamp, framePath, frameHash, previousHash, entryHash, signature,
                            StoredMetadata(metadata));
      rows := rows[index := row];
      r := Ok(row);
    }

    /**
     * `import_from_json` over the already parsed list of entry dicts: stage
     * each dict whose index is not committed, counting them, then commit.
     */
    method ImportFromJson(data: seq<Dict>) returns (r: Result<nat, StoreError>)
      requires Valid()
      modifies this
      ensures Valid()
      ensures Imported(old(rows), data).Ok? ==>
        r == Ok(Imported(old(rows), data).value.1) && rows == Imported(old(rows), data).value.0
      ensures Imported(old(rows), data).Err? ==>
        r == Err(Imported(old(rows), data).error) && rows == old(rows)
    {
      var pending: seq<ChainEntry> := [];
      var count: nat := 0;
      for i := 0 to |data|
        invariant ImportRows(rows, data[..i]) == Ok(pending)
        invariant count == |pending|
      {
        var entry := data[i];
        assert data[..i + 1][..i] == data[..i];
        assert data[..i + 1][i] == entry;
        var index := IntField(entry, "index");
        if index.Err? {
          ImportRowsErrorPersists(rows, data, i + 1);
          return Err(index.error);
        }
        if index.value !in rows {
          var row := ImportedRow(entry);
          if row.Err? {
            ImportRowsErrorPersists(rows, data, i + 1);
            return Err(row.error);
          }
          pending := pending + [row.value];
          count := count + 1;
        }
      }
      assert data[..|data|] == data;
      if !DistinctIndices(pending) {
        return Err(IntegrityError);
      }
      InsertedFresh(rows, pending);
      rows := Inserted(rows, pending);
      r := Ok(count);
    }
  }
}
