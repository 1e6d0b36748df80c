/** Key rotation of the database's sealed columns, in one transaction, and of the library's blobs. */
module RekeyStore {
  import opened Bytes
  import opened Vaults

  /** Base64 without padding, for the sealed TEXT columns. */
  datatype Base64 = Base64(enc: seq<byte> -> seq<byte>, dec: seq<byte> -> Option<seq<byte>>)

  ghost predicate Lawful(b: Base64) {
    forall x :: b.dec(b.enc(x)) == Some(x) && (x != [] ==> b.enc(x) != [])
  }

  /** What a stored cell says under a key: an empty cell is the empty text, without any sealing. */
  function Meaning(b: Base64, v: Vault, cell: seq<byte>): Option<seq<byte>> {
    if cell == [] then Some([])
    else
      match b.dec(cell)
      case None => None
      case Some(ct) => Open(v, ct)
  }

  /** A row by column, a table by row id, a database by table name. */
  type Row = map<string, seq<byte>>
  type Table = map<nat, Row>
  type Tables = map<string, Table>

  /** The tables that hold sealed columns, and those columns. */
  const SEALED: seq<(string, seq<string>)> :=
    [ ("user", ["real_name", "email"]), ("membership", ["note"]), ("message", ["subject", "body"]),
      ("private_message", ["subject", "body"]), ("session_log", ["detail"]) ]

  function TableName(k: nat): string
    requires k < |SEALED|
  {
    SEALED[k].0
  }

  function Columns(k: nat): seq<string>
    requires k < |SEALED|
  {
    SEALED[k].1
  }

  datatype DirEntry = SubDir | File(bytes: seq<byte>)
  type Dir = map<string, DirEntry>

  predicate IsBlob(name: string, e: DirEntry) {
    e.File? && |name| >= 4 && name[|name| - 4..] == ".bin"
  }

  // ---------------------------------------------------------------------------
  // What a rotation keeps
  // ---------------------------------------------------------------------------

  /** `after` says under the new key what `before` says under the old; empty stays empty. */
  predicate SameCell(b: Base64, oldV: Vault, newV: Vault, before: seq<byte>, after: seq<byte>) {
    && Meaning(b, oldV, before) != None && Meaning(b, newV, after) == Meaning(b, oldV, before)
    && (before == [] <==> after == [])
  }

  /** The columns `cols` are carried over to the new key, the others are untouched. */
  ghost predicate SameRow(b: Base64, oldV: Vault, newV: Vault, cols: seq<string>, before: Row, after: Row) {
    && before.Keys == after.Keys
    && forall c :: c in before ==>
         if c in cols then SameCell(b, oldV, newV, before[c], after[c]) else after[c] == before[c]
  }

  ghost predicate SameTable(b: Base64, oldV: Vault, newV: Vault, cols: seq<string>, before: Table, after: Table) {
    before.Keys == after.Keys && forall id :: id in before ==> SameRow(b, oldV, newV, cols, before[id], after[id])
  }

  /** The first `done` sealed tables are carried over, every other table is untouched. */
  ghost predicate SameTables(b: Base64, oldV: Vault, newV: Vault, before: Tables, after: Tables, done: nat)
    requires done <= |SEALED|
  {
    && before.Keys == after.Keys
    && (forall k :: 0 <= k < done && TableName(k) in before ==>
          SameTable(b, oldV, newV, Columns(k), before[TableName(k)], after[TableName(k)]))
    && (forall name :: name in before && (forall k :: 0 <= k < done ==> TableName(k) != name) ==>
          after[name] == before[name])
  }

  /** A blob is carried over; directories and other files are untouched. */
  predicate SameEntry(oldV: Vault, newV: Vault, name: string, before: DirEntry, after: DirEntry) {
    if IsBlob(name, before) then
      after.File? && Open(oldV, before.bytes) != None && Open(newV, after.bytes) == Open(oldV, before.bytes)
    else after == before
  }

  ghost predicate SameDir(oldV: Vault, newV: Vault, before: Dir, after: Dir) {
    before.Keys == after.Keys && forall name :: name in before ==> SameEntry(oldV, newV, name, before[name], after[name])
  }

  /** Without a directory there is nothing to carry over. */
  ghost predicate SameFiles(oldV: Vault, newV: Vault, before: Option<Dir>, after: Option<Dir>) {
    match before
    case None => after == None
    case Some(d) => after.Some? && SameDir(oldV, newV, d, after.value)
  }

  // ---------------------------------------------------------------------------
  // What the caller can check beforehand
  // ---------------------------------------------------------------------------

  predicate RowOpens(b: Base64, v: Vault, cols: seq<string>, row: Row) {
    forall k :: 0 <= k < |cols| ==> cols[k] in row && Meaning(b, v, row[cols[k]]) != None
  }

  predicate TableOpens(b: Base64, v: Vault, cols: seq<string>, table: Table) {
    forall id :: id in table ==> RowOpens(b, v, cols, table[id])
  }

  predicate TablesOpen(b: Base64, v: Vault, tables: Tables) {
    forall k :: 0 <= k < |SEALED| ==> TableName(k) in tables && TableOpens(b, v, Columns(k), tables[TableName(k)])
  }

  predicate BlobsOpen(v: Vault, dir: Dir) {
    forall name :: name in dir && IsBlob(name, dir[name]) ==> Open(v, dir[name].bytes) != None
  }

  // ---------------------------------------------------------------------------
  // The rotation
  // ---------------------------------------------------------------------------

  /** The nonces a run draws in order; None is a failure of the random source. */
  datatype Random = Random(draw: nat -> Option<Nonce>, next: nat)

  /** The outcomes of the other I/O: each table's query and updates, the commit, listing the directory, and
      each blob's read and write. A write that fails may leave any bytes. */
  datatype IO = IO(tableOk: string -> bool, commitOk: bool, listOk: bool,
                   readOk: string -> bool, writeOk: string -> bool, torn: string -> seq<byte>)

  ghost predicate Tireless(draw: nat -> Option<Nonce>) {
    forall k :: draw(k) != None
  }

  ghost predicate Faultless(io: IO) {
    && io.commitOk && io.listOk
    && forall name :: io.tableOk(name) && io.readOk(name) && io.writeOk(name)
  }

  datatype Outcome = Done | TxFailed | ListFailed | BlobFailed(name: string)

  method SealAgain(oldV: Vault, newV: Vault, ct: seq<byte>, rnd: Random) returns (r: Option<seq<byte>>, rnd': Random)
    requires Sound(newV)
    ensures rnd'.draw == rnd.draw
    ensures r != None ==> r.value != [] && Open(oldV, ct) != None && Open(newV, r.value) == Open(oldV, ct)
    ensures Open(oldV, ct) == None ==> r == None
    ensures r == None ==> Open(oldV, ct) == None || !Tireless(rnd.draw)
  {
    rnd' := rnd;
    var plain := Open(oldV, ct);
    if plain == None {
      return None, rnd';
    }
    var nonce := rnd.draw(rnd.next);
    rnd' := rnd.(next := rnd.next + 1);
    if nonce == None {
      return None, rnd';
    }
    OpenSealed(newV, nonce.value, plain.value);
    r := Some(Seal(newV, nonce.value, plain.value));
  }

  method Reseal(b: Base64, oldV: Vault, newV: Vault, cell: seq<byte>, rnd: Random)
    returns (r: Option<seq<byte>>, rnd': Random)
    requires Lawful(b) && Sound(newV)
    ensures rnd'.draw == rnd.draw
    ensures r != None ==> SameCell(b, oldV, newV, cell, r.value)
    ensures Meaning(b, oldV, cell) == None ==> r == None
    ensures r == None ==> Meaning(b, oldV, cell) == None || !Tireless(rnd.draw)
  {
    hide Open, Sound, Tireless;
    rnd' := rnd;
    if cell == [] {
      return Some([]), rnd';
    }
    var ct := b.dec(cell);
    if ct == None {
      return None, rnd';
    }
    var nct;
    nct, rnd' := SealAgain(oldV, newV, ct.value, rnd);
    r := if nct == None then None else Some(b.enc(nct.value));
  }

  method RekeyRow(b: Base64, oldV: Vault, newV: Vault, cols: seq<string>, row: Row, rnd: Random)
    returns (r: Option<Row>, rnd': Random)
    requires Lawful(b) && Sound(newV)
    ensures rnd'.draw == rnd.draw
    ensures r != None ==> SameRow(b, oldV, newV, cols, row, r.value) && RowOpens(b, oldV, cols, row)
    ensures r == None ==> !RowOpens(b, oldV, cols, row) || !Tireless(rnd.draw)
  {
    hide SameCell, Meaning, Lawful, Sound, Tireless;
    rnd' := rnd;
    var args := row;
    for k := 0 to |cols|
      invariant rnd'.draw == rnd.draw && args.Keys == row.Keys
      invariant RowOpens(b, oldV, cols[..k], row)
      invariant SameRow(b, oldV, newV, cols[..k], row, args)
    {
      if cols[k] !in row {
        return None, rnd';
      }
      var nv;
      nv, rnd' := Reseal(b, oldV, newV, row[cols[k]], rnd');
      if nv == None {
        return None, rnd';
      }
      SealedCell(b, oldV, newV, row[cols[k]], nv.value);
      assert cols[..k + 1] == cols[..k] + [cols[k]];
      args := args[cols[k] := nv.value];
    }
    assert cols[..|cols|] == cols;
    r := Some(args);
  }

  lemma SealedCell(b: Base64, oldV: Vault, newV: Vault, before: seq<byte>, after: seq<byte>)
    requires SameCell(b, oldV, newV, before, after)
    ensures Meaning(b, oldV, before) != None
  {
  }

  /** Reads the whole batch, then updates row by row. */
  method RekeyTable(b: Base64, oldV: Vault, newV: Vault, cols: seq<string>, table: Table, rnd: Random)
    returns (r: Option<Table>, rnd': Random)
    requires Lawful(b) && Sound(newV)
    ensures rnd'.draw == rnd.draw
    ensures r != None ==> SameTable(b, oldV, newV, cols, table, r.value) && TableOpens(b, oldV, cols, table)
    ensures r == None ==> !TableOpens(b, oldV, cols, table) || !Tireless(rnd.draw)
  {
    hide SameRow, RowOpens, Lawful, Sound, Tireless;
    rnd' := rnd;
    var out := table;
    var left := table.Keys;
    while left != {}
      invariant left <= table.Keys == out.Keys && rnd'.draw == rnd.draw
      invariant forall id :: id in table && id !in left ==>
                  SameRow(b, oldV, newV, cols, table[id], out[id]) && RowOpens(b, oldV, cols, table[id])
      decreases left
    {
      var id :| id in left;
      var row;
      row, rnd' := RekeyRow(b, oldV, newV, cols, table[id], rnd');
      if row == None {
        return None, rnd';
      }
      out := out[id := row.value];
      left := left - {id};
    }
    r := Some(out);
  }

  /** The body of the transaction: the tables it would commit. */
  method RekeyTables(b: Base64, oldV: Vault, newV: Vault, tables: Tables, rnd: Random, io: IO)
    returns (r: Option<Tables>, rnd': Random)
    requires Lawful(b) && Sound(newV)
    ensures rnd'.draw == rnd.draw
    ensures r != None ==> SameTables(b, oldV, newV, tables, r.value, |SEALED|) && TablesOpen(b, oldV, tables)
    ensures r == None ==> !TablesOpen(b, oldV, tables) || !Tireless(rnd.draw) || !Faultless(io)
  {
    hide SameTable, TableOpens, Lawful, Sound, Tireless, TableName, Columns;
    rnd' := rnd;
    var out := tables;
    for k := 0 to |SEALED|
      invariant rnd'.draw == rnd.draw
      invariant SameTables(b, oldV, newV, tables, out, k)
      invariant forall j :: 0 <= j < k ==> TableName(j) in tables && TableOpens(b, oldV, Columns(j), tables[TableName(j)])
    {
      var name, cols := TableName(k), Columns(k);
      if name !in tables || !io.tableOk(name) {
        return None, rnd';
      }
      DistinctTables(k);
      var table;
      table, rnd' := RekeyTable(b, oldV, newV, cols, out[name], rnd');
      if table == None {
        return None, rnd';
      }
      out := out[name := table.value];
    }
    r := Some(out);
  }

  lemma DistinctTables(k: nat)
    requires k < |SEALED|
    ensures forall j :: 0 <= j < k ==> TableName(j) != TableName(k)
  {
    assert |SEALED[0].0| == 4 && |SEALED[1].0| == 10 && |SEALED[2].0| == 7;
    assert |SEALED[3].0| == 15 && |SEALED[4].0| == 11;
  }

  /** The database file and the library directory beside it; None when there is no such directory. */
  class Database {
    var tables: Tables
    var files: Option<Dir>

    constructor (tables: Tables, files: Option<Dir>)
      ensures this.tables == tables && this.files == files
    {
      this.tables, this.files := tables, files;
    }

    method RekeyDB(b: Base64, oldV: Vault, newV: Vault, rnd: Random, io: IO) returns (r: Outcome)
      requires Lawful(b) && Sound(newV)
      modifies this
      ensures r == TxFailed ==> tables == old(tables) && files == old(files)
      ensures r != TxFailed ==>
                TablesOpen(b, oldV, old(tables)) && SameTables(b, oldV, newV, old(tables), tables, |SEALED|)
      ensures r == ListFailed ==> files == old(files)
      ensures r == Done ==> SameFiles(oldV, newV, old(files), files)
      ensures r.BlobFailed? ==>
                old(files).Some? && files.Some? && Interrupted(oldV, newV, old(files).value, files.value, r.name, io)
      ensures Faultless(io) && Tireless(rnd.draw) ==>
                (r == Done <==>
                 TablesOpen(b, oldV, old(tables)) && (old(files) == None || BlobsOpen(oldV, old(files).value)))
      ensures Faultless(io) && Tireless(rnd.draw) && !TablesOpen(b, oldV, old(tables)) ==> r == TxFailed
    {
      hide SameTables, TablesOpen, BlobsOpen, SameDir, Interrupted, Tireless, Sound, Lawful;
      var after, rnd' := RekeyTables(b, oldV, newV, tables, rnd, io);
      if after == None || !io.commitOk {
        return TxFailed;
      }
      tables := after.value;
      if files == None {
        return Done;
      }
      if !io.listOk {
        return ListFailed;
      }
      r := RekeyFiles(oldV, newV, rnd', io);
    }

    method RekeyFiles(oldV: Vault, newV: Vault, rnd: Random, io: IO) returns (r: Outcome)
      requires Sound(newV) && files.Some?
      modifies this`files
      ensures files.Some? && (r == Done || r.BlobFailed?)
      ensures r == Done ==> SameDir(oldV, newV, old(files).value, files.value) && BlobsOpen(oldV, old(files).value)
      ensures r.BlobFailed? ==> Interrupted(oldV, newV, old(files).value, files.value, r.name, io)
      ensures r.BlobFailed? ==> !BlobsOpen(oldV, old(files).value) || !Tireless(rnd.draw) || !Faultless(io)
    {
      hide Sound, Tireless, Open, Partly, Interrupted, SameDir, BlobsOpen;
      ghost var dir := files.value;
      var rnd' := rnd;
      var left := files.value.Keys;
      PartlyStart(oldV, newV, dir);
      while |left| > 0
        invariant files.Some? && left <= dir.Keys && rnd'.draw == rnd.draw
        invariant Partly(oldV, newV, dir, files.value, left)
        decreases |left|
      {
        var name :| name in left;
        PartlyAt(oldV, newV, dir, files.value, left, name);
        var e := files.value[name];
        if IsBlob(name, e) {
          if !io.readOk(name) {
            Interruption(oldV, newV, dir, files.value, left, name, e, io);
            return BlobFailed(name);
          }
          var nct;
          nct, rnd' := SealAgain(oldV, newV, e.bytes, rnd');
          if nct == None {
            BlobRefused(oldV, dir, name);
            Interruption(oldV, newV, dir, files.value, left, name, e, io);
            return BlobFailed(name);
          }
          if !io.writeOk(name) {
            Interruption(oldV, newV, dir, files.value, left, name, File(io.torn(name)), io);
            files := Some(files.value[name := File(io.torn(name))]);
            return BlobFailed(name);
          }
          PartlyBlob(oldV, newV, dir, files.value, left, name, nct.value);
          files := Some(files.value[name := File(nct.value)]);
        } else {
          PartlySkip(oldV, newV, dir, files.value, left, name);
        }
        left := left - {name};
      }
      PartlyEnd(oldV, newV, dir, files.value, left);
      r := Done;
    }
  }

  /** The entries not in `left` have been dealt with, those in `left` are as they were. */
  ghost predicate Partly(oldV: Vault, newV: Vault, before: Dir, after: Dir, left: set<string>) {
    && before.Keys == after.Keys
    && (forall name :: name in before && name in left ==> after[name] == before[name])
    && (forall name :: name in before && name !in left ==>
          SameEntry(oldV, newV, name, before[name], after[name])
          && (IsBlob(name, before[name]) ==> Open(oldV, before[name].bytes) != None))
  }

  /** After a failure at `name` every other entry is still as it was or already carried over; `name` itself is
      as it was or what the failed write left. */
  ghost predicate Interrupted(oldV: Vault, newV: Vault, before: Dir, after: Dir, name: string, io: IO) {
    && before.Keys == after.Keys && name in before && IsBlob(name, before[name])
    && (after[name] == before[name] || (!io.writeOk(name) && after[name] == File(io.torn(name))))
    && forall n :: n in before && n != name ==>
         after[n] == before[n] || SameEntry(oldV, newV, n, before[n], after[n])
  }

  lemma BlobRefused(v: Vault, dir: Dir, name: string)
    requires name in dir && IsBlob(name, dir[name])
    ensures Open(v, dir[name].bytes) == None ==> !BlobsOpen(v, dir)
  {
  }

  lemma PartlyStart(oldV: Vault, newV: Vault, dir: Dir)
    ensures Partly(oldV, newV, dir, dir, dir.Keys)
  {
  }

  lemma PartlyAt(oldV: Vault, newV: Vault, before: Dir, after: Dir, left: set<string>, name: string)
    requires Partly(oldV, newV, before, after, left) && left <= before.Keys && name in left
    ensures name in before && name in after && after[name] == before[name]
  {
  }

  lemma PartlyBlob(oldV: Vault, newV: Vault, before: Dir, after: Dir, left: set<string>, name: string, blob: seq<byte>)
    requires Partly(oldV, newV, before, after, left) && name in left && name in before && IsBlob(name, before[name])
    requires Open(oldV, before[name].bytes) != None && Open(newV, blob) == Open(oldV, before[name].bytes)
    ensures Partly(oldV, newV, before, after[name := File(blob)], left - {name})
  {
    hide Open, IsBlob;
  }

  lemma PartlySkip(oldV: Vault, newV: Vault, before: Dir, after: Dir, left: set<string>, name: string)
    requires Partly(oldV, newV, before, after, left) && name in left && name in before && !IsBlob(name, before[name])
    ensures Partly(oldV, newV, before, after, left - {name})
  {
    hide Open, IsBlob;
  }

  lemma PartlyEnd(oldV: Vault, newV: Vault, before: Dir, after: Dir, left: set<string>)
    requires Partly(oldV, newV, before, after, left) && |left| == 0
    ensures SameDir(oldV, newV, before, after) && BlobsOpen(oldV, before)
  {
    hide Open, IsBlob, SameEntry;
  }

  lemma Interruption(oldV: Vault, newV: Vault, before: Dir, after: Dir, left: set<string>, name: string, e: DirEntry,
                     io: IO)
    requires Partly(oldV, newV, before, after, left) && name in left && name in before && IsBlob(name, before[name])
    requires e == before[name] || (!io.writeOk(name) && e == File(io.torn(name)))
    ensures Interrupted(oldV, newV, before, after[name := e], name, io)
    ensures e == before[name] ==> Interrupted(oldV, newV, before, after, name, io)
  {
    hide Open, IsBlob, SameEntry;
  }

  // ---------------------------------------------------------------------------
  // What the store seals
  // ---------------------------------------------------------------------------

  /** The columns that the store writes sealed text to: of users, memberships, board messages, mail and the log of
      sessions. */
  predicate SealedAtRest(table: string, column: string) {
    || (table == "user" && (column == "real_name" || column == "email"))
    || (table == "membership" && column == "note")
    || (table == "message" && (column == "subject" || column == "body"))
    || (table == "private_message" && (column == "subject" || column == "body"))
    || (table == "session_log" && column == "detail")
  }

  lemma ColumnsListed(k: nat, column: string)
    requires k < |SEALED|
    ensures column in Columns(k) <==> SealedAtRest(TableName(k), column)
  {
    assert |SEALED[0].0| == 4 && |SEALED[1].0| == 10 && |SEALED[2].0| == 7;
    assert |SEALED[3].0| == 15 && |SEALED[4].0| == 11;
  }

  lemma TablesListed(table: string, column: string)
    requires SealedAtRest(table, column)
    ensures exists k :: 0 <= k < |SEALED| && TableName(k) == table
  {
    assert TableName(0) == "user" && TableName(1) == "membership" && TableName(2) == "message";
    assert TableName(3) == "private_message" && TableName(4) == "session_log";
  }

  /** A stored cell of text: empty text may be stored as it is. */
  lemma TextStored(b: Base64, v: Vault, nonce: Nonce, text: seq<byte>)
    requires Lawful(b) && Sound(v)
    ensures var cell := b.enc(Seal(v, nonce, text)); cell != [] && Meaning(b, v, cell) == Some(text)
    ensures Meaning(b, v, []) == Some([])
  {
    OpenSealed(v, nonce, text);
    hide Open;
  }

  /** What a rotation that succeeds does to a cell: one that the store seals says under the new key what it said
      under the old, and every other is untouched. */
  lemma RotatedCell(b: Base64, oldV: Vault, newV: Vault, before: Tables, after: Tables, table: string, id: nat, column: string)
    requires SameTables(b, oldV, newV, before, after, |SEALED|)
    requires table in before && id in before[table] && column in before[table][id]
    ensures table in after && id in after[table] && column in after[table][id]
    ensures var x, y := before[table][id][column], after[table][id][column];
            if SealedAtRest(table, column) then
              Meaning(b, oldV, x) != None && Meaning(b, newV, y) == Meaning(b, oldV, x) && (x == [] <==> y == [])
            else y == x
  {
    hide SealedAtRest, Meaning, TableName, Columns;
    if k :| 0 <= k < |SEALED| && TableName(k) == table {
      ColumnsListed(k, column);
      assert SameTable(b, oldV, newV, Columns(k), before[table], after[table]);
    } else {
      if SealedAtRest(table, column) {
        TablesListed(table, column);
      }
      assert after[table] == before[table];
    }
  }

  /** ... and to a file of the library: `<id>.bin` opens under the new key to what it opened to under the old, and
      anything else is untouched. */
  lemma RotatedFile(oldV: Vault, newV: Vault, before: Dir, after: Dir, name: string)
    requires SameDir(oldV, newV, before, after) && name in before
    ensures name in after
    ensures before[name].File? && (exists stem :: name == stem + ".bin") ==>
              after[name].File? && Open(oldV, before[name].bytes) != None
              && Open(newV, after[name].bytes) == Open(oldV, before[name].bytes)
    ensures !before[name].File? || !(exists stem :: name == stem + ".bin") ==> after[name] == before[name]
  {
    BlobNames(name, before[name]);
    hide Open, IsBlob;
    assert SameEntry(oldV, newV, name, before[name], after[name]);
  }

  lemma BlobNames(name: string, e: DirEntry)
    ensures IsBlob(name, e) <==> e.File? && exists stem :: name == stem + ".bin"
  {
    if IsBlob(name, e) {
      assert name == name[..|name| - 4] + ".bin";
    }
    forall stem | name == stem + ".bin" ensures |name| >= 4 && name[|name| - 4..] == ".bin" {
    }
  }

  // ---------------------------------------------------------------------------
  // Any sequence of rotations
  // ---------------------------------------------------------------------------

  datatype Store = Store(tables: Tables, files: Option<Dir>)

  /** What a successful rotation from `oldV` to `newV` does to the store. */
  ghost predicate Rotated(b: Base64, oldV: Vault, newV: Vault, before: Store, after: Store) {
    && SameTables(b, oldV, newV, before.tables, after.tables, |SEALED|)
    && SameFiles(oldV, newV, before.files, after.files)
  }

  ghost predicate IsRotation(b: Base64, keys: seq<Vault>, run: seq<Store>) {
    |keys| == |run| > 0 && forall k :: 0 < k < |run| ==> Rotated(b, keys[k - 1], keys[k], run[k - 1], run[k])
  }

  lemma RowsCompose(b: Base64, u: Vault, v: Vault, w: Vault, cols: seq<string>, x: Row, y: Row, z: Row)
    requires SameRow(b, u, v, cols, x, y) && SameRow(b, v, w, cols, y, z)
    ensures SameRow(b, u, w, cols, x, z)
  {
    hide Meaning;
    forall c | c in x
      ensures if c in cols then SameCell(b, u, w, x[c], z[c]) else z[c] == x[c]
    {
      assert c in y;
    }
  }

  lemma TablesCompose(b: Base64, u: Vault, v: Vault, w: Vault, x: Tables, y: Tables, z: Tables)
    requires SameTables(b, u, v, x, y, |SEALED|) && SameTables(b, v, w, y, z, |SEALED|)
    ensures SameTables(b, u, w, x, z, |SEALED|)
  {
    hide SameRow;
    forall k | 0 <= k < |SEALED| && TableName(k) in x
      ensures SameTable(b, u, w, Columns(k), x[TableName(k)], z[TableName(k)])
    {
      var name, cols := TableName(k), Columns(k);
      assert name in y;
      forall id | id in x[name]
        ensures SameRow(b, u, w, cols, x[name][id], z[name][id])
      {
        RowsCompose(b, u, v, w, cols, x[name][id], y[name][id], z[name][id]);
      }
    }
  }

  lemma FilesCompose(u: Vault, v: Vault, w: Vault, x: Option<Dir>, y: Option<Dir>, z: Option<Dir>)
    requires SameFiles(u, v, x, y) && SameFiles(v, w, y, z)
    ensures SameFiles(u, w, x, z)
  {
    hide Open;
    if x.Some? {
      forall name | name in x.value
        ensures SameEntry(u, w, name, x.value[name], z.value[name])
      {
        assert name in y.value;
      }
    }
  }

  /** However often the store was rotated, every cell and every blob still says under the last key what it
      said under the first, an empty cell is still empty, and everything else is as it was. */
  lemma {:induction false} RotationsKeepMeaning(b: Base64, keys: seq<Vault>, run: seq<Store>)
    requires IsRotation(b, keys, run) && |run| > 1
    ensures Rotated(b, keys[0], keys[|keys| - 1], run[0], run[|run| - 1])
  {
    var n := |run| - 1;
    if n > 1 {
      assert IsRotation(b, keys[..n], run[..n]);
      RotationsKeepMeaning(b, keys[..n], run[..n]);
      TablesCompose(b, keys[0], keys[n - 1], keys[n], run[0].tables, run[n - 1].tables, run[n].tables);
      FilesCompose(keys[0], keys[n - 1], keys[n], run[0].files, run[n - 1].files, run[n].files);
    }
  }
}
