/** The file library under concurrent use. Adds exclude each other by a mutex, but deletes and downloads do not
    take it, so they fall between an Add's queries, its insert, the writing of its blob and its update. */
module FileLibrary {
  import opened Bytes
  import opened Sums
  import opened Vaults
  import opened FileStore

  /** How far the Add that holds the mutex has come. */
  datatype Stage = Begun | Named | Cleared | Inserted(id: nat) | Opened(id: nat) | Sealed(id: nat)

  datatype Adding = Adding(area: int, uploader: int, filename: string, description: string, content: seq<byte>,
                           stage: Stage)

  /** `given` is the content of the Add that was issued an id, `added` the ids of the Adds that succeeded,
      `gone` the ids that a Delete has been asked for. */
  datatype System = System(disk: Disk, adding: Option<Adding>, given: map<nat, seq<byte>>, added: set<nat>,
                           gone: set<nat>)

  const EMPTY := System(Disk(map[], 0, map[]), None, map[], {}, {})

  /** The atomic steps: of the Add in flight, the last of them a failure at any point; and of any number of
      Deletes and downloads. The bytes of an unfinished blob are whatever has reached the disk. */
  datatype Op =
    | Begin(area: int, uploader: int, filename: string, description: string, content: seq<byte>)
    | CheckName
    | CheckQuota
    | InsertRow
    | OpenBlob(part: seq<byte>)
    | WriteMore(part: seq<byte>)
    | FinishBlob(nonce: Nonce)
    | SetPath
    | Fail
    | DropRow(id: nat)
    | RemoveBlob(id: nat)
    | CountDownload(id: nat)

  function At(s: System, stage: Stage): System
    requires s.adding != None
  {
    s.(adding := Some(s.adding.value.(stage := stage)))
  }

  function NewRow(a: Adding): Row {
    Row(a.area, a.uploader, a.filename, |a.content|, a.description, false, 0)
  }

  /** What has reached the disk of a blob does not open, unless all of it has: it was not sealed under the key. */
  predicate Plausible(v: Vault, part: seq<byte>, content: seq<byte>) {
    Open(v, part) == None || Open(v, part) == Some(content)
  }

  /** The row goes in under the next id, without a path yet. */
  function RowInserted(s: System, a: Adding): System {
    var d, id := s.disk, s.disk.lastId + 1;
    s.(disk := Disk(d.rows[id := NewRow(a)], id, d.blobs), given := s.given[id := a.content],
       adding := Some(a.(stage := Inserted(id))))
  }

  /** The row, unless it has gone, gets its path, and the Add has succeeded. */
  function AddDone(s: System, id: nat): System {
    var rows := s.disk.rows;
    s.(disk := s.disk.(rows := if id in rows then rows[id := rows[id].(path := true)] else rows),
       adding := None, added := s.added + {id})
  }

  function RowDropped(s: System, id: nat): System {
    s.(disk := s.disk.(rows := s.disk.rows - {id}), gone := s.gone + {id})
  }

  function BlobRemoved(s: System, id: nat): System {
    s.(disk := s.disk.(blobs := s.disk.blobs - {id}))
  }

  function DownloadCounted(s: System, id: nat): System
    requires id in s.disk.rows
  {
    var row := s.disk.rows[id];
    s.(disk := s.disk.(rows := s.disk.rows[id := row.(downloads := row.downloads + 1)]))
  }

  /** A step of the Add in flight; one that is not its turn changes nothing. */
  ghost function AddNext(v: Vault, s: System, a: Adding, op: Op): System
    requires s.adding == Some(a)
  {
    var d := s.disk;
    match (op, a.stage)
    case (CheckName, Begun) =>
      if NameTaken(d.rows, a.area, a.filename) then s.(adding := None) else At(s, Named)
    case (CheckQuota, Named) =>
      if Exceeds(d.rows, a) then s.(adding := None) else At(s, Cleared)
    case (InsertRow, Cleared) =>
      RowInserted(s, a)
    case (OpenBlob(part), Inserted(id)) =>
      if Plausible(v, part, a.content) then At(s, Opened(id)).(disk := d.(blobs := d.blobs[id := part])) else s
    case (WriteMore(part), Opened(id)) =>
      if id in d.blobs && Plausible(v, part, a.content) then s.(disk := d.(blobs := d.blobs[id := part])) else s
    case (FinishBlob(nonce), Opened(id)) =>
      var s' := At(s, Sealed(id));
      if id in d.blobs then s'.(disk := d.(blobs := d.blobs[id := Seal(v, nonce, a.content)])) else s'
    case (SetPath, Sealed(id)) =>
      AddDone(s, id)
    case (Fail, _) => s.(adding := None)
    case _ => s
  }

  ghost predicate Exceeds(rows: map<nat, Row>, a: Adding) {
    UserTotal(rows, a.uploader) + |a.content| > MAX_USER_BYTES
  }

  /** A file written after its removal from the directory does not come back. */
  ghost function Next(v: Vault, s: System, op: Op): System {
    match op
    case Begin(area, uploader, filename, description, content) =>
      if s.adding == None && |content| <= MAX_FILE_BYTES then
        s.(adding := Some(Adding(area, uploader, filename, description, content, Begun)))
      else s
    case DropRow(id) => RowDropped(s, id)
    case RemoveBlob(id) => if id in s.gone then BlobRemoved(s, id) else s
    case CountDownload(id) => if id in s.disk.rows then DownloadCounted(s, id) else s
    case _ => if s.adding == None then s else AddNext(v, s, s.adding.value, op)
  }

  // ---------------------------------------------------------------------------
  // The invariant
  // ---------------------------------------------------------------------------

  /** Ids are issued in order and never again. */
  ghost predicate IdsInv(s: System) {
    && (forall id: nat :: id in s.disk.rows ==> id in s.given)
    && (forall id: nat :: id in s.disk.blobs ==> id in s.given)
    && (forall id: nat :: id in s.added ==> id in s.given)
    && (forall id: nat :: id in s.given <==> 1 <= id <= s.disk.lastId)
  }

  /** The row's Add has passed this check and its row is not there yet. */
  predicate Pending(s: System, quota: bool) {
    s.adding != None && (s.adding.value.stage.Cleared? || (!quota && s.adding.value.stage.Named?))
  }

  ghost predicate QuotaInv(s: System) {
    && (forall u :: UserTotal(s.disk.rows, u) <= MAX_USER_BYTES)
    && (forall id :: id in s.disk.rows ==>
          id in s.given && s.disk.rows[id].size == |s.given[id]| <= MAX_FILE_BYTES)
    && (s.adding != None ==> |s.adding.value.content| <= MAX_FILE_BYTES)
    && (Pending(s, true) ==> !Exceeds(s.disk.rows, s.adding.value))
  }

  ghost predicate NamesInv(s: System) {
    && Distinct(s.disk.rows)
    && (Pending(s, false) ==> !NameTaken(s.disk.rows, s.adding.value.area, s.adding.value.filename))
  }

  ghost predicate Distinct(rows: map<nat, Row>) {
    forall i, j :: i in rows && j in rows && i != j && rows[i].area == rows[j].area ==>
      !SameName(rows[i].filename, rows[j].filename)
  }

  /** Every blob is unfinished or what was given for its id; a file added and not asked to go is whole. */
  ghost predicate ContentInv(v: Vault, s: System) {
    && Blobs(v, s.disk.blobs, s.given)
    && (forall id :: id in s.added && id !in s.gone ==> Whole(v, s, id))
  }

  ghost predicate Blobs(v: Vault, blobs: map<nat, seq<byte>>, given: map<nat, seq<byte>>) {
    forall id :: id in blobs && id in given ==> Plausible(v, blobs[id], given[id])
  }

  ghost predicate Whole(v: Vault, s: System, id: nat) {
    id in s.disk.rows && WholeBlob(v, s.disk.blobs, s.given, id)
  }

  predicate WholeBlob(v: Vault, blobs: map<nat, seq<byte>>, given: map<nat, seq<byte>>, id: nat) {
    id in given && id in blobs && Open(v, blobs[id]) == Some(given[id])
  }

  /** The Add in flight has been issued its id, and what it has written is there unless a Delete came. */
  ghost predicate FlightInv(v: Vault, s: System) {
    s.adding != None ==>
      var a := s.adding.value;
      match a.stage
      case Inserted(id) => Issued(s, a, id)
      case Opened(id) => Issued(s, a, id) && (id !in s.gone ==> id in s.disk.blobs)
      case Sealed(id) => Issued(s, a, id) && (id !in s.gone ==> Whole(v, s, id))
      case _ => true
  }

  ghost predicate Issued(s: System, a: Adding, id: nat) {
    id in s.given && s.given[id] == a.content && id !in s.added && (id !in s.gone ==> id in s.disk.rows)
  }

  ghost predicate Inv(v: Vault, s: System) {
    IdsInv(s) && QuotaInv(s) && NamesInv(s) && ContentInv(v, s) && FlightInv(v, s)
  }

  // ---------------------------------------------------------------------------
  // Rows and totals
  // ---------------------------------------------------------------------------

  /** Sizes and totals that one row's arrival, or departure, or count leaves. */
  lemma TotalsWithRow(rows: map<nat, Row>, id: nat, row: Row)
    requires id !in rows
    ensures forall u :: UserTotal(rows[id := row], u) == UserTotal(rows, u) + if u == row.uploader then row.size else 0
  {
    forall u ensures UserTotal(rows[id := row], u) == UserTotal(rows, u) + if u == row.uploader then row.size else 0 {
      var before, after := SizesOf(rows, u), SizesOf(rows[id := row], u);
      if u == row.uploader {
        assert after == before[id := row.size];
        SumWith(before, id, row.size);
      } else {
        assert after == before;
      }
    }
  }

  lemma TotalsWithout(rows: map<nat, Row>, id: nat)
    ensures forall u :: UserTotal(rows - {id}, u) <= UserTotal(rows, u)
  {
    forall u ensures UserTotal(rows - {id}, u) <= UserTotal(rows, u) {
      var before, after := SizesOf(rows, u), SizesOf(rows - {id}, u);
      if id in before {
        SumWithout(before, id);
        assert after == before - {id};
      } else {
        assert after == before;
      }
    }
  }

  lemma TotalsSame(rows: map<nat, Row>, id: nat, row: Row)
    requires id in rows && row.uploader == rows[id].uploader && row.size == rows[id].size
    ensures forall u :: UserTotal(rows[id := row], u) == UserTotal(rows, u)
  {
    forall u ensures UserTotal(rows[id := row], u) == UserTotal(rows, u) {
      assert SizesOf(rows[id := row], u) == SizesOf(rows, u);
    }
  }

  /** Rows may go and counts may change, but none is new. */
  ghost predicate NoneNew(rows: map<nat, Row>, rows': map<nat, Row>) {
    && (forall id :: id in rows' ==>
          && id in rows
          && rows'[id].area == rows[id].area && rows'[id].filename == rows[id].filename
          && rows'[id].size == rows[id].size)
    && (forall u :: UserTotal(rows', u) <= UserTotal(rows, u))
  }

  lemma NoneNewKeeps(s: System, s': System)
    requires QuotaInv(s) && NamesInv(s) && NoneNew(s.disk.rows, s'.disk.rows)
    requires s'.given == s.given && (s'.adding == s.adding || s'.adding == None)
    ensures QuotaInv(s') && NamesInv(s')
  {
    hide UserTotal, SameName;
    if Pending(s', true) {
      assert UserTotal(s'.disk.rows, s.adding.value.uploader) <= UserTotal(s.disk.rows, s.adding.value.uploader);
    }
    if Pending(s', false) {
      var a := s.adding.value;
      NotTaken(s.disk.rows, s'.disk.rows, a.area, a.filename);
    }
  }

  lemma NotTaken(rows: map<nat, Row>, rows': map<nat, Row>, area: int, name: string)
    requires NoneNew(rows, rows') && !NameTaken(rows, area, name)
    ensures !NameTaken(rows', area, name)
  {
    hide UserTotal, SameName;
  }

  /** Rows change, but none goes that no Delete was asked for. */
  lemma RowsKept(v: Vault, s: System, s': System)
    requires IdsInv(s) && ContentInv(v, s) && FlightInv(v, s)
    requires s' == s.(disk := s'.disk, gone := s'.gone) && s'.disk == s.disk.(rows := s'.disk.rows)
    requires s.gone <= s'.gone && s'.disk.rows.Keys <= s.disk.rows.Keys
    requires forall id :: id in s.disk.rows && id !in s'.gone ==> id in s'.disk.rows
    ensures IdsInv(s') && ContentInv(v, s') && FlightInv(v, s')
  {
    hide WholeBlob, Plausible;
  }

  /** One blob is written; the others stay as they are. */
  lemma OthersWhole(v: Vault, blobs: map<nat, seq<byte>>, given: map<nat, seq<byte>>, id: nat, blob: seq<byte>)
    ensures forall k {:trigger WholeBlob(v, blobs, given, k)} :: k != id ==>
              WholeBlob(v, blobs[id := blob], given, k) == WholeBlob(v, blobs, given, k)
  {
    hide Open;
  }

  lemma BlobsWith(v: Vault, blobs: map<nat, seq<byte>>, given: map<nat, seq<byte>>, id: nat, blob: seq<byte>)
    requires Blobs(v, blobs, given) && (id in given ==> Plausible(v, blob, given[id]))
    ensures Blobs(v, blobs[id := blob], given)
  {
    hide Plausible;
  }

  // ---------------------------------------------------------------------------
  // Steps
  // ---------------------------------------------------------------------------

  /** Only how far the Add has come changes, and it has no id yet, or it ends. */
  ghost predicate Checked(s: System, s': System) {
    && s' == s.(adding := s'.adding)
    && (s'.adding != None ==>
          var a := s'.adding.value;
          && (a.stage.Begun? || a.stage.Named? || a.stage.Cleared?) && |a.content| <= MAX_FILE_BYTES
          && (a.stage.Cleared? ==> !Exceeds(s.disk.rows, a))
          && (a.stage.Cleared? || a.stage.Named? ==> !NameTaken(s.disk.rows, a.area, a.filename)))
  }

  lemma CheckShape(v: Vault, s: System, op: Op)
    requires QuotaInv(s) && NamesInv(s) && (op.Begin? || op.CheckName? || op.CheckQuota? || op.Fail?)
    ensures Next(v, s, op) == s || Checked(s, Next(v, s, op))
  {
    hide UserTotal, NameTaken, Distinct, Plausible, Seal, RowInserted, AddDone;
  }

  lemma CheckInv(v: Vault, s: System, s': System)
    requires Inv(v, s) && Checked(s, s')
    ensures Inv(v, s')
  {
    hide UserTotal, NameTaken, Distinct, Blobs, WholeBlob, Exceeds;
    assert forall id :: Whole(v, s', id) == Whole(v, s, id);
  }

  lemma InsertInv(v: Vault, s: System, a: Adding)
    requires Inv(v, s) && s.adding == Some(a) && a.stage.Cleared?
    ensures Inv(v, RowInserted(s, a))
  {
    var s', id := RowInserted(s, a), s.disk.lastId + 1;
    InsertIds(s, a);
    InsertQuota(s, s', a, id);
    InsertNames(s.disk.rows, id, NewRow(a));
    InsertContent(v, s, s', id, a.content);
    hide QuotaInv, ContentInv, IdsInv, Distinct;
  }

  lemma InsertContent(v: Vault, s: System, s': System, id: nat, content: seq<byte>)
    requires ContentInv(v, s) && id !in s.disk.blobs && id !in s.given
    requires s'.disk.blobs == s.disk.blobs && s.disk.rows.Keys <= s'.disk.rows.Keys
    requires s'.given == s.given[id := content] && s'.added == s.added && s'.gone == s.gone
    ensures ContentInv(v, s')
  {
    hide Plausible, Open;
    forall k | k in s.added && k !in s.gone ensures Whole(v, s', k) {
      assert Whole(v, s, k);
    }
  }

  lemma InsertIds(s: System, a: Adding)
    requires IdsInv(s)
    ensures var id := s.disk.lastId + 1;
            && IdsInv(RowInserted(s, a))
            && id !in s.given && id !in s.disk.rows && id !in s.disk.blobs && id !in s.added
  {
    hide NewRow;
  }

  lemma InsertQuota(s: System, s': System, a: Adding, id: nat)
    requires QuotaInv(s) && s.adding == Some(a) && a.stage.Cleared? && id !in s.disk.rows && id !in s.given
    requires s'.disk.rows == s.disk.rows[id := NewRow(a)] && s'.given == s.given[id := a.content]
    requires s'.adding == Some(a.(stage := Inserted(id)))
    ensures QuotaInv(s')
  {
    var rows, rows' := s.disk.rows, s'.disk.rows;
    TotalsWithRow(rows, id, NewRow(a));
    hide UserTotal;
    forall u ensures UserTotal(rows', u) <= MAX_USER_BYTES {
      assert UserTotal(rows, u) <= MAX_USER_BYTES;
    }
    forall k | k in rows' ensures k in s'.given && rows'[k].size == |s'.given[k]| <= MAX_FILE_BYTES {
      if k != id {
        assert k in rows;
      }
    }
  }

  lemma InsertNames(rows: map<nat, Row>, id: nat, row: Row)
    requires Distinct(rows) && id !in rows && !NameTaken(rows, row.area, row.filename)
    ensures Distinct(rows[id := row])
  {
    var rows' := rows[id := row];
    assert forall k :: k in rows && rows[k].area == row.area ==> Fold(rows[k].filename) != Fold(row.filename) by {
      forall k | k in rows && rows[k].area == row.area ensures !SameName(rows[k].filename, row.filename) {
      }
    }
    hide Fold;
    forall i, j | i in rows' && j in rows' && i != j && rows'[i].area == rows'[j].area
      ensures !SameName(rows'[i].filename, rows'[j].filename)
    {
      if i != id && j != id {
        assert !SameName(rows[i].filename, rows[j].filename);
      }
    }
  }

  /** Such a step writes the blob or finds it gone; the last leaves what was given, sealed. */
  ghost predicate Writes(v: Vault, s: System, s': System) {
    && s.adding != None && s'.adding != None
    && var a, a' := s.adding.value, s'.adding.value;
       && (a.stage.Inserted? || a.stage.Opened?) && a' == a.(stage := a'.stage)
       && var id := a.stage.id;
          && s' == s.(disk := s.disk.(blobs := s'.disk.blobs), adding := Some(a'))
          && (s'.disk == s.disk
              || exists blob :: s'.disk.blobs == s.disk.blobs[id := blob] && Plausible(v, blob, a.content))
          && ((a'.stage == Opened(id) && (a.stage.Inserted? ==> id in s'.disk.blobs))
              || (a'.stage == Sealed(id) && a.stage.Opened?
                  && (id in s.disk.blobs ==> id in s'.disk.blobs && Open(v, s'.disk.blobs[id]) == Some(a.content))))
  }

  lemma BlobShape(v: Vault, s: System, op: Op)
    requires Sound(v) && s.adding != None && (op.OpenBlob? || op.WriteMore? || op.FinishBlob?)
    ensures var s' := Next(v, s, op); s' != s ==> Writes(v, s, s')
  {
    var s' := Next(v, s, op);
    if s' != s {
      var a := s.adding.value;
      var id := a.stage.id;
      if op.FinishBlob? {
        OpenSealed(v, op.nonce, a.content);
      }
      hide Sound, Seal, Open;
      if s'.disk != s.disk {
        var blob := s'.disk.blobs[id];
        assert s'.disk.blobs == s.disk.blobs[id := blob] && Plausible(v, blob, a.content);
      }
    }
  }

  lemma BlobInv(v: Vault, s: System, s': System)
    requires Inv(v, s) && Writes(v, s, s')
    ensures Inv(v, s')
  {
    hide IdsInv, NamesInv, QuotaInv, ContentInv, FlightInv, Plausible;
    BlobStep(s, s');
    BlobKept(v, s, s');
  }

  lemma BlobKept(v: Vault, s: System, s': System)
    requires IdsInv(s) && ContentInv(v, s) && FlightInv(v, s) && Writes(v, s, s')
    ensures IdsInv(s') && ContentInv(v, s') && FlightInv(v, s')
  {
    var a := s.adding.value;
    var id := a.stage.id;
    if s'.disk != s.disk {
      var blob :| s'.disk.blobs == s.disk.blobs[id := blob] && Plausible(v, blob, a.content);
      BlobWritten(v, s, s', id, blob);
    }
    hide Open, ContentInv, Plausible;
  }

  lemma BlobStep(s: System, s': System)
    requires s.adding != None && s'.adding != None
    requires s'.disk.rows == s.disk.rows && s'.given == s.given
    requires var a, a' := s.adding.value, s'.adding.value;
             && a' == a.(stage := a'.stage)
             && (a.stage.Inserted? || a.stage.Opened?) && (a'.stage.Opened? || a'.stage.Sealed?)
    requires QuotaInv(s) && NamesInv(s)
    ensures QuotaInv(s') && NamesInv(s')
  {
    hide UserTotal, NameTaken, Distinct;
  }

  lemma BlobWritten(v: Vault, s: System, s': System, id: nat, blob: seq<byte>)
    requires ContentInv(v, s) && id in s.given && id !in s.added && Plausible(v, blob, s.given[id])
    requires s'.disk == s.disk.(blobs := s.disk.blobs[id := blob])
    requires s'.given == s.given && s'.added == s.added && s'.gone == s.gone
    ensures ContentInv(v, s')
  {
    OthersWhole(v, s.disk.blobs, s.given, id, blob);
    BlobsWith(v, s.disk.blobs, s.given, id, blob);
    hide Blobs, WholeBlob;
    forall k | k in s.added && k !in s.gone ensures Whole(v, s', k) {
      assert Whole(v, s, k);
    }
  }

  lemma SetPathInv(v: Vault, s: System, id: nat)
    requires Inv(v, s) && s.adding != None && s.adding.value.stage == Sealed(id)
    ensures Inv(v, AddDone(s, id))
  {
    hide NoneNew, QuotaInv, NamesInv, ContentInv, IdsInv, FlightInv;
    var s' := AddDone(s, id);
    var mid := s.(disk := s'.disk);
    PathMarked(s.disk.rows, id);
    NoneNewKeeps(s, s');
    RowsKept(v, s, mid);
    AddEnds(v, mid, s', id);
  }

  lemma PathMarked(rows: map<nat, Row>, id: nat)
    ensures var marked := if id in rows then rows[id := rows[id].(path := true)] else rows;
            NoneNew(rows, marked) && marked.Keys == rows.Keys
  {
    if id in rows {
      TotalsSame(rows, id, rows[id].(path := true));
    }
    hide UserTotal;
  }

  lemma AddEnds(v: Vault, s: System, s': System, id: nat)
    requires IdsInv(s) && ContentInv(v, s) && FlightInv(v, s)
    requires s.adding != None && s.adding.value.stage == Sealed(id)
    requires s' == s.(adding := None, added := s.added + {id})
    ensures IdsInv(s') && ContentInv(v, s') && FlightInv(v, s')
  {
    hide Blobs, WholeBlob;
    forall k | k in s'.added && k !in s'.gone ensures Whole(v, s', k) {
      assert Whole(v, s, k);
    }
  }

  lemma DropRowInv(v: Vault, s: System, id: nat)
    requires Inv(v, s)
    ensures Inv(v, RowDropped(s, id))
  {
    var s' := RowDropped(s, id);
    TotalsWithout(s.disk.rows, id);
    hide UserTotal, IdsInv, ContentInv, FlightInv, QuotaInv, NamesInv;
    NoneNewKeeps(s, s');
    RowsKept(v, s, s');
  }

  lemma RemoveBlobInv(v: Vault, s: System, id: nat)
    requires Inv(v, s) && id in s.gone
    ensures Inv(v, BlobRemoved(s, id))
  {
    BlobGone(v, s, BlobRemoved(s, id), id);
    hide UserTotal, NameTaken, Distinct, ContentInv, FlightInv, IdsInv, Exceeds;
  }

  lemma BlobGone(v: Vault, s: System, s': System, id: nat)
    requires ContentInv(v, s) && FlightInv(v, s) && IdsInv(s) && id in s.gone
    requires s' == s.(disk := s.disk.(blobs := s.disk.blobs - {id}))
    ensures ContentInv(v, s') && FlightInv(v, s') && IdsInv(s')
  {
    OthersThere(v, s.disk.blobs, s.given, id);
    hide Blobs, WholeBlob;
    forall k | k !in s.gone && Whole(v, s, k) ensures Whole(v, s', k) {
    }
  }

  lemma OthersThere(v: Vault, blobs: map<nat, seq<byte>>, given: map<nat, seq<byte>>, id: nat)
    ensures Blobs(v, blobs, given) ==> Blobs(v, blobs - {id}, given)
    ensures forall k {:trigger WholeBlob(v, blobs, given, k)} :: k != id ==>
              WholeBlob(v, blobs - {id}, given, k) == WholeBlob(v, blobs, given, k)
  {
    hide Open, Plausible;
  }

  lemma CountInv(v: Vault, s: System, id: nat)
    requires Inv(v, s) && id in s.disk.rows
    ensures Inv(v, DownloadCounted(s, id))
  {
    hide NoneNew, IdsInv, ContentInv, FlightInv, QuotaInv, NamesInv;
    var s' := DownloadCounted(s, id);
    CountedRow(s.disk.rows, id, s.disk.rows[id].downloads + 1);
    NoneNewKeeps(s, s');
    assert s'.disk.rows.Keys == s.disk.rows.Keys;
    RowsKept(v, s, s');
  }

  lemma CountedRow(rows: map<nat, Row>, id: nat, downloads: nat)
    requires id in rows
    ensures NoneNew(rows, rows[id := rows[id].(downloads := downloads)])
  {
    TotalsSame(rows, id, rows[id].(downloads := downloads));
    hide UserTotal;
  }
}
