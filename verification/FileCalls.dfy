/** Without anyone in between, the atomic steps of the file library are the calls. */
module FileCalls {
  import opened Bytes
  import opened Vaults
  import opened FileStore
  import opened FileLibrary

  ghost function Run(v: Vault, s: System, ops: seq<Op>): System
    decreases |ops|
  {
    if ops == [] then s else Run(v, Next(v, s, ops[0]), ops[1..])
  }

  lemma RunNext(v: Vault, s: System, op: Op, rest: seq<Op>)
    ensures Run(v, s, [op] + rest) == Run(v, Next(v, s, op), rest)
  {
    hide Next;
    assert ([op] + rest)[1..] == rest;
  }

  lemma RunTwo(v: Vault, s: System, a: Op, b: Op)
    ensures Run(v, s, [a, b]) == Next(v, Next(v, s, a), b)
  {
    hide Next;
    assert [a, b] == [a] + [b] && [b] == [b] + [];
    RunNext(v, s, a, [b]);
    RunNext(v, Next(v, s, a), b, []);
  }

  lemma {:induction false} RunConcat(v: Vault, s: System, x: seq<Op>, y: seq<Op>)
    ensures Run(v, s, x + y) == Run(v, Run(v, s, x), y)
    decreases |x|
  {
    hide Next;
    if x == [] {
      assert x + y == y;
    } else {
      assert (x + y)[1..] == x[1..] + y;
      RunConcat(v, Next(v, s, x[0]), x[1..], y);
    }
  }

  /** The steps of an Add when all its I/O succeeds: the checks, then the writing. */
  function CheckOps(a: Adding): seq<Op> {
    [Begin(a.area, a.uploader, a.filename, a.description, a.content)] + [CheckName, CheckQuota]
  }

  function WriteOps(v: Vault, a: Adding, nonce: Nonce): seq<Op> {
    [InsertRow] + ([OpenBlob(Seal(v, nonce, a.content)), FinishBlob(nonce)] + ([SetPath] + []))
  }

  ghost function AddCall(v: Vault, d: Disk, a: Adding, nonce: Nonce): (Disk, AddResult) {
    Add(v, d, a.area, a.uploader, a.filename, a.description, a.content, AddIO(true, true, Some(nonce), Written, true))
  }

  ghost function StoreCall(v: Vault, d: Disk, a: Adding, nonce: Nonce): (Disk, AddResult) {
    Store(v, d, NewRow(a), a.content, AddIO(true, true, Some(nonce), Written, true))
  }

  /** The steps of an Add are a call of Add. */
  lemma StepsAreAdd(v: Vault, s: System, a: Adding, nonce: Nonce)
    requires Sound(v) && s.adding == None
    ensures var (d, r) := AddCall(v, s.disk, a, nonce);
            var last := Run(v, s, CheckOps(a) + WriteOps(v, a, nonce));
            last.disk == d && last.adding == None && last.added == s.added + if r.Added? then {r.id} else {}
  {
    hide Run, Sound, AddCall, StoreCall, CheckOps, WriteOps;
    var mid := Run(v, s, CheckOps(a));
    RunConcat(v, s, CheckOps(a), WriteOps(v, a, nonce));
    AddChecked(v, s, a, nonce);
    if mid.adding == None {
      NothingWritten(v, mid, a, nonce);
    } else {
      AddWritten(v, mid, a, nonce);
    }
  }

  lemma AddChecked(v: Vault, s: System, a: Adding, nonce: Nonce)
    requires s.adding == None
    ensures var mid := Run(v, s, CheckOps(a));
            if mid.adding == None then
              mid == s && AddCall(v, s.disk, a, nonce).0 == s.disk && !AddCall(v, s.disk, a, nonce).1.Added?
            else
              mid == s.(adding := Some(a.(stage := Cleared)))
              && AddCall(v, s.disk, a, nonce) == StoreCall(v, s.disk, a, nonce)
  {
    var begin := Begin(a.area, a.uploader, a.filename, a.description, a.content);
    RunNext(v, s, begin, [CheckName, CheckQuota]);
    RunTwo(v, Next(v, s, begin), CheckName, CheckQuota);
    hide UserTotal, NameTaken, Store, Run;
  }

  lemma NothingWritten(v: Vault, s: System, a: Adding, nonce: Nonce)
    requires s.adding == None
    ensures Run(v, s, WriteOps(v, a, nonce)) == s
  {
    var blob := Seal(v, nonce, a.content);
    hide Seal;
    RunNext(v, s, InsertRow, [OpenBlob(blob), FinishBlob(nonce)] + ([SetPath] + []));
    RunConcat(v, s, [OpenBlob(blob), FinishBlob(nonce)], [SetPath] + []);
    RunTwo(v, s, OpenBlob(blob), FinishBlob(nonce));
    RunNext(v, s, SetPath, []);
  }

  lemma AddWritten(v: Vault, s: System, a: Adding, nonce: Nonce)
    requires Sound(v) && s.adding == Some(a.(stage := Cleared))
    ensures var last := Run(v, s, WriteOps(v, a, nonce));
            var (d, r) := StoreCall(v, s.disk, a, nonce);
            last.disk == d && last.adding == None && r.Added? && last.added == s.added + {r.id}
  {
    var blob := Seal(v, nonce, a.content);
    StoreAtOnce(v, s.disk, a, nonce);
    hide Next, Run, Seal, Sound, StoreCall;
    var d, id, row := s.disk, s.disk.lastId + 1, NewRow(a);
    var placed := RowPlaced(v, s, a);
    RunNext(v, s, InsertRow, [OpenBlob(blob), FinishBlob(nonce)] + ([SetPath] + []));
    RunConcat(v, placed, [OpenBlob(blob), FinishBlob(nonce)], [SetPath] + []);
    BlobAtOnce(v, placed, a, id, nonce);
    var written := Run(v, placed, [OpenBlob(blob), FinishBlob(nonce)]);
    RunNext(v, written, SetPath, []);
    RunNone(v, Next(v, written, SetPath));
    PathSet(v, written, id);
    assert d.rows[id := row][id := row.(path := true)] == d.rows[id := row.(path := true)];
  }

  lemma StoreAtOnce(v: Vault, d: Disk, a: Adding, nonce: Nonce)
    ensures var id := d.lastId + 1;
            StoreCall(v, d, a, nonce) ==
            (Disk(d.rows[id := NewRow(a).(path := true)], id, d.blobs[id := Seal(v, nonce, a.content)]), Added(id))
  {
    hide Seal;
    var id := d.lastId + 1;
    assert d.rows[id := NewRow(a)][id := NewRow(a).(path := true)] == d.rows[id := NewRow(a).(path := true)];
  }

  lemma RowPlaced(v: Vault, s: System, a: Adding) returns (placed: System)
    requires s.adding == Some(a.(stage := Cleared))
    ensures placed == Next(v, s, InsertRow)
    ensures var id := s.disk.lastId + 1;
            && placed.disk == Disk(s.disk.rows[id := NewRow(a)], id, s.disk.blobs)
            && placed.adding == Some(a.(stage := Inserted(id))) && placed.added == s.added
  {
    placed := Next(v, s, InsertRow);
  }

  lemma RunNone(v: Vault, s: System)
    ensures Run(v, s, []) == s
  {
  }

  lemma BlobAtOnce(v: Vault, s: System, a: Adding, id: nat, nonce: Nonce)
    requires Sound(v) && s.adding == Some(a.(stage := Inserted(id)))
    ensures var blob := Seal(v, nonce, a.content);
            Run(v, s, [OpenBlob(blob), FinishBlob(nonce)]) ==
            s.(disk := s.disk.(blobs := s.disk.blobs[id := blob]), adding := Some(a.(stage := Sealed(id))))
  {
    var blob := Seal(v, nonce, a.content);
    OpenSealed(v, nonce, a.content);
    RunTwo(v, s, OpenBlob(blob), FinishBlob(nonce));
    hide Seal, Open, Run, Sound;
    assert s.disk.blobs[id := blob][id := blob] == s.disk.blobs[id := blob];
  }

  lemma PathSet(v: Vault, s: System, id: nat)
    requires s.adding != None && s.adding.value.stage == Sealed(id) && id in s.disk.rows
    ensures Next(v, s, SetPath) ==
            s.(disk := s.disk.(rows := s.disk.rows[id := s.disk.rows[id].(path := true)]), adding := None,
               added := s.added + {id})
  {
  }

  /** And those of a Delete are a call of Delete. */
  lemma StepsAreDelete(v: Vault, s: System, id: nat)
    ensures Run(v, s, [DropRow(id), RemoveBlob(id)]).disk == Delete(s.disk, id, true, true).0
  {
    hide Run;
    RunTwo(v, s, DropRow(id), RemoveBlob(id));
    if id !in s.disk.blobs {
      assert s.disk.blobs - {id} == s.disk.blobs;
    }
  }
}
