/** What the file library promises over every interleaving. */
module FileGuarantees {
  import opened Bytes
  import opened Vaults
  import opened FileStore
  import opened FileLibrary

  ghost predicate IsRun(v: Vault, run: seq<System>, ops: seq<Op>) {
    && |run| == |ops| + 1 && run[0] == EMPTY
    && forall k :: 0 <= k < |ops| ==> run[k + 1] == Next(v, run[k], ops[k])
  }

  lemma {:induction false} RunInv(v: Vault, run: seq<System>, ops: seq<Op>)
    requires Sound(v) && IsRun(v, run, ops)
    ensures Inv(v, run[|run| - 1])
    decreases |run|
  {
    hide Inv, Sound, RowInserted, AddDone, RowDropped, BlobRemoved, DownloadCounted, QuotaInv, NamesInv, Checked, Writes;
    if ops == [] {
      EmptyInv(v);
    } else {
      var n := |ops|;
      var s, op := run[n - 1], ops[n - 1];
      RunInv(v, run[..n], ops[..n - 1]);
      assert run[n] == Next(v, s, op);
      InvParts(v, s);
      if op.InsertRow? {
        if s.adding != None && s.adding.value.stage.Cleared? {
          InsertInv(v, s, s.adding.value);
        }
      } else if op.SetPath? {
        if s.adding != None && s.adding.value.stage.Sealed? {
          SetPathInv(v, s, s.adding.value.stage.id);
        }
      } else if op.DropRow? {
        DropRowInv(v, s, op.id);
      } else if op.RemoveBlob? {
        if op.id in s.gone {
          RemoveBlobInv(v, s, op.id);
        }
      } else if op.CountDownload? {
        if op.id in s.disk.rows {
          CountInv(v, s, op.id);
        }
      } else if op.Begin? || op.CheckName? || op.CheckQuota? || op.Fail? {
        hide Next;
        CheckShape(v, s, op);
        if Checked(s, Next(v, s, op)) {
          CheckInv(v, s, Next(v, s, op));
        }
      } else if s.adding != None {
        BlobShape(v, s, op);
        hide Next;
        if Writes(v, s, Next(v, s, op)) {
          BlobInv(v, s, Next(v, s, op));
        }
      }
    }
  }

  lemma InvParts(v: Vault, s: System)
    requires Inv(v, s)
    ensures QuotaInv(s) && NamesInv(s)
  {
  }

  lemma EmptyInv(v: Vault)
    ensures Inv(v, EMPTY)
  {
    forall u ensures UserTotal(map[], u) == 0 {
      assert SizesOf(map[], u) == map[];
    }
  }

  // ---------------------------------------------------------------------------
  // What the library promises
  // ---------------------------------------------------------------------------

  /** In every interleaving of one Add at a time with any number of deletes and downloads, whatever I/O fails:
      no uploader's rows exceed the quota; no two rows of an area have the same name, ignoring ASCII case;
      reading a file fails or gives exactly the bytes of the Add that was issued its id; and a file that was
      added and that no Delete was asked for can be read. */
  lemma Library(v: Vault, run: seq<System>, ops: seq<Op>)
    requires Sound(v) && IsRun(v, run, ops)
    ensures var s := run[|run| - 1];
            && (forall u :: UserTotal(s.disk.rows, u) <= 104857600)
            && (forall i, j :: i in s.disk.rows && j in s.disk.rows && i != j && s.disk.rows[i].area == s.disk.rows[j].area ==>
                  !Alike(s.disk.rows[i].filename, s.disk.rows[j].filename))
            && (forall id, readOk, updateOk ::
                  var plain := Content(v, s.disk, id, readOk, updateOk).1;
                  plain != None ==> id in s.given && plain.value == s.given[id])
            && (forall id, updateOk :: id in s.added && id !in s.gone ==>
                  id in s.given && Content(v, s.disk, id, true, updateOk).1 == Some(s.given[id]))
  {
    RunInv(v, run, ops);
    Promised(v, run[|run| - 1]);
    hide Inv, UserTotal, Content, IsRun, SameName, Alike;
    forall a, b ensures SameName(a, b) <==> Alike(a, b) {
      SameNameExactly(a, b);
    }
  }

  lemma Promised(v: Vault, s: System)
    requires Inv(v, s)
    ensures forall u :: UserTotal(s.disk.rows, u) <= MAX_USER_BYTES
    ensures Distinct(s.disk.rows)
    ensures forall id, readOk, updateOk ::
              var plain := Content(v, s.disk, id, readOk, updateOk).1;
              plain != None ==> id in s.given && plain.value == s.given[id]
    ensures forall id, updateOk :: id in s.added && id !in s.gone ==>
              id in s.given && Content(v, s.disk, id, true, updateOk).1 == Some(s.given[id])
  {
    hide UserTotal, Open, Distinct, FlightInv;
    assert forall id :: id in s.added && id !in s.gone ==> Whole(v, s, id);
  }

  /** An id, once issued, stands for the same content for ever. */
  lemma {:induction false} GivenOnce(v: Vault, run: seq<System>, ops: seq<Op>, i: nat, j: nat, id: nat)
    requires Sound(v) && IsRun(v, run, ops) && i <= j < |run| && id in run[i].given
    ensures id in run[j].given && run[j].given[id] == run[i].given[id]
    decreases j
  {
    hide Inv, Next, Sound;
    if i < j {
      GivenOnce(v, run, ops, i, j - 1, id);
      assert run[..j][|run[..j]| - 1] == run[j - 1];
      RunInv(v, run[..j], ops[..j - 1]);
      StepGiven(v, run[j - 1], ops[j - 1], run[j], id);
    }
  }

  lemma StepGiven(v: Vault, s: System, op: Op, s': System, id: nat)
    requires Inv(v, s) && id in s.given && s' == Next(v, s, op)
    ensures id in s'.given && s'.given[id] == s.given[id]
  {
    assert id <= s.disk.lastId;
    hide Inv, NewRow, Seal, Plausible, NameTaken;
  }
}
