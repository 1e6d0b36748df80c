/** The file library: metadata rows in a table, sealed contents on disk, a size limit, a quota for each
    uploader and unique names in each area. */
module FileStore {
  import opened Bytes
  import opened Sums
  import opened Vaults

  const MAX_FILE_BYTES: nat := 10 * 1024 * 1024
  const MAX_USER_BYTES: nat := 100 * 1024 * 1024

  datatype Row = Row(area: int, uploader: int, filename: string, size: nat, description: string,
                     path: bool, downloads: nat)

  /** SQLite's NOCASE: the 26 ASCII letters are folded. */
  function FoldChar(c: char): char {
    if 'A' <= c <= 'Z' then (c as int + 32) as char else c
  }

  function Fold(s: string): string {
    seq(|s|, i requires 0 <= i < |s| => FoldChar(s[i]))
  }

  predicate SameName(a: string, b: string) {
    Fold(a) == Fold(b)
  }

  /** The table, the highest id it ever issued, and the files `<id>.bin`. */
  datatype Disk = Disk(rows: map<nat, Row>, lastId: nat, blobs: map<nat, seq<byte>>)

  ghost function SizesOf(rows: map<nat, Row>, uploader: int): map<nat, nat> {
    map id | id in rows && rows[id].uploader == uploader :: rows[id].size
  }

  ghost function UserTotal(rows: map<nat, Row>, uploader: int): nat {
    SumOf(SizesOf(rows, uploader))
  }

  predicate NameTaken(rows: map<nat, Row>, area: int, name: string) {
    exists id :: id in rows && rows[id].area == area && SameName(rows[id].filename, name)
  }

  /** A write that fails may leave the file absent, or hold other bytes than were written. */
  datatype BlobWrite = Written | NotWritten | Torn(bytes: seq<byte>)

  /** The outcomes of the I/O of one Add: its queries, its insert, its random source, its write, its update. */
  datatype AddIO = AddIO(queryOk: bool, insertOk: bool, nonce: Option<Nonce>, write: BlobWrite, updateOk: bool)

  datatype AddResult = Added(id: nat) | TooLarge | DuplicateName | QuotaExceeded | AddFailed

  /** Past the checks: the row comes first, then the blob, then the row's path. */
  function Store(v: Vault, d: Disk, row: Row, content: seq<byte>, io: AddIO): (Disk, AddResult) {
    if !io.insertOk then (d, AddFailed)
    else
      var id := d.lastId + 1;
      var d1 := Disk(d.rows[id := row], id, d.blobs);
      if io.nonce == None then (d1, AddFailed)
      else
        var sealed := Seal(v, io.nonce.value, content);
        match io.write
        case NotWritten => (d1, AddFailed)
        case Torn(bytes) => (d1.(blobs := d1.blobs[id := bytes]), AddFailed)
        case Written =>
          var d2 := d1.(blobs := d1.blobs[id := sealed]);
          if io.updateOk then (d2.(rows := d2.rows[id := row.(path := true)]), Added(id)) else (d2, AddFailed)
  }

  ghost function Add(v: Vault, d: Disk, area: int, uploader: int, filename: string, description: string,
                     content: seq<byte>, io: AddIO): (Disk, AddResult)
  {
    if |content| > MAX_FILE_BYTES then (d, TooLarge)
    else if !io.queryOk then (d, AddFailed)
    else if NameTaken(d.rows, area, filename) then (d, DuplicateName)
    else if UserTotal(d.rows, uploader) + |content| > MAX_USER_BYTES then (d, QuotaExceeded)
    else Store(v, d, Row(area, uploader, filename, |content|, description, false, 0), content, io)
  }

  /** The row goes first; an absent blob is an error, but the row is gone by then. */
  function Delete(d: Disk, id: nat, dbOk: bool, removeOk: bool): (Disk, bool) {
    if !dbOk then (d, false)
    else
      var d' := d.(rows := d.rows - {id});
      if id in d.blobs && removeOk then (d'.(blobs := d'.blobs - {id}), true) else (d', false)
  }

  /** The bytes a read of the blob yields under the key. */
  function ContentOf(v: Vault, d: Disk, id: nat): Option<seq<byte>> {
    if id in d.blobs then Open(v, d.blobs[id]) else None
  }

  function Content(v: Vault, d: Disk, id: nat, readOk: bool, updateOk: bool): (Disk, Option<seq<byte>>) {
    if !readOk || ContentOf(v, d, id) == None then (d, None)
    else
      (if updateOk && id in d.rows then d.(rows := d.rows[id := d.rows[id].(downloads := d.rows[id].downloads + 1)]) else d,
       ContentOf(v, d, id))
  }

  class Files {
    const v: Vault
    var rows: map<nat, Row>
    var lastId: nat
    var blobs: map<nat, seq<byte>>

    function Now(): Disk
      reads this
    {
      Disk(rows, lastId, blobs)
    }

    constructor (v: Vault)
      ensures this.v == v && Now() == Disk(map[], 0, map[])
    {
      this.v, rows, lastId, blobs := v, map[], 0, map[];
    }

    /** The total an uploader has stored. */
    method UserBytes(uploader: int) returns (total: nat)
      ensures total == UserTotal(rows, uploader)
    {
      total := 0;
      var left := rows.Keys;
      ghost var sizes := SizesOf(rows, uploader);
      assert sizes == map id | id in sizes && id in left :: sizes[id];
      while left != {}
        invariant left <= rows.Keys
        invariant total + SumOf(map id | id in sizes && id in left :: sizes[id]) == SumOf(sizes)
        decreases left
      {
        var id :| id in left;
        ghost var before := map k | k in sizes && k in left :: sizes[k];
        left := left - {id};
        ghost var after := map k | k in sizes && k in left :: sizes[k];
        if rows[id].uploader == uploader {
          total := total + rows[id].size;
          SumWithout(before, id);
          assert before - {id} == after;
        } else {
          assert before == after;
        }
      }
      assert (map id | id in sizes && id in left :: sizes[id]) == map[];
    }

    method AddFile(area: int, uploader: int, filename: string, description: string, content: seq<byte>, io: AddIO)
      returns (r: AddResult)
      modifies this
      ensures (Now(), r) == Add(v, old(Now()), area, uploader, filename, description, content, io)
    {
      if |content| > MAX_FILE_BYTES {
        return TooLarge;
      }
      if !io.queryOk {
        return AddFailed;
      }
      if NameTaken(rows, area, filename) {
        return DuplicateName;
      }
      var used := UserBytes(uploader);
      if used + |content| > MAX_USER_BYTES {
        return QuotaExceeded;
      }
      if !io.insertOk {
        return AddFailed;
      }
      var row := Row(area, uploader, filename, |content|, description, false, 0);
      lastId := lastId + 1;
      var id := lastId;
      rows := rows[id := row];
      if io.nonce == None {
        return AddFailed;
      }
      var sealed := Seal(v, io.nonce.value, content);
      match io.write {
        case NotWritten => return AddFailed;
        case Torn(bytes) =>
          blobs := blobs[id := bytes];
          return AddFailed;
        case Written => blobs := blobs[id := sealed];
      }
      if !io.updateOk {
        return AddFailed;
      }
      rows := rows[id := row.(path := true)];
      return Added(id);
    }

    method DeleteFile(id: nat, dbOk: bool, removeOk: bool) returns (ok: bool)
      modifies this
      ensures (Now(), ok) == Delete(old(Now()), id, dbOk, removeOk)
    {
      if !dbOk {
        return false;
      }
      rows := rows - {id};
      ok := id in blobs && removeOk;
      if ok {
        blobs := blobs - {id};
      }
    }

    method ReadContent(id: nat, readOk: bool, updateOk: bool) returns (plain: Option<seq<byte>>)
      modifies this
      ensures (Now(), plain) == Content(v, old(Now()), id, readOk, updateOk)
    {
      if !readOk || id !in blobs {
        return None;
      }
      plain := Open(v, blobs[id]);
      if plain == None {
        return;
      }
      if updateOk && id in rows {
        rows := rows[id := rows[id].(downloads := rows[id].downloads + 1)];
      }
    }
  }

  // ---------------------------------------------------------------------------
  // When an Add succeeds
  // ---------------------------------------------------------------------------

  /** Equal, or the same letter from A to Z in two cases. */
  predicate AlikeChar(a: char, b: char) {
    || a == b
    || ('A' <= a <= 'Z' && 'a' <= b <= 'z' && b as int == a as int + 32)
    || ('A' <= b <= 'Z' && 'a' <= a <= 'z' && a as int == b as int + 32)
  }

  /** Equal but for the case of ASCII letters. */
  predicate Alike(a: string, b: string) {
    |a| == |b| && forall k :: 0 <= k < |a| ==> AlikeChar(a[k], b[k])
  }

  lemma FoldsAlike(a: char, b: char)
    ensures FoldChar(a) == FoldChar(b) <==> AlikeChar(a, b)
  {
  }

  lemma SameNameExactly(a: string, b: string)
    ensures SameName(a, b) <==> Alike(a, b)
  {
    hide FoldChar, AlikeChar;
    if SameName(a, b) {
      assert |Fold(a)| == |a| && |Fold(b)| == |b|;
      forall k | 0 <= k < |a| ensures AlikeChar(a[k], b[k]) {
        assert Fold(a)[k] == Fold(b)[k];
        FoldsAlike(a[k], b[k]);
      }
    }
    if Alike(a, b) {
      forall k | 0 <= k < |a| ensures FoldChar(a[k]) == FoldChar(b[k]) {
        FoldsAlike(a[k], b[k]);
      }
    }
  }

  /** No row of the area has this name. */
  ghost predicate NameFree(rows: map<nat, Row>, area: int, name: string) {
    forall id :: id in rows && rows[id].area == area ==> !Alike(rows[id].filename, name)
  }

  lemma NameFreeExactly(rows: map<nat, Row>, area: int, name: string)
    ensures NameTaken(rows, area, name) <==> !NameFree(rows, area, name)
  {
    hide SameName, Alike;
    forall id | id in rows ensures SameName(rows[id].filename, name) <==> Alike(rows[id].filename, name) {
      SameNameExactly(rows[id].filename, name);
    }
  }

  /** An Add succeeds exactly when the content is at most 10 MiB, the name is free in the area, the uploader's files
      come to at most 100 MiB with it, and all its I/O succeeds; the first of the three that fails is reported. */
  lemma AddExactly(v: Vault, d: Disk, area: int, uploader: int, filename: string, description: string,
                   content: seq<byte>, io: AddIO)
    ensures var (d', r) := Add(v, d, area, uploader, filename, description, content, io);
            var free := NameFree(d.rows, area, filename);
            var fits := UserTotal(d.rows, uploader) + |content| <= 104857600;
            && (r == TooLarge <==> |content| > 10485760)
            && (r == DuplicateName <==> |content| <= 10485760 && io.queryOk && !free)
            && (r == QuotaExceeded <==> |content| <= 10485760 && io.queryOk && free && !fits)
            && (r.Added? <==> |content| <= 10485760 && free && fits
                              && io.queryOk && io.insertOk && io.nonce != None && io.write == Written && io.updateOk)
  {
    hide UserTotal, NameTaken, NameFree, Seal;
    NameFreeExactly(d.rows, area, filename);
  }

  /** What a successful Add leaves: one more row under a new id, and a blob that opens to the content. */
  lemma AddedFile(v: Vault, d: Disk, area: int, uploader: int, filename: string, description: string,
                  content: seq<byte>, io: AddIO)
    requires Sound(v)
    ensures var (d', r) := Add(v, d, area, uploader, filename, description, content, io);
            r.Added? ==>
              && r.id == d.lastId + 1 == d'.lastId
              && d'.rows == d.rows[r.id := Row(area, uploader, filename, |content|, description, true, 0)]
              && d'.blobs.Keys == d.blobs.Keys + {r.id}
              && (forall id :: id in d.blobs && id != r.id ==> d'.blobs[id] == d.blobs[id])
              && ContentOf(v, d', r.id) == Some(content)
  {
    hide UserTotal, NameTaken, Seal, Open, Sound;
    var (d', r) := Add(v, d, area, uploader, filename, description, content, io);
    if r.Added? {
      OpenSealed(v, io.nonce.value, content);
      assert d'.blobs == d.blobs[r.id := Seal(v, io.nonce.value, content)];
    }
  }

  /** Reading a file counts one download of it, and changes nothing else; a read that fails counts none. */
  lemma ReadExactly(v: Vault, d: Disk, id: nat, readOk: bool, updateOk: bool)
    ensures var (d', plain) := Content(v, d, id, readOk, updateOk);
            && (plain != None <==> readOk && id in d.blobs && Open(v, d.blobs[id]) != None)
            && (plain != None ==> plain == Open(v, d.blobs[id]))
            && d'.blobs == d.blobs && d'.lastId == d.lastId && d'.rows.Keys == d.rows.Keys
            && forall k :: k in d.rows ==>
                 d'.rows[k] == d.rows[k].(downloads := d.rows[k].downloads
                                                       + if k == id && plain != None && updateOk then 1 else 0)
  {
    hide Open;
  }

  /** Deleting a file just added gives back its name and its quota: all is as before, but the id is used up. */
  lemma DeleteUndoesAdd(v: Vault, d: Disk, area: int, uploader: int, filename: string, description: string,
                        content: seq<byte>, io: AddIO)
    requires forall id :: id in d.rows || id in d.blobs ==> id <= d.lastId
    ensures var (d', r) := Add(v, d, area, uploader, filename, description, content, io);
            r.Added? ==> r.id > d.lastId && Delete(d', r.id, true, true) == (d.(lastId := r.id), true)
  {
    var (d', r) := Add(v, d, area, uploader, filename, description, content, io);
    if r.Added? {
      assert d'.rows - {r.id} == d.rows;
      assert d'.blobs - {r.id} == d.blobs;
    }
  }
}
