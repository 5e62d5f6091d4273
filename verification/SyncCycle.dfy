/** One sync cycle: the disk is compared with the stored file records by mtime, then
    size, then hash; what changed is deleted or extracted again. The disk holds still
    during a cycle; a walked path is never empty. */
module SyncCycle {
  import opened Graph
  import opened Lexer
  import Utf8

  datatype DiskFile = DiskFile(mtime: int, raw: seq<byte>)

  datatype FileRow = FileRow(mtime: int, size: nat, hash: string, nodeCount: nat)

  /** `graph` tells, for every file with stored nodes, the hash of the text they came from. */
  datatype Db = Db(files: map<string, FileRow>, graph: map<string, string>)

  /** The code this module does not look into: the content hash, the number of nodes a
      path and a text extract to (`None`: the parser gives no tree), whether the extractor
      of a path records the modification time (those for Vue, Liquid and DFM record 0), the
      paths whose store transaction fails, and the directory of the framework manifests. */
  datatype Env = Env(
    hash: seq<byte> -> string, parse: (string, seq<byte>) -> Option<nat>, stamps: string -> bool,
    faults: set<string>, routes: string)

  const BOM: seq<byte> := [0xEF, 0xBB, 0xBF]

  /** The batch a file without a syntax tree yields: it names no path. */
  const NO_ROW: FileRow := FileRow(0, 0, "", 0)

  function StripBom(raw: seq<byte>): seq<byte> { if BOM <= raw then raw[3..] else raw }

  function HashOf(env: Env, f: DiskFile): string { env.hash(StripBom(f.raw)) }

  predicate Virtual(env: Env, path: string) { path == env.routes || env.routes + "/" <= path }

  function Elems(s: seq<string>): set<string> { set x | x in s }

  // ----- the policy ---------------------------------------------------------------------

  /** The cheap check cannot tell the file from its record. */
  predicate LooksSame(f: DiskFile, row: FileRow) { f.mtime == row.mtime && |f.raw| == row.size }

  predicate Modified(env: Env, f: DiskFile, row: FileRow)
  {
    f.mtime != row.mtime || (|f.raw| != row.size && HashOf(env, f) != row.hash)
  }

  function Added(files: map<string, FileRow>, disk: map<string, DiskFile>): set<string>
  {
    set p | p in disk && p !in files
  }

  function Edited(env: Env, files: map<string, FileRow>, disk: map<string, DiskFile>): set<string>
  {
    set p | p in disk && p in files && Modified(env, disk[p], files[p])
  }

  function Changed(env: Env, files: map<string, FileRow>, disk: map<string, DiskFile>): set<string>
  {
    Added(files, disk) + Edited(env, files, disk)
  }

  function Removed(env: Env, files: map<string, FileRow>, disk: map<string, DiskFile>): set<string>
  {
    set p | p in files && p !in disk && !Virtual(env, p)
  }

  predicate Quiet(env: Env, db: Db, disk: map<string, DiskFile>, buffered: set<string>)
  {
    Changed(env, db.files, disk) == {} && Removed(env, db.files, disk) + buffered == {}
  }

  // ----- extraction ---------------------------------------------------------------------

  predicate Readable(f: DiskFile) { Utf8.Valid(StripBom(f.raw)) }

  /** The file yields a batch of its own. */
  predicate Extractable(env: Env, path: string, f: DiskFile)
  {
    Readable(f) && env.parse(path, StripBom(f.raw)).Some?
  }

  predicate Treeless(env: Env, path: string, f: DiskFile)
  {
    Readable(f) && env.parse(path, StripBom(f.raw)).None?
  }

  function RowOf(env: Env, path: string, f: DiskFile): FileRow
    requires Extractable(env, path, f)
  {
    FileRow(Stamp(env, path, f), |StripBom(f.raw)|, HashOf(env, f), env.parse(path, StripBom(f.raw)).value)
  }

  function Stamp(env: Env, path: string, f: DiskFile): int { if env.stamps(path) then f.mtime else 0 }

  /** The records of the batches that changed paths yield. */
  function RowsOf(env: Env, disk: map<string, DiskFile>, changed: set<string>): map<string, FileRow>
    requires changed <= disk.Keys
  {
    (if exists p :: p in changed && Treeless(env, p, disk[p]) then map["" := NO_ROW] else map[])
    + map p | p in changed && Extractable(env, p, disk[p]) :: RowOf(env, p, disk[p])
  }

  // ----- the effect on the store ----------------------------------------------------------

  function Without(db: Db, gone: set<string>): Db { Db(db.files - gone, db.graph - gone) }

  predicate Skips(db: Db, path: string, row: FileRow)
  {
    path in db.files && db.files[path].hash == row.hash && db.files[path].nodeCount == row.nodeCount
  }

  predicate Writes(env: Env, db: Db, path: string, row: FileRow)
  {
    path !in env.faults && !Skips(db, path, row)
  }

  /** The nodes follow only where the store transaction ran and went through. */
  function GraphWrites(env: Env, db: Db, rows: map<string, FileRow>): map<string, string>
  {
    map p | p in rows && Writes(env, db, p, rows[p]) :: rows[p].hash
  }

  /** The metadata update covers every batch, stored or not, and the removed paths are
      deleted a second time. */
  function Reindexed(env: Env, db: Db, rows: map<string, FileRow>, gone: set<string>): Db
  {
    var cleared := Without(db, gone);
    Without(Db(cleared.files + rows, cleared.graph + GraphWrites(env, cleared, rows)), gone)
  }

  function Cycle(env: Env, db: Db, disk: map<string, DiskFile>, buffered: set<string>): Db
  {
    if Quiet(env, db, disk, buffered) then db
    else Reindexed(env, db, RowsOf(env, disk, Changed(env, db.files, disk)), Removed(env, db.files, disk) + buffered)
  }

  // ----- the code -------------------------------------------------------------------------

  datatype Batch = Batch(path: string, row: FileRow)

  function BatchRows(batches: seq<Batch>): map<string, FileRow>
  {
    if |batches| == 0 then map[]
    else BatchRows(batches[..|batches|-1])[batches[|batches|-1].path := batches[|batches|-1].row]
  }

  /** Batches of one path are equal: only batches without a path can share one. */
  ghost predicate Coherent(batches: seq<Batch>)
  {
    forall i, j :: 0 <= i < |batches| && 0 <= j < |batches| && batches[i].path == batches[j].path ==> batches[i] == batches[j]
  }

  function StoreOne(env: Env, db: Db, b: Batch): Db
  {
    if Writes(env, db, b.path, b.row) then Db(db.files[b.path := b.row], db.graph[b.path := b.row.hash]) else db
  }

  function StoreAll(env: Env, db: Db, batches: seq<Batch>): Db
  {
    if |batches| == 0 then db else StoreOne(env, StoreAll(env, db, batches[..|batches|-1]), batches[|batches|-1])
  }

  lemma {:induction false} BatchRowsKeys(batches: seq<Batch>)
    requires Coherent(batches)
    ensures forall b :: b in batches ==> b.path in BatchRows(batches) && BatchRows(batches)[b.path] == b.row
    ensures forall p :: p in BatchRows(batches) ==> Batch(p, BatchRows(batches)[p]) in batches
  {
    if |batches| > 0 {
      var init, last := batches[..|batches|-1], batches[|batches|-1];
      BatchRowsKeys(init);
      assert batches == init + [last];
    }
  }

  function FileWrites(env: Env, db: Db, rows: map<string, FileRow>): map<string, FileRow>
  {
    map p | p in rows && Writes(env, db, p, rows[p]) :: rows[p]
  }

  lemma GraphStep(env: Env, db: Db, rows: map<string, FileRow>, b: Batch)
    requires b.path in rows ==> rows[b.path] == b.row
    ensures GraphWrites(env, db, rows[b.path := b.row])
         == GraphWrites(env, db, rows) + if Writes(env, db, b.path, b.row) then map[b.path := b.row.hash] else map[]
  {
    hide Writes;
  }

  lemma FileStep(env: Env, db: Db, rows: map<string, FileRow>, b: Batch)
    requires b.path in rows ==> rows[b.path] == b.row
    ensures FileWrites(env, db, rows[b.path := b.row])
         == FileWrites(env, db, rows) + if Writes(env, db, b.path, b.row) then map[b.path := b.row] else map[]
  {
    hide Writes;
  }

  /** A second store of the same batch finds it stored, or fails again. */
  lemma StoreStep(env: Env, db: Db, rows: map<string, FileRow>, b: Batch)
    requires b.path in rows ==> rows[b.path] == b.row
    ensures var d := Db(db.files + FileWrites(env, db, rows), db.graph + GraphWrites(env, db, rows));
            var more := rows[b.path := b.row];
            StoreOne(env, d, b) == Db(db.files + FileWrites(env, db, more), db.graph + GraphWrites(env, db, more))
  {
    GraphStep(env, db, rows, b);
    FileStep(env, db, rows, b);
    hide FileWrites, GraphWrites;
    if b.path in rows {
      assert rows[b.path := b.row] == rows;
    } else if Writes(env, db, b.path, b.row) {
      MapPush(db.files, FileWrites(env, db, rows), b.path, b.row);
      MapPush(db.graph, GraphWrites(env, db, rows), b.path, b.row.hash);
    } else {
      assert FileWrites(env, db, rows[b.path := b.row]) == FileWrites(env, db, rows);
      assert GraphWrites(env, db, rows[b.path := b.row]) == GraphWrites(env, db, rows);
    }
  }

  lemma MapPush<V>(a: map<string, V>, b: map<string, V>, k: string, v: V)
    ensures (a + b)[k := v] == a + (b + map[k := v])
  {
  }

  /** Storing in any order writes what the first look at the store decides. */
  lemma {:induction false} StoreAllWrites(env: Env, db: Db, batches: seq<Batch>)
    requires Coherent(batches)
    ensures StoreAll(env, db, batches)
         == Db(db.files + FileWrites(env, db, BatchRows(batches)), db.graph + GraphWrites(env, db, BatchRows(batches)))
  {
    hide FileWrites, GraphWrites, StoreOne;
    if |batches| == 0 {
      NoWrites(env, db);
    } else {
      var init, last := batches[..|batches|-1], batches[|batches|-1];
      StoreAllWrites(env, db, init);
      BatchRowsKeys(init);
      StoreStep(env, db, BatchRows(init), last);
    }
  }

  lemma NoWrites(env: Env, db: Db)
    ensures db == Db(db.files + FileWrites(env, db, map[]), db.graph + GraphWrites(env, db, map[]))
  {
  }

  class SyncStore {
    const env: Env
    var db: Db

    constructor (env: Env)
      ensures this.env == env && db == Db(map[], map[])
    {
      this.env := env;
      db := Db(map[], map[]);
    }

    method DeleteFile(path: string)
      modifies this
      ensures db == Without(old(db), {path})
    {
      db := Without(db, {path});
    }

    method StoreBatch(b: Batch)
      modifies this
      ensures db == StoreOne(env, old(db), b)
    {
      if Skips(db, b.path, b.row) {
        return;
      }
      if b.path !in env.faults {
        db := Db(db.files[b.path := b.row], db.graph[b.path := b.row.hash]);
      }
    }

    method UpdateFileMetadata(batches: seq<Batch>)
      modifies this
      ensures db == Db(old(db).files + BatchRows(batches), old(db).graph)
    {
      for i := 0 to |batches|
        invariant db == Db(old(db).files + BatchRows(batches[..i]), old(db).graph)
      {
        assert batches[..i+1][..i] == batches[..i];
        db := Db(db.files[batches[i].path := batches[i].row], db.graph);
      }
      assert batches[..|batches|] == batches;
    }

    method DeleteAll(paths: seq<string>)
      modifies this
      ensures db == Without(old(db), Elems(paths))
    {
      for i := 0 to |paths|
        invariant db == Without(old(db), Elems(paths[..i]))
      {
        DeleteFile(paths[i]);
        assert paths[..i+1] == paths[..i] + [paths[i]];
        ElemsConcat(paths[..i], [paths[i]]);
      }
      assert paths[..|paths|] == paths;
    }

    /** Compares disk and store, in whatever order the maps are visited. */
    method Classify(disk: map<string, DiskFile>) returns (added: seq<string>, modified: seq<string>, removed: seq<string>)
      ensures Elems(added) == Added(db.files, disk)
      ensures Elems(modified) == Edited(env, db.files, disk)
      ensures Elems(removed) == Removed(env, db.files, disk)
    {
      added, modified := ClassifyDisk(db.files, disk);
      removed := FindRemoved(db.files, disk);
    }

    method ClassifyDisk(files: map<string, FileRow>, disk: map<string, DiskFile>) returns (added: seq<string>, modified: seq<string>)
      ensures Elems(added) == Added(files, disk) && Elems(modified) == Edited(env, files, disk)
    {
      added, modified := [], [];
      var rest := disk.Keys;
      while rest != {}
        invariant rest <= disk.Keys
        invariant forall p :: p in added <==> p in disk && p !in rest && p !in files
        invariant forall p :: p in modified <==> p in disk && p !in rest && p in files && Modified(env, disk[p], files[p])
        decreases |rest|
      {
        var p :| p in rest;
        rest := rest - {p};
        if p !in files {
          added := added + [p];
        } else if disk[p].mtime != files[p].mtime {
          modified := modified + [p];
        } else if |disk[p].raw| != files[p].size {
          if HashOf(env, disk[p]) != files[p].hash {
            modified := modified + [p];
          }
        }
      }
    }

    method FindRemoved(files: map<string, FileRow>, disk: map<string, DiskFile>) returns (removed: seq<string>)
      ensures Elems(removed) == Removed(env, files, disk)
    {
      removed := [];
      var rest := files.Keys;
      while rest != {}
        invariant rest <= files.Keys
        invariant forall p :: p in removed <==> p in files && p !in rest && p !in disk && !Virtual(env, p)
        decreases |rest|
      {
        var p :| p in rest;
        rest := rest - {p};
        if p !in disk && !Virtual(env, p) {
          removed := removed + [p];
        }
      }
    }

    method Extract(disk: map<string, DiskFile>, paths: seq<string>) returns (batches: seq<Batch>)
      requires Elems(paths) <= disk.Keys && "" !in disk
      ensures Coherent(batches) && BatchRows(batches) == RowsOf(env, disk, Elems(paths))
    {
      batches := [];
      for i := 0 to |paths|
        invariant BatchesOf(env, disk, paths[..i], batches)
      {
        var p := paths[i];
        assert p in Elems(paths);
        BatchesStep(env, disk, paths, i, batches);
        if Readable(disk[p]) {
          match env.parse(p, StripBom(disk[p].raw)) {
            case None => batches := batches + [Batch("", NO_ROW)];
            case Some(n) =>
              batches := batches + [Batch(p, FileRow(Stamp(env, p, disk[p]), |StripBom(disk[p].raw)|, HashOf(env, disk[p]), n))];
          }
        }
      }
      assert paths[..|paths|] == paths;
      BatchesAre(env, disk, paths, batches);
    }

    method ProcessChanges(disk: map<string, DiskFile>, paths: seq<string>, removed: seq<string>) returns (batches: seq<Batch>)
      requires Elems(paths) <= disk.Keys && "" !in disk
      modifies this
      ensures Coherent(batches) && BatchRows(batches) == RowsOf(env, disk, Elems(paths))
      ensures db == StoreAll(env, Without(old(db), Elems(removed)), batches)
    {
      DeleteAll(removed);
      ghost var cleared := db;
      batches := Extract(disk, paths);
      for i := 0 to |batches|
        invariant db == StoreAll(env, cleared, batches[..i])
      {
        StoreBatch(batches[i]);
        assert batches[..i+1][..i] == batches[..i];
      }
      assert batches[..|batches|] == batches;
    }

    /** The whole cycle is the function `Cycle` of the state it starts in. */
    method RunSyncCycle(disk: map<string, DiskFile>, bufferedRemoves: seq<string>) returns (noop: bool)
      requires "" !in disk
      modifies this
      ensures noop == Quiet(env, old(db), disk, Elems(bufferedRemoves))
      ensures db == Cycle(env, old(db), disk, Elems(bufferedRemoves))
    {
      var added, modified, removed := Classify(disk);
      var allRemoved := FoldRemoves(removed, bufferedRemoves);
      EmptyIff(added);
      EmptyIff(modified);
      EmptyIff(allRemoved);
      ElemsConcat(added, modified);
      ElemsConcat(removed, bufferedRemoves);
      if |added| == 0 && |modified| == 0 && |allRemoved| == 0 {
        return true;
      }
      Reindex(disk, added + modified, allRemoved);
      return false;
    }

    method FoldRemoves(removed: seq<string>, buffered: seq<string>) returns (all: seq<string>)
      ensures Elems(all) == Elems(removed + buffered)
    {
      all := removed;
      for i := 0 to |buffered|
        invariant forall p :: p in all <==> p in removed || p in buffered[..i]
      {
        assert buffered[..i+1] == buffered[..i] + [buffered[i]];
        if buffered[i] !in removed {
          all := all + [buffered[i]];
        }
      }
    }

    method Reindex(disk: map<string, DiskFile>, paths: seq<string>, removed: seq<string>)
      requires Elems(paths) <= disk.Keys && "" !in disk
      modifies this
      ensures db == Reindexed(env, old(db), RowsOf(env, disk, Elems(paths)), Elems(removed))
    {
      hide RowsOf;
      var batches := ProcessChanges(disk, paths, removed);
      ghost var cleared := Without(old(db), Elems(removed));
      StoreAllWrites(env, cleared, batches);
      WritesCovered(env, cleared, BatchRows(batches));
      UpdateFileMetadata(batches);
      DeleteAll(removed);
    }
  }

  lemma WritesCovered(env: Env, db: Db, rows: map<string, FileRow>)
    ensures db.files + FileWrites(env, db, rows) + rows == db.files + rows
  {
  }

  lemma ElemsConcat(s: seq<string>, t: seq<string>)
    ensures Elems(s + t) == Elems(s) + Elems(t)
  {
  }

  lemma EmptyIff(s: seq<string>)
    ensures |s| == 0 <==> Elems(s) == {}
  {
    if |s| > 0 { assert s[0] in Elems(s); }
  }

  // ----- what extraction collects ----------------------------------------------------------

  ghost predicate BatchesOf(env: Env, disk: map<string, DiskFile>, paths: seq<string>, batches: seq<Batch>)
  {
    && Elems(paths) <= disk.Keys
    && (forall b :: b in batches ==>
          if b.path == "" then b.row == NO_ROW && exists p :: p in paths && Treeless(env, p, disk[p])
          else b.path in paths && Extractable(env, b.path, disk[b.path]) && b.row == RowOf(env, b.path, disk[b.path]))
    && (forall p :: p in paths && Extractable(env, p, disk[p]) ==> Batch(p, RowOf(env, p, disk[p])) in batches)
    && (forall p :: p in paths && Treeless(env, p, disk[p]) ==> Batch("", NO_ROW) in batches)
  }

  /** What the batches of one more path must be. */
  lemma BatchesStep(env: Env, disk: map<string, DiskFile>, paths: seq<string>, i: nat, batches: seq<Batch>)
    requires i < |paths| && Elems(paths) <= disk.Keys && "" !in disk && BatchesOf(env, disk, paths[..i], batches)
    requires paths[i] in disk
    ensures var p, f := paths[i], disk[paths[i]];
            && (!Readable(f) ==> BatchesOf(env, disk, paths[..i+1], batches))
            && (Treeless(env, p, f) ==> BatchesOf(env, disk, paths[..i+1], batches + [Batch("", NO_ROW)]))
            && (Extractable(env, p, f) ==> BatchesOf(env, disk, paths[..i+1], batches + [Batch(p, RowOf(env, p, f))]))
  {
    var q, f := paths[i], disk[paths[i]];
    assert paths[..i+1] == paths[..i] + [q];
    hide *;
    KindsOfFile(env, q, f);
    if Treeless(env, q, f) {
      OneMoreBatch(env, disk, paths[..i], q, batches, [Batch("", NO_ROW)]);
    } else if Extractable(env, q, f) {
      OneMoreBatch(env, disk, paths[..i], q, batches, [Batch(q, RowOf(env, q, f))]);
    } else {
      OneMoreBatch(env, disk, paths[..i], q, batches, []);
      assert batches + [] == batches;
    }
  }

  lemma KindsOfFile(env: Env, q: string, f: DiskFile)
    ensures !Readable(f) ==> !Treeless(env, q, f) && !Extractable(env, q, f)
    ensures Readable(f) ==> Treeless(env, q, f) != Extractable(env, q, f)
  {
  }

  /** `more` is what the path q yields. */
  lemma OneMoreBatch(env: Env, disk: map<string, DiskFile>, paths: seq<string>, q: string, batches: seq<Batch>, more: seq<Batch>)
    requires BatchesOf(env, disk, paths, batches) && q in disk && q != ""
    requires Treeless(env, q, disk[q]) ==> more == [Batch("", NO_ROW)]
    requires Extractable(env, q, disk[q]) ==> more == [Batch(q, RowOf(env, q, disk[q]))]
    requires !Treeless(env, q, disk[q]) && !Extractable(env, q, disk[q]) ==> more == []
    ensures BatchesOf(env, disk, paths + [q], batches + more)
  {
    assert forall p :: p in paths + [q] <==> p in paths || p == q;
    assert Elems(paths + [q]) == Elems(paths) + {q};
    hide Readable, Treeless, Extractable, RowOf, Elems;
    forall b | b in batches + more
      ensures if b.path == "" then b.row == NO_ROW && exists p :: p in paths + [q] && Treeless(env, p, disk[p])
              else b.path in paths + [q] && Extractable(env, b.path, disk[b.path]) && b.row == RowOf(env, b.path, disk[b.path])
    {
      if b in more { assert q in paths + [q]; }
    }
  }

  /** The batch a path is recorded by. */
  lemma RowAt(env: Env, disk: map<string, DiskFile>, paths: seq<string>, batches: seq<Batch>, p: string, row: FileRow)
    requires BatchesOf(env, disk, paths, batches) && "" !in disk
    ensures Batch(p, row) in batches <==>
            p in RowsOf(env, disk, Elems(paths)) && RowsOf(env, disk, Elems(paths))[p] == row
  {
    var changed := Elems(paths);
    if p == "" {
      assert (exists q :: q in changed && Treeless(env, q, disk[q])) <==> exists q :: q in paths && Treeless(env, q, disk[q]);
    }
  }

  lemma BatchesAre(env: Env, disk: map<string, DiskFile>, paths: seq<string>, batches: seq<Batch>)
    requires BatchesOf(env, disk, paths, batches) && "" !in disk
    ensures Coherent(batches) && BatchRows(batches) == RowsOf(env, disk, Elems(paths))
  {
    BatchRowsKeys(batches);
    forall p, row ensures Batch(p, row) in batches <==>
                          p in RowsOf(env, disk, Elems(paths)) && RowsOf(env, disk, Elems(paths))[p] == row
    {
      RowAt(env, disk, paths, batches, p, row);
    }
    hide RowsOf, BatchesOf, BatchRows, Coherent;
    var rows, had := RowsOf(env, disk, Elems(paths)), BatchRows(batches);
    forall p | p in rows ensures p in had && had[p] == rows[p] { assert Batch(p, rows[p]) in batches; }
    forall p | p in had ensures p in rows { assert Batch(p, had[p]) in batches; }
  }

  // ----- the theorems ----------------------------------------------------------------------

  /** Which paths have a record after a cycle, exactly: a walked file keeps or gets one
      unless it does not extract, an absent file keeps one only below the manifest
      directory, buffered removes lose theirs even when the file exists, and a changed
      file without a tree leaves a record with an empty path unless one was just removed. */
  lemma PathsAfter(env: Env, db: Db, disk: map<string, DiskFile>, buffered: set<string>, p: string)
    requires "" !in disk
    ensures p in Cycle(env, db, disk, buffered).files <==>
            && p !in buffered
            && if p in disk then p in db.files || Extractable(env, p, disk[p])
               else if p in db.files then Virtual(env, p)
               else p == "" && exists q :: q in Changed(env, db.files, disk) && Treeless(env, q, disk[q])
  {
    if Quiet(env, db, disk, buffered) {
      assert p !in Changed(env, db.files, disk) && p !in Removed(env, db.files, disk) + buffered;
    }
  }

  /** The store mirrors the disk: with no buffered removes and files that extract, the
      stored paths are the walked ones and the old virtual ones. */
  lemma CycleMirrorsDisk(env: Env, db: Db, disk: map<string, DiskFile>)
    requires "" !in disk && forall p :: p in Changed(env, db.files, disk) ==> Extractable(env, p, disk[p])
    ensures Cycle(env, db, disk, {}).files.Keys == disk.Keys + set p | p in db.files && p !in disk && Virtual(env, p)
  {
    var after := Cycle(env, db, disk, {}).files;
    forall p ensures p in after <==> p in disk || (p in db.files && p !in disk && Virtual(env, p)) {
      PathsAfter(env, db, disk, {}, p);
      if p in disk && p !in db.files { assert p in Changed(env, db.files, disk); }
    }
  }

  /** Which edits a cycle misses, exactly: the stored hash is the hash of the file unless
      the edit kept both mtime and size. */
  lemma HashAfter(env: Env, db: Db, disk: map<string, DiskFile>, p: string)
    requires "" !in disk && p in disk && Extractable(env, p, disk[p])
    ensures p in Cycle(env, db, disk, {}).files
    ensures Cycle(env, db, disk, {}).files[p].hash == HashOf(env, disk[p])
       <==> !(p in db.files && LooksSame(disk[p], db.files[p]) && db.files[p].hash != HashOf(env, disk[p]))
  {
    PathsAfter(env, db, disk, {}, p);
  }

  /** An edit from a to b that keeps mtime and size leaves everything as it was. */
  lemma SilentEditIsMissed(env: Env, p: string, mtime: int, a: seq<byte>, b: seq<byte>, nodeCount: nat)
    requires |a| == |b| && env.hash(StripBom(a)) != env.hash(StripBom(b))
    ensures var row := FileRow(mtime, |a|, env.hash(StripBom(a)), nodeCount);
            var db, file := Db(map[p := row], map[p := row.hash]), DiskFile(mtime, b);
            Cycle(env, db, map[p := file], {}) == db && row.hash != HashOf(env, file)
  {
    var row := FileRow(mtime, |a|, env.hash(StripBom(a)), nodeCount);
    assert !Modified(env, DiskFile(mtime, b), row);
  }

  /** The file has a batch of its own whose record passes for the file. */
  predicate Settles(env: Env, p: string, f: DiskFile)
  {
    Extractable(env, p, f) && (env.stamps(p) || f.mtime == 0)
  }

  lemma ChangedAgain(env: Env, db: Db, disk: map<string, DiskFile>, p: string)
    requires "" !in disk && p in disk
    ensures var after := Cycle(env, db, disk, {}).files;
            (p !in after || Modified(env, disk[p], after[p])) <==>
            (p !in db.files || Modified(env, disk[p], db.files[p])) && !Settles(env, p, disk[p])
  {
    PathsAfter(env, db, disk, {}, p);
    assert p in Changed(env, db.files, disk) <==> p !in db.files || Modified(env, disk[p], db.files[p]);
  }

  lemma NotRemovedAgain(env: Env, db: Db, disk: map<string, DiskFile>, p: string)
    requires "" !in disk && forall q :: q in Changed(env, db.files, disk) ==> Extractable(env, q, disk[q])
    requires p in Cycle(env, db, disk, {}).files && p !in disk
    ensures Virtual(env, p)
  {
    PathsAfter(env, db, disk, {}, p);
    assert forall q :: q in Changed(env, db.files, disk) ==> !Treeless(env, q, disk[q]);
  }

  /** When a second cycle finds nothing to do: exactly when every file the first one found
      changed has a batch of its own that records its time. Any other file is found changed
      for ever; a byte order mark makes the sizes differ but the hashes settle it. */
  lemma SecondCycleIsQuiet(env: Env, db: Db, disk: map<string, DiskFile>)
    requires "" !in disk
    ensures Quiet(env, Cycle(env, db, disk, {}), disk, {})
       <==> forall p :: p in Changed(env, db.files, disk) ==> Settles(env, p, disk[p])
  {
    var after := Cycle(env, db, disk, {});
    hide Cycle, Modified, Settles;
    forall p | p in disk
      ensures p in Changed(env, after.files, disk) <==> p in Changed(env, db.files, disk) && !Settles(env, p, disk[p])
    {
      ChangedAgain(env, db, disk, p);
    }
    if forall p :: p in Changed(env, db.files, disk) ==> Settles(env, p, disk[p]) {
      SettledExtract(env, db, disk);
      assert Changed(env, after.files, disk) == {};
      forall p | p in after.files && p !in disk ensures Virtual(env, p) { NotRemovedAgain(env, db, disk, p); }
      assert Removed(env, after.files, disk) == {};
    } else {
      var p :| p in Changed(env, db.files, disk) && !Settles(env, p, disk[p]);
      assert p in Changed(env, after.files, disk);
    }
  }

  const EMPTY: Db := Db(map[], map[])

  /** The first cycle over a file whose extractor records time 0 is not the last. */
  lemma UnstampedFileChangesAgain(env: Env, p: string, f: DiskFile)
    requires p != "" && Extractable(env, p, f) && !env.stamps(p) && f.mtime != 0
    ensures !Quiet(env, Cycle(env, EMPTY, map[p := f], {}), map[p := f], {})
  {
    SecondCycleIsQuiet(env, EMPTY, map[p := f]);
    assert p in Changed(env, EMPTY.files, map[p := f]);
  }

  lemma SettledExtract(env: Env, db: Db, disk: map<string, DiskFile>)
    requires forall p :: p in Changed(env, db.files, disk) ==> Settles(env, p, disk[p])
    ensures forall p :: p in Changed(env, db.files, disk) ==> Extractable(env, p, disk[p])
  {
  }

  /** Every record describes the text its nodes came from. */
  ghost predicate Consistent(db: Db)
  {
    db.graph.Keys <= db.files.Keys && forall p :: p in db.files ==> InStep(db, p)
  }

  predicate InStep(db: Db, p: string)
  {
    p in db.files && p in db.graph && db.graph[p] == db.files[p].hash
  }

  lemma InStepAfter(env: Env, db: Db, rows: map<string, FileRow>, gone: set<string>, p: string)
    requires Consistent(db) && p in Reindexed(env, db, rows, gone).files
    ensures InStep(Reindexed(env, db, rows, gone), p)
       <==> (p in rows && p in env.faults ==> p in db.files && db.files[p].hash == rows[p].hash)
  {
  }

  /** The metadata update does not ask whether the batch was stored. A cycle keeps records
      and nodes together exactly when no store fails for a text the store did not have. */
  lemma ConsistentAfter(env: Env, db: Db, disk: map<string, DiskFile>, buffered: set<string>)
    requires "" !in disk && Consistent(db)
    ensures Consistent(Cycle(env, db, disk, buffered)) <==>
            (Quiet(env, db, disk, buffered) ||
             var rows := RowsOf(env, disk, Changed(env, db.files, disk));
             forall p :: p in rows && p in env.faults && p !in Removed(env, db.files, disk) + buffered ==>
               p in db.files && db.files[p].hash == rows[p].hash)
  {
    if !Quiet(env, db, disk, buffered) {
      var gone := Removed(env, db.files, disk) + buffered;
      var rows := RowsOf(env, disk, Changed(env, db.files, disk));
      var after := Reindexed(env, db, rows, gone);
      forall p | p in after.files
        ensures InStep(after, p) <==> (p in rows && p in env.faults ==> p in db.files && db.files[p].hash == rows[p].hash)
      {
        InStepAfter(env, db, rows, gone, p);
      }
      forall p | p in rows && p !in gone ensures p in after.files {}
      assert after.graph.Keys <= after.files.Keys;
    }
  }

  /** A new file whose store fails is recorded without its nodes. */
  lemma FailedStoreIsRecorded(env: Env, p: string, f: DiskFile)
    requires p != "" && Extractable(env, p, f) && p in env.faults
    ensures var after := Cycle(env, EMPTY, map[p := f], {});
            p in after.files && after.files[p] == RowOf(env, p, f) && p !in after.graph && !Consistent(after)
  {
    PathsAfter(env, EMPTY, map[p := f], {}, p);
    assert p in Changed(env, EMPTY.files, map[p := f]);
  }

  // ----- by the texts themselves ---------------------------------------------------------------

  /** Virtual paths are the manifest directory and what lies below it. */
  lemma VirtualIs(env: Env, p: string)
    ensures Virtual(env, p) <==> p == env.routes || exists rest :: p == env.routes + "/" + rest
  {
    var below := env.routes + "/";
    if below <= p { assert p == env.routes + "/" + p[|below|..]; }
  }

  /** A cycle drops the record of an absent file unless it lies there. */
  lemma AbsentFileIsDropped(env: Env, db: Db, disk: map<string, DiskFile>, p: string)
    requires "" !in disk && p != "" && p in db.files && p !in disk
    ensures p in Cycle(env, db, disk, {}).files <==> p == env.routes || exists rest :: p == env.routes + "/" + rest
  {
    PathsAfter(env, db, disk, {}, p);
    VirtualIs(env, p);
    hide Virtual;
  }

  /** A byte order mark of three bytes is not part of the text. */
  lemma BomIsDropped(t: seq<byte>)
    ensures StripBom([0xEF, 0xBB, 0xBF] + t) == t
    ensures (|t| < 3 || t[0] != 0xEF || t[1] != 0xBB || t[2] != 0xBF) ==> StripBom(t) == t
  {
    assert ([0xEF, 0xBB, 0xBF] + t)[3..] == t;
  }

  /** A file that a cycle finds new or changed gets the record of its text: its time, if
      the extractor records one, and size, hash and nodes of the text without the mark. */
  lemma ChangedFileIsRecorded(env: Env, db: Db, disk: map<string, DiskFile>, p: string, nodes: nat)
    requires "" !in disk && p in disk && Extractable(env, p, disk[p]) && env.parse(p, StripBom(disk[p].raw)) == Some(nodes)
    requires p in db.files ==>
               db.files[p].mtime != disk[p].mtime
               || (db.files[p].size != |disk[p].raw| && db.files[p].hash != env.hash(StripBom(disk[p].raw)))
    ensures var text, after := StripBom(disk[p].raw), Cycle(env, db, disk, {});
            p in after.files
            && after.files[p] == FileRow(if env.stamps(p) then disk[p].mtime else 0, |text|, env.hash(text), nodes)
  {
    assert p in Changed(env, db.files, disk);
    PathsAfter(env, db, disk, {}, p);
  }

  /** Any other record stays as it is. */
  lemma UnchangedFileKeepsRecord(env: Env, db: Db, disk: map<string, DiskFile>, p: string)
    requires "" !in disk && p in disk && p in db.files && db.files[p].mtime == disk[p].mtime
    requires db.files[p].size == |disk[p].raw| || db.files[p].hash == env.hash(StripBom(disk[p].raw))
    ensures p in Cycle(env, db, disk, {}).files && Cycle(env, db, disk, {}).files[p] == db.files[p]
  {
    assert p !in Changed(env, db.files, disk);
    PathsAfter(env, db, disk, {}, p);
  }

  /** Its nodes are stored anew, unless the store fails or the text and the number of nodes
      are those of the record; then they stay as they were. */
  lemma ChangedFileIsIndexed(env: Env, db: Db, disk: map<string, DiskFile>, p: string, nodes: nat)
    requires "" !in disk && p in disk && Extractable(env, p, disk[p]) && env.parse(p, StripBom(disk[p].raw)) == Some(nodes)
    requires p in db.files ==>
               db.files[p].mtime != disk[p].mtime
               || (db.files[p].size != |disk[p].raw| && db.files[p].hash != env.hash(StripBom(disk[p].raw)))
    ensures var hash, after := env.hash(StripBom(disk[p].raw)), Cycle(env, db, disk, {});
            var same := p in db.files && db.files[p].hash == hash && db.files[p].nodeCount == nodes;
            if p in env.faults || same then (p in after.graph <==> p in db.graph) && (p in db.graph ==> after.graph[p] == db.graph[p])
            else p in after.graph && after.graph[p] == hash
  {
    assert p in Changed(env, db.files, disk);
    PathsAfter(env, db, disk, {}, p);
  }

  /** A new file without a syntax tree leaves the record of no path. */
  lemma TreelessFileIsRecorded(env: Env, db: Db, disk: map<string, DiskFile>, p: string)
    requires "" !in disk && "" !in db.files && p in disk && p !in db.files && Treeless(env, p, disk[p])
    ensures var after := Cycle(env, db, disk, {}).files;
            p !in after && "" in after && after[""] == FileRow(0, 0, "", 0)
  {
    assert p in Changed(env, db.files, disk);
    PathsAfter(env, db, disk, {}, p);
    PathsAfter(env, db, disk, {}, "");
  }
}
