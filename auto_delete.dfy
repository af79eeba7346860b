/** The recycle-bin engine of auto_delete.c.

    A held file lives in the recycle bin under "<timestamp>_<basename>", and a tracking table
    row records where it came from and when it falls due. The file system is a map from path
    to node. The SQLite table is a map from row id to row. Each system call and each SQL
    statement is one atomic update of these maps. Faults the environment may inject are
    explicit parameters. */
module AutoDelete {
  import opened Wrappers
  import opened Paths
  import Decimal

  newtype byte = x: int | 0 <= x < 256

  datatype Node = File(data: seq<byte>) | Dir

  type Fs = map<string, Node>

  /** One row of deleted_files (id INTEGER PRIMARY KEY, original_path, delete_timestamp,
      scheduled_deletion, file_type). */
  datatype Row = Row(originalPath: string, deleteTimestamp: int, scheduledDeletion: int, fileType: string)

  type Table = map<int, Row>

  /** How the tracking database behaves during one operation: it opens and accepts writes, it
      cannot be opened (or the statement cannot be prepared), or it opens but every write
      fails. The engine ignores the result of its DELETE statements, so a write failure there
      goes unnoticed. */
  datatype StoreMode = Healthy | Unopenable | ReadOnly

  /** The environment's faults for one operation. rename(2) and mkdir(2) may fail for reasons
      the model does not track (permissions, devices, quotas). unlink(2) may be refused for the
      held paths in `refused`. */
  datatype Faults = Faults(store: StoreMode, renameFails: bool, mkdirFails: bool, refused: set<string>)

  const NoFaults := Faults(Healthy, false, false, {})

  /** DEFAULT_RETENTION_SECS of auto_delete.h. */
  const DefaultRetentionSecs := 60

  /** What one operation returned and the file system and table it left behind. */
  datatype After<O> = After(out: O, fs: Fs, table: Table)

  predicate IsDir(fs: Fs, p: string) {
    p in fs && fs[p].Dir?
  }

  /** dst names something strictly below the directory src. */
  predicate IsWithin(dst: string, src: string) {
    src != [] && |src| < |dst| && dst[..|src|] == src && (src[|src| - 1] == '/' || dst[|src|] == '/')
  }

  // ---------------------------------------------------------------- the system calls

  /** p lies strictly below the directory d: d's path, a '/', then more. */
  predicate Below(p: string, d: string) {
    d != [] && |d| < |p| && p[..|d|] == d && p[|d|] == '/'
  }

  /** The paths rename(2) takes along from src: src itself and, for a directory, every path
      below it. */
  predicate Carried(fs: Fs, src: string, p: string)
    requires src in fs
  {
    p == src || (fs[src].Dir? && Below(p, src))
  }

  /** Where rename(2) puts a path it takes along: dst followed by what came after src. */
  function Relocated(p: string, src: string, dst: string): string
    requires |src| <= |p|
  {
    dst + p[|src|..]
  }

  /** A path below src lands below dst, after the same remainder. */
  lemma RelocatedBelow(p: string, src: string, dst: string)
    requires Below(p, src) && dst != []
    ensures Below(Relocated(p, src, dst), dst)
    ensures Relocated(p, src, dst)[|dst|..] == p[|src|..]
  {
    var q := Relocated(p, src, dst);
    assert q[..|dst|] == dst;
    assert q[|dst|] == p[|src|];
  }

  /** Different paths taken along land at different places. */
  lemma RelocatedInjective(fs: Fs, src: string, dst: string)
    requires src in fs && dst != []
    ensures forall p1, p2 ::
              (p1 in fs && p2 in fs && Carried(fs, src, p1) && Carried(fs, src, p2)
               && Relocated(p1, src, dst) == Relocated(p2, src, dst)) ==> p1 == p2
  {
    forall p1, p2 | p1 in fs && p2 in fs && Carried(fs, src, p1) && Carried(fs, src, p2)
                    && Relocated(p1, src, dst) == Relocated(p2, src, dst)
      ensures p1 == p2
    {
      var q := Relocated(p1, src, dst);
      assert p1[|src|..] == q[|dst|..] == p2[|src|..];
      assert p1 == p1[..|src|] + p1[|src|..];
      assert p2 == p2[..|src|] + p2[|src|..];
    }
  }

  /** Below implies IsWithin. */
  lemma BelowIsWithin(p: string, d: string)
    requires Below(p, d)
    ensures IsWithin(p, d)
  {
  }

  /** The tree after src, with everything it takes along, has moved to dst. */
  function MoveTree(fs: Fs, src: string, dst: string): (r: Fs)
    requires src in fs && dst != []
    ensures forall p :: p in fs && Carried(fs, src, p) ==>
              Relocated(p, src, dst) in r && r[Relocated(p, src, dst)] == fs[p]
    ensures forall p :: p in fs && Carried(fs, src, p) && p != dst && !(fs[src].Dir? && Below(p, dst)) ==> p !in r
    ensures forall p :: p in fs && !Carried(fs, src, p) && p != dst && !(fs[src].Dir? && Below(p, dst)) ==>
              p in r && r[p] == fs[p]
    ensures forall q :: q in r ==> (q in fs && !Carried(fs, src, q)) || q == dst || (fs[src].Dir? && Below(q, dst))
  {
    RelocatedInjective(fs, src, dst);
    assert forall p :: p in fs && Carried(fs, src, p) && p != src ==> Below(Relocated(p, src, dst), dst) by {
      forall p | p in fs && Carried(fs, src, p) && p != src
        ensures Below(Relocated(p, src, dst), dst)
      {
        RelocatedBelow(p, src, dst);
      }
    }
    var moved := map p | p in fs && Carried(fs, src, p) :: Relocated(p, src, dst) := fs[p];
    (fs - set p | p in fs && Carried(fs, src, p)) + moved
  }

  /** rename(2). It fails when either path is empty, src does not exist or the environment
      makes it fail. Renaming a path onto itself changes nothing. Otherwise it needs the
      destination's parent to be a directory and, when dst exists, the same kind of node
      there (EISDIR, ENOTDIR); a directory may not move below itself (EINVAL) nor replace a
      directory that is not empty (ENOTEMPTY). When it succeeds, src and everything below it
      move under dst, replacing what was at dst. */
  function RenameFs(fs: Fs, src: string, dst: string, fails: bool): (r: Option<Fs>)
    ensures fails || src !in fs ==> r.None?
    ensures r.Some? ==> src in fs && dst in r.value && r.value[dst] == fs[src]
    ensures r.Some? && src != dst ==> src !in r.value && IsDir(fs, Dirname(dst))
    ensures r.Some? && src != dst && dst in fs ==> fs[dst].Dir? == fs[src].Dir?
    ensures r.Some? && src != dst && fs[src].Dir? ==>
              !IsWithin(dst, src) && forall p :: p in fs ==> !Below(p, dst)
    ensures r.Some? ==> forall p :: p in fs && Carried(fs, src, p) ==>
              Relocated(p, src, dst) in r.value && r.value[Relocated(p, src, dst)] == fs[p]
    ensures r.Some? && src != dst ==> forall p :: p in fs && Carried(fs, src, p) ==> p !in r.value
    ensures r.Some? ==> forall p :: p in fs && !Carried(fs, src, p) && p != dst ==> p in r.value && r.value[p] == fs[p]
    ensures r.Some? ==> forall q :: q in r.value ==> q in fs || q == dst || (fs[src].Dir? && Below(q, dst))
    ensures (&& !fails && src in fs && src != [] && dst != [] && src != dst && dst !in fs && IsDir(fs, Dirname(dst))
             && (fs[src].Dir? ==> !IsWithin(dst, src) && forall p :: p in fs ==> !Below(p, dst))) ==> r.Some?
  {
    if fails || src !in fs || src == [] || dst == [] then None
    else if src == dst then
      assert forall p :: p in fs && Carried(fs, src, p) ==> Relocated(p, src, dst) == p by {
        forall p | p in fs && Carried(fs, src, p)
          ensures Relocated(p, src, dst) == p
        {
          assert p == p[..|src|] + p[|src|..];
        }
      }
      Some(fs)
    else if !IsDir(fs, Dirname(dst)) then None
    else if dst in fs && fs[dst].Dir? != fs[src].Dir? then None
    else if fs[src].Dir? && (IsWithin(dst, src) || exists p :: p in fs && Below(p, dst)) then None
    else
      assert fs[src].Dir? ==> forall p :: p in fs && Carried(fs, src, p) ==> p != dst && !Below(p, dst) by {
        if fs[src].Dir? {
          forall p | p in fs && Carried(fs, src, p)
            ensures p != dst && !Below(p, dst)
          {
            if p != src {
              BelowIsWithin(p, src);
            }
          }
        }
      }
      assert Relocated(src, src, dst) == dst;
      Some(MoveTree(fs, src, dst))
  }

  /** A regular file moves alone. */
  lemma RenameFile(fs: Fs, src: string, dst: string, fails: bool)
    requires src in fs && fs[src].File? && src != dst
    ensures var r := RenameFs(fs, src, dst, fails);
            r.Some? ==> r.value == (fs - {src})[dst := fs[src]]
  {
    var r := RenameFs(fs, src, dst, fails);
    if r.Some? {
      var e := (fs - {src})[dst := fs[src]];
      assert forall q :: q in r.value <==> q in e;
    }
  }

  /** mkdir(2) of a single level: p must be new and its parent a directory. */
  function MkdirFs(fs: Fs, p: string, fails: bool): (r: Option<Fs>)
    ensures r.Some? <==> !fails && p !in fs && IsDir(fs, Dirname(p))
    ensures r.Some? ==> r.value == fs[p := Dir]
  {
    if fails || p in fs || !IsDir(fs, Dirname(p)) then None else Some(fs[p := Dir])
  }

  /** create_directory: success when p already is a directory, failure when something else is
      there, and otherwise one mkdir. It creates no missing ancestors. */
  function CreateDirectory(fs: Fs, p: string, fails: bool): (r: Option<Fs>)
    ensures IsDir(fs, p) ==> r == Some(fs)
    ensures p in fs && !IsDir(fs, p) ==> r.None?
    ensures p !in fs && !IsDir(fs, Dirname(p)) ==> r.None?
    ensures p !in fs && IsDir(fs, Dirname(p)) && !fails ==> r == Some(fs[p := Dir])
    ensures r.Some? ==> IsDir(r.value, p) && (r.value == fs || (p !in fs && r.value == fs[p := Dir]))
    ensures r.Some? && r.value != fs ==> IsDir(fs, Dirname(p))
  {
    if p in fs then (if fs[p].Dir? then Some(fs) else None) else MkdirFs(fs, p, fails)
  }

  /** What unlink(2) did: removed the file, found nothing (ENOENT), or refused (a directory,
      or a refusal the environment injects). */
  datatype Unlinked = Removed(rest: Fs) | Missing | Refused

  function UnlinkFs(fs: Fs, p: string, refused: set<string>): (r: Unlinked)
    ensures r.Missing? <==> p !in fs
    ensures r.Removed? <==> p in fs && fs[p].File? && p !in refused
    ensures r.Removed? ==> r.rest == fs - {p}
  {
    if p !in fs then Missing
    else if fs[p].Dir? || p in refused then Refused
    else Removed(fs - {p})
  }

  // ---------------------------------------------------------------- the tracking table

  ghost function Max(s: set<int>): (m: int)
    requires s != {}
    ensures m in s && forall k :: k in s ==> k <= m
    decreases |s|
  {
    if forall x :: x !in s then assert false; 0
    else
      var x :| x in s;
      if forall k :: k in s ==> k <= x then x
      else
        var k :| k in s && k > x;
        assert k in s - {x};
        var y := Max(s - {x});
        assert forall k :: k in s ==> k == x || k in s - {x};
        if x < y then y else x
  }

  /** The rowid SQLite gives a row inserted without one: one more than the largest rowid in
      use, or 1 in an empty table. A freed largest id is given out again. */
  ghost function NextId(t: Table): (id: int)
    ensures id !in t
    ensures t == map[] ==> id == 1
    ensures t != map[] ==> id - 1 in t && forall k :: k in t ==> k < id
  {
    if t.Keys == {} then 1 else Max(t.Keys) + 1
  }

  /** A DELETE statement's effect: none when the database refuses writes. */
  function DropRow(t: Table, id: int, mode: StoreMode): (r: Table)
    ensures mode != ReadOnly ==> id !in r
    ensures forall k :: k in t && k != id ==> k in r && r[k] == t[k]
    ensures r.Keys <= t.Keys
  {
    if mode == ReadOnly then t else t - {id}
  }

  /** The held path of a row, rebuilt as restore_file and purge_expired rebuild it. */
  function HeldPath(bin: string, r: Row): (h: string) {
    PathJoin(bin, HeldName(r.deleteTimestamp, Basename(r.originalPath)))
  }

  /** Two rows share a held path exactly when they were deleted in the same second with the
      same basename. */
  lemma HeldPathCollision(bin: string, r1: Row, r2: Row)
    ensures HeldPath(bin, r1) == HeldPath(bin, r2) <==>
              r1.deleteTimestamp == r2.deleteTimestamp && Basename(r1.originalPath) == Basename(r2.originalPath)
  {
    var n1 := HeldName(r1.deleteTimestamp, Basename(r1.originalPath));
    var n2 := HeldName(r2.deleteTimestamp, Basename(r2.originalPath));
    if HeldPath(bin, r1) == HeldPath(bin, r2) {
      assert |n1| == |n2|;
      assert n1 == n2;
      HeldNameInjective(r1.deleteTimestamp, Basename(r1.originalPath), r2.deleteTimestamp, Basename(r2.originalPath));
    }
  }

  /** The held path is the bin, a '/' when the bin is not empty, and the held name. */
  lemma HeldPathEndsInName(bin: string, r: Row)
    ensures var h, name := HeldPath(bin, r), HeldName(r.deleteTimestamp, Basename(r.originalPath));
            && |h| > |bin| && h[..|bin|] == bin
            && |h| >= |bin| + |name| && h[|h| - |name|..] == name
            && (bin != [] ==> h[|h| - |name| - 1] == '/')
  {
    HeldNameShape(r.deleteTimestamp, Basename(r.originalPath));
  }

  /** The held path lies strictly below the recycle bin. */
  lemma HeldPathWithinBin(bin: string, r: Row)
    requires bin != []
    ensures IsWithin(HeldPath(bin, r), bin)
  {
  }

  // ---------------------------------------------------------------- delete_file

  datatype DeleteOutcome = NoAbsolutePath | NoSuchFile | MoveFailed | StoreFailed | Deleted(id: int)

  /** The row delete_file inserts for the resolved path abs. */
  function NewRow(abs: string, now: int, retention: int): (r: Row)
    ensures r.originalPath == abs && r.deleteTimestamp == now
    ensures r.scheduledDeletion - r.deleteTimestamp == retention
    ensures r.fileType == Extension(abs)
  {
    Row(abs, now, now + retention, Extension(abs))
  }

  /** delete_file. `resolved` is what realpath returned for the argument, `now` what time
      returned. The file is renamed before the database is opened, so a store failure leaves
      it held with no row. */
  ghost function DeleteEffect(bin: string, fs: Fs, table: Table, resolved: Option<string>, now: int, retention: int, f: Faults): (r: After<DeleteOutcome>)
    ensures r.out == NoAbsolutePath <==> resolved.None?
    ensures resolved.Some? && resolved.value !in fs ==> r.out == NoSuchFile
    ensures f.renameFails ==> r.fs == fs && r.table == table
    ensures !r.out.StoreFailed? && !r.out.Deleted? ==> r.fs == fs && r.table == table
    ensures r.out.StoreFailed? || r.out.Deleted? ==>
              && resolved.Some? && resolved.value in fs
              && var abs := resolved.value;
              && var held := HeldPath(bin, NewRow(abs, now, retention));
              && held in r.fs && r.fs[held] == fs[abs]
              && (forall p :: p in fs && Carried(fs, abs, p) ==>
                    Relocated(p, abs, held) in r.fs && r.fs[Relocated(p, abs, held)] == fs[p])
              && (held != abs ==> forall p :: p in fs && Carried(fs, abs, p) ==> p !in r.fs)
              && (forall p :: p in fs && !Carried(fs, abs, p) && p != held ==> p in r.fs && r.fs[p] == fs[p])
    ensures r.out.StoreFailed? ==> f.store != Healthy && r.table == table
    ensures r.out.Deleted? ==>
              && f.store == Healthy && r.out.id !in table
              && r.table == table[r.out.id := NewRow(resolved.value, now, retention)]
  {
    if resolved.None? then After(NoAbsolutePath, fs, table)
    else
      var abs := resolved.value;
      if abs !in fs then After(NoSuchFile, fs, table)
      else
        var row := NewRow(abs, now, retention);
        var moved := RenameFs(fs, abs, HeldPath(bin, row), f.renameFails);
        if moved.None? then After(MoveFailed, fs, table)
        else if f.store != Healthy then After(StoreFailed, moved.value, table)
        else
          var id := NextId(table);
          After(Deleted(id), moved.value, table[id := row])
  }

  // ---------------------------------------------------------------- restore_file

  datatype RestoreOutcome =
    | RestoreStoreError
    | NoSuchId
    | HeldFileMissing
    | DirectoryFailed
    | RestoreMoveFailed
    | Restored(target: string)

  /** restore_file. A row whose held file is gone is dropped. Otherwise the original directory
      is created (one level), the file goes back to its original path, or to the "_restored"
      name when that path is taken, and only then is the row dropped. */
  function RestoreEffect(bin: string, fs: Fs, table: Table, id: int, f: Faults): (r: After<RestoreOutcome>)
    ensures f.store == Unopenable ==> r == After(RestoreStoreError, fs, table)
    ensures f.store != Unopenable && id !in table ==> r == After(NoSuchId, fs, table)
    ensures r.out.HeldFileMissing? <==> f.store != Unopenable && id in table && HeldPath(bin, table[id]) !in fs
    ensures r.out.HeldFileMissing? ==> r.fs == fs && r.table == DropRow(table, id, f.store)
    ensures r.out.DirectoryFailed? ==> r.fs == fs && r.table == table
    ensures r.out.RestoreMoveFailed? ==>
              && id in table && r.table == table && HeldPath(bin, table[id]) in fs
              && var made := Dirname(table[id].originalPath);
              && (r.fs == fs || (made !in fs && r.fs == fs[made := Dir]))
    ensures r.out.Restored? ==>
              && id in table && r.table == DropRow(table, id, f.store)
              && var held := HeldPath(bin, table[id]);
              && var orig := table[id].originalPath;
              && var target := r.out.target;
              && held in fs && target in r.fs && r.fs[target] == fs[held]
              && (orig !in fs ==> target == orig)
              && (orig in fs ==> target == RestoredName(orig) && target != orig)
  {
    if f.store == Unopenable then After(RestoreStoreError, fs, table)
    else if id !in table then After(NoSuchId, fs, table)
    else
      var row := table[id];
      var held := HeldPath(bin, row);
      if held !in fs then After(HeldFileMissing, fs, DropRow(table, id, f.store))
      else
        var orig := row.originalPath;
        match CreateDirectory(fs, Dirname(orig), f.mkdirFails)
        case None => After(DirectoryFailed, fs, table)
        case Some(fs1) =>
          assert held in fs1 && fs1[held] == fs[held];
          assert (orig in fs1) == (orig in fs) by {
            if fs1 != fs {
              assert IsDir(fs, Dirname(Dirname(orig)));
            }
          }
          var target := if orig in fs1 then RestoredName(orig) else orig;
          match RenameFs(fs1, held, target, f.renameFails)
          case None => After(RestoreMoveFailed, fs1, table)
          case Some(fs2) => After(Restored(target), fs2, DropRow(table, id, f.store))
  }

  /** What a successful restore does to the tree: the held node and everything below it land
      at the target; the held path is gone unless it is the target; an occupied original keeps
      its content; nothing else changes except the directory restore_file made. */
  lemma RestoreFrame(bin: string, fs: Fs, table: Table, id: int, f: Faults)
    requires RestoreEffect(bin, fs, table, id, f).out.Restored?
    ensures var r := RestoreEffect(bin, fs, table, id, f);
            && id in table
            && var held := HeldPath(bin, table[id]);
            && var orig := table[id].originalPath;
            && var target := r.out.target;
            && held in fs
            && (orig in fs && !Carried(fs, held, orig) ==> orig in r.fs && r.fs[orig] == fs[orig])
            && (held != target ==> held !in r.fs)
            && (forall p :: p in fs && Carried(fs, held, p) ==>
                  Relocated(p, held, target) in r.fs && r.fs[Relocated(p, held, target)] == fs[p])
            && (forall p :: p in fs && !Carried(fs, held, p) && p != target ==> p in r.fs && r.fs[p] == fs[p])
            && (forall q :: q in r.fs ==> q in fs || q == Dirname(orig) || q == target || Below(q, target))
  {
    var row := table[id];
    var held := HeldPath(bin, row);
    var orig := row.originalPath;
    var fs1 := CreateDirectory(fs, Dirname(orig), f.mkdirFails).value;
    var target := if orig in fs1 then RestoredName(orig) else orig;
    var fs2 := RenameFs(fs1, held, target, f.renameFails).value;
    RestoreBy(bin, fs, table, id, f, fs1, fs2);
    PutBackFrame(fs, fs1, held, Dirname(orig), target, f.renameFails, fs2);
  }

  /** The move that ends restore_file, seen from the tree before the original's directory was
      made: the held node and everything below it land at the target, and nothing else changes
      except the directory made. */
  lemma PutBackFrame(fs: Fs, fs1: Fs, held: string, made: string, target: string, fails: bool, fs2: Fs)
    requires held in fs && (fs1 == fs || (made !in fs && fs1 == fs[made := Dir]))
    requires RenameFs(fs1, held, target, fails) == Some(fs2)
    ensures target in fs2 && fs2[target] == fs[held]
    ensures held != target ==> held !in fs2
    ensures forall p :: p in fs && Carried(fs, held, p) ==>
              Relocated(p, held, target) in fs2 && fs2[Relocated(p, held, target)] == fs[p]
    ensures forall p :: p in fs && !Carried(fs, held, p) && p != target ==> p in fs2 && fs2[p] == fs[p]
    ensures forall q :: q in fs2 ==> q in fs || q == made || q == target || Below(q, target)
  {
    assert fs1[held] == fs[held];
    assert forall p :: p in fs ==> p in fs1 && fs1[p] == fs[p] && (Carried(fs1, held, p) <==> Carried(fs, held, p));
  }

  // ---------------------------------------------------------------- purge_expired

  datatype PurgeOutcome = PurgeStoreError | NothingToPurge | Purged(purged: int, failed: int)

  /** The rows the purge query selects: scheduled_deletion <= now. */
  function ExpiredIds(t: Table, now: int): (e: set<int>)
    ensures forall id :: id in e <==> id in t && t[id].scheduledDeletion <= now
  {
    set id | id in t && t[id].scheduledDeletion <= now
  }

  /** unlink of p succeeds or reports ENOENT, the two outcomes after which the row goes. */
  predicate Reclaimable(fs: Fs, p: string, refused: set<string>): (r: bool)
    ensures r <==> !UnlinkFs(fs, p, refused).Refused?
  {
    p !in fs || (fs[p].File? && p !in refused)
  }

  function ReclaimedIds(bin: string, fs: Fs, t: Table, ids: set<int>, refused: set<string>): set<int> {
    set id | id in ids && id in t && Reclaimable(fs, HeldPath(bin, t[id]), refused)
  }

  function HeldPaths(bin: string, t: Table, ids: set<int>): set<string> {
    set id | id in ids && id in t :: HeldPath(bin, t[id])
  }

  /** purge_expired. The outcome of each unlink does not depend on the order of the rows:
      rows that share a held path see the same file, or its absence after the first unlink. */
  function PurgeEffect(bin: string, fs: Fs, table: Table, now: int, f: Faults): (r: After<PurgeOutcome>)
    ensures f.store == Unopenable ==> r == After(PurgeStoreError, fs, table)
    ensures f.store != Unopenable ==> (r.out == NothingToPurge <==> ExpiredIds(table, now) == {})
    ensures r.out.Purged? ==> r.out.purged + r.out.failed == |ExpiredIds(table, now)|
    ensures f.store != Unopenable ==>
              var gone := ReclaimedIds(bin, fs, table, ExpiredIds(table, now), f.refused);
              && r.fs == fs - HeldPaths(bin, table, gone)
              && (r.out.Purged? ==> r.out.purged == |gone| && r.out.failed == |ExpiredIds(table, now) - gone|)
    ensures forall id :: id in table && table[id].scheduledDeletion > now ==> id in r.table && r.table[id] == table[id]
    ensures f.store == Healthy ==>
              forall id :: id in table && table[id].scheduledDeletion <= now ==>
                (id !in r.table <==> Reclaimable(fs, HeldPath(bin, table[id]), f.refused))
    ensures f.store == ReadOnly ==> r.table == table
    ensures r.table.Keys <= table.Keys && r.fs.Keys <= fs.Keys
    ensures forall p :: p in r.fs ==> r.fs[p] == fs[p]
    ensures forall p :: p in fs && p !in HeldPaths(bin, table, ExpiredIds(table, now)) ==> p in r.fs
  {
    if f.store == Unopenable then After(PurgeStoreError, fs, table)
    else
      var expired := ExpiredIds(table, now);
      var gone := ReclaimedIds(bin, fs, table, expired, f.refused);
      var purged, failed := |gone|, |expired - gone|;
      var out := if purged == 0 && failed == 0 then NothingToPurge else Purged(purged, failed);
      After(out, fs - HeldPaths(bin, table, gone), if f.store == ReadOnly then table else table - gone)
  }

  // ---------------------------------------------------------------- list_recycled

  /** strftime writes at most 19 characters into the 20-byte date buffers. */
  const MaxDateWidth := 19

  /** One listed row: the id as sqlite3_column_int returns it (the low 32 bits), the path, and
      the two rendered dates. */
  datatype Listed = Listed(id: int, originalPath: string, deletedOn: string, scheduledOn: string)

  datatype ListOutcome = ListStoreError | NothingHeld | Listing(rows: seq<Listed>, truncated: bool)

  const Header := "ID | Original Path | Deleted On | Scheduled Deletion\n"
                  + "------------------------------------------------------------\n"

  function ListedOf(id: int, r: Row, render: int -> string): (l: Listed)
    ensures -0x8000_0000 <= l.id < 0x8000_0000
    ensures -0x8000_0000 <= id < 0x8000_0000 ==> l.id == id
    ensures l.originalPath == r.originalPath
  {
    Listed(Decimal.Wrap32(id), r.originalPath, render(r.deleteTimestamp), render(r.scheduledDeletion))
  }

  /** The length of "%d | %s | %s | %s\n" for one listed row. */
  function LineWidth(l: Listed): nat {
    |Decimal.Show(l.id)| + 3 + |l.originalPath| + 3 + |l.deletedOn| + 3 + |l.scheduledOn| + 1
  }

  /** The first pass's size estimate for the rows ids: strlen(path) + 100 each. */
  function Budget(t: Table, ids: seq<int>): (b: int)
    ensures b >= 100 * |ids|
  {
    if ids == [] then 0
    else (if ids[0] in t then |t[ids[0]].originalPath| else 0) + 100 + Budget(t, ids[1..])
  }

  /** A listed line always fits in its row's share of the estimate, with the 14 bytes of
      the truncation marker to spare. */
  lemma LineFits(t: Table, ids: seq<int>, render: int -> string)
    requires ids != [] && ids[0] in t && forall x :: |render(x)| <= MaxDateWidth
    ensures LineWidth(ListedOf(ids[0], t[ids[0]], render)) + 14 < Budget(t, ids) - Budget(t, ids[1..])
  {
    Decimal.Int32Width(ListedOf(ids[0], t[ids[0]], render).id);
  }

  predicate Distinct(s: seq<int>) {
    forall i, j :: 0 <= i < j < |s| ==> s[i] != s[j]
  }

  /** The order in which a SELECT without ORDER BY yields the rows: some order, each row once. */
  method Enumerate(keys: set<int>) returns (s: seq<int>)
    ensures Distinct(s) && |s| == |keys|
    ensures forall id :: id in s <==> id in keys
  {
    s := [];
    var rest := keys;
    while rest != {}
      invariant Distinct(s)
      invariant forall id :: id in keys <==> id in s || id in rest
      invariant forall id :: id in s ==> id !in rest
      invariant |s| + |rest| == |keys|
      decreases |rest|
    {
      if forall k :: k !in rest {
        assert false;
      }
      var id :| id in rest;
      s := s + [id];
      rest := rest - {id};
    }
  }

  // ---------------------------------------------------------------- the engine

  /** The recycle bin's state: its directory, the file system it lives in and the table. */
  class RecycleBin {
    const bin: string
    var fs: Fs
    var table: Table

    constructor (bin: string, fs: Fs, table: Table)
      ensures this.bin == bin && this.fs == fs && this.table == table
    {
      this.bin := bin;
      this.fs := fs;
      this.table := table;
    }

    /** The id the next INSERT takes, found by a scan over the rowids in use. */
    method NextRowId() returns (id: int)
      ensures id == NextId(table)
    {
      if table.Keys == {} {
        return 1;
      }
      var rest := table.Keys;
      if forall k :: k !in rest {
        assert false;
      }
      var top :| top in rest;
      rest := rest - {top};
      ghost var seen := {top};
      while rest != {}
        invariant rest + seen == table.Keys
        invariant top in seen && forall k :: k in seen ==> k <= top
        decreases |rest|
      {
        if forall x :: x !in rest {
          assert false;
        }
        var k :| k in rest;
        if k > top {
          top := k;
        }
        rest := rest - {k};
        seen := seen + {k};
      }
      id := top + 1;
    }

    method DeleteFile(resolved: Option<string>, now: int, retention: int, f: Faults) returns (out: DeleteOutcome)
      modifies this
      ensures After(out, fs, table) == DeleteEffect(bin, old(fs), old(table), resolved, now, retention, f)
    {
      if resolved.None? {
        return NoAbsolutePath;
      }
      var abs := resolved.value;
      if abs !in fs {
        return NoSuchFile;
      }
      var row := NewRow(abs, now, retention);
      var moved := RenameFs(fs, abs, HeldPath(bin, row), f.renameFails);
      if moved.None? {
        return MoveFailed;
      }
      fs := moved.value;
      if f.store != Healthy {
        return StoreFailed;
      }
      var id := NextRowId();
      table := table[id := row];
      out := Deleted(id);
    }

    method RestoreFile(id: int, f: Faults) returns (out: RestoreOutcome)
      modifies this
      ensures After(out, fs, table) == RestoreEffect(bin, old(fs), old(table), id, f)
    {
      if f.store == Unopenable {
        return RestoreStoreError;
      }
      if id !in table {
        return NoSuchId;
      }
      var row := table[id];
      var held := HeldPath(bin, row);
      if held !in fs {
        table := DropRow(table, id, f.store);
        return HeldFileMissing;
      }
      var orig := row.originalPath;
      var made := CreateDirectory(fs, Dirname(orig), f.mkdirFails);
      if made.None? {
        return DirectoryFailed;
      }
      fs := made.value;
      var target := if orig in fs then RestoredName(orig) else orig;
      var moved := RenameFs(fs, held, target, f.renameFails);
      if moved.None? {
        return RestoreMoveFailed;
      }
      fs := moved.value;
      table := DropRow(table, id, f.store);
      out := Restored(target);
    }

    /** The purge loop walks a snapshot of the expired rows, unlinking each held file and
        dropping the row when the unlink succeeded or found nothing. */
    method PurgeExpired(now: int, f: Faults) returns (out: PurgeOutcome)
      modifies this
      ensures After(out, fs, table) == PurgeEffect(bin, old(fs), old(table), now, f)
    {
      if f.store == Unopenable {
        return PurgeStoreError;
      }
      var purged, failed;
      ghost var disk, snapshot := fs, table;
      fs, table, purged, failed := PurgeRows(bin, fs, table, ExpiredIds(table, now), f);
      out := if purged == 0 && failed == 0 then NothingToPurge else Purged(purged, failed);
      PurgeEffectIs(bin, disk, snapshot, now, f, out, fs, table);
    }

    /** Two passes over the rows: the first counts them and sizes the buffer, the second
        appends one line per row and stops with "... (truncated)" when a line would not fit. */
    method ListRecycled(mode: StoreMode, render: int -> string) returns (out: ListOutcome, order: seq<int>)
      requires forall t :: |render(t)| <= MaxDateWidth
      ensures mode == Unopenable ==> out == ListStoreError
      ensures mode != Unopenable ==> (out == NothingHeld <==> table == map[])
      ensures mode != Unopenable && table != map[] ==> out.Listing?
      ensures out.Listing? ==>
                && !out.truncated
                && |order| == |out.rows| == |table| && Distinct(order)
                && (forall id :: id in order <==> id in table)
                && forall i :: 0 <= i < |order| ==> order[i] in table && out.rows[i] == ListedOf(order[i], table[order[i]], render)
    {
      order := [];
      if mode == Unopenable {
        return ListStoreError, order;
      }
      order := Enumerate(table.Keys);
      var count := 0;
      var estimated := 100;
      var i := 0;
      while i < |order|
        invariant 0 <= i <= |order| && count == i
        invariant estimated + Budget(table, order[i..]) == 100 + Budget(table, order)
      {
        assert order[i..][1..] == order[i + 1..];
        count := count + 1;
        estimated := estimated + |table[order[i]].originalPath| + 100;
        i := i + 1;
      }
      if count == 0 {
        assert |table.Keys| == 0;
        return NothingHeld, order;
      }
      var rows: seq<Listed> := [];
      var pos := |Header|;
      var truncated := false;
      i := 0;
      while i < |order|
        invariant 0 <= i <= |order| && |rows| == i
        invariant estimated - pos >= Budget(table, order[i..]) - 14
        invariant forall k :: 0 <= k < i ==> rows[k] == ListedOf(order[k], table[order[k]], render)
      {
        assert order[i..][1..] == order[i + 1..];
        var line := ListedOf(order[i], table[order[i]], render);
        var written := LineWidth(line);
        LineFits(table, order[i..], render);
        if written >= estimated - pos {
          truncated := true;
          break;
        }
        rows := rows + [line];
        pos := pos + written;
        i := i + 1;
      }
      out := Listing(rows, truncated);
    }
  }

  /** The loop of purge_expired over the rows the SELECT returned (a snapshot: the loop's
      own DELETE statements do not change what it visits). Each held file is unlinked; the
      row goes when the unlink succeeded or found nothing, and one of the two counters grows. */
  method PurgeRows(bin: string, disk: Fs, snapshot: Table, expired: set<int>, f: Faults)
    returns (files: Fs, rows: Table, purged: int, failed: int)
    requires expired <= snapshot.Keys
    ensures var gone := ReclaimedIds(bin, disk, snapshot, expired, f.refused);
            && files == disk - HeldPaths(bin, snapshot, gone)
            && rows == (if f.store == ReadOnly then snapshot else snapshot - gone)
            && purged == |gone| && failed == |expired - gone|
  {
    files, rows := disk, snapshot;
    var pending := expired;
    ghost var gone := ReclaimedIds(bin, disk, snapshot, expired, f.refused);
    ghost var reclaimed: set<int>, kept: set<int> := {}, {};
    purged, failed := 0, 0;
    PurgeInvInit(bin, disk, snapshot, expired, f);
    while pending != {}
      invariant PurgeInv(bin, disk, snapshot, expired, f, pending, reclaimed, kept, files, rows, purged, failed)
      decreases |pending|
    {
      if forall k :: k !in pending {
        assert false;
      }
      var id :| id in pending;
      PurgeInvStep(bin, disk, snapshot, expired, f, pending, reclaimed, kept, files, rows, purged, failed, id);
      var unlinked := UnlinkFs(files, HeldPath(bin, snapshot[id]), f.refused);
      if unlinked.Refused? {
        failed := failed + 1;
        kept := kept + {id};
      } else {
        if unlinked.Removed? {
          files := unlinked.rest;
        }
        rows := DropRow(rows, id, f.store);
        purged := purged + 1;
        reclaimed := reclaimed + {id};
      }
      pending := pending - {id};
    }
    PurgeDone(expired, gone, reclaimed, kept);
  }

  /** The state of the purge loop: the rows visited so far split into those reclaimed and
      those kept, exactly as the snapshot predicts, and the files, rows and counters agree. */
  ghost predicate PurgeInv(bin: string, disk: Fs, snapshot: Table, expired: set<int>, f: Faults,
                           pending: set<int>, reclaimed: set<int>, kept: set<int>,
                           files: Fs, rows: Table, purged: int, failed: int)
  {
    var gone := ReclaimedIds(bin, disk, snapshot, expired, f.refused);
    && expired <= snapshot.Keys && pending <= expired
    && (forall x :: x in expired ==> (x in pending <==> x !in reclaimed && x !in kept))
    && reclaimed <= gone && kept <= expired && kept !! gone
    && files == disk - HeldPaths(bin, snapshot, reclaimed)
    && rows == (if f.store == ReadOnly then snapshot else snapshot - reclaimed)
    && purged == |reclaimed| && failed == |kept|
  }

  lemma PurgeInvInit(bin: string, disk: Fs, snapshot: Table, expired: set<int>, f: Faults)
    requires expired <= snapshot.Keys
    ensures PurgeInv(bin, disk, snapshot, expired, f, expired, {}, {}, disk, snapshot, 0, 0)
  {
    assert HeldPaths(bin, snapshot, {}) == {};
    assert disk - {} == disk && snapshot - {} == snapshot;
  }

  /** One turn of the purge loop keeps its state consistent. */
  lemma PurgeInvStep(bin: string, disk: Fs, snapshot: Table, expired: set<int>, f: Faults,
                     pending: set<int>, reclaimed: set<int>, kept: set<int>,
                     files: Fs, rows: Table, purged: int, failed: int, id: int)
    requires PurgeInv(bin, disk, snapshot, expired, f, pending, reclaimed, kept, files, rows, purged, failed)
    requires id in pending
    ensures var unlinked := UnlinkFs(files, HeldPath(bin, snapshot[id]), f.refused);
            if unlinked.Refused? then
              PurgeInv(bin, disk, snapshot, expired, f, pending - {id}, reclaimed, kept + {id}, files, rows, purged, failed + 1)
            else
              PurgeInv(bin, disk, snapshot, expired, f, pending - {id}, reclaimed + {id}, kept,
                       if unlinked.Removed? then unlinked.rest else files, DropRow(rows, id, f.store), purged + 1, failed)
  {
    var gone := ReclaimedIds(bin, disk, snapshot, expired, f.refused);
    var p := HeldPath(bin, snapshot[id]);
    PurgeStep(bin, disk, snapshot, gone, reclaimed, id, f.refused);
    var unlinked := UnlinkFs(files, p, f.refused);
    assert id !in reclaimed && id !in kept;
    if unlinked.Refused? {
      assert id !in gone;
      assert |kept + {id}| == failed + 1;
    } else {
      assert id in gone;
      assert |reclaimed + {id}| == purged + 1;
      assert (if unlinked.Removed? then unlinked.rest else files) == files - {p};
      assert DropRow(rows, id, f.store) == (if f.store == ReadOnly then snapshot else snapshot - (reclaimed + {id}));
    }
  }

  /** One step of the purge loop: the unlink of the next row's held path, on the file system
      as the earlier steps left it, has the outcome the row has on the snapshot, and removes
      exactly that path. */
  lemma PurgeStep(bin: string, fs0: Fs, t: Table, gone: set<int>, reclaimed: set<int>, id: int, refused: set<string>)
    requires forall x :: x in gone ==> x in t && Reclaimable(fs0, HeldPath(bin, t[x]), refused)
    requires reclaimed <= gone && id in t && id !in reclaimed
    ensures var fs := fs0 - HeldPaths(bin, t, reclaimed);
            var p := HeldPath(bin, t[id]);
            && (p in fs ==> fs[p] == fs0[p])
            && (p !in fs ==> Reclaimable(fs0, p, refused))
            && fs0 - HeldPaths(bin, t, reclaimed + {id}) == fs - {p}
            && t - (reclaimed + {id}) == (t - reclaimed) - {id}
  {
    var fs := fs0 - HeldPaths(bin, t, reclaimed);
    var p := HeldPath(bin, t[id]);
    if p !in fs && p in fs0 {
      assert p in HeldPaths(bin, t, reclaimed);
      var other :| other in reclaimed && other in t && HeldPath(bin, t[other]) == p;
    }
    assert HeldPaths(bin, t, reclaimed + {id}) == HeldPaths(bin, t, reclaimed) + {p};
  }

  /** The outcome, tree and table of purge_expired, given the expired rows whose unlink
      succeeds or finds nothing. */
  lemma PurgeEffectIs(bin: string, fs: Fs, t: Table, now: int, f: Faults, out: PurgeOutcome, files: Fs, rows: Table)
    requires f.store != Unopenable
    requires var gone := ReclaimedIds(bin, fs, t, ExpiredIds(t, now), f.refused);
             && files == fs - HeldPaths(bin, t, gone)
             && rows == (if f.store == ReadOnly then t else t - gone)
             && out == (if |gone| == 0 && |ExpiredIds(t, now) - gone| == 0 then NothingToPurge
                        else Purged(|gone|, |ExpiredIds(t, now) - gone|))
    ensures After(out, files, rows) == PurgeEffect(bin, fs, t, now, f)
  {
  }

  /** When no row is pending, the rows reclaimed and the rows kept split the expired rows the
      way the snapshot predicts. */
  lemma PurgeDone(expired: set<int>, gone: set<int>, reclaimed: set<int>, kept: set<int>)
    requires gone <= expired
    requires forall x :: x in expired ==> x in reclaimed || x in kept
    requires reclaimed <= gone && kept <= expired && kept !! gone
    ensures reclaimed == gone && kept == expired - gone
  {
    assert forall x :: x in gone ==> x in reclaimed;
    assert forall x :: x in kept <==> x in expired && x !in gone;
  }

  // ---------------------------------------------------------------- properties across operations

  /** The row a successful delete inserts leads back to the held file: the path restore_file
      and purge_expired rebuild from it is where delete_file put the file. */
  lemma DeletedRowFindsHeldFile(bin: string, fs: Fs, table: Table, resolved: Option<string>, now: int, retention: int, f: Faults)
    requires DeleteEffect(bin, fs, table, resolved, now, retention, f).out.Deleted?
    ensures var d := DeleteEffect(bin, fs, table, resolved, now, retention, f);
            && d.out.id in d.table
            && HeldPath(bin, d.table[d.out.id]) in d.fs
            && d.fs[HeldPath(bin, d.table[d.out.id])] == fs[resolved.value]
  {
    var d := DeleteEffect(bin, fs, table, resolved, now, retention, f);
    assert d.table[d.out.id] == NewRow(resolved.value, now, retention);
  }

  /** Deleting a regular file and restoring the id it got gives back the file system and the
      table as they were, when nothing fails and nothing already sits at the held path. */
  lemma DeleteThenRestore(bin: string, fs: Fs, table: Table, abs: string, now: int, retention: int)
    requires IsCanonical(bin) && IsDir(fs, bin)
    requires IsCanonical(abs) && abs != "/" && abs in fs && fs[abs].File? && IsDir(fs, Dirname(abs))
    requires HeldPath(bin, NewRow(abs, now, retention)) !in fs
    ensures var d := DeleteEffect(bin, fs, table, Some(abs), now, retention, NoFaults);
            && d.out.Deleted?
            && RestoreEffect(bin, d.fs, d.table, d.out.id, NoFaults) == After(Restored(abs), fs, table)
  {
    var row := NewRow(abs, now, retention);
    DeleteMovesIntoBin(bin, fs, table, abs, now, retention);
    var d := DeleteEffect(bin, fs, table, Some(abs), now, retention, NoFaults);
    RestoreMovesBack(bin, fs, table, d.out.id, row);
  }

  /** Without faults, delete_file of a regular file whose held path is free moves it there
      and inserts its row under a new id. */
  lemma DeleteMovesIntoBin(bin: string, fs: Fs, table: Table, abs: string, now: int, retention: int)
    requires IsCanonical(bin) && IsDir(fs, bin)
    requires IsCanonical(abs) && abs != "/" && abs in fs && fs[abs].File?
    requires HeldPath(bin, NewRow(abs, now, retention)) !in fs
    ensures var d := DeleteEffect(bin, fs, table, Some(abs), now, retention, NoFaults);
            var row := NewRow(abs, now, retention);
            && d.out.Deleted? && d.out.id !in table
            && d.fs == (fs - {abs})[HeldPath(bin, row) := fs[abs]]
            && d.table == table[d.out.id := row]
  {
    var row := NewRow(abs, now, retention);
    var name := HeldName(now, Basename(abs));
    BasenameOfCanonical(abs);
    HeldNameIsComponent(now, Basename(abs));
    DirnameOfJoin(bin, name);
    var held := HeldPath(bin, row);
    assert Dirname(held) == bin;
    var fs1 := (fs - {abs})[held := fs[abs]];
    assert held != [] && held != abs;
    assert RenameFs(fs, abs, held, false).Some?;
    RenameFile(fs, abs, held, false);
  }

  /** Without faults, restore_file of that row moves the file back to where it was, when its
      directory still exists and nothing has taken its place, and drops the row. */
  lemma RestoreMovesBack(bin: string, fs: Fs, table: Table, id: int, row: Row)
    requires id !in table
    requires row.originalPath != [] && row.originalPath in fs && fs[row.originalPath].File?
    requires IsDir(fs, Dirname(row.originalPath))
    requires HeldPath(bin, row) !in fs
    ensures var abs := row.originalPath;
            RestoreEffect(bin, (fs - {abs})[HeldPath(bin, row) := fs[abs]], table[id := row], id, NoFaults)
              == After(Restored(abs), fs, table)
  {
    var abs := row.originalPath;
    var held := HeldPath(bin, row);
    var fs1 := (fs - {abs})[held := fs[abs]];
    assert |HeldName(row.deleteTimestamp, Basename(abs))| > 0;
    MoveBack(fs, abs, held);
    assert CreateDirectory(fs1, Dirname(abs), false) == Some(fs1);
    assert abs !in fs1;
    RestoreBy(bin, fs1, table[id := row], id, NoFaults, fs1, fs);
    DropInserted(table, id, row);
  }

  /** Renaming a file moved to a free path back to its place restores the tree. */
  lemma MoveBack(fs: Fs, abs: string, held: string)
    requires abs != [] && held != [] && abs in fs && fs[abs].File? && held !in fs
    requires IsDir(fs, Dirname(abs))
    ensures var fs1 := (fs - {abs})[held := fs[abs]];
            && IsDir(fs1, Dirname(abs))
            && RenameFs(fs1, held, abs, false) == Some(fs)
  {
    var fs1 := (fs - {abs})[held := fs[abs]];
    assert IsDir(fs1, Dirname(abs));
    assert RenameFs(fs1, held, abs, false).Some?;
    RenameFile(fs1, held, abs, false);
    MoveThereAndBack(fs, abs, held);
  }

  /** Moving a file to a free path and back restores the tree. */
  lemma MoveThereAndBack(fs: Fs, a: string, h: string)
    requires a in fs && h !in fs
    ensures ((fs - {a})[h := fs[a]] - {h})[a := fs[a]] == fs
  {
    var back := ((fs - {a})[h := fs[a]] - {h})[a := fs[a]];
    assert forall p :: p in back <==> p in fs;
  }

  /** Dropping a row just inserted under a fresh id restores the table. */
  lemma DropInserted(t: Table, id: int, row: Row)
    requires id !in t
    ensures DropRow(t[id := row], id, Healthy) == t
  {
    assert forall k :: k in DropRow(t[id := row], id, Healthy) <==> k in t;
  }

  /** A purge that failed on nothing leaves nothing to purge at the same time. */
  lemma PurgeAgainFindsNothing(bin: string, fs: Fs, table: Table, now: int, f: Faults)
    requires f.store == Healthy
    requires var p := PurgeEffect(bin, fs, table, now, f);
             p.out == NothingToPurge || (p.out.Purged? && p.out.failed == 0)
    ensures var p := PurgeEffect(bin, fs, table, now, f);
            PurgeEffect(bin, p.fs, p.table, now, f).out == NothingToPurge
  {
    var p := PurgeEffect(bin, fs, table, now, f);
    var expired := ExpiredIds(table, now);
    var gone := ReclaimedIds(bin, fs, table, expired, f.refused);
    assert |expired - gone| == 0;
    assert expired - gone == {};
    assert forall x :: x in expired ==> x in gone by {
      forall x | x in expired
        ensures x in gone
      {
        assert x !in expired - gone;
      }
    }
    assert p.table == table - gone;
    forall id | id in p.table
      ensures p.table[id].scheduledDeletion > now
    {
      assert id in table && id !in gone && p.table[id] == table[id];
    }
    assert ExpiredIds(p.table, now) == {};
  }

  /** What a purge without faults does to one row whose held file is a regular file: an
      unexpired row stays as it was, an expired one goes together with its held file. */
  lemma PurgeRowFate(bin: string, fs: Fs, t: Table, id: int, later: int)
    requires id in t && HeldPath(bin, t[id]) in fs && fs[HeldPath(bin, t[id])].File?
    ensures var p := PurgeEffect(bin, fs, t, later, NoFaults);
            && (later < t[id].scheduledDeletion ==> id in p.table && p.table[id] == t[id])
            && (later >= t[id].scheduledDeletion ==> id !in p.table && HeldPath(bin, t[id]) !in p.fs)
  {
    if later >= t[id].scheduledDeletion {
      var held := HeldPath(bin, t[id]);
      var expired := ExpiredIds(t, later);
      var gone := ReclaimedIds(bin, fs, t, expired, {});
      assert id in expired;
      assert Reclaimable(fs, held, {});
      assert id in gone;
      assert held in HeldPaths(bin, t, gone);
    }
  }

  /** A file deleted at `now` with retention r is left alone by a purge before now + r and
      reclaimed, with its row, by a purge at or after it (scheduled_deletion <= now). */
  lemma RetentionWindow(bin: string, fs: Fs, table: Table, abs: string, now: int, retention: int, later: int)
    requires abs in fs && fs[abs].File?
    requires DeleteEffect(bin, fs, table, Some(abs), now, retention, NoFaults).out.Deleted?
    ensures var d := DeleteEffect(bin, fs, table, Some(abs), now, retention, NoFaults);
            var p := PurgeEffect(bin, d.fs, d.table, later, NoFaults);
            && (later < now + retention ==> d.out.id in p.table && p.table[d.out.id] == d.table[d.out.id])
            && (later >= now + retention ==>
                  d.out.id !in p.table && HeldPath(bin, NewRow(abs, now, retention)) !in p.fs)
  {
    var d := DeleteEffect(bin, fs, table, Some(abs), now, retention, NoFaults);
    DeletedRowFindsHeldFile(bin, fs, table, Some(abs), now, retention, NoFaults);
    assert d.table[d.out.id] == NewRow(abs, now, retention);
    PurgeRowFate(bin, d.fs, d.table, d.out.id, later);
  }

  /** A rename into a directory d, when it succeeds, leaves d a directory. */
  lemma RenameKeepsEnclosingDir(fs: Fs, src: string, dst: string, fails: bool, d: string)
    requires IsDir(fs, d) && IsWithin(dst, d)
    ensures var r := RenameFs(fs, src, dst, fails); r.Some? ==> IsDir(r.value, d)
  {
    var r := RenameFs(fs, src, dst, fails);
    if r.Some? && src != dst {
      assert src != d;
      assert d != dst;
    }
  }

  /** delete_file changes the tree only by the one rename into the recycle bin. */
  lemma DeleteOnlyRenames(bin: string, fs: Fs, table: Table, resolved: Option<string>, now: int, retention: int, f: Faults)
    ensures var r := DeleteEffect(bin, fs, table, resolved, now, retention, f);
            || r.fs == fs
            || (&& resolved.Some?
                && var m := RenameFs(fs, resolved.value, HeldPath(bin, NewRow(resolved.value, now, retention)), f.renameFails);
                && m.Some? && r.fs == m.value)
  {
  }

  /** None of the four operations removes the recycle bin itself. */
  lemma DeleteKeepsBin(bin: string, fs: Fs, table: Table, resolved: Option<string>, now: int, retention: int, f: Faults)
    requires bin != [] && IsDir(fs, bin)
    ensures IsDir(DeleteEffect(bin, fs, table, resolved, now, retention, f).fs, bin)
  {
    DeleteOnlyRenames(bin, fs, table, resolved, now, retention, f);
    if resolved.Some? {
      var row := NewRow(resolved.value, now, retention);
      HeldPathWithinBin(bin, row);
      RenameKeepsEnclosingDir(fs, resolved.value, HeldPath(bin, row), f.renameFails, bin);
    }
  }

  lemma RestoreKeepsBin(bin: string, fs: Fs, table: Table, id: int, f: Faults)
    requires IsDir(fs, bin)
    ensures IsDir(RestoreEffect(bin, fs, table, id, f).fs, bin)
  {
    if f.store != Unopenable && id in table {
      var row := table[id];
      var held := HeldPath(bin, row);
      assert |held| > |bin|;
      if held in fs {
        var orig := row.originalPath;
        match CreateDirectory(fs, Dirname(orig), f.mkdirFails)
        case None =>
        case Some(fs1) =>
          assert IsDir(fs1, bin) && held in fs1;
          assert (orig in fs1) == (orig in fs) by {
            if fs1 != fs {
              assert IsDir(fs, Dirname(Dirname(orig)));
            }
          }
          var target := if orig in fs1 then RestoredName(orig) else orig;
          match RenameFs(fs1, held, target, f.renameFails)
          case None =>
          case Some(fs2) =>
            // The bin is either the target, which a rename fills with a node of its own
            // kind, or not carried along, being shorter than the held path.
            if target == bin {
              assert fs1[held].Dir?;
            } else {
              assert !Carried(fs1, held, bin);
            }
            assert IsDir(fs2, bin);
      }
    }
  }

  lemma PurgeKeepsBin(bin: string, fs: Fs, table: Table, now: int, f: Faults)
    requires IsDir(fs, bin)
    ensures IsDir(PurgeEffect(bin, fs, table, now, f).fs, bin)
  {
    var held := HeldPaths(bin, table, ExpiredIds(table, now));
    forall p | p in held
      ensures |p| > |bin|
    {
      var id :| id in ExpiredIds(table, now) && id in table && HeldPath(bin, table[id]) == p;
    }
  }

  /** Row ids are not stable: removing the row with the largest id frees that id for the next
      insert. */
  lemma IdIsReused(r1: Row, r2: Row)
    ensures NextId(map[1 := r1, 2 := r2]) == 3
    ensures NextId(map[1 := r1, 2 := r2] - {2}) == 2
  {
    var t := map[1 := r1, 2 := r2];
    assert 2 in t && 1 in t;
    assert t - {2} == map[1 := r1];
    assert 1 in map[1 := r1];
  }

  /** The "_restored" name is not checked either: restoring onto it replaces a file already
      there with the held file. */
  lemma RestoreReplacesEarlierCopy(bin: string, fs: Fs, table: Table, id: int)
    requires id in table
    requires var orig := table[id].originalPath;
             var copy := RestoredName(orig);
             var held := HeldPath(bin, table[id]);
             && held in fs && fs[held].File? && held != copy
             && IsDir(fs, Dirname(orig)) && orig in fs
             && copy in fs && fs[copy].File? && IsDir(fs, Dirname(copy))
    ensures var orig := table[id].originalPath;
            var copy := RestoredName(orig);
            var held := HeldPath(bin, table[id]);
            RestoreEffect(bin, fs, table, id, NoFaults) == After(Restored(copy), (fs - {held})[copy := fs[held]], table - {id})
  {
    var orig := table[id].originalPath;
    var copy := RestoredName(orig);
    var held := HeldPath(bin, table[id]);
    var fs2 := (fs - {held})[copy := fs[held]];
    assert CreateDirectory(fs, Dirname(orig), false) == Some(fs);
    assert RenameFs(fs, held, copy, false) == Some(fs2) by {
      assert held != [] && copy != [];
      assert RenameFs(fs, held, copy, false).Some?;
      RenameFile(fs, held, copy, false);
    }
    RestoreBy(bin, fs, table, id, NoFaults, fs, fs2);
  }

  /** restore_file when the directory step and the final rename both succeed. */
  lemma RestoreBy(bin: string, fs: Fs, table: Table, id: int, f: Faults, fs1: Fs, fs2: Fs)
    requires f.store != Unopenable && id in table && HeldPath(bin, table[id]) in fs
    requires CreateDirectory(fs, Dirname(table[id].originalPath), f.mkdirFails) == Some(fs1)
    requires var orig := table[id].originalPath;
             RenameFs(fs1, HeldPath(bin, table[id]), if orig in fs1 then RestoredName(orig) else orig, f.renameFails)
               == Some(fs2)
    ensures var orig := table[id].originalPath;
            RestoreEffect(bin, fs, table, id, f)
              == After(Restored(if orig in fs1 then RestoredName(orig) else orig), fs2, DropRow(table, id, f.store))
  {
  }
}
