/** The application's database context: saving captures the chapter changes first, runs
    the base save with automatic change detection switched off, switches it back on and then
    brings the full-text index in step. */
module ApplicationDbContext {
  import opened Wrappers
  import opened Entities
  import opened FtsEngine
  import opened UpdateFtsTriggers
  import opened EFChangeTrackerExtensions

  /** What the object-relational mapper's own save does, which is not modelled: it writes the
      changes and reports the number of rows written, leaving the tracked entries in their
      accepted states and the keys the database generated in the added chapters, or it
      throws. `generatedKeys` lists those keys in the order the added chapters were captured. */
  datatype BaseSave =
    | Saved(count: int, entriesAfter: seq<ChapterEntry>, generatedKeys: seq<int>)
    | SaveThrew(error: Exception)

  // ---------------------------------------------------------------------------------------
  // The live entities after the base save

  /** The number of added chapters among the first `k` changes: an added chapter's rank. */
  function AddedBefore(cs: seq<ChapterChange>, k: nat): nat
    requires k <= |cs|
    decreases k
  {
    if k == 0 then 0 else (if cs[0].state == Added then 1 else 0) + AddedBefore(cs[1..], k - 1)
  }

  /** `r` is change `c` as the index update reads it, when `rank` added chapters precede
      it: an added chapter carries the generated key of its rank, if the save generated
      that many, and nothing else differs. */
  predicate KeyedAs(c: ChapterChange, r: ChapterChange, rank: nat, keys: seq<int>)
  {
    && r.state == c.state
    && r.oldEntity == c.oldEntity
    && r.newEntity == c.newEntity.(id := if c.state == Added && rank < |keys| then keys[rank] else c.newEntity.id)
  }

  /** The captured triples as the index update reads them. Each holds the live entity, so an
      added chapter has by then the key the base save generated for it; the keys are taken
      in capture order. */
  function AssignKeys(cs: seq<ChapterChange>, keys: seq<int>): (r: seq<ChapterChange>)
    ensures |r| == |cs|
    ensures forall k :: 0 <= k < |cs| ==> KeyedAs(cs[k], r[k], AddedBefore(cs, k), keys)
    decreases |cs|
  {
    if cs == [] then []
    else
      var c := cs[0];
      var generated := c.state == Added && keys != [];
      var head := if generated then c.(newEntity := c.newEntity.(id := keys[0])) else c;
      var more := if generated then keys[1..] else keys;
      var rest := AssignKeys(cs[1..], more);
      KeyedCons(cs, keys, more, head, rest);
      [head] + rest
  }

  /** One step of `AssignKeys`: the first change takes the first key if it is an added
      chapter, and the rest are keyed with the keys left over. */
  lemma KeyedCons(cs: seq<ChapterChange>, keys: seq<int>, more: seq<int>, head: ChapterChange, rest: seq<ChapterChange>)
    requires cs != [] && |rest| == |cs| - 1
    requires KeyedAs(cs[0], head, 0, keys)
    requires more == if cs[0].state == Added && keys != [] then keys[1..] else keys
    requires forall k :: 0 <= k < |rest| ==> KeyedAs(cs[1..][k], rest[k], AddedBefore(cs[1..], k), more)
    ensures forall k :: 0 <= k < |cs| ==> KeyedAs(cs[k], ([head] + rest)[k], AddedBefore(cs, k), keys)
  {
    forall k | 0 < k < |cs|
      ensures KeyedAs(cs[k], ([head] + rest)[k], AddedBefore(cs, k), keys)
    {
      assert cs[k] == cs[1..][k - 1] && ([head] + rest)[k] == rest[k - 1];
      assert KeyedAs(cs[1..][k - 1], rest[k - 1], AddedBefore(cs[1..], k - 1), more);
    }
  }

  /** When every change is an addition, a chapter's rank is its position. */
  lemma {:induction false} AllAddedRank(cs: seq<ChapterChange>, k: nat)
    requires forall i :: 0 <= i < |cs| ==> cs[i].state == Added
    requires k <= |cs|
    ensures AddedBefore(cs, k) == k
    decreases k
  {
    if k > 0 {
      AllAddedRank(cs[1..], k - 1);
    }
  }

  /** When every change is an addition, the k-th added chapter gets the k-th generated key. */
  lemma AssignKeysToAdded(cs: seq<ChapterChange>, keys: seq<int>)
    requires forall k :: 0 <= k < |cs| ==> cs[k].state == Added
    requires |cs| <= |keys|
    ensures forall k :: 0 <= k < |cs| ==> AssignKeys(cs, keys)[k].newEntity.id == keys[k]
  {
    forall k | 0 <= k < |cs|
      ensures AssignKeys(cs, keys)[k].newEntity.id == keys[k]
    {
      AllAddedRank(cs, k);
    }
  }

  /** Adding chapters whose generated keys are distinct and not yet indexed, as seeding does,
      keeps the index in step with the changes the index update reads. */
  lemma AddedWithFreshKeysInStep(rows: map<int, FtsRow>, cs: seq<ChapterChange>, keys: seq<int>)
    requires forall k :: 0 <= k < |cs| ==> cs[k].state == Added
    requires |cs| <= |keys|
    requires forall i, j :: 0 <= i < j < |cs| ==> keys[i] != keys[j]
    requires forall k :: 0 <= k < |cs| ==> keys[k] !in rows
    ensures InStep(rows, AssignKeys(cs, keys))
  {
    AssignKeysToAdded(cs, keys);
    var r := AssignKeys(cs, keys);
    forall i, j | 0 <= i < j < |r| && IsChangedState(r[i].state) && IsChangedState(r[j].state)
      ensures Key(r[i]) != Key(r[j])
    {
      assert Key(r[i]) == keys[i] && Key(r[j]) == keys[j];
    }
  }

  // ---------------------------------------------------------------------------------------
  // Saving

  /** The effect of one save on the change tracker, the database and the result, given the
      state before it: `scanned0` is what change detection finds, `autoDetect0`,
      `detections0`, `store0`, `inTransaction0` and `log0` the settings, the index store,
      the transaction flag and the statement log before the save. */
  ghost predicate SaveEffect(tracker: ChangeTracker, database: Database, scanned0: seq<ChapterEntry>,
                             autoDetect0: bool, detections0: nat, store0: FtsStore, inTransaction0: bool,
                             log0: seq<DbEvent>, save: BaseSave, failAt: Option<nat>, r: Result<int>)
    reads tracker, database
  {
    var captured := ChangedEntities(scanned0);
    // changes are detected exactly once: the base save does not detect them again
    && tracker.detections == detections0 + 1
    && tracker.scanned == scanned0
    && (captured.Failure? ==>
          r == Failure(captured.error) && tracker.autoDetectChangesEnabled == autoDetect0
          && tracker.entries == scanned0
          && database.store == store0 && database.inTransaction == inTransaction0 && database.log == log0)
    && (captured.Success? && save.SaveThrew? ==>
          r == Failure(save.error) && !tracker.autoDetectChangesEnabled
          && tracker.entries == scanned0
          && database.store == store0 && database.inTransaction == inTransaction0 && database.log == log0)
    && (captured.Success? && save.Saved? ==>
          && tracker.autoDetectChangesEnabled
          && tracker.entries == save.entriesAfter
          && !database.inTransaction)
    // an index update begun inside the caller's transaction throws, and commits that transaction
    && (captured.Success? && save.Saved? && inTransaction0 ==>
          r == Failure(InvalidOperation) && database.store == store0 && database.log == log0 + [TransactionCommitted])
    && (captured.Success? && save.Saved? && !inTransaction0 ==>
          var chapters := AssignKeys(captured.value, save.generatedKeys);
          var cmds := SyncCommands(chapters);
          var n := Completed(|cmds|, failAt);
          && database.store == ApplyAll(database.vocabulary, store0, cmds[..n])
          && database.log == log0 + SyncLog(cmds, failAt)
          && r == (if n < |cmds| then Failure(SqliteError) else Success(save.count))
          && (n == |cmds| && store0.index.Healthy? && InStep(store0.index.rows, chapters) ==>
                database.store.index.Healthy? && Reflects(store0.index.rows, database.store.index.rows, chapters)))
  }

  class ApplicationDbContext {
    const changeTracker: ChangeTracker
    const database: Database

    constructor (changeTracker: ChangeTracker, database: Database)
      ensures this.changeTracker == changeTracker && this.database == database
    {
      this.changeTracker := changeTracker;
      this.database := database;
    }

    /** The base `SaveChanges`: it detects changes itself when automatic detection is on,
        then writes them and accepts them, or throws. */
    method BaseSaveChanges(save: BaseSave) returns (r: Result<int>)
      modifies changeTracker
      ensures changeTracker.autoDetectChangesEnabled == old(changeTracker.autoDetectChangesEnabled)
      ensures changeTracker.scanned == old(changeTracker.scanned)
      ensures changeTracker.detections
           == old(changeTracker.detections) + (if old(changeTracker.autoDetectChangesEnabled) then 1 else 0)
      ensures save.Saved? ==> r == Success(save.count) && changeTracker.entries == save.entriesAfter
      ensures save.SaveThrew? ==>
        r == Failure(save.error)
        && changeTracker.entries
           == (if old(changeTracker.autoDetectChangesEnabled) then old(changeTracker.scanned) else old(changeTracker.entries))
    {
      if changeTracker.autoDetectChangesEnabled {
        changeTracker.DetectChanges();
      }
      match save {
        case Saved(count, after, _) =>
          changeTracker.AcceptAllChanges(after);
          r := Success(count);
        case SaveThrew(error) =>
          r := Failure(error);
      }
    }

    /** `SaveChanges`: the chapter changes are captured before the base save, which runs
        with automatic detection off; the index update runs only after a successful base
        save, and its error, if any, replaces the row count. */
    method SaveChanges(save: BaseSave, failAt: Option<nat>) returns (r: Result<int>)
      modifies changeTracker, database
      ensures SaveEffect(changeTracker, database, old(changeTracker.scanned), old(changeTracker.autoDetectChangesEnabled),
                         old(changeTracker.detections), old(database.store), old(database.inTransaction), old(database.log),
                         save, failAt, r)
    {
      var changedChapters := GetChangedEntities(changeTracker);
      if changedChapters.Failure? {
        return Failure(changedChapters.error);
      }
      changeTracker.SetAutoDetectChanges(false);
      var result := BaseSaveChanges(save);
      if result.Failure? {
        return result;
      }
      changeTracker.SetAutoDetectChanges(true);
      // the triples hold the live entities, which now carry the generated keys
      var chapters := AssignKeys(changedChapters.value, save.generatedKeys);
      var outcome := UpdateChapterFTS(database, chapters, failAt);
      if outcome.Fail? {
        return Failure(outcome.error);
      }
      return result;
    }

    /** `SaveChangesAsync`: the same sequence with the base save awaited; the model runs it
        to completion. */
    method SaveChangesAsync(save: BaseSave, failAt: Option<nat>) returns (r: Result<int>)
      modifies changeTracker, database
      ensures SaveEffect(changeTracker, database, old(changeTracker.scanned), old(changeTracker.autoDetectChangesEnabled),
                         old(changeTracker.detections), old(database.store), old(database.inTransaction), old(database.log),
                         save, failAt, r)
    {
      r := SaveChanges(save, failAt);
    }
  }
}
