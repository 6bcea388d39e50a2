/** Keeping the full-text index in step with the saved chapter changes: each change becomes
    index statements, and a spellfix refresh follows when anything was indexed. */
module UpdateFtsTriggers {
  import opened Wrappers
  import opened Entities
  import opened FtsNormalizer
  import opened FtsEngine

  /** The index row a chapter should have: its normalised Text and Title. */
  function NormalizedRow(c: Chapter): FtsRow
  {
    FtsRow(NormalizeText(c.text), NormalizeText(c.title))
  }

  /** The insert issued for a chapter's new values. */
  function InsertOf(c: Chapter): FtsCommand
  {
    InsertRow(c.id, NormalizeText(c.text), NormalizeText(c.title))
  }

  /** The 'delete' issued for a chapter's old values. */
  function DeleteOf(c: Chapter): FtsCommand
  {
    DeleteRow(c.id, NormalizeText(c.text), NormalizeText(c.title))
  }

  /** `shouldSkipAddedChapter`: no added chapter is skipped. */
  predicate ShouldSkipAddedChapter(chapterNew: Chapter)
  {
    false
  }

  /** `shouldSkipModifiedChapter`: the raw Text and Title are both unchanged. */
  predicate ShouldSkipModifiedChapter(chapterNew: Chapter, chapterOld: Chapter)
  {
    chapterNew.text == chapterOld.text && chapterNew.title == chapterOld.title
  }

  /** The statements one change turns into. */
  function ChangeCommands(c: ChapterChange): seq<FtsCommand>
  {
    match c.state
    case Added => if ShouldSkipAddedChapter(c.newEntity) then [] else [InsertOf(c.newEntity)]
    case Modified =>
      if ShouldSkipModifiedChapter(c.newEntity, c.oldEntity) then []
      else [DeleteOf(c.oldEntity), InsertOf(c.newEntity)]
    case Deleted => [DeleteOf(c.oldEntity)]
    case _ => []
  }

  /** The change reaches a branch that sets `isUpdated`. */
  predicate SetsUpdated(c: ChapterChange)
  {
    match c.state
    case Added => !ShouldSkipAddedChapter(c.newEntity)
    case Modified => !ShouldSkipModifiedChapter(c.newEntity, c.oldEntity)
    case Deleted => true
    case _ => false
  }

  /** The statements of all changes, in list order. */
  function ChangesCommands(cs: seq<ChapterChange>): seq<FtsCommand>
    decreases |cs|
  {
    if cs == [] then [] else ChangeCommands(cs[0]) + ChangesCommands(cs[1..])
  }

  predicate AnySetsUpdated(cs: seq<ChapterChange>)
  {
    exists i :: 0 <= i < |cs| && SetsUpdated(cs[i])
  }

  /** The spellfix refresh that follows when `isUpdated` is set. */
  function Refresh(cs: seq<ChapterChange>): seq<FtsCommand>
  {
    if AnySetsUpdated(cs) then [ImportVocabulary, ResetSpellFix] else []
  }

  /** Every statement `UpdateChapterFTS` sends when none of them raises. */
  function SyncCommands(cs: seq<ChapterChange>): seq<FtsCommand>
  {
    ChangesCommands(cs) + Refresh(cs)
  }

  /** A change sets `isUpdated` exactly when it issues a statement. */
  lemma SetsUpdatedIffIssues(c: ChapterChange)
    ensures SetsUpdated(c) <==> ChangeCommands(c) != []
    ensures ImportVocabulary !in ChangeCommands(c) && ResetSpellFix !in ChangeCommands(c)
  {
  }

  lemma {:induction false} ChangesCommandsAppend(a: seq<ChapterChange>, b: seq<ChapterChange>)
    ensures ChangesCommands(a + b) == ChangesCommands(a) + ChangesCommands(b)
    decreases |a|
  {
    if a == [] {
      assert a + b == b;
    } else {
      assert (a + b)[0] == a[0] && (a + b)[1..] == a[1..] + b;
      ChangesCommandsAppend(a[1..], b);
    }
  }

  /** The spellfix refresh runs exactly when at least one change was not skipped, and the
      per-change statements never touch the spellfix table. */
  lemma {:induction false} RefreshIffSomethingIndexed(cs: seq<ChapterChange>)
    ensures AnySetsUpdated(cs) <==> ChangesCommands(cs) != []
    ensures ImportVocabulary !in ChangesCommands(cs) && ResetSpellFix !in ChangesCommands(cs)
    decreases |cs|
  {
    if cs != [] {
      RefreshIffSomethingIndexed(cs[1..]);
      SetsUpdatedIffIssues(cs[0]);
      if AnySetsUpdated(cs[1..]) {
        var i :| 0 <= i < |cs[1..]| && SetsUpdated(cs[1..][i]);
        assert SetsUpdated(cs[i + 1]);
      }
      if AnySetsUpdated(cs) && !SetsUpdated(cs[0]) {
        var i :| 0 <= i < |cs| && SetsUpdated(cs[i]);
        assert SetsUpdated(cs[1..][i - 1]);
      }
    }
  }

  /** The last two statements are the vocabulary import and the reset, in that order, exactly
      when some change was indexed; otherwise the spellfix table is not touched. */
  lemma SpellFixRefreshRule(cs: seq<ChapterChange>)
    ensures ImportVocabulary in SyncCommands(cs) <==> AnySetsUpdated(cs)
    ensures ResetSpellFix in SyncCommands(cs) <==> AnySetsUpdated(cs)
    ensures AnySetsUpdated(cs) ==>
      (|SyncCommands(cs)| >= 3 && SyncCommands(cs)[|SyncCommands(cs)| - 2..] == [ImportVocabulary, ResetSpellFix])
  {
    RefreshIffSomethingIndexed(cs);
  }

  // ---------------------------------------------------------------------------------------
  // The index afterwards

  /** The rowid a change is about. */
  function Key(c: ChapterChange): int
  {
    if c.state == Added then c.newEntity.id else c.oldEntity.id
  }

  /** The index agrees with the changes before they are applied: no row yet for an added
      chapter, the normalised old row for a modified or deleted one, keys that are not
      modified, and one change per rowid. */
  ghost predicate InStep(rows: map<int, FtsRow>, cs: seq<ChapterChange>)
  {
    && (forall i :: 0 <= i < |cs| && cs[i].state == Added ==> cs[i].newEntity.id !in rows)
    && (forall i :: 0 <= i < |cs| && (cs[i].state == Modified || cs[i].state == Deleted) ==>
          (cs[i].oldEntity.id in rows && rows[cs[i].oldEntity.id] == NormalizedRow(cs[i].oldEntity)))
    && (forall i :: 0 <= i < |cs| && cs[i].state == Modified ==> cs[i].newEntity.id == cs[i].oldEntity.id)
    && (forall i, j :: 0 <= i < j < |cs| && IsChangedState(cs[i].state) && IsChangedState(cs[j].state) ==> Key(cs[i]) != Key(cs[j]))
  }

  ghost predicate Touched(cs: seq<ChapterChange>, k: int)
  {
    exists i :: 0 <= i < |cs| && IsChangedState(cs[i].state) && Key(cs[i]) == k
  }

  /** `after` is `before` with the changes applied: the normalised new row for an added or
      modified chapter, no row for a deleted one, and every other rowid as it was. */
  ghost predicate Reflects(before: map<int, FtsRow>, after: map<int, FtsRow>, cs: seq<ChapterChange>)
  {
    && (forall k :: !Touched(cs, k) ==> (k in after <==> k in before) && (k in before ==> after[k] == before[k]))
    && (forall i :: 0 <= i < |cs| && (cs[i].state == Added || cs[i].state == Modified) ==>
          (Key(cs[i]) in after && after[Key(cs[i])] == NormalizedRow(cs[i].newEntity)))
    && (forall i :: 0 <= i < |cs| && cs[i].state == Deleted ==> Key(cs[i]) !in after)
  }

  /** A skipped modification changes nothing the index holds. */
  lemma SkipIsSound(chapterNew: Chapter, chapterOld: Chapter)
    requires ShouldSkipModifiedChapter(chapterNew, chapterOld)
    ensures NormalizedRow(chapterNew) == NormalizedRow(chapterOld)
  {
  }

  /** The insert of a chapter that is not indexed yet adds its normalised row. */
  lemma InsertEffect(v: Vocabulary, rows: map<int, FtsRow>, sf: map<string, nat>, c: Chapter)
    requires c.id !in rows
    ensures Apply(v, FtsStore(Healthy(rows), sf), InsertOf(c)) == FtsStore(Healthy(rows[c.id := NormalizedRow(c)]), sf)
  {
  }

  /** The 'delete' of a chapter whose normalised row is indexed removes that row. */
  lemma DeleteEffect(v: Vocabulary, rows: map<int, FtsRow>, sf: map<string, nat>, c: Chapter)
    requires c.id in rows && rows[c.id] == NormalizedRow(c)
    ensures Apply(v, FtsStore(Healthy(rows), sf), DeleteOf(c)) == FtsStore(Healthy(rows - {c.id}), sf)
  {
  }

  /** Only a tracked change's own rowid is touched by it. */
  lemma TouchedOne(c: ChapterChange, k: int)
    ensures Touched([c], k) <==> IsChangedState(c.state) && Key(c) == k
  {
    if IsChangedState(c.state) && Key(c) == k {
      assert [c][0] == c;
    }
  }

  lemma ReflectsStore(rows: map<int, FtsRow>, c: ChapterChange)
    requires c.state == Added || c.state == Modified
    ensures Reflects(rows, rows[Key(c) := NormalizedRow(c.newEntity)], [c])
  {
    var after := rows[Key(c) := NormalizedRow(c.newEntity)];
    forall k | !Touched([c], k)
      ensures (k in after <==> k in rows) && (k in rows ==> after[k] == rows[k])
    {
      TouchedOne(c, k);
    }
    assert [c][0] == c;
  }

  lemma ReflectsRemove(rows: map<int, FtsRow>, c: ChapterChange)
    requires c.state == Deleted
    ensures Reflects(rows, rows - {Key(c)}, [c])
  {
    var after := rows - {Key(c)};
    forall k | !Touched([c], k)
      ensures (k in after <==> k in rows) && (k in rows ==> after[k] == rows[k])
    {
      TouchedOne(c, k);
    }
    assert [c][0] == c;
  }

  lemma ReflectsUntracked(rows: map<int, FtsRow>, c: ChapterChange)
    requires !IsChangedState(c.state)
    ensures Reflects(rows, rows, [c])
  {
    assert [c][0] == c;
  }

  lemma AddedEffect(v: Vocabulary, rows: map<int, FtsRow>, sf: map<string, nat>, c: ChapterChange)
    requires c.state == Added && c.newEntity.id !in rows
    ensures ApplyAll(v, FtsStore(Healthy(rows), sf), ChangeCommands(c))
         == FtsStore(Healthy(rows[Key(c) := NormalizedRow(c.newEntity)]), sf)
  {
    InsertEffect(v, rows, sf, c.newEntity);
    ApplyAllOne(v, FtsStore(Healthy(rows), sf), InsertOf(c.newEntity));
  }

  lemma ModifiedEffect(v: Vocabulary, rows: map<int, FtsRow>, sf: map<string, nat>, c: ChapterChange)
    requires c.state == Modified && c.newEntity.id == c.oldEntity.id
    requires c.oldEntity.id in rows && rows[c.oldEntity.id] == NormalizedRow(c.oldEntity)
    ensures ApplyAll(v, FtsStore(Healthy(rows), sf), ChangeCommands(c))
         == FtsStore(Healthy(rows[Key(c) := NormalizedRow(c.newEntity)]), sf)
  {
    var id := c.oldEntity.id;
    if ShouldSkipModifiedChapter(c.newEntity, c.oldEntity) {
      SkipIsSound(c.newEntity, c.oldEntity);
      assert rows[id := NormalizedRow(c.newEntity)] == rows;
    } else {
      DeleteEffect(v, rows, sf, c.oldEntity);
      InsertEffect(v, rows - {id}, sf, c.newEntity);
      ApplyAllTwo(v, FtsStore(Healthy(rows), sf), DeleteOf(c.oldEntity), InsertOf(c.newEntity));
      assert (rows - {id})[id := NormalizedRow(c.newEntity)] == rows[id := NormalizedRow(c.newEntity)];
    }
  }

  lemma DeletedEffect(v: Vocabulary, rows: map<int, FtsRow>, sf: map<string, nat>, c: ChapterChange)
    requires c.state == Deleted
    requires c.oldEntity.id in rows && rows[c.oldEntity.id] == NormalizedRow(c.oldEntity)
    ensures ApplyAll(v, FtsStore(Healthy(rows), sf), ChangeCommands(c)) == FtsStore(Healthy(rows - {Key(c)}), sf)
  {
    DeleteEffect(v, rows, sf, c.oldEntity);
    ApplyAllOne(v, FtsStore(Healthy(rows), sf), DeleteOf(c.oldEntity));
  }

  /** The statements of one change bring one row of an index that is in step to its new state. */
  lemma OneChangeEffect(v: Vocabulary, rows: map<int, FtsRow>, sf: map<string, nat>, c: ChapterChange)
    requires InStep(rows, [c])
    ensures var s := ApplyAll(v, FtsStore(Healthy(rows), sf), ChangeCommands(c));
      s.spellFix == sf && s.index.Healthy? && Reflects(rows, s.index.rows, [c])
  {
    assert [c][0] == c;
    if c.state == Added {
      AddedEffect(v, rows, sf, c);
      ReflectsStore(rows, c);
    } else if c.state == Modified {
      ModifiedEffect(v, rows, sf, c);
      ReflectsStore(rows, c);
    } else if c.state == Deleted {
      DeletedEffect(v, rows, sf, c);
      ReflectsRemove(rows, c);
    } else {
      ReflectsUntracked(rows, c);
    }
  }

  lemma InStepHead(rows: map<int, FtsRow>, cs: seq<ChapterChange>)
    requires cs != [] && InStep(rows, cs)
    ensures InStep(rows, [cs[0]])
  {
    assert [cs[0]][0] == cs[0];
  }

  lemma InStepTail(rows: map<int, FtsRow>, rows1: map<int, FtsRow>, cs: seq<ChapterChange>)
    requires cs != [] && InStep(rows, cs) && Reflects(rows, rows1, [cs[0]])
    ensures InStep(rows1, cs[1..])
  {
    var tail := cs[1..];
    forall i | 0 <= i < |tail| && IsChangedState(tail[i].state)
      ensures !Touched([cs[0]], Key(tail[i]))
    {
      assert tail[i] == cs[i + 1];
    }
  }

  lemma ReflectsCons(rows: map<int, FtsRow>, rows1: map<int, FtsRow>, after: map<int, FtsRow>, cs: seq<ChapterChange>)
    requires cs != [] && InStep(rows, cs)
    requires Reflects(rows, rows1, [cs[0]]) && Reflects(rows1, after, cs[1..])
    ensures Reflects(rows, after, cs)
  {
    var tail := cs[1..];
    assert [cs[0]][0] == cs[0];
    forall k | !Touched(cs, k)
      ensures !Touched(tail, k)
    {
      forall i | 0 <= i < |tail| ensures tail[i] == cs[i + 1] { }
    }
    if IsChangedState(cs[0].state) {
      forall i | 0 <= i < |tail| && IsChangedState(tail[i].state) ensures Key(tail[i]) != Key(cs[0]) {
        assert tail[i] == cs[i + 1];
      }
    }
    forall i | 1 <= i < |cs|
      ensures cs[i] == tail[i - 1]
    {
    }
  }

  /** Processing the changes in list order: if the index held the normalised old row for every
      modified or deleted chapter and no row for an added one, it afterwards holds the
      normalised new row for every added or modified chapter, no row for a deleted one, and
      every other rowid as before; the spellfix words are untouched by these statements. */
  lemma {:induction false} ChangesKeepIndexInStep(v: Vocabulary, rows: map<int, FtsRow>, sf: map<string, nat>, cs: seq<ChapterChange>)
    requires InStep(rows, cs)
    ensures var s := ApplyAll(v, FtsStore(Healthy(rows), sf), ChangesCommands(cs));
      s.spellFix == sf && s.index.Healthy? && Reflects(rows, s.index.rows, cs)
    decreases |cs|
  {
    if cs != [] {
      var st := FtsStore(Healthy(rows), sf);
      ApplyAllAppend(v, st, ChangeCommands(cs[0]), ChangesCommands(cs[1..]));
      InStepHead(rows, cs);
      OneChangeEffect(v, rows, sf, cs[0]);
      var rows1 := ApplyAll(v, st, ChangeCommands(cs[0])).index.rows;
      InStepTail(rows, rows1, cs);
      ChangesKeepIndexInStep(v, rows1, sf, cs[1..]);
      var after := ApplyAll(v, FtsStore(Healthy(rows1), sf), ChangesCommands(cs[1..])).index.rows;
      ReflectsCons(rows, rows1, after, cs);
    }
  }

  /** The whole synchronisation, refresh included, leaves an index that was in step with the
      changes in step with their new values. */
  lemma SyncKeepsIndexInStep(v: Vocabulary, rows: map<int, FtsRow>, sf: map<string, nat>, cs: seq<ChapterChange>)
    requires InStep(rows, cs)
    ensures var s := ApplyAll(v, FtsStore(Healthy(rows), sf), SyncCommands(cs));
      s.index.Healthy? && Reflects(rows, s.index.rows, cs)
    ensures var s := ApplyAll(v, FtsStore(Healthy(rows), sf), SyncCommands(cs));
      s.spellFix == if AnySetsUpdated(cs) then ImportNewTerms(sf, v(s.index)) else sf
  {
    var st := FtsStore(Healthy(rows), sf);
    ChangesKeepIndexInStep(v, rows, sf, cs);
    ApplyAllAppend(v, st, ChangesCommands(cs), Refresh(cs));
    var mid := ApplyAll(v, st, ChangesCommands(cs));
    if AnySetsUpdated(cs) {
      ApplyAllTwo(v, mid, ImportVocabulary, ResetSpellFix);
    }
  }

  /** A 'delete' that does not repeat the indexed values corrupts the index, and it stays so. */
  lemma StaleDeleteCorrupts(v: Vocabulary, rows: map<int, FtsRow>, sf: map<string, nat>, c: ChapterChange)
    requires c.state == Deleted || (c.state == Modified && !ShouldSkipModifiedChapter(c.newEntity, c.oldEntity))
    requires c.oldEntity.id !in rows || rows[c.oldEntity.id] != NormalizedRow(c.oldEntity)
    ensures ApplyAll(v, FtsStore(Healthy(rows), sf), ChangeCommands(c)).index.Malformed?
  {
    var st := FtsStore(Healthy(rows), sf);
    var cmds := ChangeCommands(c);
    assert cmds[0] == DeleteOf(c.oldEntity);
    MalformedIsFinal(v, Apply(v, st, cmds[0]), cmds[1..]);
  }

  /** The order of a modification matters: inserting the new row before deleting the old one
      would corrupt an index that is in step. */
  lemma InsertBeforeDeleteCorrupts(v: Vocabulary, rows: map<int, FtsRow>, sf: map<string, nat>, c: ChapterChange)
    requires c.state == Modified && InStep(rows, [c])
    ensures ApplyAll(v, FtsStore(Healthy(rows), sf), [InsertOf(c.newEntity), DeleteOf(c.oldEntity)]).index.Malformed?
  {
    assert [c][0] == c;
    var st := FtsStore(Healthy(rows), sf);
    var s1 := Apply(v, st, InsertOf(c.newEntity));
    assert s1.index.Malformed?;
    MalformedIsFinal(v, s1, [DeleteOf(c.oldEntity)]);
    assert [InsertOf(c.newEntity), DeleteOf(c.oldEntity)][1..] == [DeleteOf(c.oldEntity)];
  }

  /** The skip rule compares raw values: an edit that only changes markup is not skipped,
      although its normalised row is the one already indexed. */
  lemma MarkupOnlyEditIsNotSkipped()
    ensures var n := Chapter(1, None, Some("<b>x</b>"), 1);
      var o := Chapter(1, None, Some("x"), 1);
      !ShouldSkipModifiedChapter(n, o) && NormalizedRow(n) == NormalizedRow(o)
  {
    NormalizeBoldX();
  }

  // ---------------------------------------------------------------------------------------
  // The routine itself

  /** How many statements complete when the statement numbered `failAt` (from 0) raises. */
  function Completed(total: nat, failAt: Option<nat>): (n: nat)
    ensures n <= total
    ensures n < total <==> failAt.Some? && failAt.value < total
  {
    if failAt.Some? && failAt.value < total then failAt.value else total
  }

  /** What the database records: the transaction begins, the statements run up to the one
      that raises, if any, and the transaction is committed in every case. */
  ghost function SyncLog(cmds: seq<FtsCommand>, failAt: Option<nat>): seq<DbEvent>
  {
    var n := Completed(|cmds|, failAt);
    [TransactionBegun] + Executions(cmds[..n]) + (if n < |cmds| then [Raised(cmds[n])] else []) + [TransactionCommitted]
  }

  lemma ChangesCommandsSnoc(cs: seq<ChapterChange>, i: nat)
    requires i < |cs|
    ensures ChangesCommands(cs[..i + 1]) == ChangesCommands(cs[..i]) + ChangeCommands(cs[i])
  {
    assert cs[..i + 1] == cs[..i] + [cs[i]];
    ChangesCommandsAppend(cs[..i], [cs[i]]);
    assert ChangesCommands([cs[i]]) == ChangeCommands(cs[i]) + ChangesCommands([]);
  }

  lemma AnySetsUpdatedSnoc(cs: seq<ChapterChange>, i: nat)
    requires i < |cs|
    ensures AnySetsUpdated(cs[..i + 1]) <==> AnySetsUpdated(cs[..i]) || SetsUpdated(cs[i])
  {
    assert forall j :: 0 <= j < i ==> cs[..i + 1][j] == cs[..i][j];
    assert cs[..i + 1][i] == cs[i];
  }

  /** The statements of the first `n` changes begin the statement list. */
  lemma SyncCommandsSplit(cs: seq<ChapterChange>, n: nat)
    requires n <= |cs|
    ensures SyncCommands(cs) == ChangesCommands(cs[..n]) + (ChangesCommands(cs[n..]) + Refresh(cs))
  {
    assert cs == cs[..n] + cs[n..];
    ChangesCommandsAppend(cs[..n], cs[n..]);
  }

  lemma MiddleSlice(a: seq<FtsCommand>, b: seq<FtsCommand>, c: seq<FtsCommand>)
    ensures |a + b| <= |(a + b) + c|
    ensures ((a + b) + c)[|a|..|a + b|] == b
  {
    assert ((a + b) + c)[..|a + b|] == a + b;
  }

  /** Change `i`'s statements follow those of the changes before it. */
  lemma CommandsAt(cs: seq<ChapterChange>, i: nat)
    requires i < |cs|
    ensures |ChangesCommands(cs[..i + 1])| == |ChangesCommands(cs[..i])| + |ChangeCommands(cs[i])|
    ensures |ChangesCommands(cs[..i + 1])| <= |SyncCommands(cs)|
    ensures SyncCommands(cs)[|ChangesCommands(cs[..i])|..|ChangesCommands(cs[..i + 1])|] == ChangeCommands(cs[i])
    ensures AnySetsUpdated(cs[..i + 1]) <==> AnySetsUpdated(cs[..i]) || SetsUpdated(cs[i])
  {
    ChangesCommandsSnoc(cs, i);
    SyncCommandsSplit(cs, i + 1);
    MiddleSlice(ChangesCommands(cs[..i]), ChangeCommands(cs[i]), ChangesCommands(cs[i + 1..]) + Refresh(cs));
    AnySetsUpdatedSnoc(cs, i);
  }

  lemma ExecutionsSnoc(cmds: seq<FtsCommand>, n: nat)
    requires n < |cmds|
    ensures Executions(cmds[..n + 1]) == Executions(cmds[..n]) + [Executed(cmds[n])]
  {
  }

  lemma ApplyAllSnoc(v: Vocabulary, store: FtsStore, cmds: seq<FtsCommand>, n: nat)
    requires n < |cmds|
    ensures ApplyAll(v, store, cmds[..n + 1]) == Apply(v, ApplyAll(v, store, cmds[..n]), cmds[n])
  {
    assert cmds[..n + 1] == cmds[..n] + [cmds[n]];
    ApplyAllAppend(v, store, cmds[..n], [cmds[n]]);
    ApplyAllOne(v, ApplyAll(v, store, cmds[..n]), cmds[n]);
  }

  /** Where a run of the synchronisation stands: the statements before `done` have taken
      effect, starting from `start`, and are logged after `prefix`; when `raised`, statement
      `done` raised and is logged as such. */
  ghost predicate Progress(database: Database, start: FtsStore, prefix: seq<DbEvent>, cmds: seq<FtsCommand>,
                           done: nat, raised: bool)
    reads database
  {
    done <= |cmds| && (raised ==> done < |cmds|)
    && database.store == ApplyAll(database.vocabulary, start, cmds[..done])
    && database.log == prefix + Executions(cmds[..done]) + (if raised then [Raised(cmds[done])] else [])
  }

  /** Runs the next statement of the synchronisation, numbered `issued`; it raises when
      `failAt` names it. */
  method Issue(database: Database, ghost start: FtsStore, ghost prefix: seq<DbEvent>, ghost cmds: seq<FtsCommand>,
               cmd: FtsCommand, failAt: Option<nat>, issued: nat)
    returns (ok: bool)
    requires issued < |cmds| && cmds[issued] == cmd
    requires Progress(database, start, prefix, cmds, issued, false)
    modifies database
    ensures ok <==> failAt != Some(issued)
    ensures database.inTransaction == old(database.inTransaction)
    ensures Progress(database, start, prefix, cmds, if ok then issued + 1 else issued, !ok)
  {
    ok := database.ExecuteSqlRaw(cmd, failAt == Some(issued));
    ApplyAllSnoc(database.vocabulary, start, cmds, issued);
    ExecutionsSnoc(cmds, issued);
  }

  /** After running the `count` statements from position `issued`: every one ran (`ok`), or
      the one at `done` raised, being the statement `failAt` names. */
  ghost predicate Ran(database: Database, start: FtsStore, prefix: seq<DbEvent>, cmds: seq<FtsCommand>,
                      failAt: Option<nat>, issued: nat, count: nat, done: nat, ok: bool)
    reads database
  {
    && Progress(database, start, prefix, cmds, done, !ok)
    && (ok ==> done == issued + count && (failAt.Some? ==> done <= failAt.value))
    && (!ok ==> failAt == Some(done) && issued <= done < issued + count)
  }

  /** Runs a change's single statement, which sits at position `issued` of `cmds`. */
  method RunOne(database: Database, ghost start: FtsStore, ghost prefix: seq<DbEvent>, ghost cmds: seq<FtsCommand>,
                cmd: FtsCommand, failAt: Option<nat>, issued: nat)
    returns (done: nat, ok: bool)
    requires issued < |cmds| && cmds[issued] == cmd
    requires Progress(database, start, prefix, cmds, issued, false)
    requires failAt.Some? ==> issued <= failAt.value
    modifies database
    ensures database.inTransaction == old(database.inTransaction)
    ensures Ran(database, start, prefix, cmds, failAt, issued, 1, done, ok)
  {
    ok := Issue(database, start, prefix, cmds, cmd, failAt, issued);
    done := if ok then issued + 1 else issued;
  }

  /** Runs a change's two statements, which sit at positions `issued` and `issued + 1` of
      `cmds`, stopping when the first raises. */
  method RunTwo(database: Database, ghost start: FtsStore, ghost prefix: seq<DbEvent>, ghost cmds: seq<FtsCommand>,
                first: FtsCommand, second: FtsCommand, failAt: Option<nat>, issued: nat)
    returns (done: nat, ok: bool)
    requires issued + 1 < |cmds| && cmds[issued] == first && cmds[issued + 1] == second
    requires Progress(database, start, prefix, cmds, issued, false)
    requires failAt.Some? ==> issued <= failAt.value
    modifies database
    ensures database.inTransaction == old(database.inTransaction)
    ensures Ran(database, start, prefix, cmds, failAt, issued, 2, done, ok)
  {
    done, ok := RunOne(database, start, prefix, cmds, first, failAt, issued);
    if ok {
      done, ok := RunOne(database, start, prefix, cmds, second, failAt, done);
    }
  }

  /** The `Modified` case: unless the skip rule applies, the old row's 'delete', then the
      new row's insert. */
  method SyncModified(database: Database, ghost start: FtsStore, ghost prefix: seq<DbEvent>, ghost cmds: seq<FtsCommand>,
                      c: ChapterChange, failAt: Option<nat>, issued: nat)
    returns (done: nat, ok: bool)
    requires c.state == Modified
    requires issued + |ChangeCommands(c)| <= |cmds|
    requires cmds[issued..issued + |ChangeCommands(c)|] == ChangeCommands(c)
    requires Progress(database, start, prefix, cmds, issued, false)
    requires failAt.Some? ==> issued <= failAt.value
    modifies database
    ensures database.inTransaction == old(database.inTransaction)
    ensures Ran(database, start, prefix, cmds, failAt, issued, |ChangeCommands(c)|, done, ok)
  {
    ghost var here := ChangeCommands(c);
    done, ok := issued, true;
    if !ShouldSkipModifiedChapter(c.newEntity, c.oldEntity) {
      assert here == [DeleteOf(c.oldEntity), InsertOf(c.newEntity)];
      SliceAt(cmds, issued, here, 0);
      SliceAt(cmds, issued, here, 1);
      done, ok := RunTwo(database, start, prefix, cmds, DeleteOf(c.oldEntity), InsertOf(c.newEntity), failAt, issued);
    }
  }

  /** One pass of the `switch`: the statements of change `c`, which sit at positions
      `issued`.. of `cmds`. Returns how many statements have completed and whether the last
      one attempted raised. */
  method SyncChange(database: Database, ghost start: FtsStore, ghost prefix: seq<DbEvent>, ghost cmds: seq<FtsCommand>,
                    c: ChapterChange, failAt: Option<nat>, issued: nat)
    returns (done: nat, ok: bool)
    requires issued + |ChangeCommands(c)| <= |cmds|
    requires cmds[issued..issued + |ChangeCommands(c)|] == ChangeCommands(c)
    requires Progress(database, start, prefix, cmds, issued, false)
    requires failAt.Some? ==> issued <= failAt.value
    modifies database
    ensures database.inTransaction == old(database.inTransaction)
    ensures Ran(database, start, prefix, cmds, failAt, issued, |ChangeCommands(c)|, done, ok)
  {
    ghost var here := ChangeCommands(c);
    done, ok := issued, true;
    match c.state {
      case Added =>
        if !ShouldSkipAddedChapter(c.newEntity) {
          assert here == [InsertOf(c.newEntity)];
          SliceAt(cmds, issued, here, 0);
          done, ok := RunOne(database, start, prefix, cmds, InsertOf(c.newEntity), failAt, issued);
        }
      case Modified =>
        done, ok := SyncModified(database, start, prefix, cmds, c, failAt, issued);
      case Deleted =>
        assert here == [DeleteOf(c.oldEntity)];
        SliceAt(cmds, issued, here, 0);
        done, ok := RunOne(database, start, prefix, cmds, DeleteOf(c.oldEntity), failAt, issued);
      case _ =>
    }
  }

  lemma SliceAt(cmds: seq<FtsCommand>, from: nat, part: seq<FtsCommand>, k: nat)
    requires from + |part| <= |cmds| && cmds[from..from + |part|] == part && k < |part|
    ensures cmds[from + k] == part[k]
  {
    assert cmds[from..from + |part|][k] == cmds[from + k];
  }

  /** The `isUpdated` branch: the vocabulary import, then the spellfix reset, which are the
      last two statements of `cmds`. */
  method RefreshSpellFix(database: Database, ghost start: FtsStore, ghost prefix: seq<DbEvent>,
                         ghost cmds: seq<FtsCommand>, failAt: Option<nat>, issued: nat)
    returns (done: nat, ok: bool)
    requires issued + 2 == |cmds| && cmds[issued..] == [ImportVocabulary, ResetSpellFix]
    requires Progress(database, start, prefix, cmds, issued, false)
    requires failAt.Some? ==> issued <= failAt.value
    modifies database
    ensures database.inTransaction == old(database.inTransaction)
    ensures Progress(database, start, prefix, cmds, done, !ok)
    ensures ok ==> done == |cmds|
    ensures ok && failAt.Some? ==> done <= failAt.value
    ensures !ok ==> failAt == Some(done) && issued <= done < |cmds|
  {
    assert cmds[issued] == ImportVocabulary && cmds[issued + 1] == ResetSpellFix;
    done := issued;
    ok := Issue(database, start, prefix, cmds, ImportVocabulary, failAt, done);
    if ok {
      done := done + 1;
      ok := Issue(database, start, prefix, cmds, ResetSpellFix, failAt, done);
      if ok {
        done := done + 1;
      }
    }
  }

  /** The log and the store once the statements up to `done` have run and, when `raised`,
      statement `done` has raised. */
  lemma SyncLogAt(cmds: seq<FtsCommand>, failAt: Option<nat>, done: nat, raised: bool)
    requires raised ==> failAt == Some(done) && done < |cmds|
    requires !raised ==> done == |cmds| && (failAt.Some? ==> done <= failAt.value)
    ensures Completed(|cmds|, failAt) == done
    ensures SyncLog(cmds, failAt)
         == [TransactionBegun] + Executions(cmds[..done]) + (if raised then [Raised(cmds[done])] else []) + [TransactionCommitted]
  {
  }

  /** The `finally` block: the transaction is committed whether or not a statement raised,
      and a raised error is passed on. */
  method Finish(database: Database, ghost start: FtsStore, ghost before: seq<DbEvent>, ghost cmds: seq<FtsCommand>,
                failAt: Option<nat>, done: nat, raised: bool)
    returns (outcome: Outcome)
    requires raised ==> failAt == Some(done) && done < |cmds|
    requires !raised ==> done == |cmds| && (failAt.Some? ==> done <= failAt.value)
    requires Progress(database, start, before + [TransactionBegun], cmds, done, raised)
    modifies database
    ensures database.store == ApplyAll(database.vocabulary, start, cmds[..Completed(|cmds|, failAt)])
    ensures database.log == before + SyncLog(cmds, failAt)
    ensures !database.inTransaction
    ensures outcome == (if Completed(|cmds|, failAt) < |cmds| then Fail(SqliteError) else Pass)
  {
    SyncLogAt(cmds, failAt, done, raised);
    database.CommitTransaction();
    outcome := if raised then Fail(SqliteError) else Pass;
  }

  /** One iteration of the `foreach`: change `i`, with `issued` the statements of the
      changes before it. */
  method SyncStep(database: Database, ghost start: FtsStore, ghost prefix: seq<DbEvent>,
                  changedChapters: seq<ChapterChange>, failAt: Option<nat>, i: nat, issued: nat, isUpdated: bool)
    returns (done: nat, ok: bool, updated: bool)
    requires i < |changedChapters|
    requires issued == |ChangesCommands(changedChapters[..i])|
    requires isUpdated <==> AnySetsUpdated(changedChapters[..i])
    requires Progress(database, start, prefix, SyncCommands(changedChapters), issued, false)
    requires failAt.Some? ==> issued <= failAt.value
    modifies database
    ensures database.inTransaction == old(database.inTransaction)
    ensures Progress(database, start, prefix, SyncCommands(changedChapters), done, !ok)
    ensures ok ==> done == |ChangesCommands(changedChapters[..i + 1])|
    ensures ok ==> (updated <==> AnySetsUpdated(changedChapters[..i + 1]))
    ensures ok && failAt.Some? ==> done <= failAt.value
    ensures !ok ==> failAt == Some(done)
  {
    CommandsAt(changedChapters, i);
    done, ok := SyncChange(database, start, prefix, SyncCommands(changedChapters), changedChapters[i], failAt, issued);
    updated := isUpdated || (ok && SetsUpdated(changedChapters[i]));
  }

  /** The `foreach` over the changes, which stops at the first statement that raises. */
  method SyncChanges(database: Database, ghost start: FtsStore, ghost prefix: seq<DbEvent>,
                     changedChapters: seq<ChapterChange>, failAt: Option<nat>)
    returns (issued: nat, raised: bool, isUpdated: bool)
    requires Progress(database, start, prefix, SyncCommands(changedChapters), 0, false)
    modifies database
    ensures database.inTransaction == old(database.inTransaction)
    ensures Progress(database, start, prefix, SyncCommands(changedChapters), issued, raised)
    ensures raised ==> failAt == Some(issued)
    ensures !raised ==> issued == |ChangesCommands(changedChapters)|
    ensures !raised ==> (isUpdated <==> AnySetsUpdated(changedChapters))
    ensures !raised && failAt.Some? ==> issued <= failAt.value
  {
    ghost var cmds := SyncCommands(changedChapters);
    assert changedChapters[..0] == [];
    isUpdated, issued, raised := false, 0, false;
    var i := 0;
    while i < |changedChapters| && !raised
      invariant 0 <= i <= |changedChapters|
      invariant database.inTransaction == old(database.inTransaction)
      invariant !raised ==> issued == |ChangesCommands(changedChapters[..i])|
      invariant !raised ==> (isUpdated <==> AnySetsUpdated(changedChapters[..i]))
      invariant Progress(database, start, prefix, cmds, issued, raised)
      invariant !raised && failAt.Some? ==> issued <= failAt.value
      invariant raised ==> failAt == Some(issued)
    {
      var ok;
      issued, ok, isUpdated := SyncStep(database, start, prefix, changedChapters, failAt, i, issued, isUpdated);
      raised := !ok;
      i := i + 1;
    }
    if !raised {
      assert changedChapters[..i] == changedChapters;
    }
  }

  /** `UpdateChapterFTS`. Inside one transaction, every change is turned into its index
      statements in list order, and the spellfix refresh follows when any change was indexed.
      The statement numbered `failAt`, if there is one, raises: the statements before it have
      taken effect, none after it runs, the transaction is still committed, and the error
      reaches the caller. */
  method UpdateChapterFTS(database: Database, changedChapters: seq<ChapterChange>, failAt: Option<nat>)
    returns (outcome: Outcome)
    modifies database
    ensures !database.inTransaction
    ensures old(database.inTransaction) ==>
      outcome == Fail(InvalidOperation) && database.store == old(database.store)
      && database.log == old(database.log) + [TransactionCommitted]
    ensures var cmds := SyncCommands(changedChapters);
      !old(database.inTransaction) ==>
      database.store == ApplyAll(database.vocabulary, old(database.store), cmds[..Completed(|cmds|, failAt)])
    ensures !old(database.inTransaction) ==>
      database.log == old(database.log) + SyncLog(SyncCommands(changedChapters), failAt)
    ensures var cmds := SyncCommands(changedChapters);
      !old(database.inTransaction) ==>
      outcome == (if Completed(|cmds|, failAt) < |cmds| then Fail(SqliteError) else Pass)
    ensures var cmds := SyncCommands(changedChapters);
      !old(database.inTransaction) && Completed(|cmds|, failAt) == |cmds|
      && old(database.store.index).Healthy? && InStep(old(database.store.index.rows), changedChapters) ==>
      database.store.index.Healthy? && Reflects(old(database.store.index.rows), database.store.index.rows, changedChapters)
  {
    ghost var cmds := SyncCommands(changedChapters);
    ghost var start, before := database.store, database.log;
    if Completed(|cmds|, failAt) == |cmds| && start.index.Healthy? && InStep(start.index.rows, changedChapters) {
      SyncKeepsIndexInStep(database.vocabulary, start.index.rows, start.spellFix, changedChapters);
      assert cmds[..|cmds|] == cmds;
    }
    var begun := database.BeginTransaction();
    if !begun {
      // the exception leaves the `try`, and the `finally` commits the open transaction
      database.CommitTransaction();
      return Fail(InvalidOperation);
    }
    ghost var prefix := database.log;
    assert cmds[..0] == [];
    var issued, raised, isUpdated := SyncChanges(database, start, prefix, changedChapters, failAt);
    if !raised {
      RefreshIffSomethingIndexed(changedChapters);
      if isUpdated {
        var ok;
        issued, ok := RefreshSpellFix(database, start, prefix, cmds, failAt, issued);
        raised := !ok;
      }
    }
    outcome := Finish(database, start, before, cmds, failAt, issued, raised);
  }
}
