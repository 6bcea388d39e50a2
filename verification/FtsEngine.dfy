/** The database side of the index synchronisation, reduced to what the synchronisation relies on:
    the external-content FTS5 table `Chapters_FTS(Text, Title)` keyed by the chapter's rowid, the
    spellfix1 word list, the statements the synchronisation issues, and the database facade that
    runs them inside a transaction. Tokenisation, ranking and the vocabulary itself belong to
    the engine and are abstract here. */
module FtsEngine {
  import opened Wrappers

  /** What the index holds for one rowid: the indexed Text and Title. */
  datatype FtsRow = FtsRow(text: string, title: string)

  /** The full-text index. An external-content table keeps no copy of its rows, so a 'delete'
      must repeat the values that were indexed; when it does not, or when a rowid is indexed a
      second time, the index no longer matches any set of rows and is malformed. */
  datatype FtsIndex = Healthy(rows: map<int, FtsRow>) | Malformed

  /** The statements the synchronisation sends. */
  datatype FtsCommand =
    | InsertRow(rowid: int, text: string, title: string)   // INSERT INTO Chapters_FTS(rowid, Text, Title)
    | DeleteRow(rowid: int, text: string, title: string)   // INSERT INTO Chapters_FTS(Chapters_FTS, ...) VALUES('delete', ...)
    | ImportVocabulary                                     // copy new fts5vocab terms into Chapters_FTS_SpellFix
    | ResetSpellFix                                        // INSERT INTO Chapters_FTS_SpellFix(command) VALUES("reset")

  /** The fts5vocab view of an index: each term with its row count. Left uninterpreted. */
  type Vocabulary = FtsIndex -> map<string, nat>

  /** Everything the statements change: the index and the spellfix1 word list (word to rank). */
  datatype FtsStore = FtsStore(index: FtsIndex, spellFix: map<string, nat>)

  function InsertIndexed(index: FtsIndex, rowid: int, row: FtsRow): FtsIndex
  {
    if index.Healthy? && rowid !in index.rows then Healthy(index.rows[rowid := row]) else Malformed
  }

  function DeleteIndexed(index: FtsIndex, rowid: int, row: FtsRow): FtsIndex
  {
    if index.Healthy? && rowid in index.rows && index.rows[rowid] == row
    then Healthy(index.rows - {rowid})
    else Malformed
  }

  /** The spellfix import: every vocabulary term that is not yet a spellfix word is added with
      its count as rank; words already present keep their rank. */
  function ImportNewTerms(spellFix: map<string, nat>, terms: map<string, nat>): (r: map<string, nat>)
    ensures r.Keys == spellFix.Keys + terms.Keys
    ensures forall w :: w in spellFix ==> r[w] == spellFix[w]
    ensures forall w :: w in terms && w !in spellFix ==> r[w] == terms[w]
  {
    map w | w in spellFix.Keys + terms.Keys :: if w in spellFix then spellFix[w] else terms[w]
  }

  /** The effect of one statement. */
  function Apply(vocabulary: Vocabulary, store: FtsStore, cmd: FtsCommand): FtsStore
  {
    match cmd
    case InsertRow(rowid, text, title) => store.(index := InsertIndexed(store.index, rowid, FtsRow(text, title)))
    case DeleteRow(rowid, text, title) => store.(index := DeleteIndexed(store.index, rowid, FtsRow(text, title)))
    case ImportVocabulary => store.(spellFix := ImportNewTerms(store.spellFix, vocabulary(store.index)))
    case ResetSpellFix => store
  }

  /** The effect of statements run in order. */
  function ApplyAll(vocabulary: Vocabulary, store: FtsStore, cmds: seq<FtsCommand>): FtsStore
    decreases |cmds|
  {
    if cmds == [] then store else ApplyAll(vocabulary, Apply(vocabulary, store, cmds[0]), cmds[1..])
  }

  lemma {:induction false} ApplyAllAppend(vocabulary: Vocabulary, store: FtsStore, a: seq<FtsCommand>, b: seq<FtsCommand>)
    ensures ApplyAll(vocabulary, store, a + b) == ApplyAll(vocabulary, ApplyAll(vocabulary, store, a), b)
    decreases |a|
  {
    if a != [] {
      assert (a + b)[0] == a[0] && (a + b)[1..] == a[1..] + b;
      ApplyAllAppend(vocabulary, Apply(vocabulary, store, a[0]), a[1..], b);
    } else {
      assert a + b == b;
    }
  }

  lemma ApplyAllOne(vocabulary: Vocabulary, store: FtsStore, x: FtsCommand)
    ensures ApplyAll(vocabulary, store, [x]) == Apply(vocabulary, store, x)
  {
    assert [x][1..] == [];
  }

  lemma ApplyAllTwo(vocabulary: Vocabulary, store: FtsStore, x: FtsCommand, y: FtsCommand)
    ensures ApplyAll(vocabulary, store, [x, y]) == Apply(vocabulary, Apply(vocabulary, store, x), y)
  {
    assert [x, y][1..] == [y];
    ApplyAllOne(vocabulary, Apply(vocabulary, store, x), y);
  }

  /** Once malformed, the index stays malformed whatever is run next. */
  lemma {:induction false} MalformedIsFinal(vocabulary: Vocabulary, store: FtsStore, cmds: seq<FtsCommand>)
    requires store.index.Malformed?
    ensures ApplyAll(vocabulary, store, cmds).index.Malformed?
    decreases |cmds|
  {
    if cmds != [] {
      MalformedIsFinal(vocabulary, Apply(vocabulary, store, cmds[0]), cmds[1..]);
    }
  }

  /** What the database facade records, in order. */
  datatype DbEvent =
    | TransactionBegun
    | Executed(cmd: FtsCommand)
    | Raised(cmd: FtsCommand)
    | TransactionCommitted

  /** The events of statements that all ran. */
  function Executions(cmds: seq<FtsCommand>): seq<DbEvent>
  {
    seq(|cmds|, k requires 0 <= k < |cmds| => Executed(cmds[k]))
  }

  /** `context.Database`: runs statements against the store inside a transaction. */
  class Database {
    const vocabulary: Vocabulary
    var store: FtsStore
    var inTransaction: bool
    var log: seq<DbEvent>

    constructor (vocabulary: Vocabulary, store: FtsStore)
      ensures this.vocabulary == vocabulary && this.store == store
      ensures !inTransaction && log == []
    {
      this.vocabulary := vocabulary;
      this.store := store;
      inTransaction := false;
      log := [];
    }

    /** `BeginTransaction`. It throws when a transaction is already open, leaving that
        transaction open; `ok` says whether it began one. */
    method BeginTransaction() returns (ok: bool)
      modifies this
      ensures ok == !old(inTransaction)
      ensures inTransaction && store == old(store)
      ensures log == old(log) + (if ok then [TransactionBegun] else [])
    {
      ok := !inTransaction;
      if ok {
        inTransaction := true;
        log := log + [TransactionBegun];
      }
    }

    /** `ExecuteSqlRaw`. Whether the engine raises an error for this statement is an input:
        a statement that raises changes nothing. */
    method ExecuteSqlRaw(cmd: FtsCommand, raises: bool) returns (ok: bool)
      modifies this
      ensures ok == !raises
      ensures store == if ok then Apply(vocabulary, old(store), cmd) else old(store)
      ensures log == old(log) + [if ok then Executed(cmd) else Raised(cmd)]
      ensures inTransaction == old(inTransaction)
    {
      ok := !raises;
      if ok {
        store := Apply(vocabulary, store, cmd);
        log := log + [Executed(cmd)];
      } else {
        log := log + [Raised(cmd)];
      }
    }

    method CommitTransaction()
      modifies this
      ensures !inTransaction && store == old(store)
      ensures log == old(log) + [TransactionCommitted]
    {
      inTransaction := false;
      log := log + [TransactionCommitted];
    }
  }
}
