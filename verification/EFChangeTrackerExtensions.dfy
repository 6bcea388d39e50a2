/** Reading the chapter changes out of the change tracker: which tracked entries count as
    changed, the copy of a chapter rebuilt from its original values, and the list of
    `(State, NewEntity, OldEntity)` triples handed to the index update. */
module EFChangeTrackerExtensions {
  import opened Wrappers
  import opened Sequences
  import opened Entities

  // ---------------------------------------------------------------------------------------
  // IsEntityChanged

  /** A change-tracker entry: its state, whether its entity type is an owned type, and the
      target entries of its reference navigations (`None` for a reference that is null). */
  datatype EntityEntry = EntityEntry(state: EntityState, isOwned: bool, references: seq<Option<EntityEntry>>)

  /** `IsEntityChanged`: the entry is added, modified or deleted, or one of its references
      targets an owned entry that is itself changed. */
  predicate IsEntityChanged(entry: EntityEntry)
    decreases entry
  {
    || IsChangedState(entry.state)
    || exists i :: 0 <= i < |entry.references| && OwnedTarget(entry.references[i])
                   && IsEntityChanged(entry.references[i].value)
  }

  predicate OwnedTarget(reference: Option<EntityEntry>)
  {
    reference.Some? && reference.value.isOwned
  }

  /** The entry and every entry reachable from it through owned, non-null references: the
      aggregate an owner is saved with. */
  function OwnedTree(entry: EntityEntry): (tree: seq<EntityEntry>)
    ensures tree != [] && tree[0] == entry
    ensures forall k :: 1 <= k < |tree| ==> tree[k].isOwned
    decreases entry, 1, 0
  {
    [entry] + OwnedSubtrees(entry, 0)
  }

  /** The owned trees of `owner`'s references from position `from` on. */
  function OwnedSubtrees(owner: EntityEntry, from: nat): (trees: seq<EntityEntry>)
    ensures forall k :: 0 <= k < |trees| ==> trees[k].isOwned
    decreases owner, 0, |owner.references| - from
  {
    if from >= |owner.references| then []
    else
      var reference := owner.references[from];
      (if OwnedTarget(reference) then OwnedTree(reference.value) else []) + OwnedSubtrees(owner, from + 1)
  }

  predicate AnyChanged(entries: seq<EntityEntry>)
  {
    exists k :: 0 <= k < |entries| && IsChangedState(entries[k].state)
  }

  lemma AnyChangedAppend(a: seq<EntityEntry>, b: seq<EntityEntry>)
    ensures AnyChanged(a + b) <==> AnyChanged(a) || AnyChanged(b)
  {
    if AnyChanged(a + b) {
      var k :| 0 <= k < |a + b| && IsChangedState((a + b)[k].state);
      if k >= |a| {
        assert b[k - |a|] == (a + b)[k];
      }
    }
    if AnyChanged(a) {
      var k :| 0 <= k < |a| && IsChangedState(a[k].state);
      assert (a + b)[k] == a[k];
    }
    if AnyChanged(b) {
      var k :| 0 <= k < |b| && IsChangedState(b[k].state);
      assert (a + b)[|a| + k] == b[k];
    }
  }

  /** An entry counts as changed exactly when some entry of its owned aggregate is added,
      modified or deleted. */
  lemma {:induction false} ChangedIffAggregateChanged(entry: EntityEntry)
    ensures IsEntityChanged(entry) <==> AnyChanged(OwnedTree(entry))
    decreases entry, 1, 0
  {
    AnyChangedAppend([entry], OwnedSubtrees(entry, 0));
    assert AnyChanged([entry]) <==> IsChangedState(entry.state) by {
      assert [entry][0] == entry;
    }
    SubtreesChanged(entry, 0);
  }

  lemma {:induction false} SubtreesChanged(owner: EntityEntry, from: nat)
    ensures AnyChanged(OwnedSubtrees(owner, from))
        <==> exists i :: from <= i < |owner.references| && OwnedTarget(owner.references[i])
                         && IsEntityChanged(owner.references[i].value)
    decreases owner, 0, |owner.references| - from
  {
    if from < |owner.references| {
      var reference := owner.references[from];
      var here := if OwnedTarget(reference) then OwnedTree(reference.value) else [];
      AnyChangedAppend(here, OwnedSubtrees(owner, from + 1));
      SubtreesChanged(owner, from + 1);
      if OwnedTarget(reference) {
        ChangedIffAggregateChanged(reference.value);
      }
      if exists i :: from <= i < |owner.references| && OwnedTarget(owner.references[i])
                    && IsEntityChanged(owner.references[i].value) {
        var i :| from <= i < |owner.references| && OwnedTarget(owner.references[i])
                 && IsEntityChanged(owner.references[i].value);
        if i != from {
          assert from + 1 <= i;
        }
      }
    }
  }

  /** A reference that is not owned never makes its owner changed, however deeply the
      target is changed. */
  lemma UnownedReferencesIgnored(state: EntityState, target: EntityEntry)
    requires !IsChangedState(state) && !target.isOwned
    ensures !IsEntityChanged(EntityEntry(state, false, [Some(target)]))
  {
    var e := EntityEntry(state, false, [Some(target)]);
    assert forall i :: 0 <= i < |e.references| ==> e.references[i] == Some(target);
  }

  /** An unchanged owner whose owned dependent is modified is reported as changed. */
  lemma OwnedDependentCounts(state: EntityState, dependent: EntityEntry)
    requires dependent.isOwned && dependent.state == Modified
    ensures IsEntityChanged(EntityEntry(state, false, [Some(dependent)]))
  {
    var e := EntityEntry(state, false, [Some(dependent)]);
    assert OwnedTarget(e.references[0]) && IsEntityChanged(e.references[0].value);
  }

  // ---------------------------------------------------------------------------------------
  // createWithValues

  /** The mapped properties of a chapter. */
  datatype ChapterProperty = IdProperty | TitleProperty | TextProperty | UserIdProperty

  /** A boxed original value: null, an int, a string, or a nested `PropertyValues` object of
      a complex property. */
  datatype PropertyValue = NullValue | IntValue(i: int) | StringValue(s: string) | NestedValues

  /** One property of an entry's `OriginalValues`, with its value. */
  datatype OriginalValue = OriginalValue(property: ChapterProperty, value: PropertyValue)

  const NestedMessage: string := "nested complex object"

  /** `new T()` for a chapter: every property at its default. */
  const NewChapter: Chapter := Chapter(0, None, None, 0)

  /** Reflection's `SetValue` of one property. A null sets an int property to 0 and a string
      property to null; a value of the wrong type throws an argument exception. */
  function SetValue(entity: Chapter, property: ChapterProperty, value: PropertyValue): (r: Result<Chapter>)
  {
    match (property, value)
    case (IdProperty, IntValue(i)) => Success(entity.(id := i))
    case (IdProperty, NullValue) => Success(entity.(id := 0))
    case (UserIdProperty, IntValue(i)) => Success(entity.(userId := i))
    case (UserIdProperty, NullValue) => Success(entity.(userId := 0))
    case (TitleProperty, StringValue(s)) => Success(entity.(title := Some(s)))
    case (TitleProperty, NullValue) => Success(entity.(title := None))
    case (TextProperty, StringValue(s)) => Success(entity.(text := Some(s)))
    case (TextProperty, NullValue) => Success(entity.(text := None))
    case _ => Failure(Argument)
  }

  /** The value a property has on a chapter, boxed. */
  function ValueOf(c: Chapter, property: ChapterProperty): PropertyValue
  {
    match property
    case IdProperty => IntValue(c.id)
    case UserIdProperty => IntValue(c.userId)
    case TitleProperty => if c.title.Some? then StringValue(c.title.value) else NullValue
    case TextProperty => if c.text.Some? then StringValue(c.text.value) else NullValue
  }

  /** A value `SetValue` accepts for the property. */
  predicate Fits(property: ChapterProperty, value: PropertyValue)
  {
    match value
    case NullValue => true
    case IntValue(_) => property == IdProperty || property == UserIdProperty
    case StringValue(_) => property == TitleProperty || property == TextProperty
    case NestedValues => false
  }

  /** `SetValue` succeeds exactly on fitting values, sets the property to that value, and
      leaves every other property alone. */
  lemma SetValueSpec(entity: Chapter, property: ChapterProperty, value: PropertyValue, other: ChapterProperty)
    ensures SetValue(entity, property, value).Success? <==> Fits(property, value)
    ensures SetValue(entity, property, value).Failure? ==> SetValue(entity, property, value).error == Argument
    ensures SetValue(entity, property, value).Success? && value != NullValue ==>
              ValueOf(SetValue(entity, property, value).value, property) == value
    ensures SetValue(entity, property, value).Success? && other != property ==>
              ValueOf(SetValue(entity, property, value).value, other) == ValueOf(entity, other)
  {
  }

  /** The values copied in order onto `entity`, stopping at the first one that throws. */
  function ApplyValues(entity: Chapter, values: seq<OriginalValue>): (r: Result<Chapter>)
    decreases |values|
  {
    if values == [] then Success(entity)
    else if values[0].value.NestedValues? then Failure(NotSupported(NestedMessage))
    else match SetValue(entity, values[0].property, values[0].value)
      case Failure(e) => Failure(e)
      case Success(next) => ApplyValues(next, values[1..])
  }

  /** `createWithValues`: a new chapter with every original value copied onto it. A nested
      value raises `NotSupportedException`, a value of the wrong type an argument exception. */
  method CreateWithValues(values: seq<OriginalValue>) returns (r: Result<Chapter>)
    ensures r == ApplyValues(NewChapter, values)
  {
    var entity := NewChapter;
    for i := 0 to |values|
      invariant ApplyValues(NewChapter, values) == ApplyValues(entity, values[i..])
    {
      assert values[i..][1..] == values[i + 1..];
      var value := values[i].value;
      if value.NestedValues? {
        return Failure(NotSupported(NestedMessage));
      }
      var copied := SetValue(entity, values[i].property, value);
      if copied.Failure? {
        return Failure(copied.error);
      }
      entity := copied.value;
    }
    return Success(entity);
  }

  /** The original values of a chapter, in the order the mapper lists its properties. */
  function OriginalValuesOf(c: Chapter): seq<OriginalValue>
  {
    [ OriginalValue(IdProperty, ValueOf(c, IdProperty)), OriginalValue(TextProperty, ValueOf(c, TextProperty)),
      OriginalValue(TitleProperty, ValueOf(c, TitleProperty)), OriginalValue(UserIdProperty, ValueOf(c, UserIdProperty)) ]
  }

  /** Copying a chapter's own values onto a new chapter rebuilds that chapter. */
  lemma CopyRoundTrip(c: Chapter)
    ensures ApplyValues(NewChapter, OriginalValuesOf(c)) == Success(c)
  {
    var vs := OriginalValuesOf(c);
    var e1 := NewChapter.(id := c.id);
    var e2 := e1.(text := c.text);
    var e3 := e2.(title := c.title);
    assert SetValue(NewChapter, vs[0].property, vs[0].value) == Success(e1);
    assert SetValue(e1, vs[1].property, vs[1].value) == Success(e2);
    assert SetValue(e2, vs[2].property, vs[2].value) == Success(e3);
    assert SetValue(e3, vs[3].property, vs[3].value) == Success(c);
    assert ApplyValues(NewChapter, vs) == ApplyValues(e1, vs[1..]);
    assert ApplyValues(e1, vs[1..]) == ApplyValues(e2, vs[2..]) by { assert vs[1..][1..] == vs[2..]; }
    assert ApplyValues(e2, vs[2..]) == ApplyValues(e3, vs[3..]) by { assert vs[2..][1..] == vs[3..]; }
    assert ApplyValues(e3, vs[3..]) == ApplyValues(c, []) by { assert vs[3..][1..] == []; }
  }

  /** The copy succeeds exactly when no value is nested and every value fits its property;
      otherwise the first offending value decides the exception. */
  lemma {:induction false} ApplyValuesFails(entity: Chapter, values: seq<OriginalValue>)
    ensures ApplyValues(entity, values).Success? <==> forall k :: 0 <= k < |values| ==> Fits(values[k].property, values[k].value)
    ensures ApplyValues(entity, values).Failure? ==>
              exists k :: 0 <= k < |values| && !Fits(values[k].property, values[k].value)
                          && (forall j :: 0 <= j < k ==> Fits(values[j].property, values[j].value))
                          && ApplyValues(entity, values).error
                             == (if values[k].value.NestedValues? then NotSupported(NestedMessage) else Argument)
    decreases |values|
  {
    if values != [] {
      var v := values[0];
      SetValueSpec(entity, v.property, v.value, v.property);
      if Fits(v.property, v.value) {
        var next := SetValue(entity, v.property, v.value).value;
        ApplyValuesFails(next, values[1..]);
        if ApplyValues(entity, values).Failure? {
          var k :| 0 <= k < |values[1..]| && !Fits(values[1..][k].property, values[1..][k].value)
                   && (forall j :: 0 <= j < k ==> Fits(values[1..][j].property, values[1..][j].value))
                   && ApplyValues(next, values[1..]).error
                      == (if values[1..][k].value.NestedValues? then NotSupported(NestedMessage) else Argument);
          assert values[k + 1] == values[1..][k];
          assert forall j :: 1 <= j < k + 1 ==> values[j] == values[1..][j - 1];
        }
        if !forall k :: 0 <= k < |values| ==> Fits(values[k].property, values[k].value) {
          var k :| 0 <= k < |values| && !Fits(values[k].property, values[k].value);
          assert values[1..][k - 1] == values[k];
        }
      } else {
        assert !Fits(values[0].property, values[0].value);
      }
    }
  }

  // ---------------------------------------------------------------------------------------
  // GetChangedEntities

  /** A tracked chapter entry: the entry, the live entity and its original values. */
  datatype ChapterEntry = ChapterEntry(entry: EntityEntry, entity: Chapter, originalValues: seq<OriginalValue>)

  /** The entries `IsEntityChanged` lets through, in tracker order. */
  function ChangedOnly(entries: seq<ChapterEntry>): (r: seq<ChapterEntry>)
    ensures IsSubsequence(r, entries)
    ensures forall k :: 0 <= k < |r| ==> IsEntityChanged(r[k].entry)
    ensures forall k :: 0 <= k < |entries| && IsEntityChanged(entries[k].entry) ==> entries[k] in r
    decreases |entries|
  {
    if entries == [] then []
    else
      var rest := ChangedOnly(entries[1..]);
      assert forall k :: 1 <= k < |entries| ==> entries[k] == entries[1..][k - 1];
      if IsEntityChanged(entries[0].entry) then [entries[0]] + rest else rest
  }

  /** The filter keeps every occurrence of a changed entry and nothing else. */
  lemma {:induction false} ChangedOnlyCounts(entries: seq<ChapterEntry>)
    ensures forall e :: multiset(ChangedOnly(entries))[e] == if IsEntityChanged(e.entry) then multiset(entries)[e] else 0
    decreases |entries|
  {
    if entries != [] {
      ChangedOnlyCounts(entries[1..]);
      assert entries == [entries[0]] + entries[1..];
    }
  }

  /** The triple for one changed entry, once its original values are copied. */
  function ChangeOf(e: ChapterEntry, original: Chapter): ChapterChange
  {
    ChapterChange(e.entry.state, e.entity, original)
  }

  /** `createWithValues` applied to an entry's original values. */
  function Copy(e: ChapterEntry): Result<Chapter>
  {
    ApplyValues(NewChapter, e.originalValues)
  }

  /** The `Where`/`Select`/`ToList` pipeline over the entries: each changed entry becomes
      its triple, and the first copy that throws ends the enumeration with its exception. */
  function ChangedEntities(entries: seq<ChapterEntry>): (r: Result<seq<ChapterChange>>)
    ensures r.Success? ==> |r.value| <= |entries|
    decreases |entries|
  {
    if entries == [] then Success([])
    else
      var rest := ChangedEntities(entries[1..]);
      if !IsEntityChanged(entries[0].entry) then rest
      else match Copy(entries[0])
        case Failure(e) => Failure(e)
        case Success(original) =>
          match rest
          case Failure(e) => Failure(e)
          case Success(changes) => Success([ChangeOf(entries[0], original)] + changes)
  }

  /** The list is built exactly when every changed entry can be copied. */
  lemma {:induction false} ChangedEntitiesSucceeds(entries: seq<ChapterEntry>)
    ensures ChangedEntities(entries).Success? ==>
              forall k :: 0 <= k < |ChangedOnly(entries)| ==> Copy(ChangedOnly(entries)[k]).Success?
    ensures (forall k :: 0 <= k < |ChangedOnly(entries)| ==> Copy(ChangedOnly(entries)[k]).Success?) ==>
              ChangedEntities(entries).Success?
    decreases |entries|
  {
    if entries != [] {
      ChangedEntitiesSucceeds(entries[1..]);
      var changed, tail := ChangedOnly(entries), ChangedOnly(entries[1..]);
      if IsEntityChanged(entries[0].entry) {
        assert changed == [entries[0]] + tail;
        assert changed[0] == entries[0];
        assert forall k :: 1 <= k < |changed| ==> changed[k] == tail[k - 1];
        if ChangedEntities(entries).Success? {
          assert Copy(entries[0]).Success? && ChangedEntities(entries[1..]).Success?;
          forall k | 0 <= k < |changed|
            ensures Copy(changed[k]).Success?
          {
            if k > 0 {
              assert changed[k] == tail[k - 1];
            }
          }
        } else if Copy(entries[0]).Success? {
          var k :| 0 <= k < |tail| && Copy(tail[k]).Failure?;
          assert changed[k + 1] == tail[k];
        }
      } else {
        assert changed == tail;
        assert ChangedEntities(entries) == ChangedEntities(entries[1..]);
        if ChangedEntities(entries).Success? {
          forall k | 0 <= k < |changed|
            ensures Copy(changed[k]).Success?
          {
            assert changed[k] == tail[k];
          }
        } else {
          var k :| 0 <= k < |tail| && Copy(tail[k]).Failure?;
          assert Copy(changed[k]).Failure?;
        }
      }
    }
  }

  /** The list holds one triple per changed entry, in tracker order: its state, its live
      entity and the copy of its original values. */
  lemma {:induction false} ChangedEntitiesContents(entries: seq<ChapterEntry>)
    requires ChangedEntities(entries).Success?
    ensures var changed, r := ChangedOnly(entries), ChangedEntities(entries).value;
      |r| == |changed|
      && forall k :: 0 <= k < |changed| ==> Copy(changed[k]) == Success(r[k].oldEntity) && r[k] == ChangeOf(changed[k], r[k].oldEntity)
    decreases |entries|
  {
    if entries != [] {
      ChangedEntitiesContents(entries[1..]);
      var changed, tail := ChangedOnly(entries), ChangedOnly(entries[1..]);
      var r, rest := ChangedEntities(entries).value, ChangedEntities(entries[1..]).value;
      if IsEntityChanged(entries[0].entry) {
        assert changed == [entries[0]] + tail;
        assert r == [ChangeOf(entries[0], Copy(entries[0]).value)] + rest;
        forall k | 0 <= k < |changed|
          ensures Copy(changed[k]) == Success(r[k].oldEntity) && r[k] == ChangeOf(changed[k], r[k].oldEntity)
        {
          if k > 0 {
            assert changed[k] == tail[k - 1] && r[k] == rest[k - 1];
          }
        }
      } else {
        assert changed == tail && r == rest;
      }
    }
  }

  /** The copies of the first `k` entries all succeed. */
  predicate CopiesBefore(changed: seq<ChapterEntry>, k: nat)
    requires k <= |changed|
  {
    forall j :: 0 <= j < k ==> Copy(changed[j]).Success?
  }

  /** When the list is not built, the exception is that of the first changed entry whose copy
      throws. */
  lemma {:induction false} ChangedEntitiesFirstFailure(entries: seq<ChapterEntry>)
    requires ChangedEntities(entries).Failure?
    ensures exists k :: 0 <= k < |ChangedOnly(entries)| && CopiesBefore(ChangedOnly(entries), k)
                        && Copy(ChangedOnly(entries)[k]) == Failure(ChangedEntities(entries).error)
    decreases |entries|
  {
    assert entries != [];
    var changed, tail := ChangedOnly(entries), ChangedOnly(entries[1..]);
    var error := ChangedEntities(entries).error;
    if !IsEntityChanged(entries[0].entry) {
      assert changed == tail;
      assert ChangedEntities(entries) == ChangedEntities(entries[1..]);
      ChangedEntitiesFirstFailure(entries[1..]);
    } else if Copy(entries[0]).Failure? {
      assert changed[0] == entries[0];
      assert CopiesBefore(changed, 0);
    } else {
      assert ChangedEntities(entries[1..]) == Failure(error);
      ChangedEntitiesFirstFailure(entries[1..]);
      var k :| 0 <= k < |tail| && CopiesBefore(tail, k) && Copy(tail[k]) == Failure(error);
      assert changed == [entries[0]] + tail;
      assert changed[k + 1] == tail[k];
      forall j | 0 <= j < k + 1
        ensures Copy(changed[j]).Success?
      {
        if j > 0 {
          assert changed[j] == tail[j - 1];
        }
      }
      assert CopiesBefore(changed, k + 1);
    }
  }

  /** The change tracker of a context. `scanned` is what `DetectChanges` finds when it
      compares the live entities with their snapshots: that comparison is not modelled. */
  class ChangeTracker {
    var autoDetectChangesEnabled: bool
    var entries: seq<ChapterEntry>
    var scanned: seq<ChapterEntry>
    var detections: nat

    constructor (entries: seq<ChapterEntry>, scanned: seq<ChapterEntry>)
      ensures autoDetectChangesEnabled
      ensures this.entries == entries && this.scanned == scanned && detections == 0
    {
      autoDetectChangesEnabled := true;
      this.entries := entries;
      this.scanned := scanned;
      detections := 0;
    }

    /** `DetectChanges`: the recorded states become the detected ones. */
    method DetectChanges()
      modifies this
      ensures entries == old(scanned) && scanned == old(scanned)
      ensures autoDetectChangesEnabled == old(autoDetectChangesEnabled)
      ensures detections == old(detections) + 1
    {
      entries := scanned;
      detections := detections + 1;
    }

    /** `Entries()`: detects changes first when automatic detection is on. */
    method Entries() returns (r: seq<ChapterEntry>)
      modifies this
      ensures autoDetectChangesEnabled == old(autoDetectChangesEnabled) && scanned == old(scanned)
      ensures old(autoDetectChangesEnabled) ==> entries == scanned && detections == old(detections) + 1
      ensures !old(autoDetectChangesEnabled) ==> entries == old(entries) && detections == old(detections)
      ensures r == entries
    {
      if autoDetectChangesEnabled {
        DetectChanges();
      }
      r := entries;
    }

    /** Accepting the saved changes: the entries take the states the save leaves them in. */
    method AcceptAllChanges(after: seq<ChapterEntry>)
      modifies this
      ensures entries == after
      ensures autoDetectChangesEnabled == old(autoDetectChangesEnabled)
      ensures scanned == old(scanned) && detections == old(detections)
    {
      entries := after;
    }

    /** Setting `AutoDetectChangesEnabled`. */
    method SetAutoDetectChanges(enabled: bool)
      modifies this
      ensures autoDetectChangesEnabled == enabled
      ensures entries == old(entries) && scanned == old(scanned) && detections == old(detections)
    {
      autoDetectChangesEnabled := enabled;
    }
  }

  /** `GetChangedEntities`: changes are detected exactly once, whether or not automatic
      detection is on, and the triples are built from the freshly detected entries. */
  method GetChangedEntities(tracker: ChangeTracker) returns (r: Result<seq<ChapterChange>>)
    modifies tracker
    ensures r == ChangedEntities(old(tracker.scanned))
    ensures tracker.entries == old(tracker.scanned) && tracker.scanned == old(tracker.scanned)
    ensures tracker.autoDetectChangesEnabled == old(tracker.autoDetectChangesEnabled)
    ensures tracker.detections == old(tracker.detections) + 1
  {
    if !tracker.autoDetectChangesEnabled {
      tracker.DetectChanges();
    }
    var entries := tracker.Entries();
    r := ChangedEntities(entries);
  }
}
