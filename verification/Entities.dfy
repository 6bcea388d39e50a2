/** The entity records of the application and the change-tracking vocabulary they are saved with. */
module Entities {
  import opened Wrappers

  /** Entities/Chapter.cs: a chapter row. Title and Text are nullable strings;
      the User navigation property is not part of the model. */
  datatype Chapter = Chapter(id: int, title: Option<string>, text: Option<string>, userId: int)

  /** EntityState of the object-relational mapper's change tracker. */
  datatype EntityState = Detached | Unchanged | Deleted | Modified | Added

  /** The states a save writes: added, modified or deleted. */
  predicate IsChangedState(state: EntityState)
  {
    state == Added || state == Modified || state == Deleted
  }

  /** One element of the `(State, NewEntity, OldEntity)` list handed to the index update:
      the tracked state, the live entity and a copy built from the original values. */
  datatype ChapterChange = ChapterChange(state: EntityState, newEntity: Chapter, oldEntity: Chapter)
}
