/**
 * The entry store and its full-text index: `Entry`, `FTSEntry`,
 * `Entry.save` and `Entry.update_search_index`.
 *
 * The database is two maps: the `Entry` table keyed by id, and the
 * `FTSEntry` table keyed by `entry_id`. A save is one atomic step: it
 * either fails and yields no new state, or writes the entry row and then
 * upserts the entry's index document.
 */
module Store {
  import opened Results
  import opened Slugs

  type Id = int

  /** A row of the `Entry` table (its id is the key it is stored under). */
  datatype Entry = Entry(
    title: string,
    slug: string,
    content: string,
    published: bool,
    timestamp: int)

  /** Both tables, plus the next id SQLite assigns to an inserted row. */
  datatype Blog = Blog(entries: map<Id, Entry>, index: map<Id, string>, nextId: int)

  datatype Error = NotFound | ConstraintViolation | ValidationFailure

  /** A successful save: the new database, the id written, and the row as stored. */
  datatype Saved = Saved(blog: Blog, id: Id, entry: Entry)

  /** The database before any entry has been created. */
  const Empty := Blog(map[], map[], 1)

  /** The text `update_search_index` stores for an entry: title and content joined by a newline. */
  function IndexText(e: Entry): string {
    e.title + "\n" + e.content
  }

  /** No two rows share a slug (`slug = CharField(unique=True)`). */
  ghost predicate SlugsUnique(entries: map<Id, Entry>) {
    forall i, j :: i in entries && j in entries && i != j ==> entries[i].slug != entries[j].slug
  }

  /** Row `self` would clash with another row on `slug`. */
  predicate SlugTaken(entries: map<Id, Entry>, slug: string, self: Id) {
    exists j :: j in entries && j != self && entries[j].slug == slug
  }

  /** The index holds exactly one document per entry, with that entry's current text. */
  ghost predicate Synced(b: Blog) {
    && b.index.Keys == b.entries.Keys
    && forall i :: i in b.entries ==> b.index[i] == IndexText(b.entries[i])
  }

  /** The invariant every reachable database keeps. */
  ghost predicate Valid(b: Blog) {
    && b.nextId >= 1
    && (forall i :: i in b.entries ==> 1 <= i < b.nextId)
    && SlugsUnique(b.entries)
    && Synced(b)
  }

  /** The slug a save stores: the entry's own, or one derived from its title when it has none. */
  function ResolveSlug(e: Entry): string {
    if e.slug == "" then Slugify(e.title) else e.slug
  }

  /**
   * `Entry.save` followed by `update_search_index`. With no id the row is
   * inserted under the next id; with an id it is updated in place. An
   * update of an id that has no row changes no row, but the index document
   * is still written.
   */
  function Save(b: Blog, id: Option<Id>, e: Entry): (r: Result<Saved, Error>)
    ensures r.Failure? ==> r.error == ConstraintViolation
    // the slug is derived only when the entry has none, and is otherwise kept
    ensures r.Success? && e.slug != "" ==> r.value.entry.slug == e.slug
    ensures r.Success? && e.slug == "" ==> r.value.entry.slug == Slugify(e.title)
    ensures r.Success? ==> r.value.entry.(slug := e.slug) == e
    // an insert takes a fresh id; an update keeps the id it was given
    ensures r.Success? && id.None? ==>
      r.value.id !in b.entries && r.value.blog.entries.Keys == b.entries.Keys + {r.value.id}
    ensures r.Success? && id.Some? ==> r.value.id == id.value
    ensures r.Success? && id.Some? && id.value !in b.entries ==> r.value.blog.entries == b.entries
    ensures r.Success? && r.value.id in r.value.blog.entries ==>
      r.value.blog.entries[r.value.id] == r.value.entry
    // the saved slug clashes with no other row, and a failure names a row it clashes with
    ensures r.Success? && r.value.id in r.value.blog.entries ==>
      forall j :: j in b.entries && j != r.value.id ==> b.entries[j].slug != r.value.entry.slug
    ensures r.Failure? && id.None? ==> b.nextId in b.entries || SlugTaken(b.entries, ResolveSlug(e), b.nextId)
    ensures r.Failure? && id.Some? ==> id.value in b.entries && SlugTaken(b.entries, ResolveSlug(e), id.value)
    ensures id.Some? && id.value in b.entries && !SlugTaken(b.entries, ResolveSlug(e), id.value) ==> r.Success?
    // no other row changes
    ensures r.Success? ==> forall j :: j != r.value.id ==>
      (j in r.value.blog.entries <==> j in b.entries) &&
      (j in b.entries ==> r.value.blog.entries[j] == b.entries[j])
    // the index holds the saved entry's text under its id and nothing else changes
    ensures r.Success? ==>
      r.value.id in r.value.blog.index &&
      r.value.blog.index[r.value.id] == r.value.entry.title + "\n" + r.value.entry.content
    ensures r.Success? ==> forall j :: j != r.value.id ==>
      (j in r.value.blog.index <==> j in b.index) &&
      (j in b.index ==> r.value.blog.index[j] == b.index[j])
  {
    var saved := e.(slug := ResolveSlug(e));
    match id
    case None =>
      var newId := b.nextId;
      if newId in b.entries || SlugTaken(b.entries, saved.slug, newId) then
        Failure(ConstraintViolation)
      else
        Success(Saved(Blog(b.entries[newId := saved], b.index[newId := IndexText(saved)], b.nextId + 1), newId, saved))
    case Some(i) =>
      if i in b.entries && SlugTaken(b.entries, saved.slug, i) then
        Failure(ConstraintViolation)
      else
        var entries := if i in b.entries then b.entries[i := saved] else b.entries;
        Success(Saved(Blog(entries, b.index[i := IndexText(saved)], b.nextId), i, saved))
  }

  /**
   * A save of a new entry, or of an entry that has a row, keeps the
   * invariant: the index stays in step with the entries and slugs stay unique.
   */
  lemma SavePreservesValid(b: Blog, id: Option<Id>, e: Entry)
    requires Valid(b)
    requires id.None? || id.value in b.entries
    requires Save(b, id, e).Success?
    ensures Valid(Save(b, id, e).value.blog)
  {
  }

  /**
   * In a valid store, saving an entry under its own id with its stored slug
   * never clashes: an edit that keeps the slug always succeeds.
   */
  lemma SaveKeepingSlugSucceeds(b: Blog, i: Id, e: Entry)
    requires Valid(b)
    requires i in b.entries && e.slug == b.entries[i].slug && e.slug != ""
    ensures Save(b, Some(i), e).Success?
  {
    assert !SlugTaken(b.entries, ResolveSlug(e), i);
  }

  /**
   * Saving an id that has no row leaves an index document no entry joins:
   * the database falls out of step.
   */
  lemma SaveOfMissingIdDesyncs(b: Blog, i: Id, e: Entry)
    requires Synced(b)
    requires i !in b.entries
    ensures Save(b, Some(i), e).Success?
    ensures !Synced(Save(b, Some(i), e).value.blog)
  {
  }

  /** The index rebuilt from scratch from the entry rows. */
  function RebuildIndex(entries: map<Id, Entry>): (index: map<Id, string>)
    ensures index.Keys == entries.Keys
  {
    map i | i in entries :: IndexText(entries[i])
  }

  /**
   * The incrementally maintained index is in step with the entries exactly
   * when it equals the index rebuilt from scratch.
   */
  lemma SyncedIffRebuilt(b: Blog)
    ensures Synced(b) <==> b.index == RebuildIndex(b.entries)
  {
    if Synced(b) {
      var r := RebuildIndex(b.entries);
      assert forall i :: i in r ==> r[i] == b.index[i];
    }
  }

  /** The empty database is valid. */
  lemma EmptyValid()
    ensures Valid(Empty)
  {
  }

  /** No valid database holds an entry with id 0: ids start at 1. */
  lemma ValidHasNoZeroId(b: Blog)
    requires Valid(b)
    ensures 0 !in b.entries && 0 !in b.index
  {
  }
}
