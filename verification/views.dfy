/**
 * The write paths of the `create` and `edit` views: the form guard, the
 * lookup of the edited entry, and the save. Redirects, flashed messages
 * and rendering are not modelled; the logged-in check is assumed passed.
 */
module Views {
  import opened Results
  import opened Slugs
  import opened Store
  import opened Queries

  /** `request.form.get('title') and request.form.get('content')`: both fields given and non-empty. */
  predicate FormComplete(title: string, content: string) {
    title != "" && content != ""
  }

  /**
   * `create()`: with a complete form, `Entry.create` builds an entry with no
   * slug and the current time as its timestamp, and saves it as a new row.
   */
  function Create(b: Blog, title: string, content: string, published: bool, now: int): (r: Result<Saved, Error>)
    ensures r.Failure? && r.error == ValidationFailure <==> !FormComplete(title, content)
    ensures r.Failure? ==> r.error != NotFound
    ensures r.Success? ==>
      && r.value.entry == Entry(title, Slugify(title), content, published, now)
      && r.value.entry.slug != ""
      && r.value.id !in b.entries
      && r.value.blog.entries == b.entries[r.value.id := r.value.entry]
    ensures r.Failure? && r.error == ConstraintViolation ==>
      b.nextId in b.entries || exists j :: j in b.entries && b.entries[j].slug == Slugify(title)
    ensures Valid(b) && FormComplete(title, content) && !SlugTaken(b.entries, Slugify(title), b.nextId) ==>
      r.Success?
    ensures Valid(b) && r.Success? ==> Valid(r.value.blog)
  {
    if !FormComplete(title, content) then
      Failure(ValidationFailure)
    else
      var e := Entry(title, "", content, published, now);
      var r := Save(b, None, e);
      assert Valid(b) && r.Success? ==> Valid(r.value.blog) by {
        if Valid(b) && r.Success? {
          SavePreservesValid(b, None, e);
        }
      }
      r
  }

  /** Creating a second entry with the title of an existing one fails on the slug constraint. */
  lemma DuplicateTitleRejected(b: Blog, title: string, content: string, published: bool, now: int,
                               content2: string, published2: bool, now2: int)
    requires Valid(b)
    requires Create(b, title, content, published, now).Success?
    requires content2 != ""
    ensures Create(Create(b, title, content, published, now).value.blog, title, content2, published2, now2)
      == Failure(ConstraintViolation)
  {
  }

  /**
   * `edit(slug)`: find the entry by slug among all entries, then, with a
   * complete form, overwrite its title, content and published flag and
   * save it under its own id.
   */
  method Edit(b: Blog, slug: string, title: string, content: string, published: bool)
    returns (r: Result<Saved, Error>)
    ensures r.Failure? && r.error == NotFound <==> forall i :: i in b.entries ==> b.entries[i].slug != slug
    ensures r.Failure? && r.error == ValidationFailure <==>
      (exists i :: i in b.entries && b.entries[i].slug == slug) && !FormComplete(title, content)
    ensures r.Success? ==>
      && r.value.id in b.entries
      && b.entries[r.value.id].slug == slug
      && r.value.entry.title == title
      && r.value.entry.content == content
      && r.value.entry.published == published
      && r.value.entry.timestamp == b.entries[r.value.id].timestamp
      && r.value.blog.entries == b.entries[r.value.id := r.value.entry]
    ensures r.Success? && slug != "" ==> r.value.entry.slug == slug
    ensures r.Success? && slug == "" ==> r.value.entry.slug == Slugify(title)
    ensures Valid(b) && slug != "" ==> !(r.Failure? && r.error == ConstraintViolation)
    ensures Valid(b) && r.Success? ==> Valid(r.value.blog)
  {
    var found := Lookup(b, slug, true);
    if found.Failure? {
      return Failure(NotFound);
    }
    var id, current := found.value.id, found.value.entry;
    if !FormComplete(title, content) {
      return Failure(ValidationFailure);
    }
    var e := current.(title := title, content := content, published := published);
    r := Save(b, Some(id), e);
    if Valid(b) && r.Success? {
      SavePreservesValid(b, Some(id), e);
    }
  }
}
