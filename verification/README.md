# Blog entry store with full-text index — a Dafny model

This project models the data core of a small Flask/peewee blog (`app/app.py`).
The core is the `Entry` table plus its SQLite full-text shadow table `FTSEntry`.
Every `Entry.save` writes the entry row. It derives the slug from the title when
the entry has none. Then `update_search_index` upserts one index document keyed by
`entry_id`, holding `title + "\n" + content`. The read side has the `public` and
`drafts` filters, the slug lookup of the `detail` and `edit` views, and
`search`, which tokenizes a query, matches it against the index, joins to
published entries and orders by descending score. The `create` and `edit`
views add one guard: they save only when both title and content are non-empty.

The model is functional. The database is a value
`Blog(entries: map<Id, Entry>, index: map<Id, string>, nextId)`. Writes
return `Result<Saved, Error>`, and a successful result holds the new
database. A failure carries no new database, so the store and the index stay
as they were. `Lookup` and `SearchTerms` loop over the rows, with loop
invariants. The reads (`Lookup`, `Search`, `SearchTerms`) return no new
database, so they never change the store or the index. `Edit` is a write;
it is a method only because it calls `Lookup`.

Files:

- `results.dfy` — `Option` and `Result`.
- `chars.dfy` — `lower`, the `\w` class and the separators of `split()`, on ASCII characters.
- `slugs.dfy` — slug derivation (`re.sub('[^\w]+', '-', title.lower())`) and its laws.
- `tokens.dfy` — `split()` as `Words`, `' '.join` as `JoinSpace`, their laws, and the decimal text of an id.
- `store.dfy` — `Entry`, the two tables, `Save`, and the store invariant `Valid`.
  `Valid` says: ids are positive, slugs are unique, and the index is in step with the entries.
- `queries.dfy` — `Public`, `Drafts`, `Lookup` (detail visibility) and ranked `Search`.
- `views.dfy` — `Create` and `Edit` with the form guard.
- `scenarios.dfy` — a worked example: one published entry and one draft are created, searched for, and then one is edited.

Behaviour that is easy to misread in the code, and which the model follows as written:

- The slug is not trimmed. `"Hello, World!"` becomes `"hello-world-"`, not `"hello-world"`.
  See `Slugs.SlugifyKeepsTrailingSeparator`.
- `search` always keeps only published entries. The code has no privileged variant of it.
- The code wraps nothing in a transaction. There is no index-sync failure and no rollback.
  A save is one atomic step that either fails on the slug constraint or writes both tables.
- The code orders results by score only. The model breaks ties by ascending id.
  That is one of the orders the code allows.
- An update of an id that has no row changes no row, but still writes an index document.
  peewee issues an `UPDATE` that touches zero rows, and `update_search_index` then inserts.
  `Store.SaveOfMissingIdDesyncs` shows that the index then falls out of step.
  The views never do this: `edit` looks the entry up first.

## Model

| member | source | states |
|---|---|---|
| `Chars.Lower` | app/app.py:42 | Lower-casing one character turns a capital into its own small letter and changes nothing that is not a capital; the result is never a capital and is a word character exactly when the input is. |
| `Slugs.Slugify` | app/app.py:41-42 | A derived slug has only lower-case word characters and `-`, never two `-` in a row, is no longer than the title, and is non-empty when the title is. |
| `Slugs.CollapseShape` | app/app.py:42 | After run replacement, every character is a `-` or a word character of the input, and no two `-` are adjacent. |
| `Slugs.CollapseWord` | app/app.py:42 | A string of word characters only passes through run replacement unchanged. |
| `Slugs.CollapseRun` | app/app.py:42 | A non-empty run of non-word characters becomes exactly one `-`. |
| `Slugs.CollapseAppend` | app/app.py:42 | Run replacement commutes with concatenation when the cut is not inside a non-word run. |
| `Slugs.SlugifyRun` | app/app.py:42 | Each maximal non-word run of a title becomes one `-`, and the parts on either side are slugified independently. |
| `Slugs.SlugifyWord` | app/app.py:42 | A title of word characters only becomes its lower-case form. |
| `Slugs.SlugifyIdempotent` | app/app.py:42 | Slugifying a slug leaves it unchanged. |
| `Slugs.SlugifyKeepsTrailingSeparator` | app/app.py:42 | `"Hello, World!"` becomes `"hello-world-"`: leading and trailing separators are not trimmed. |
| `Tokens.Words` | app/app.py:95 | Every term of a split query is non-empty and holds no whitespace; the separators are those of unicode `split()` in ASCII, including the four information separators U+001C to U+001F. |
| `Tokens.WordsEmpty` | app/app.py:95-98 | A query yields no terms exactly when it is empty or all whitespace. |
| `Tokens.WordsSplit` | app/app.py:95 | A whitespace character splits the terms of the text before it from those after it. |
| `Tokens.WordsJoinSpace` | app/app.py:95-100 | Joining the terms with single spaces and splitting again returns the same terms. So the MATCH string `search` builds carries exactly the query's terms. |
| `Tokens.WordsAreSubstrings` | app/app.py:95 | Every term is a contiguous piece of the query. |
| `Store.Save` | app/app.py:40-58 | A slug is derived only when the entry has none; an existing slug is kept even if the title changed. An insert takes a fresh id. A save fails only when the slug (or the new id) clashes with another row. After a successful save the index document for the id holds `title + "\n" + content`, inserted or overwritten. No other row or document changes. |
| `Store.SavePreservesValid` | app/app.py:35-58 | Saving a new entry, or an entry that has a row, keeps ids positive, slugs unique and the index in step with the entries. |
| `Store.SaveKeepingSlugSucceeds` | app/app.py:35-43 | In a valid store, saving an entry under its own id with its stored non-empty slug always succeeds. So an edit can never hit the slug constraint. |
| `Store.SaveOfMissingIdDesyncs` | app/app.py:43-58 | Saving an id that has no row succeeds, leaves the entries alone and adds an index document that no entry joins. |
| `Store.SyncedIffRebuilt` | app/app.py:49-58 | The incrementally maintained index is in step with the entries exactly when it equals the index rebuilt from all entry rows. |
| `Store.ValidHasNoZeroId` | app/app.py:96-98 | A valid store has no entry and no index document with id 0, so the source's `Entry.id == 0` query for an empty search selects nothing. |
| `Queries.Public` | app/app.py:89-91 | `public()` returns unchanged rows of the store. |
| `Queries.Drafts` | app/app.py:112-114 | `drafts()` returns unchanged rows of the store. |
| `Queries.PublicDraftsPartition` | app/app.py:89-114 | `public()` holds exactly the published entries and `drafts()` exactly the unpublished ones. The two are disjoint and together cover the store. |
| `Queries.Lookup` | app/app.py:143-148 | A lookup by slug searches every row for a logged-in caller and `Entry.public()` otherwise. It succeeds exactly when some entry with that slug is visible to the caller, and returns that entry's row. Otherwise it fails with NotFound. With unique slugs the entry found is the only one with that slug. |
| `Queries.VisibilityRule` | app/app.py:89-148 | An entry is visible under a slug to a caller who is not logged in exactly when it is a row of `Entry.public()` with that slug, and to a logged-in caller exactly when it is a row of the store with that slug. |
| `Queries.Insert` | app/app.py:111 | Inserting a row into a list ordered by descending score (ties by id) keeps it ordered, adds exactly that row, and grows the list by one. |
| `Queries.RankedIsOrdered` | app/app.py:111 | In a ranked result, scores do not increase along the list and no id repeats. |
| `Queries.SearchTerms` | app/app.py:102-111 | For a list of terms, every result is a published entry whose index row matches every term in its `entry_id` or `content` column, every such entry is returned, and the result is ranked: a higher score first, and on a tie the lower id. |
| `Queries.Search` | app/app.py:94-111 | With no terms the result is the id-0 rows, which is empty in a valid store. Otherwise every result is a published entry that joins to an index row matching every term in its `entry_id` or `content` column. Every such entry is returned. The result is ranked: a higher score comes first, and on a tie the lower id. |
| `Queries.MatchesIndexText` | app/app.py:51-110 | An entry's index row matches exactly when every term is the entry's id in decimal (the `entry_id` column) or a token of its title or of its content (the `content` column); equivalently, when every term is a token of one of the two columns. |
| `Queries.TitleQueryFindsEntry` | app/app.py:102-110 | In a valid store, the words of a published entry's title find that entry when the title has any words (a blank title gives no terms, and `search` then takes its empty branch), and so does the entry's id; an unpublished entry is never a hit. |
| `Queries.HitAfterSave` | app/app.py:49-58 | After a save, the saved entry is a hit exactly when it has a row, is published, and every term is its id or a word of its new title or content. Removing a word removes the entry from that word's results. |
| `Views.Create` | app/app.py:174-180 | Create fails with ValidationFailure exactly when the title or the content is empty. On success the new row has the derived non-empty slug, the given fields and timestamp, and a fresh id, and the store stays valid. With a free slug in a valid store, create succeeds. |
| `Views.DuplicateTitleRejected` | app/app.py:35 | Creating a second entry with an existing entry's title fails with ConstraintViolation. |
| `Views.Edit` | app/app.py:151-169 | Edit fails with NotFound exactly when no entry has the slug. It fails with ValidationFailure exactly when the entry exists but the form is incomplete. On success it overwrites only title, content and published and keeps the timestamp. It keeps the slug when the slug is non-empty; a row stored with an empty slug gets the slug derived from the new title, as `save` does. The store stays valid. |
| `Scenarios.SearchScenario` | app/app.py:94-111 | Create a published entry "Rust Basics" and a draft "Draft Notes", both containing "ownership". Searching "ownership" hits only the published entry. After its content is edited to drop the word, it is no longer a hit. |

## Left out

- Routing, redirects, `flash`, `session`, `login_required` and the password check (app/app.py:116-246, except the guards and the visibility rule). They are HTTP and session plumbing. Being logged in is a boolean parameter of `Lookup`; `Create` and `Edit` assume the check passed.
- The `create` view at app/app.py:172-188 is mis-indented; the model follows its evident intent: guard, then `Entry.create`.
- The `edit` view is written twice. The first (app/app.py:116-134) is registered under `/create/` with a malformed decorator. The second (app/app.py:151-169) calls `get_object_or_404(Entry.slug == slug)` without its query argument. The model follows the second view and uses the lookup written in the first, `get_object_or_404(Entry, Entry.slug == slug)`.
- Markdown, code highlighting and oEmbed rendering (`html_content`, app/app.py:67-77), and the broken property at app/app.py:79-88. They call foreign libraries.
- The Jinja templates pasted into the file (app/app.py:248-309).
- `clean_querystring` (app/app.py:190-196). It refers to an undefined name and ends in URL encoding.
- Pagination (`object_list`), `create_tables`, `app.run`, and the 404 handler.
- The `timestamp.desc()` ordering the routes apply to `public()` and `drafts()`. `Public` and `Drafts` return the rows as maps, with no order.
- `Queries.Search`: SQLite FTS `MATCH` is modelled as "every term is a whitespace token of the row": the decimal `entry_id` or a token of `content`. The FTS tokenizer's case folding, punctuation splitting and query operators are not modelled.
- `Queries.Search`: `rank()` is an abstract `Ranking` parameter of the whole index, the terms and the row id. Only the descending order is modelled; ties are broken by ascending id, one of the orders the code allows. The score column is not part of a result row.
- `Views.Create`: the timestamp `datetime.now` is the parameter `now`.
- SQLite's rowid assignment is modelled as the counter `nextId`.
- Non-ASCII text. Form fields and the query arrive as unicode strings; `lower()`, `\w` and `split()` are modelled on ASCII characters only, where `\w` (no UNICODE flag) is letters, digits and `_`, and `split()` separates on space, tab, LF, VT, FF, CR and U+001C to U+001F.
- Transactions and concurrency. The source uses none, and each save is one atomic step. A failure of the index write after the entry write is not modelled.
