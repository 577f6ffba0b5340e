/**
 * The read side of the store: the `public` and `drafts` filters, lookup of
 * one entry by slug as `detail` and `edit` do it, and ranked full-text
 * `search`. None of them returns a new database: reads leave the store and
 * the index as they were.
 */
module Queries {
  import opened Results
  import opened Tokens
  import opened Store

  /** `Entry.public()`: the rows whose `published` flag is set. */
  function Public(b: Blog): (r: map<Id, Entry>)
    ensures forall i :: i in r ==> i in b.entries && r[i] == b.entries[i]
  {
    map i | i in b.entries && b.entries[i].published :: b.entries[i]
  }

  /** `Entry.drafts()`: the rows whose `published` flag is clear. */
  function Drafts(b: Blog): (r: map<Id, Entry>)
    ensures forall i :: i in r ==> i in b.entries && r[i] == b.entries[i]
  {
    map i | i in b.entries && !b.entries[i].published :: b.entries[i]
  }

  /**
   * The published and the draft listings split the store: every entry is in
   * exactly one of them, published ones in the first and drafts in the second.
   */
  lemma PublicDraftsPartition(b: Blog)
    ensures Public(b).Keys !! Drafts(b).Keys
    ensures Public(b).Keys + Drafts(b).Keys == b.entries.Keys
    ensures forall i :: i in Public(b) <==> i in b.entries && b.entries[i].published
    ensures forall i :: i in Drafts(b) <==> i in b.entries && !b.entries[i].published
  {
  }

  /** A non-empty set has an element to pick. */
  lemma NonEmptyHasElement(s: set<Id>)
    requires s != {}
    ensures exists x :: x in s
  {
    if forall y :: y !in s {
      assert false;
    }
  }

  /** A row as a query returns it: its id and its contents. */
  datatype Row = Row(id: Id, entry: Entry)

  /**
   * Entry `i` is what `detail(slug)` can show: it has that slug, and a
   * caller who is not logged in sees only published entries.
   */
  predicate Visible(b: Blog, slug: string, loggedIn: bool, i: Id) {
    i in b.entries && b.entries[i].slug == slug && (loggedIn || b.entries[i].published)
  }

  /**
   * An entry is visible under a slug to a caller who is not logged in
   * exactly when it is a row of `Entry.public()` with that slug, and to a
   * logged-in caller exactly when it is a row of the store with that slug.
   */
  lemma VisibilityRule(b: Blog, slug: string)
    ensures forall i :: Visible(b, slug, false, i) <==> i in Public(b) && Public(b)[i].slug == slug
    ensures forall i :: Visible(b, slug, true, i) <==> i in b.entries && b.entries[i].slug == slug
  {
    PublicDraftsPartition(b);
  }

  /** `get_object_or_404(query, Entry.slug == slug)` in `detail`, over the rows the caller may see. */
  method Lookup(b: Blog, slug: string, loggedIn: bool) returns (r: Result<Row, Error>)
    ensures r.Success? ==> Visible(b, slug, loggedIn, r.value.id) && r.value.entry == b.entries[r.value.id]
    ensures r.Failure? ==> r.error == NotFound
    ensures r.Failure? <==> forall i :: i in b.entries ==> !Visible(b, slug, loggedIn, i)
    ensures SlugsUnique(b.entries) && r.Success? ==>
      forall i :: i in b.entries && b.entries[i].slug == slug ==> i == r.value.id
  {
    // `Entry.select()` for a logged-in caller, `Entry.public()` otherwise
    var rows := if loggedIn then b.entries else Public(b);
    VisibilityRule(b, slug);
    var todo: set<Id> := rows.Keys;
    while todo != {}
      invariant todo <= rows.Keys
      invariant forall i :: i in rows && i !in todo ==> rows[i].slug != slug
      decreases todo
    {
      NonEmptyHasElement(todo);
      var i :| i in todo;
      if rows[i].slug == slug {
        return Success(Row(i, rows[i]));
      }
      todo := todo - {i};
    }
    return Failure(NotFound);
  }

  /**
   * `rank()`: a relevance score for index row `i` under a list of terms,
   * which may depend on the whole index; only its order matters.
   */
  type Ranking = (map<Id, string>, seq<string>, Id) -> int

  /**
   * Full-text matching of index row `i` with document `doc`. `FTSEntry` has
   * two full-text columns: the `entry_id`, whose decimal numeral is one
   * token (`WordsOfDecimal`), and the `content` document. Every term must be
   * a token of one of them.
   */
  predicate Matches(terms: seq<string>, i: Id, doc: string) {
    forall k :: 0 <= k < |terms| ==> terms[k] == Decimal(i) || terms[k] in Words(doc)
  }

  /** Entry `i` is a search hit: its index row matches, it joins to a row, and that row is published. */
  predicate IsHit(b: Blog, terms: seq<string>, i: Id) {
    i in b.index && i in b.entries && b.entries[i].published && Matches(terms, i, b.index[i])
  }

  function Score(b: Blog, terms: seq<string>, rank: Ranking, i: Id): int {
    rank(b.index, terms, i)
  }

  /** `i` comes before `j`: a higher score first, the lower id first on a tie. */
  predicate Precedes(b: Blog, terms: seq<string>, rank: Ranking, i: Id, j: Id) {
    var si, sj := Score(b, terms, rank, i), Score(b, terms, rank, j);
    si > sj || (si == sj && i < j)
  }

  ghost predicate Ranked(b: Blog, terms: seq<string>, rank: Ranking, rows: seq<Row>) {
    forall p, q :: 0 <= p < q < |rows| ==> Precedes(b, terms, rank, rows[p].id, rows[q].id)
  }

  /** A ranked list has non-increasing scores and no repeated id. */
  lemma RankedIsOrdered(b: Blog, terms: seq<string>, rank: Ranking, rows: seq<Row>)
    requires Ranked(b, terms, rank, rows)
    ensures forall p, q :: 0 <= p < q < |rows| ==>
      Score(b, terms, rank, rows[p].id) >= Score(b, terms, rank, rows[q].id) && rows[p].id != rows[q].id
  {
  }

  /** Insert one row into a ranked list of rows with other ids. */
  function Insert(b: Blog, terms: seq<string>, rank: Ranking, row: Row, rows: seq<Row>): (r: seq<Row>)
    requires Ranked(b, terms, rank, rows)
    requires forall p :: 0 <= p < |rows| ==> rows[p].id != row.id
    ensures Ranked(b, terms, rank, r)
    ensures forall x :: x in r <==> x == row || x in rows
    ensures |r| == |rows| + 1
  {
    if rows == [] then [row]
    else if Precedes(b, terms, rank, row.id, rows[0].id) then [row] + rows
    else
      var rest := Insert(b, terms, rank, row, rows[1..]);
      assert forall x :: x in rest ==> Precedes(b, terms, rank, rows[0].id, x.id) by {
        forall x | x in rest
          ensures Precedes(b, terms, rank, rows[0].id, x.id)
        {
          if x != row {
            var q :| 0 <= q < |rows[1..]| && rows[1..][q] == x;
            assert rows[q + 1] == x;
          }
        }
      }
      [rows[0]] + rest
  }

  /**
   * The join and filter of `Entry.search` for a list of terms: every index
   * document is joined to its entry, only published entries whose row
   * matches every term are kept, and the rows are ordered by descending
   * score.
   */
  method SearchTerms(b: Blog, terms: seq<string>, rank: Ranking) returns (hits: seq<Row>)
    ensures forall p :: 0 <= p < |hits| ==> IsHit(b, terms, hits[p].id) && hits[p].entry == b.entries[hits[p].id]
    ensures forall i :: IsHit(b, terms, i) ==> Row(i, b.entries[i]) in hits
    ensures Ranked(b, terms, rank, hits)
  {
    hits := [];
    var todo: set<Id> := b.index.Keys;
    while todo != {}
      invariant todo <= b.index.Keys
      invariant Ranked(b, terms, rank, hits)
      invariant forall x :: x in hits ==> IsHit(b, terms, x.id) && x.entry == b.entries[x.id] && x.id !in todo
      invariant forall i :: IsHit(b, terms, i) && i !in todo ==> Row(i, b.entries[i]) in hits
      decreases todo
    {
      NonEmptyHasElement(todo);
      var i :| i in todo;
      todo := todo - {i};
      if i in b.entries && b.entries[i].published && Matches(terms, i, b.index[i]) {
        hits := Insert(b, terms, rank, Row(i, b.entries[i]), hits);
      }
    }
  }

  /**
   * `Entry.search(query)`. The query is split on whitespace. With no terms
   * the source asks for the rows whose id is 0; otherwise the terms are
   * searched for.
   */
  method Search(b: Blog, query: string, rank: Ranking) returns (hits: seq<Row>)
    ensures Words(query) == [] ==> hits == (if 0 in b.entries then [Row(0, b.entries[0])] else [])
    ensures Valid(b) && Words(query) == [] ==> hits == []
    ensures Words(query) != [] ==> forall p :: 0 <= p < |hits| ==>
      IsHit(b, Words(query), hits[p].id) && hits[p].entry == b.entries[hits[p].id]
    ensures Words(query) != [] ==> forall i :: IsHit(b, Words(query), i) ==> Row(i, b.entries[i]) in hits
    ensures Words(query) != [] ==> Ranked(b, Words(query), rank, hits)
  {
    var terms := Words(query);
    if terms == [] {
      // the source's empty query: the rows whose id is 0, of which a valid store has none
      hits := if 0 in b.entries then [Row(0, b.entries[0])] else [];
    } else {
      hits := SearchTerms(b, terms, rank);
    }
  }

  /**
   * Index row `i` of an entry matches a list of terms exactly when every
   * term is the entry's id in decimal, or a token of its title or of its
   * content: the newline keeps the last word of the title apart from the
   * first word of the content. Equivalently, every term is a token of the
   * `entry_id` column or of the `content` column, each tokenized on its own.
   */
  lemma MatchesIndexText(terms: seq<string>, i: Id, e: Entry)
    ensures Matches(terms, i, IndexText(e)) <==>
      forall k :: 0 <= k < |terms| ==>
        terms[k] == Decimal(i) || terms[k] in Words(e.title) || terms[k] in Words(e.content)
    ensures Matches(terms, i, IndexText(e)) <==>
      forall k :: 0 <= k < |terms| ==> terms[k] in Words(Decimal(i)) + Words(IndexText(e))
  {
    assert IndexText(e) == e.title + ['\n'] + e.content;
    WordsSplit(e.title, '\n', e.content);
    WordsOfDecimal(i);
  }

  /**
   * In a valid store, searching for the words of a published entry's title,
   * when the title has any, finds that entry, and so does searching for its
   * id; an unpublished entry is never a hit.
   */
  lemma TitleQueryFindsEntry(b: Blog, i: Id)
    requires Valid(b)
    requires i in b.entries
    ensures b.entries[i].published && Words(b.entries[i].title) != [] ==> IsHit(b, Words(b.entries[i].title), i)
    ensures b.entries[i].published ==> IsHit(b, [Decimal(i)], i)
    ensures !b.entries[i].published ==> forall terms :: !IsHit(b, terms, i)
  {
    var e := b.entries[i];
    MatchesIndexText(Words(e.title), i, e);
    MatchesIndexText([Decimal(i)], i, e);
  }

  /**
   * After a save, the saved entry is a hit for a list of terms exactly when
   * it has a row, is published, and every term is its id or a word of its
   * new title or content: removing a word from an entry removes the entry
   * from that word's results.
   */
  lemma HitAfterSave(b: Blog, id: Option<Id>, e: Entry, terms: seq<string>)
    requires Save(b, id, e).Success?
    ensures var s := Save(b, id, e).value;
      IsHit(s.blog, terms, s.id) <==>
        && s.id in s.blog.entries
        && s.entry.published
        && forall k :: 0 <= k < |terms| ==>
          terms[k] == Decimal(s.id) || terms[k] in Words(s.entry.title) || terms[k] in Words(s.entry.content)
  {
    var s := Save(b, id, e).value;
    MatchesIndexText(terms, s.id, s.entry);
    assert s.blog.index[s.id] == IndexText(s.entry);
  }
}
