/**
 * A worked example of the store and its search: one published and one
 * draft entry share a word, only the published one is a hit, and editing
 * the word out of the published one removes it from the results.
 */
module Scenarios {
  import opened Results
  import opened Chars
  import opened Slugs
  import opened Tokens
  import opened Store
  import opened Queries
  import opened Views

  /** Two terms joined by a space split back into those two terms. */
  lemma WordsOfTwo(a: string, b: string)
    requires IsTerm(a) && IsTerm(b)
    ensures Words(a + " " + b) == [a, b]
  {
    WordsJoinSpace([a, b]);
  }

  /** The slug of a title starting with a letter starts with that letter in lower case. */
  lemma SlugifyFirst(title: string)
    requires |title| > 0 && IsWordChar(title[0])
    ensures |Slugify(title)| > 0 && Slugify(title)[0] == Lower(title[0])
  {
    assert LowerAll(title)[0] == Lower(title[0]);
  }

  /** "ownership" is the first token of A's content. */
  lemma TermInContent(content: string)
    requires content == "ownership and borrowing"
    ensures "ownership" in Words(content)
  {
    var term := "ownership";
    assert IsTerm(term);
    assert content == term + [' '] + "and borrowing";
    WordsSplit(term, ' ', "and borrowing");
    WordsOfTerm(term);
  }

  /** A term other than the two words of a two-word text is not among its tokens. */
  lemma NotAmongTwo(s: string, a: string, b: string, t: string)
    requires IsTerm(a) && IsTerm(b) && s == a + " " + b
    requires t != a && t != b
    ensures t !in Words(s)
  {
    WordsOfTwo(a, b);
  }

  /** Neither A's title nor its edited content holds "ownership". */
  lemma TermNotInEdited(title: string, content: string)
    requires title == "Rust Basics" && content == "borrowing only"
    ensures "ownership" !in Words(title) && "ownership" !in Words(content)
  {
    var term := "ownership";
    assert IsTerm("Rust") && IsTerm("Basics");
    assert |term| != |"Rust"| && |term| != |"Basics"|;
    NotAmongTwo(title, "Rust", "Basics", term);
    assert IsTerm("borrowing") && IsTerm("only");
    assert term[0] != "borrowing"[0] && |term| != |"only"|;
    NotAmongTwo(content, "borrowing", "only", term);
  }

  /** A word starting with a letter is no entry id. */
  lemma NotANumeral(t: string, n: int)
    requires |t| > 0 && 'a' <= t[0] <= 'z'
    ensures t != Decimal(n)
  {
    DecimalIsNumeral(n);
  }

  /** Creating A and then B in an empty store succeeds: their slugs differ. */
  lemma CreateBoth(titleA: string, contentA: string, titleB: string, contentB: string)
    requires titleA == "Rust Basics" && contentA == "ownership and borrowing"
    requires titleB == "Draft Notes" && contentB == "ownership experiments"
    ensures Create(Empty, titleA, contentA, true, 1).Success?
    ensures var a := Create(Empty, titleA, contentA, true, 1).value;
      && Create(a.blog, titleB, contentB, false, 2).Success?
      && var b := Create(a.blog, titleB, contentB, false, 2).value;
      && Valid(b.blog)
      && a.id in b.blog.entries && b.blog.entries[a.id] == a.entry
      && a.entry == Entry(titleA, Slugify(titleA), contentA, true, 1)
      && b.id != a.id
      && !b.entry.published
  {
    EmptyValid();
    SlugifyFirst(titleA);
    SlugifyFirst(titleB);
    var a := Create(Empty, titleA, contentA, true, 1).value;
    assert a.blog.entries == map[a.id := a.entry];
    assert Slugify(titleA) != Slugify(titleB);
  }

  /**
   * A published entry and a draft both contain "ownership": only the
   * published one is a hit, and once the word is edited out of it, it is
   * no longer a hit either.
   */
  lemma SearchScenario(titleA: string, contentA: string, titleB: string, contentB: string, edited: string,
                        terms: seq<string>)
    requires titleA == "Rust Basics" && contentA == "ownership and borrowing"
    requires titleB == "Draft Notes" && contentB == "ownership experiments"
    requires edited == "borrowing only"
    requires terms == ["ownership"]
    ensures
      var a := Create(Empty, titleA, contentA, true, 1);
      && a.Success?
      && var b := Create(a.value.blog, titleB, contentB, false, 2);
      && b.Success?
      && IsHit(b.value.blog, terms, a.value.id)
      && !IsHit(b.value.blog, terms, b.value.id)
      && var c := Save(b.value.blog, Some(a.value.id), a.value.entry.(content := edited));
      && c.Success?
      && !IsHit(c.value.blog, terms, a.value.id)
  {
    CreateBoth(titleA, contentA, titleB, contentB);
    var a := Create(Empty, titleA, contentA, true, 1).value;
    var b := Create(a.blog, titleB, contentB, false, 2).value;
    // before the edit, A's content holds the term
    TermInContent(contentA);
    MatchesIndexText(terms, a.id, a.entry);
    assert b.blog.index[a.id] == IndexText(a.entry);
    // the edit keeps A's slug, so it saves; afterwards no token of A is the term
    var e := a.entry.(content := edited);
    SaveKeepingSlugSucceeds(b.blog, a.id, e);
    TermNotInEdited(titleA, edited);
    var saved := Save(b.blog, Some(a.id), e).value;
    assert saved.entry == e && saved.id == a.id;
    NotANumeral(terms[0], a.id);
    assert !(terms[0] == Decimal(saved.id) || terms[0] in Words(e.title) || terms[0] in Words(e.content));
    HitAfterSave(b.blog, Some(a.id), e, terms);
  }
}
