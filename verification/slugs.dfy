/**
 * Slug derivation of `Entry.save`: lower-case the title, then replace every
 * maximal run of non-word characters with a single '-'. Leading and trailing
 * runs are replaced like any other run; nothing is trimmed.
 */
module Slugs {
  import opened Chars

  /** `str.lower()` on a whole title. */
  function LowerAll(s: string): (r: string)
    ensures |r| == |s|
    ensures forall i :: 0 <= i < |s| ==> r[i] == Lower(s[i])
  {
    if s == [] then [] else [Lower(s[0])] + LowerAll(s[1..])
  }

  /** The shape of every derived slug: lower-case word characters and single '-' separators. */
  ghost predicate IsSlug(s: string) {
    && (forall i :: 0 <= i < |s| ==> s[i] == '-' || (IsWordChar(s[i]) && !IsUpper(s[i])))
    && (forall i :: 0 <= i < |s| - 1 ==> s[i] == '-' ==> s[i + 1] != '-')
  }

  /**
   * `re.sub('[^\w]+', '-', s)`. A non-word character emits the '-' of its
   * run exactly when it is the last character of that run.
   */
  function CollapseRuns(s: string): (r: string)
    ensures |r| <= |s|
    ensures |s| > 0 ==> |r| > 0 && r[0] == (if IsWordChar(s[0]) then s[0] else '-')
  {
    if s == [] then []
    else if IsWordChar(s[0]) then [s[0]] + CollapseRuns(s[1..])
    else if |s| > 1 && !IsWordChar(s[1]) then CollapseRuns(s[1..])
    else "-" + CollapseRuns(s[1..])
  }

  /**
   * Every character of the replacement is a '-' or a word character taken
   * from the input, and no two '-' are adjacent.
   */
  lemma {:induction false} CollapseShape(s: string)
    ensures forall i :: 0 <= i < |CollapseRuns(s)| ==>
      CollapseRuns(s)[i] == '-' || (IsWordChar(CollapseRuns(s)[i]) && CollapseRuns(s)[i] in s)
    ensures forall i :: 0 <= i < |CollapseRuns(s)| - 1 ==>
      CollapseRuns(s)[i] == '-' ==> CollapseRuns(s)[i + 1] != '-'
  {
    if s != [] {
      CollapseShape(s[1..]);
      var r, t := CollapseRuns(s), CollapseRuns(s[1..]);
      forall i | 0 <= i < |r|
        ensures r[i] == '-' || (IsWordChar(r[i]) && r[i] in s)
      {
        if IsWordChar(s[0]) && i > 0 {
          assert r[i] == t[i - 1];
        } else if !IsWordChar(s[0]) && i > 0 && (|s| == 1 || IsWordChar(s[1])) {
          assert r[i] == t[i - 1];
        }
      }
    }
  }

  /** The slug `Entry.save` derives from a title when the entry has none. */
  function Slugify(title: string): (slug: string)
    ensures IsSlug(slug)
    ensures |slug| <= |title|
    ensures |title| > 0 ==> |slug| > 0
  {
    var lowered := LowerAll(title);
    var slug := CollapseRuns(lowered);
    CollapseShape(lowered);
    assert forall i :: 0 <= i < |slug| && slug[i] != '-' ==> !IsUpper(slug[i]) by {
      forall i | 0 <= i < |slug| && slug[i] != '-'
        ensures !IsUpper(slug[i])
      {
        var j :| 0 <= j < |lowered| && lowered[j] == slug[i];
      }
    }
    slug
  }

  /** A string made only of word characters is copied unchanged. */
  lemma {:induction false} CollapseWord(s: string)
    requires forall i :: 0 <= i < |s| ==> IsWordChar(s[i])
    ensures CollapseRuns(s) == s
  {
    if s != [] {
      CollapseWord(s[1..]);
    }
  }

  /** A non-empty run of non-word characters becomes exactly one '-'. */
  lemma {:induction false} CollapseRun(s: string)
    requires |s| > 0
    requires forall i :: 0 <= i < |s| ==> !IsWordChar(s[i])
    ensures CollapseRuns(s) == "-"
  {
    if |s| > 1 {
      CollapseRun(s[1..]);
    }
  }

  /** One step of run replacement on a string split into its first character and the rest. */
  lemma CollapseStep(c: char, t: string)
    ensures CollapseRuns([c] + t) ==
      if IsWordChar(c) then [c] + CollapseRuns(t)
      else if t != [] && !IsWordChar(t[0]) then CollapseRuns(t)
      else "-" + CollapseRuns(t)
  {
  }

  /**
   * Replacing runs is local: cutting the input anywhere except inside a run
   * of non-word characters cuts the output at the same place.
   */
  lemma {:induction false} CollapseAppend(a: string, b: string)
    requires a == [] || b == [] || IsWordChar(a[|a| - 1]) || IsWordChar(b[0])
    ensures CollapseRuns(a + b) == CollapseRuns(a) + CollapseRuns(b)
  {
    if a == [] {
      assert a + b == b;
    } else if b == [] {
      assert a + b == a;
    } else {
      var c, rest := a[0], a[1..];
      assert a == [c] + rest;
      assert a + b == [c] + (rest + b);
      CollapseStep(c, rest);
      CollapseStep(c, rest + b);
      if rest == [] {
        assert rest + b == b;
      } else {
        assert rest[|rest| - 1] == a[|a| - 1];
        assert (rest + b)[0] == rest[0];
        CollapseAppend(rest, b);
      }
    }
  }

  /** Lower-casing distributes over concatenation. */
  lemma LowerAllAppend(a: string, b: string)
    ensures LowerAll(a + b) == LowerAll(a) + LowerAll(b)
  {
  }

  /** A string with no capitals is its own lower-case form. */
  lemma LowerAllFixpoint(s: string)
    requires forall i :: 0 <= i < |s| ==> !IsUpper(s[i])
    ensures LowerAll(s) == s
  {
  }

  /** A string already shaped like a slug is its own run replacement. */
  lemma {:induction false} CollapseFixpoint(s: string)
    requires IsSlug(s)
    ensures CollapseRuns(s) == s
  {
    if s != [] {
      assert IsSlug(s[1..]);
      CollapseFixpoint(s[1..]);
      if !IsWordChar(s[0]) && |s| > 1 {
        assert s[0] == '-';
        assert IsWordChar(s[1]);
      }
    }
  }

  /** Deriving a slug from a slug leaves it unchanged. */
  lemma SlugifyIdempotent(title: string)
    ensures Slugify(Slugify(title)) == Slugify(title)
  {
    var slug := Slugify(title);
    LowerAllFixpoint(slug);
    CollapseFixpoint(slug);
  }

  /**
   * Each maximal run of non-word characters in a title becomes exactly one
   * '-' in its slug, and the parts around the run are derived independently.
   */
  lemma SlugifyRun(before: string, run: string, after: string)
    requires before == [] || IsWordChar(before[|before| - 1])
    requires |run| > 0 && forall i :: 0 <= i < |run| ==> !IsWordChar(run[i])
    requires after == [] || IsWordChar(after[0])
    ensures Slugify(before + run + after) == Slugify(before) + "-" + Slugify(after)
  {
    var lb, lr, la := LowerAll(before), LowerAll(run), LowerAll(after);
    LowerAllAppend(before + run, after);
    LowerAllAppend(before, run);
    CollapseRun(lr);
    assert |lb| > 0 ==> IsWordChar(lb[|lb| - 1]);
    assert IsWordChar(lr[|lr| - 1]) == false;
    CollapseAppend(lb, lr);
    CollapseAppend(lb + lr, la);
  }

  /** A title of word characters only becomes its lower-case form. */
  lemma SlugifyWord(title: string)
    requires forall i :: 0 <= i < |title| ==> IsWordChar(title[i])
    ensures Slugify(title) == LowerAll(title)
  {
  }

  lemma SlugifyHello()
    ensures Slugify("Hello") == "hello"
  {
  }

  lemma SlugifyWorld()
    ensures Slugify("World!") == "world-"
  {
  }

  /** The separators of a title are not trimmed: the trailing '!' leaves a trailing '-'. */
  lemma SlugifyKeepsTrailingSeparator(title: string)
    requires title == "Hello, World!"
    ensures Slugify(title) == "hello-world-"
  {
    var before, run, after := "Hello", ", ", "World!";
    SlugifyHello();
    SlugifyWorld();
    assert before + run + after == title;
    assert IsWordChar(before[|before| - 1]) && IsWordChar(after[0]);
    assert forall i :: 0 <= i < |run| ==> !IsWordChar(run[i]);
    SlugifyRun(before, run, after);
  }
}
