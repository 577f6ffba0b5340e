/**
 * Whitespace tokenizing: `str.split()` with no argument, used by `search`
 * to turn a query into terms and by the model of full-text matching to
 * turn an indexed document into its tokens.
 */
module Tokens {
  import opened Chars

  /** A term: a non-empty string with no whitespace in it. */
  ghost predicate IsTerm(w: string) {
    |w| > 0 && forall j :: 0 <= j < |w| ==> !IsSpace(w[j])
  }

  /** The longest prefix of `s` that holds no whitespace. */
  function LeadingWord(s: string): (w: string)
    ensures |w| <= |s| && w == s[..|w|]
    ensures forall j :: 0 <= j < |w| ==> !IsSpace(w[j])
    ensures |w| < |s| ==> IsSpace(s[|w|])
    ensures s != [] && !IsSpace(s[0]) ==> |w| > 0
  {
    if s == [] || IsSpace(s[0]) then [] else [s[0]] + LeadingWord(s[1..])
  }

  /** `s.split()`: the maximal whitespace-free pieces of `s`, in order. */
  function Words(s: string): (ws: seq<string>)
    ensures forall i :: 0 <= i < |ws| ==> IsTerm(ws[i])
    decreases |s|
  {
    if s == [] then []
    else if IsSpace(s[0]) then Words(s[1..])
    else
      var w := LeadingWord(s);
      [w] + Words(s[|w|..])
  }

  /** `' '.join(ws)`. */
  function JoinSpace(ws: seq<string>): string
  {
    if ws == [] then ""
    else if |ws| == 1 then ws[0]
    else ws[0] + " " + JoinSpace(ws[1..])
  }

  /** The decimal numeral of a natural number, most significant digit first. */
  function Digits(n: nat): (s: string)
    ensures |s| > 0 && forall j :: 0 <= j < |s| ==> IsDigit(s[j])
  {
    var d := [('0' as int + n % 10) as char];
    if n < 10 then d else Digits(n / 10) + d
  }

  /** The decimal text of an id (ids are positive in a valid store). */
  function Decimal(n: int): string {
    if n < 0 then "-" + Digits(-n) else Digits(n)
  }

  /** A numeral is a term made of digits and at most a leading sign. */
  lemma DecimalIsNumeral(n: int)
    ensures IsTerm(Decimal(n))
    ensures forall j :: 0 <= j < |Decimal(n)| ==> IsDigit(Decimal(n)[j]) || Decimal(n)[j] == '-'
  {
  }

  /** A query yields no terms exactly when it is empty or all whitespace. */
  lemma {:induction false} WordsEmpty(s: string)
    ensures Words(s) == [] <==> forall i :: 0 <= i < |s| ==> IsSpace(s[i])
  {
    if s != [] && IsSpace(s[0]) {
      WordsEmpty(s[1..]);
      assert forall i :: 1 <= i < |s| ==> s[i] == s[1..][i - 1];
    }
  }

  /** The leading word does not reach past whitespace appended after it. */
  lemma {:induction false} LeadingWordAppend(a: string, b: string)
    requires b != [] && IsSpace(b[0])
    ensures LeadingWord(a + b) == LeadingWord(a)
  {
    if a != [] {
      assert (a + b)[1..] == a[1..] + b;
      LeadingWordAppend(a[1..], b);
    } else {
      assert a + b == b;
    }
  }

  /** Tokenizing is local: a whitespace character splits the tokens of both sides apart. */
  lemma {:induction false} WordsSplit(a: string, c: char, b: string)
    requires IsSpace(c)
    ensures Words(a + [c] + b) == Words(a) + Words(b)
    decreases |a|
  {
    var s := a + [c] + b;
    if a == [] {
      assert s[1..] == b;
    } else if IsSpace(a[0]) {
      assert s[1..] == a[1..] + [c] + b;
      WordsSplit(a[1..], c, b);
    } else {
      LeadingWordAppend(a, [c] + b);
      assert s == a + ([c] + b);
      var w := LeadingWord(a);
      assert s[|w|..] == a[|w|..] + [c] + b;
      WordsSplit(a[|w|..], c, b);
    }
  }

  /** A single term tokenizes to itself. */
  lemma WordsOfTerm(w: string)
    requires IsTerm(w)
    ensures Words(w) == [w]
  {
    assert LeadingWord(w) == w by {
      LeadingWordWhole(w);
    }
    assert w[|w|..] == [];
  }

  lemma {:induction false} LeadingWordWhole(w: string)
    requires forall j :: 0 <= j < |w| ==> !IsSpace(w[j])
    ensures LeadingWord(w) == w
  {
    if w != [] {
      LeadingWordWhole(w[1..]);
    }
  }

  /** A numeral is one token. */
  lemma WordsOfDecimal(n: int)
    ensures Words(Decimal(n)) == [Decimal(n)]
  {
    DecimalIsNumeral(n);
    WordsOfTerm(Decimal(n));
  }

  /**
   * Joining terms with single spaces and splitting again gives the same
   * terms back, so the query string `search` builds from its terms carries
   * exactly those terms.
   */
  lemma {:induction false} WordsJoinSpace(ws: seq<string>)
    requires forall i :: 0 <= i < |ws| ==> IsTerm(ws[i])
    ensures Words(JoinSpace(ws)) == ws
  {
    if |ws| == 1 {
      WordsOfTerm(ws[0]);
    } else if |ws| > 1 {
      WordsJoinSpace(ws[1..]);
      WordsOfTerm(ws[0]);
      assert ws[0] + " " + JoinSpace(ws[1..]) == ws[0] + [' '] + JoinSpace(ws[1..]);
      WordsSplit(ws[0], ' ', JoinSpace(ws[1..]));
      assert ws == [ws[0]] + ws[1..];
    }
  }

  /** Every term is a contiguous piece of the text it was split from. */
  lemma {:induction false} WordsAreSubstrings(s: string, k: int)
    requires 0 <= k < |Words(s)|
    ensures exists i, j :: 0 <= i <= j <= |s| && s[i..j] == Words(s)[k]
    decreases |s|
  {
    if IsSpace(s[0]) {
      assert Words(s) == Words(s[1..]);
      WordsAreSubstrings(s[1..], k);
      var i, j :| 0 <= i <= j <= |s[1..]| && s[1..][i..j] == Words(s[1..])[k];
      assert s[i + 1..j + 1] == s[1..][i..j];
    } else {
      var w := LeadingWord(s);
      assert Words(s) == [w] + Words(s[|w|..]);
      if k == 0 {
        assert s[0..|w|] == w;
      } else {
        assert Words(s)[k] == Words(s[|w|..])[k - 1];
        WordsAreSubstrings(s[|w|..], k - 1);
        var i, j :| 0 <= i <= j <= |s[|w|..]| && s[|w|..][i..j] == Words(s[|w|..])[k - 1];
        assert s[i + |w|..j + |w|] == s[|w|..][i..j];
      }
    }
  }
}
