/**
 * How the list screen turns the search bar's text into search terms
 * (`filterContentForSearchText`, Contacts/List/ContactsListModel.swift:39-46):
 * lowercase, trim whitespace and newlines at both ends, split at every
 * whitespace character, and drop the empty pieces.
 */
module SearchText {
  import opened Text

  /** How many characters at the front of `s` lie in `chars`. */
  function LeadingIn(s: string, chars: set<char>): (n: nat)
    ensures n <= |s|
    ensures forall k :: 0 <= k < n ==> s[k] in chars
    ensures n < |s| ==> s[n] !in chars
  {
    if s != [] && s[0] in chars then 1 + LeadingIn(s[1..], chars) else 0
  }

  /** How many characters at the back of `s`, none of them before index
    * `lo`, lie in `chars`. */
  function TrailingIn(s: string, lo: nat, chars: set<char>): (n: nat)
    requires lo <= |s|
    ensures lo + n <= |s|
    ensures forall k :: |s| - n <= k < |s| ==> s[k] in chars
    ensures lo + n < |s| ==> s[|s| - n - 1] !in chars
  {
    if lo < |s| && s[|s| - 1] in chars then 1 + TrailingIn(s[..|s| - 1], lo, chars) else 0
  }

  /** `trimmingCharacters(in:)`: the middle of `s` left once the characters of
    * `chars` are taken off both ends. */
  function Trimming(s: string, chars: set<char>): (r: string)
    ensures var i := LeadingIn(s, chars);
      && i + |r| <= |s|
      && (forall k :: 0 <= k < |r| ==> r[k] == s[i + k])
      && (forall k :: 0 <= k < i ==> s[k] in chars)
      && (forall k :: i + |r| <= k < |s| ==> s[k] in chars)
    ensures r != [] ==> r[0] !in chars && r[|r| - 1] !in chars
  {
    var start := LeadingIn(s, chars);
    s[start..|s| - TrailingIn(s, start, chars)]
  }

  /** A string made only of characters of `chars` trims to "". */
  lemma TrimmingBlank(s: string, chars: set<char>)
    requires forall k :: 0 <= k < |s| ==> s[k] in chars
    ensures Trimming(s, chars) == []
  {
    assert LeadingIn(s, chars) == |s|;
  }

  /** A string whose ends lie outside `chars` is left as it is. */
  lemma TrimmingUntouched(s: string, chars: set<char>)
    requires s != [] ==> s[0] !in chars && s[|s| - 1] !in chars
    ensures Trimming(s, chars) == s
  {
    if s != [] {
      assert LeadingIn(s, chars) == 0;
      assert TrailingIn(s, 0, chars) == 0;
    }
  }

  /** The pieces of `parts` joined together. */
  function Concat(parts: seq<string>): string {
    if parts == [] then [] else parts[0] + Concat(parts[1..])
  }

  /** `components(separatedBy:)`: the pieces between separators; two adjacent
    * separators give an empty piece. */
  function Components(s: string, separators: set<char>): (r: seq<string>)
    ensures |r| >= 1
  {
    if s == [] then [[]]
    else
      var rest := Components(s[1..], separators);
      if s[0] in separators then [[]] + rest
      else [[s[0]] + rest[0]] + rest[1..]
  }

  /** No piece holds a separator, and the pieces joined together are the
    * string without its separators. */
  lemma {:induction false} ComponentsPieces(s: string, separators: set<char>)
    ensures var r := Components(s, separators);
      && (forall i, k :: 0 <= i < |r| && 0 <= k < |r[i]| ==> r[i][k] !in separators)
      && Concat(r) == Without(s, separators)
  {
    if s != [] {
      ComponentsPieces(s[1..], separators);
      var rest := Components(s[1..], separators);
      assert rest == [rest[0]] + rest[1..];
    }
  }

  /** A string without separators is one piece. */
  lemma {:induction false} ComponentsOfPiece(a: string, separators: set<char>)
    requires forall k :: 0 <= k < |a| ==> a[k] !in separators
    ensures Components(a, separators) == [a]
  {
    if a != [] {
      ComponentsOfPiece(a[1..], separators);
      assert [a[0]] + a[1..] == a;
    }
  }

  /** The first piece runs up to the first separator, and the pieces after
    * it are those of the rest of the string. */
  lemma {:induction false} ComponentsLeadingRun(s: string, n: nat, separators: set<char>)
    requires n < |s| && s[n] in separators
    requires forall k :: 0 <= k < n ==> s[k] !in separators
    ensures Components(s, separators) == [s[..n]] + Components(s[n + 1..], separators)
  {
    if n > 0 {
      var t := s[1..];
      assert t[n - 1] == s[n];
      ComponentsLeadingRun(t, n - 1, separators);
      assert t[n..] == s[n + 1..];
      assert [s[0]] + t[..n - 1] == s[..n];
    }
  }

  /** `filter { $0 != "" }`. */
  function NonEmpty(parts: seq<string>): (r: seq<string>)
    ensures forall i :: 0 <= i < |r| ==> r[i] != []
    ensures forall x :: x in r ==> x in parts
    ensures Concat(r) == Concat(parts)
  {
    if parts == [] then []
    else if parts[0] == [] then NonEmpty(parts[1..])
    else [parts[0]] + NonEmpty(parts[1..])
  }

  /** Filtering works piece by piece, so the kept pieces keep their order and
    * their number of occurrences. */
  lemma {:induction false} NonEmptyAppend(a: seq<string>, b: seq<string>)
    ensures NonEmpty(a + b) == NonEmpty(a) + NonEmpty(b)
  {
    if a == [] {
      assert a + b == b;
    } else {
      assert (a + b)[0] == a[0];
      assert (a + b)[1..] == a[1..] + b;
      NonEmptyAppend(a[1..], b);
    }
  }

  /** One piece is kept exactly when it is not empty. */
  lemma NonEmptyPiece(x: string)
    ensures NonEmpty([x]) == if x == [] then [] else [x]
  {
    assert [x][1..] == [];
  }

  /** How many characters at the front of `s` lie outside `chars`. */
  function LeadingOutside(s: string, chars: set<char>): (n: nat)
    ensures n <= |s|
    ensures forall k :: 0 <= k < n ==> s[k] !in chars
    ensures n < |s| ==> s[n] in chars
  {
    if s != [] && s[0] !in chars then 1 + LeadingOutside(s[1..], chars) else 0
  }

  /** The words of `s`: its maximal runs of characters outside `separators`,
    * in order. */
  function Words(s: string, separators: set<char>): (r: seq<string>)
    ensures forall i :: 0 <= i < |r| ==> r[i] != []
    ensures forall i, k :: 0 <= i < |r| && 0 <= k < |r[i]| ==> r[i][k] !in separators
    decreases |s|
  {
    if s == [] then []
    else if s[0] in separators then Words(s[1..], separators)
    else
      var n := LeadingOutside(s, separators);
      var rest := Words(s[n..], separators);
      assert forall i :: 0 < i <= |rest| ==> ([s[..n]] + rest)[i] == rest[i - 1];
      [s[..n]] + rest
  }

  /** Splitting at every separator and dropping the empty pieces gives the
    * words. */
  lemma {:induction false} NonEmptyComponentsAreWords(s: string, separators: set<char>)
    ensures NonEmpty(Components(s, separators)) == Words(s, separators)
    decreases |s|
  {
    if s == [] {
    } else if s[0] in separators {
      var rest := Components(s[1..], separators);
      assert ([[]] + rest)[1..] == rest;
      NonEmptyComponentsAreWords(s[1..], separators);
    } else {
      var n := LeadingOutside(s, separators);
      var w := s[..n];
      ComponentsOfPiece(w, separators);
      if n == |s| {
        assert w == s;
        assert s[n..] == [];
        NonEmptyPiece(w);
      } else {
        var b := s[n + 1..];
        ComponentsLeadingRun(s, n, separators);
        assert ([w] + Components(b, separators))[1..] == Components(b, separators);
        NonEmptyComponentsAreWords(b, separators);
        assert s[n..][1..] == b;
      }
    }
  }

  /** The search terms of the query `text`: the words, split at the
    * `whitespaces` characters, of the lowercased query once whitespace and
    * newlines are trimmed from its ends. No term is empty or holds a
    * whitespace character, and joined together they are the trimmed query
    * without its whitespace. */
  function SearchTerms(p: Platform, text: string): (r: seq<string>)
    ensures r == Words(Trimming(p.lowercased(text), p.whitespacesAndNewlines), p.whitespaces)
    ensures forall i :: 0 <= i < |r| ==> r[i] != []
    ensures forall i, k :: 0 <= i < |r| && 0 <= k < |r[i]| ==> r[i][k] !in p.whitespaces
    ensures Concat(r) == Without(Trimming(p.lowercased(text), p.whitespacesAndNewlines), p.whitespaces)
  {
    var trimmed := Trimming(p.lowercased(text), p.whitespacesAndNewlines);
    var parts := Components(trimmed, p.whitespaces);
    var r := NonEmpty(parts);
    NonEmptyComponentsAreWords(trimmed, p.whitespaces);
    ComponentsPieces(trimmed, p.whitespaces);
    r
  }

  /** A query of nothing but whitespace and newlines, "" among them, gives no
    * terms. */
  lemma BlankQueryHasNoTerms(p: Platform, text: string)
    requires p.Valid()
    requires Blank(text, p.whitespacesAndNewlines)
    ensures SearchTerms(p, text) == []
    ensures p.lowercased("") == "" && SearchTerms(p, "") == []
  {
    assert Blank("", p.whitespacesAndNewlines);
    TrimmingBlank(p.lowercased(text), p.whitespacesAndNewlines);
    TrimmingBlank(p.lowercased(""), p.whitespacesAndNewlines);
  }

  /** The query "alice smith" gives the two terms "alice" and "smith". */
  lemma TwoWordQuery(p: Platform, text: string)
    requires p.Valid()
    requires p.lowercased(text) == "alice smith"
    ensures SearchTerms(p, text) == ["alice", "smith"]
  {
    var q := "alice smith";
    assert forall c :: 'a' <= c <= 'z' ==> c !in p.whitespacesAndNewlines && c !in p.whitespaces;
    TrimmingUntouched(q, p.whitespacesAndNewlines);
    TwoWordPieces(p.whitespaces);
    NonEmptyPieces("alice", "smith");
  }

  /** "alice smith" splits at its space into "alice" and "smith". */
  lemma TwoWordPieces(separators: set<char>)
    requires ' ' in separators
    requires forall c :: 'a' <= c <= 'z' ==> c !in separators
    ensures Components("alice smith", separators) == ["alice", "smith"]
  {
    var q, second := "alice smith", "smith";
    assert q[..5] == "alice" && q[6..] == second;
    ComponentsLeadingRun(q, 5, separators);
    assert forall k :: 0 <= k < |second| ==> 'a' <= second[k] <= 'z';
    ComponentsOfPiece(second, separators);
  }

  /** Two non-empty pieces are both kept, in order. */
  lemma NonEmptyPieces(first: string, second: string)
    requires first != [] && second != []
    ensures NonEmpty([first, second]) == [first, second]
  {
    assert [first, second] == [first] + [second];
    NonEmptyAppend([first], [second]);
    NonEmptyPiece(first);
    NonEmptyPiece(second);
  }
}
