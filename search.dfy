/** The search route's filter: `title LIKE '%q%' OR author LIKE '%q%'`, read as a substring
    test under SQLite's ASCII-only case folding. */
module Search {
  import opened Tables

  /** ASCII lower-casing: only 'A'..'Z' change, each to its lower-case letter, and no upper-case
      ASCII letter remains. */
  function FoldChar(c: char): (r: char)
    ensures !('A' <= r <= 'Z')
    ensures r != c ==> 'A' <= c <= 'Z' && r as int == c as int + 32
  {
    if 'A' <= c <= 'Z' then (c as int + 32) as char else c
  }

  /** Folding a string char by char; folding twice is folding once. */
  function Fold(s: string): (r: string)
    ensures |r| == |s|
    ensures forall i :: 0 <= i < |s| ==> r[i] == FoldChar(s[i])
    ensures forall i :: 0 <= i < |s| ==> FoldChar(r[i]) == r[i]
  {
    seq(|s|, i requires 0 <= i < |s| => FoldChar(s[i]))
  }

  predicate IsPrefix(p: string, s: string) {
    |p| <= |s| && s[..|p|] == p
  }

  /** `sub` occurs somewhere in `s`, tried offset by offset. The empty pattern occurs in every
      string, and no pattern longer than `s` occurs in it. */
  predicate Contains(s: string, sub: string)
    ensures sub == [] ==> Contains(s, sub)
    ensures Contains(s, sub) ==> |sub| <= |s|
  {
    IsPrefix(sub, s) || (s != [] && Contains(s[1..], sub))
  }

  /** The reference reading of an occurrence: `sub` sits in `s` at offset `k`. */
  ghost predicate OccursAt(s: string, sub: string, k: nat) {
    k + |sub| <= |s| && s[k..k + |sub|] == sub
  }

  /** Contains agrees with "there is an offset where `sub` occurs". */
  lemma {:induction false} ContainsIff(s: string, sub: string)
    ensures Contains(s, sub) <==> exists k: nat :: OccursAt(s, sub, k)
  {
    if IsPrefix(sub, s) {
      assert OccursAt(s, sub, 0);
    } else if s == [] {
      forall k: nat ensures !OccursAt(s, sub, k) {}
    } else {
      ContainsIff(s[1..], sub);
      if Contains(s[1..], sub) {
        var k: nat :| OccursAt(s[1..], sub, k);
        assert s[k + 1..k + 1 + |sub|] == s[1..][k..k + |sub|];
        assert OccursAt(s, sub, k + 1);
      } else {
        forall k: nat | OccursAt(s, sub, k) ensures false {
          assert k != 0;
          assert s[1..][k - 1..k - 1 + |sub|] == s[k..k + |sub|];
          assert OccursAt(s[1..], sub, k - 1);
        }
      }
    }
  }

  /** The WHERE clause for one row, the query already folded: the query occurs at some offset of
      the folded title or of the folded author. */
  predicate RowMatches(b: Book, folded: string)
    ensures RowMatches(b, folded) <==>
              (exists k: nat :: OccursAt(Fold(b.title), folded, k)) || (exists k: nat :: OccursAt(Fold(b.author), folded, k))
  {
    ContainsIff(Fold(b.title), folded);
    ContainsIff(Fold(b.author), folded);
    Contains(Fold(b.title), folded) || Contains(Fold(b.author), folded)
  }

  /** A row matches a query when its folded title or folded author contains the folded query.
      The empty query matches every row; a query longer than both fields matches none. */
  predicate Matches(b: Book, query: string)
    ensures query == [] ==> Matches(b, query)
    ensures Matches(b, query) ==> |query| <= |b.title| || |query| <= |b.author|
  {
    RowMatches(b, Fold(query))
  }

  /** The rows that pass the WHERE clause, in table order. */
  function MatchingRows(books: seq<Book>, folded: string): (r: seq<Book>)
    ensures forall b :: b in r <==> b in books && RowMatches(b, folded)
  {
    if books == [] then []
    else if RowMatches(books[0], folded) then [books[0]] + MatchingRows(books[1..], folded)
    else MatchingRows(books[1..], folded)
  }

  /** What the search route returns for `query`: nothing for the empty query, else the
      matching rows. */
  function SearchCatalog(books: seq<Book>, query: string): (r: seq<Book>)
    ensures query == [] ==> r == []
    ensures query != [] ==> forall b :: b in r <==> b in books && Matches(b, query)
  {
    if query == [] then [] else MatchingRows(books, Fold(query))
  }

  /** The search result keeps table order: it is the table with rows dropped. */
  lemma {:induction false} MatchingRowsIsSubsequence(books: seq<Book>, folded: string)
    ensures IsSubsequence(MatchingRows(books, folded), books)
  {
    if books != [] {
      MatchingRowsIsSubsequence(books[1..], folded);
      var rest := MatchingRows(books[1..], folded);
      if RowMatches(books[0], folded) {
        assert ([books[0]] + rest)[1..] == rest;
      }
    }
  }

  lemma SearchIsSubsequence(books: seq<Book>, query: string)
    ensures IsSubsequence(SearchCatalog(books, query), books)
  {
    if query != [] {
      MatchingRowsIsSubsequence(books, Fold(query));
    }
  }

  /** Queries that differ only in ASCII case find the same rows. */
  lemma SearchIgnoresCase(books: seq<Book>, q1: string, q2: string)
    requires Fold(q1) == Fold(q2)
    ensures SearchCatalog(books, q1) == SearchCatalog(books, q2)
  {
    assert |q1| == |Fold(q1)| == |Fold(q2)| == |q2|;
  }

  /** A lower-case query finds an author written with capitals. */
  lemma FindsAuthorIgnoringCase()
    ensures SearchCatalog([Book(1, "The Hobbit", "J.R.R. Tolkien", Available)], "tolkien")
            == [Book(1, "The Hobbit", "J.R.R. Tolkien", Available)]
  {
    var b := Book(1, "The Hobbit", "J.R.R. Tolkien", Available);
    var author := Fold(b.author);
    var q := Fold("tolkien");
    forall i | 0 <= i < 7 ensures q[i] == "tolkien"[i] && author[7 + i] == q[i] {
      assert author[7 + i] == FoldChar("J.R.R. Tolkien"[7 + i]);
    }
    assert author[7..14] == q;
    assert OccursAt(author, q, 7);
    ContainsIff(author, q);
    assert RowMatches(b, q);
    assert MatchingRows([b], q) == [b] + MatchingRows([], q);
  }
}
