/** What the table shows: the stored records filtered by the search term,
    sorted on the chosen column, and cut to the current page. */
module Query {
  import opened Records
  import opened Text
  import opened Sorting
  import opened Pagination

  /** The search test of the filter: the lower-cased term occurs in the
      lower-cased name, email or hobby. `lower` is the browser's
      `toLowerCase`. */
  predicate Matches(r: Record, term: string, lower: string -> string)
  {
    var needle := lower(term);
    Includes(lower(r.name), needle) || Includes(lower(r.email), needle) || Includes(lower(r.hobby), needle)
  }

  /** `data.filter(...)`: every matching record, as often as it is stored,
      and nothing else. */
  function Filter(s: seq<Record>, term: string, lower: string -> string): (r: seq<Record>)
    ensures forall x :: multiset(r)[x] == if Matches(x, term, lower) then multiset(s)[x] else 0
    ensures forall x :: x in r <==> x in s && Matches(x, term, lower)
    ensures |r| <= |s|
  {
    if s == [] then
      []
    else
      assert s == [s[0]] + s[1..];
      (if Matches(s[0], term, lower) then [s[0]] else []) + Filter(s[1..], term, lower)
  }

  /** `r` can be obtained from `s` by deleting elements. */
  predicate IsSubsequence<T(==)>(r: seq<T>, s: seq<T>)
    decreases |s|
  {
    r == [] || (s != [] && ((r[0] == s[0] && IsSubsequence(r[1..], s[1..])) || IsSubsequence(r, s[1..])))
  }

  lemma SubsequenceExtend<T>(x: T, r: seq<T>, s: seq<T>)
    requires IsSubsequence(r, s)
    ensures IsSubsequence([x] + r, [x] + s)
    ensures IsSubsequence(r, [x] + s)
  {
    assert ([x] + r)[1..] == r && ([x] + s)[1..] == s;
  }

  /** The filter keeps the stored order. */
  lemma {:induction false} FilterKeepsOrder(s: seq<Record>, term: string, lower: string -> string)
    ensures IsSubsequence(Filter(s, term, lower), s)
  {
    if s != [] {
      var rest := Filter(s[1..], term, lower);
      FilterKeepsOrder(s[1..], term, lower);
      SubsequenceExtend(s[0], rest, s[1..]);
      assert s == [s[0]] + s[1..];
      assert Filter(s, term, lower) == if Matches(s[0], term, lower) then [s[0]] + rest else rest;
    }
  }

  /** An empty search term (or one that lower-cases to empty) keeps every
      record, in order. */
  lemma {:induction false} EmptySearchKeepsAll(s: seq<Record>, term: string, lower: string -> string)
    requires lower(term) == ""
    ensures Filter(s, term, lower) == s
  {
    if s != [] {
      EmptySearchKeepsAll(s[1..], term, lower);
      assert Includes(lower(s[0].name), "") by {
        assert OccursAt(lower(s[0].name), "", 0);
      }
    }
  }

  /** What the component renders: the rows of the current page and the
      page count. */
  datatype ViewSlice = ViewSlice(items: seq<Record>, totalPages: nat)

  /** The derivation that runs on every render. */
  function View(data: seq<Record>, term: string, sp: SortSpec, page: int, lower: string -> string): (v: ViewSlice)
    ensures |v.items| <= ItemsPerPage && |v.items| <= |data|
    ensures forall r :: r in v.items ==> r in data && Matches(r, term, lower)
    ensures v.totalPages == 0 <==> forall r :: r in data ==> !Matches(r, term, lower)
  {
    var filtered := Filter(data, term, lower);
    var sorted := Sort(sp, filtered);
    ViewRows(data, filtered, sorted, page);
    ViewSlice(PageItems(sorted, page), PageCount(|sorted|))
  }

  lemma ViewRows(data: seq<Record>, filtered: seq<Record>, sorted: seq<Record>, page: int)
    requires multiset(sorted) == multiset(filtered)
    requires |filtered| <= |data|
    ensures |PageItems(sorted, page)| <= |data|
    ensures forall r :: r in PageItems(sorted, page) ==> r in sorted && r in filtered
  {
    assert |PageItems(sorted, page)| <= |sorted|;
    assert |sorted| == |multiset(sorted)| == |filtered|;
    forall r | r in PageItems(sorted, page) ensures r in sorted && r in filtered {
      var p := PageItems(sorted, page);
      var i :| 0 <= i < |p| && p[i] == r;
      assert r in multiset(sorted);
    }
  }
}
