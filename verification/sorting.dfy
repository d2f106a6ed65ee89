/** The sort step of the table: `filteredData.sort(cmp)` with the
    comparator `a[sortField].localeCompare(b[sortField]) * order`.
    `Array.prototype.sort` is a stable sort; the model is a stable
    insertion sort, proved to be a permutation, ordered in the chosen
    direction, stable, and the only rearrangement with those properties. */
module Sorting {
  import opened Records
  import opened Text

  /** What the sort depends on: the browser's `localeCompare`, the column
      and the direction. */
  datatype SortSpec = SortSpec(localeCompare: (string, string) -> int, field: SortField, order: SortOrder)

  /** `sortOrder === 'asc' ? 1 : -1` */
  function Direction(o: SortOrder): int
  {
    if o == Asc then 1 else -1
  }

  /** The comparator handed to `sort`. */
  function Compare(sp: SortSpec, a: Record, b: Record): int
  {
    sp.localeCompare(Key(a, sp.field), Key(b, sp.field)) * Direction(sp.order)
  }

  /** `a` may stand before `b`. */
  predicate Precedes(sp: SortSpec, a: Record, b: Record)
  {
    Compare(sp, a, b) <= 0
  }

  /** Two records compare equal on the sort column, whatever the direction. */
  predicate Tie(sp: SortSpec, a: Record, b: Record)
  {
    sp.localeCompare(Key(a, sp.field), Key(b, sp.field)) == 0
  }

  ghost predicate Ordered(sp: SortSpec, s: seq<Record>)
  {
    forall i, j :: 0 <= i < j < |s| ==> Precedes(sp, s[i], s[j])
  }

  /** Places `x` in front of the first element it may precede. */
  function Insert(sp: SortSpec, x: Record, t: seq<Record>): (r: seq<Record>)
    ensures multiset(r) == multiset(t) + multiset{x}
    ensures |r| == |t| + 1
  {
    if t == [] then
      [x]
    else if Precedes(sp, x, t[0]) then
      [x] + t
    else
      assert t == [t[0]] + t[1..];
      [t[0]] + Insert(sp, x, t[1..])
  }

  /** The result of `sort` on a fresh array holding `s`. */
  function Sort(sp: SortSpec, s: seq<Record>): (r: seq<Record>)
    ensures multiset(r) == multiset(s)
    ensures |r| == |s|
  {
    if s == [] then
      []
    else
      assert s == [s[0]] + s[1..];
      Insert(sp, s[0], Sort(sp, s[1..]))
  }

  /** The records of `s` that tie with `x` on the sort column, in order. */
  function TiedWith(sp: SortSpec, s: seq<Record>, x: Record): seq<Record>
  {
    if s == [] then []
    else (if Tie(sp, s[0], x) then [s[0]] else []) + TiedWith(sp, s[1..], x)
  }

  /** The comparator for either direction inherits the laws of `localeCompare`:
      it is total, transitive, and it is zero exactly on ties. */
  lemma CompareLaws(sp: SortSpec, a: Record, b: Record, c: Record)
    requires ConsistentComparator(sp.localeCompare)
    ensures Precedes(sp, a, b) || Precedes(sp, b, a)
    ensures !Precedes(sp, a, b) ==> Precedes(sp, b, a) && !Tie(sp, a, b)
    ensures Precedes(sp, a, b) && Precedes(sp, b, c) ==> Precedes(sp, a, c)
    ensures Precedes(sp, a, b) && Precedes(sp, b, a) ==> Tie(sp, a, b)
  {
  }

  lemma OrderedCons(sp: SortSpec, h: Record, u: seq<Record>)
    requires Ordered(sp, u)
    requires forall y :: y in u ==> Precedes(sp, h, y)
    ensures Ordered(sp, [h] + u)
  {
  }

  lemma {:induction false} InsertOrdered(sp: SortSpec, x: Record, t: seq<Record>)
    requires ConsistentComparator(sp.localeCompare)
    requires Ordered(sp, t)
    ensures Ordered(sp, Insert(sp, x, t))
  {
    if t == [] {
    } else if Precedes(sp, x, t[0]) {
      forall y | y in t ensures Precedes(sp, x, y) {
        var j :| 0 <= j < |t| && t[j] == y;
        if j > 0 {
          CompareLaws(sp, x, t[0], y);
        }
      }
      OrderedCons(sp, x, t);
    } else {
      var u := Insert(sp, x, t[1..]);
      assert Ordered(sp, t[1..]) by {
        forall i, j | 0 <= i < j < |t[1..]| ensures Precedes(sp, t[1..][i], t[1..][j]) {
          assert t[1..][i] == t[i + 1] && t[1..][j] == t[j + 1];
        }
      }
      InsertOrdered(sp, x, t[1..]);
      forall y | y in u ensures Precedes(sp, t[0], y) {
        assert y in multiset(u);
        if y == x {
          CompareLaws(sp, x, t[0], x);
        } else {
          assert y in multiset(t[1..]);
          var j :| 0 <= j < |t[1..]| && t[1..][j] == y;
          assert t[j + 1] == y;
        }
      }
      OrderedCons(sp, t[0], u);
    }
  }

  /** The sorted list is ordered by the comparator. */
  lemma {:induction false} SortOrdered(sp: SortSpec, s: seq<Record>)
    requires ConsistentComparator(sp.localeCompare)
    ensures Ordered(sp, Sort(sp, s))
  {
    if s != [] {
      SortOrdered(sp, s[1..]);
      InsertOrdered(sp, s[0], Sort(sp, s[1..]));
    }
  }

  /** The sorted list is a permutation of its input, non-decreasing on the
      sort column under `localeCompare` when ascending and non-increasing
      when descending. */
  lemma SortedByColumn(sp: SortSpec, s: seq<Record>)
    requires ConsistentComparator(sp.localeCompare)
    ensures multiset(Sort(sp, s)) == multiset(s)
    ensures var r, cmp, f := Sort(sp, s), sp.localeCompare, sp.field;
      forall i, j :: 0 <= i < j < |r| ==>
        if sp.order == Asc then cmp(Key(r[i], f), Key(r[j], f)) <= 0
        else cmp(Key(r[i], f), Key(r[j], f)) >= 0
  {
    SortOrdered(sp, s);
  }

  /** A record that must follow `t0` cannot tie with anything `t0` ties with. */
  lemma NotBothTied(sp: SortSpec, y: Record, t0: Record, x: Record)
    requires ConsistentComparator(sp.localeCompare)
    requires !Precedes(sp, y, t0)
    ensures !(Tie(sp, y, x) && Tie(sp, t0, x))
  {
  }

  lemma TiedWithCons(sp: SortSpec, h: Record, u: seq<Record>, x: Record)
    ensures TiedWith(sp, [h] + u, x) == (if Tie(sp, h, x) then [h] else []) + TiedWith(sp, u, x)
  {
  }

  /** Inserting `y` puts it in front of the records it ties with. */
  lemma {:induction false} InsertTiedWith(sp: SortSpec, y: Record, t: seq<Record>, x: Record)
    requires ConsistentComparator(sp.localeCompare)
    ensures TiedWith(sp, Insert(sp, y, t), x) == (if Tie(sp, y, x) then [y] else []) + TiedWith(sp, t, x)
  {
    if t == [] {
    } else if Precedes(sp, y, t[0]) {
      TiedWithCons(sp, y, t, x);
    } else {
      var u := t[1..];
      var head, mine := if Tie(sp, t[0], x) then [t[0]] else [], if Tie(sp, y, x) then [y] else [];
      InsertTiedWith(sp, y, u, x);
      assert t == [t[0]] + u;
      TiedWithCons(sp, t[0], u, x);
      TiedWithCons(sp, t[0], Insert(sp, y, u), x);
      NotBothTied(sp, y, t[0], x);
      assert head == [] || mine == [];
      assert head + (mine + TiedWith(sp, u, x)) == mine + (head + TiedWith(sp, u, x));
    }
  }

  /** Stability: records that tie on the sort column keep the relative order
      they had in the filtered list. */
  lemma {:induction false} SortStable(sp: SortSpec, s: seq<Record>, x: Record)
    requires ConsistentComparator(sp.localeCompare)
    ensures TiedWith(sp, Sort(sp, s), x) == TiedWith(sp, s, x)
  {
    if s != [] {
      SortStable(sp, s[1..], x);
      InsertTiedWith(sp, s[0], Sort(sp, s[1..]), x);
    }
  }

  lemma {:induction false} TiedWithMembers(sp: SortSpec, s: seq<Record>, x: Record, y: Record)
    ensures y in TiedWith(sp, s, x) <==> y in s && Tie(sp, y, x)
  {
    if s != [] {
      TiedWithMembers(sp, s[1..], x, y);
      assert y in s <==> y == s[0] || y in s[1..];
    }
  }

  /** Two ordered lists in which every class of tied records appears in the
      same order are equal. */
  lemma {:induction false} OrderedStableUnique(sp: SortSpec, r1: seq<Record>, r2: seq<Record>)
    requires ConsistentComparator(sp.localeCompare)
    requires Ordered(sp, r1) && Ordered(sp, r2)
    requires forall x :: TiedWith(sp, r1, x) == TiedWith(sp, r2, x)
    ensures r1 == r2
  {
    var cmp, f := sp.localeCompare, sp.field;
    if r1 == [] || r2 == [] {
      var r, other := if r1 == [] then r2 else r1, if r1 == [] then r1 else r2;
      if r != [] {
        TiesAreEquivalence(cmp, Key(r[0], f), Key(r[0], f), Key(r[0], f));
        TiedWithMembers(sp, r, r[0], r[0]);
        TiedWithMembers(sp, other, r[0], r[0]);
        assert false;
      }
    } else {
      var a, b := r1[0], r2[0];
      TiesAreEquivalence(cmp, Key(a, f), Key(b, f), Key(a, f));
      TiesAreEquivalence(cmp, Key(b, f), Key(a, f), Key(b, f));
      assert Precedes(sp, a, b) by {
        TiedWithMembers(sp, r2, b, b);
        assert TiedWith(sp, r1, b) == TiedWith(sp, r2, b);
        TiedWithMembers(sp, r1, b, b);
        var j :| 0 <= j < |r1| && r1[j] == b;
      }
      assert Precedes(sp, b, a) by {
        TiedWithMembers(sp, r1, a, a);
        assert TiedWith(sp, r1, a) == TiedWith(sp, r2, a);
        TiedWithMembers(sp, r2, a, a);
        var j :| 0 <= j < |r2| && r2[j] == a;
      }
      CompareLaws(sp, a, b, a);
      assert TiedWith(sp, r1, a) == [a] + TiedWith(sp, r1[1..], a);
      assert TiedWith(sp, r2, a) == [b] + TiedWith(sp, r2[1..], a);
      assert TiedWith(sp, r1, a) == TiedWith(sp, r2, a);
      assert a == TiedWith(sp, r1, a)[0] == TiedWith(sp, r2, a)[0] == b;
      forall x ensures TiedWith(sp, r1[1..], x) == TiedWith(sp, r2[1..], x) {
        assert TiedWith(sp, r1, x) == TiedWith(sp, r2, x);
        var head := if Tie(sp, a, x) then [a] else [];
        assert TiedWith(sp, r1, x) == head + TiedWith(sp, r1[1..], x);
        assert TiedWith(sp, r2, x) == head + TiedWith(sp, r2[1..], x);
        assert TiedWith(sp, r1[1..], x) == TiedWith(sp, r1, x)[|head|..];
        assert TiedWith(sp, r2[1..], x) == TiedWith(sp, r2, x)[|head|..];
      }
      OrderedTail(sp, r1);
      OrderedTail(sp, r2);
      OrderedStableUnique(sp, r1[1..], r2[1..]);
      assert r1 == [a] + r1[1..] && r2 == [b] + r2[1..];
    }
  }

  lemma OrderedTail(sp: SortSpec, s: seq<Record>)
    requires s != [] && Ordered(sp, s)
    ensures Ordered(sp, s[1..])
  {
  }

  /** `Sort` is the only ordered rearrangement of its input that keeps tied
      records in their original order: every stable sort with this
      comparator returns exactly `Sort(sp, s)`. */
  lemma SortIsUnique(sp: SortSpec, s: seq<Record>, r: seq<Record>)
    requires ConsistentComparator(sp.localeCompare)
    requires Ordered(sp, r)
    requires forall x :: TiedWith(sp, r, x) == TiedWith(sp, s, x)
    ensures r == Sort(sp, s)
  {
    SortOrdered(sp, s);
    forall x ensures TiedWith(sp, r, x) == TiedWith(sp, Sort(sp, s), x) {
      SortStable(sp, s, x);
    }
    OrderedStableUnique(sp, r, Sort(sp, s));
  }
}
