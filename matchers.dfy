/**
 * Match rules over records (`DictKeyMatcher`, `DictKeyAnyMatcher`) and the
 * conjunctive filter `filter_by_dict`.
 */
module Matchers {
  import opened Values
  import opened Seqs

  /** `Equals(k, v)`: the field `k` reads as `v`; `OneOf(k, vs)`: it reads as one of `vs`. */
  datatype Matcher = Equals(key: string, value: Value) | OneOf(key: string, values: seq<Value>)

  /** `matches(item)`: a missing field reads as `Null`, so `Equals(k, Null)`
      accepts exactly the records where `k` is absent or null. */
  predicate Matches(m: Matcher, r: Record) {
    match m
    case Equals(k, v) => PyEq(Get(r, k), v)
    case OneOf(k, vs) => exists i :: 0 <= i < |vs| && PyEq(Get(r, k), vs[i])
  }

  /** `_filter_item_matches`: every rule accepts the record. */
  predicate AllMatch(filters: seq<Matcher>, r: Record) {
    forall i :: 0 <= i < |filters| ==> Matches(filters[i], r)
  }

  /** `filter_by_dict`: the items whose record every rule accepts, in input order. */
  function FilterBy<T(==,!new)>(items: seq<T>, view: T -> Record, filters: seq<Matcher>): (r: seq<T>)
    ensures IsSubsequence(r, items)
    ensures forall x :: x in r <==> x in items && AllMatch(filters, view(x))
    ensures |r| <= |items|
  {
    if items == [] then []
    else
      var rest := FilterBy(items[1..], view, filters);
      assert items == [items[0]] + items[1..];
      if AllMatch(filters, view(items[0])) then [items[0]] + rest else rest
  }

  /** A one-rule list accepts what its rule accepts. */
  lemma AllMatchSingle(m: Matcher, r: Record)
    ensures AllMatch([m], r) <==> Matches(m, r)
  {
    assert [m][0] == m;
  }

  /** A rule list made of two parts accepts a record iff both parts do. */
  lemma AllMatchAppend(f: seq<Matcher>, g: seq<Matcher>, r: Record)
    ensures AllMatch(f + g, r) <==> AllMatch(f, r) && AllMatch(g, r)
  {
    if AllMatch(f + g, r) {
      forall i | 0 <= i < |f| ensures Matches(f[i], r) {
        assert (f + g)[i] == f[i];
      }
      forall i | 0 <= i < |g| ensures Matches(g[i], r) {
        assert (f + g)[|f| + i] == g[i];
      }
    }
    if AllMatch(f, r) && AllMatch(g, r) {
      forall i | 0 <= i < |f + g| ensures Matches((f + g)[i], r) {
        if i >= |f| { assert (f + g)[i] == g[i - |f|]; }
      }
    }
  }

  /** Each record is kept as often as it occurs in the input when the rules
      accept it, and not at all otherwise. */
  lemma {:induction false} FilterByCounts<T(!new)>(items: seq<T>, view: T -> Record, filters: seq<Matcher>, x: T)
    ensures multiset(FilterBy(items, view, filters))[x] == if AllMatch(filters, view(x)) then multiset(items)[x] else 0
  {
    if items != [] {
      var y := items[0];
      var rest := FilterBy(items[1..], view, filters);
      FilterByCounts(items[1..], view, filters, x);
      assert items == [y] + items[1..];
      assert multiset(items) == multiset{y} + multiset(items[1..]);
      if AllMatch(filters, view(y)) {
        assert multiset(FilterBy(items, view, filters)) == multiset{y} + multiset(rest);
      } else {
        assert FilterBy(items, view, filters) == rest;
      }
    }
  }

  /** With no rules every record passes: the filter is the identity. */
  lemma {:induction false} FilterByNoRules<T(!new)>(items: seq<T>, view: T -> Record)
    ensures FilterBy(items, view, []) == items
  {
    if items != [] {
      FilterByNoRules(items[1..], view);
    }
  }

  /** Filtering runs item by item, so it distributes over concatenation:
      the kept items of a prefix all come before those of the suffix. */
  lemma {:induction false} FilterByAppend<T(!new)>(a: seq<T>, b: seq<T>, view: T -> Record, filters: seq<Matcher>)
    ensures FilterBy(a + b, view, filters) == FilterBy(a, view, filters) + FilterBy(b, view, filters)
  {
    if a != [] {
      var x := a[0];
      assert (a + b)[0] == x && (a + b)[1..] == a[1..] + b;
      FilterByAppend(a[1..], b, view, filters);
      var fa := FilterBy(a[1..], view, filters);
      var fb := FilterBy(b, view, filters);
      assert FilterBy(a[1..] + b, view, filters) == fa + fb;
      if AllMatch(filters, view(x)) {
        assert FilterBy(a, view, filters) == [x] + fa;
        assert FilterBy(a + b, view, filters) == [x] + (fa + fb);
        assert [x] + (fa + fb) == ([x] + fa) + fb;
      } else {
        assert FilterBy(a, view, filters) == fa;
        assert FilterBy(a + b, view, filters) == fa + fb;
      }
    } else {
      assert a + b == b;
    }
  }

  /** Appending rules is filtering again: `filter(s, f + g) == filter(filter(s, f), g)`,
      which is how the rules collected one after another act together. */
  lemma {:induction false} FilterByRulesAppend<T(!new)>(items: seq<T>, view: T -> Record, f: seq<Matcher>, g: seq<Matcher>)
    ensures FilterBy(items, view, f + g) == FilterBy(FilterBy(items, view, f), view, g)
  {
    if items != [] {
      FilterByRulesAppend(items[1..], view, f, g);
      AllMatchAppend(f, g, view(items[0]));
    }
  }

  /** The order of the rules does not change which records pass. */
  lemma FilterByRulesCommute<T(!new)>(items: seq<T>, view: T -> Record, f: seq<Matcher>, g: seq<Matcher>)
    ensures FilterBy(items, view, f + g) == FilterBy(items, view, g + f)
  {
    FilterByRulesAppend(items, view, f, g);
    FilterByRulesAppend(items, view, g, f);
    FilterTwice(items, view, f, g);
  }

  /** Two filters applied one after the other commute. */
  lemma {:induction false} FilterTwice<T(!new)>(items: seq<T>, view: T -> Record, f: seq<Matcher>, g: seq<Matcher>)
    ensures FilterBy(FilterBy(items, view, f), view, g) == FilterBy(FilterBy(items, view, g), view, f)
  {
    if items != [] {
      FilterTwice(items[1..], view, f, g);
      var x := items[0];
      var ff := FilterBy(items[1..], view, f);
      var gg := FilterBy(items[1..], view, g);
      if AllMatch(f, view(x)) {
        assert FilterBy(items, view, f) == [x] + ff;
        assert ([x] + ff)[1..] == ff;
      }
      if AllMatch(g, view(x)) {
        assert FilterBy(items, view, g) == [x] + gg;
        assert ([x] + gg)[1..] == gg;
      }
    }
  }
}
