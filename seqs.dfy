/** First and last matches and subsequences: the shapes of Python's
    `next(...)` over a generator and of a dict built by comprehension. */
module Seqs {
  import opened Wrappers

  /** `next((x for x in s if p(x)), None)`. */
  function First<T>(s: seq<T>, p: T -> bool): (r: Option<T>)
    ensures r.None? <==> forall i :: 0 <= i < |s| ==> !p(s[i])
    ensures r.Some? ==> exists i :: 0 <= i < |s| && s[i] == r.value && p(s[i])
                                    && forall j :: 0 <= j < i ==> !p(s[j])
  {
    if s == [] then None
    else if p(s[0]) then Some(s[0])
    else
      First(s[1..], p)
  }

  /** The value a dict comprehension `{key(x): x for x in s}` keeps for a key:
      later entries overwrite earlier ones, so the last match wins. */
  function Last<T>(s: seq<T>, p: T -> bool): (r: Option<T>)
    ensures r.None? <==> forall i :: 0 <= i < |s| ==> !p(s[i])
    ensures r.Some? ==> exists i :: 0 <= i < |s| && s[i] == r.value && p(s[i])
                                    && forall j :: i < j < |s| ==> !p(s[j])
  {
    if s == [] then None
    else if p(s[|s| - 1]) then Some(s[|s| - 1])
    else
      Last(s[..|s| - 1], p)
  }

  /** `[x for x in s if p(x)]`. */
  function Keep<T>(s: seq<T>, p: T -> bool): (r: seq<T>)
    ensures IsSubsequence(r, s)
    ensures forall i :: 0 <= i < |r| ==> r[i] in s && p(r[i])
    ensures forall i :: 0 <= i < |s| && p(s[i]) ==> s[i] in r
  {
    if s == [] then []
    else
      var rest := Keep(s[1..], p);
      assert forall i :: 1 <= i < |s| && p(s[i]) ==> s[1..][i - 1] in rest;
      if p(s[0]) then [s[0]] + rest else rest
  }

  /** Each element is kept as often as it occurs in `s` when it passes, and
      never otherwise. */
  lemma {:induction false} KeepCounts<T>(s: seq<T>, p: T -> bool, x: T)
    ensures multiset(Keep(s, p))[x] == if p(x) then multiset(s)[x] else 0
  {
    if s != [] {
      KeepCounts(s[1..], p, x);
      assert s == [s[0]] + s[1..];
      assert multiset(s) == multiset{s[0]} + multiset(s[1..]);
      if p(s[0]) {
        assert multiset(Keep(s, p)) == multiset{s[0]} + multiset(Keep(s[1..], p));
      }
    }
  }

  /** `r` is `s` with some elements dropped and the rest kept in order. */
  ghost predicate IsSubsequence<T>(r: seq<T>, s: seq<T>)
    decreases |s|
  {
    if r == [] then true
    else if s == [] then false
    else (r[0] == s[0] && IsSubsequence(r[1..], s[1..])) || IsSubsequence(r, s[1..])
  }

  /** `len(set(s)) > 1`. */
  predicate HasDistinct<T(==)>(s: seq<T>) {
    |set x | x in s| > 1
  }

  /** A sequence has more than one distinct value iff two of its positions differ. */
  lemma HasDistinctIff<T>(s: seq<T>)
    ensures HasDistinct(s) <==> exists i, j :: 0 <= i < |s| && 0 <= j < |s| && s[i] != s[j]
  {
    var vals := set x | x in s;
    if |vals| > 1 {
      var a :| a in vals;
      assert |vals - {a}| == |vals| - 1;
      var b :| b in vals - {a};
      var i :| 0 <= i < |s| && s[i] == a;
      var j :| 0 <= j < |s| && s[j] == b;
    }
    if exists i, j :: 0 <= i < |s| && 0 <= j < |s| && s[i] != s[j] {
      var i, j :| 0 <= i < |s| && 0 <= j < |s| && s[i] != s[j];
      assert s[i] in vals;
      assert |vals - {s[i]}| == |vals| - 1;
      assert s[j] in vals - {s[i]};
    }
  }
}
