/**
 * Sort keys and the sort itself. Python compares the key tuples built by
 * the two `sort_key` closures lexicographically; a key here is the tuple
 * as a sequence of parts, and `SortByKey` is `sorted(..., key=...)`.
 */
module Ranking {
  import opened Wrappers

  /** Lexicographic order built from an order on elements; a proper prefix
      comes first, as with Python tuples and strings. */
  predicate LexLess<T(==)>(a: seq<T>, b: seq<T>, less: (T, T) -> bool)
    decreases |a|
  {
    if a == [] then b != []
    else if b == [] then false
    else less(a[0], b[0]) || (a[0] == b[0] && LexLess(a[1..], b[1..], less))
  }

  ghost predicate StrictTotalOrder<T(!new)>(less: (T, T) -> bool) {
    && (forall x :: !less(x, x))
    && (forall x, y, z :: less(x, y) && less(y, z) ==> less(x, z))
    && (forall x, y :: x == y || less(x, y) || less(y, x))
  }

  lemma {:induction false} LexIrreflexive<T(!new)>(a: seq<T>, less: (T, T) -> bool)
    requires StrictTotalOrder(less)
    ensures !LexLess(a, a, less)
  {
    if a != [] {
      LexIrreflexive(a[1..], less);
    }
  }

  lemma {:induction false} LexTransitive<T(!new)>(a: seq<T>, b: seq<T>, c: seq<T>, less: (T, T) -> bool)
    requires StrictTotalOrder(less)
    requires LexLess(a, b, less) && LexLess(b, c, less)
    ensures LexLess(a, c, less)
  {
    if a != [] && b != [] && c != [] {
      if a[0] == b[0] && b[0] == c[0] {
        LexTransitive(a[1..], b[1..], c[1..], less);
      }
    }
  }

  lemma {:induction false} LexTrichotomous<T(!new)>(a: seq<T>, b: seq<T>, less: (T, T) -> bool)
    requires StrictTotalOrder(less)
    ensures a == b || LexLess(a, b, less) || LexLess(b, a, less)
  {
    if a != [] && b != [] && a[0] == b[0] {
      LexTrichotomous(a[1..], b[1..], less);
      if a[1..] == b[1..] {
        assert a == [a[0]] + a[1..] && b == [b[0]] + b[1..];
      }
    }
  }

  predicate CharLess(x: char, y: char) { x < y }

  /** Python's `<` on `str`: code point by code point. */
  predicate StrLess(a: string, b: string) {
    LexLess(a, b, CharLess)
  }

  /** The `output` key part may be absent; Python raises when it compares
      `None` with a `str`, and this order puts the absent value first. */
  predicate OutputLess(a: Option<string>, b: Option<string>) {
    match (a, b)
    case (None, Some(_)) => true
    case (Some(x), Some(y)) => StrLess(x, y)
    case _ => false
  }

  /** One component of a key tuple: a number, or an optional output name. */
  datatype KeyPart = Num(n: int) | Text(t: Option<string>)

  type Key = seq<KeyPart>

  /** Parts at the same position always have the same kind in the keys the
      sessions build; numbers are put first only to make the order total. */
  predicate PartLess(a: KeyPart, b: KeyPart) {
    match (a, b)
    case (Num(x), Num(y)) => x < y
    case (Text(x), Text(y)) => OutputLess(x, y)
    case (Num(_), Text(_)) => true
    case (Text(_), Num(_)) => false
  }

  /** Python's `<` on the key tuples. */
  predicate KeyLess(a: Key, b: Key) {
    LexLess(a, b, PartLess)
  }

  lemma StrLessStrictTotalOrder()
    ensures StrictTotalOrder(StrLess)
  {
    assert StrictTotalOrder(CharLess);
    forall a: string ensures !StrLess(a, a) {
      LexIrreflexive(a, CharLess);
    }
    forall a: string, b: string, c: string | StrLess(a, b) && StrLess(b, c) ensures StrLess(a, c) {
      LexTransitive(a, b, c, CharLess);
    }
    forall a: string, b: string ensures a == b || StrLess(a, b) || StrLess(b, a) {
      LexTrichotomous(a, b, CharLess);
    }
  }

  lemma PartLessStrictTotalOrder()
    ensures StrictTotalOrder(PartLess)
  {
    StrLessStrictTotalOrder();
  }

  /** Python's tuple comparison on the keys is a strict total order. */
  lemma KeyLessStrictTotalOrder()
    ensures StrictTotalOrder(KeyLess)
  {
    PartLessStrictTotalOrder();
    forall a: Key ensures !KeyLess(a, a) {
      LexIrreflexive(a, PartLess);
    }
    forall a: Key, b: Key, c: Key | KeyLess(a, b) && KeyLess(b, c) ensures KeyLess(a, c) {
      LexTransitive(a, b, c, PartLess);
    }
    forall a: Key, b: Key ensures a == b || KeyLess(a, b) || KeyLess(b, a) {
      LexTrichotomous(a, b, PartLess);
    }
  }

  /** `b` does not sort before `a`. */
  predicate KeyLe(a: Key, b: Key) {
    !KeyLess(b, a)
  }

  lemma KeyLeTransitive(a: Key, b: Key, c: Key)
    requires KeyLe(a, b) && KeyLe(b, c)
    ensures KeyLe(a, c)
  {
    KeyLessStrictTotalOrder();
  }

  lemma KeyLeAntisymmetric(a: Key, b: Key)
    requires KeyLe(a, b) && KeyLe(b, a)
    ensures a == b
  {
    KeyLessStrictTotalOrder();
  }

  /** Comparing keys decides on the first part where they differ. */
  lemma KeyLeHead(a: Key, b: Key)
    requires |a| > 0 && |b| > 0 && KeyLe(a, b)
    ensures a[0] == b[0] || PartLess(a[0], b[0])
    ensures a[0] == b[0] ==> KeyLe(a[1..], b[1..])
  {
    PartLessStrictTotalOrder();
  }

  /** Keys that start with numbers compare on those numbers first. */
  lemma KeyLeNum(x: int, y: int, a: Key, b: Key)
    requires KeyLe([Num(x)] + a, [Num(y)] + b)
    ensures x <= y
    ensures x == y ==> KeyLe(a, b)
  {
    KeyLeHead([Num(x)] + a, [Num(y)] + b);
    assert ([Num(x)] + a)[1..] == a && ([Num(y)] + b)[1..] == b;
  }

  /** Keys that start with an output name compare on that name first. */
  lemma KeyLeText(x: Option<string>, y: Option<string>, a: Key, b: Key)
    requires KeyLe([Text(x)] + a, [Text(y)] + b)
    ensures x == y || OutputLess(x, y)
    ensures x == y ==> KeyLe(a, b)
  {
    KeyLeHead([Text(x)] + a, [Text(y)] + b);
    assert ([Text(x)] + a)[1..] == a && ([Text(y)] + b)[1..] == b;
  }

  /** Keys shaped `(number, number, number, name, number, number)` compare
      part by part: each part decides only when all before it are equal. */
  lemma KeyLeSix(a0: int, a1: int, a2: int, a3: Option<string>, a4: int, a5: int,
                 b0: int, b1: int, b2: int, b3: Option<string>, b4: int, b5: int)
    requires KeyLe([Num(a0), Num(a1), Num(a2), Text(a3), Num(a4), Num(a5)],
                   [Num(b0), Num(b1), Num(b2), Text(b3), Num(b4), Num(b5)])
    ensures a0 <= b0
    ensures a0 == b0 ==> a1 <= b1
    ensures a0 == b0 && a1 == b1 ==> a2 <= b2
    ensures a0 == b0 && a1 == b1 && a2 == b2 ==> a3 == b3 || OutputLess(a3, b3)
    ensures a0 == b0 && a1 == b1 && a2 == b2 && a3 == b3 ==> a4 <= b4
    ensures a0 == b0 && a1 == b1 && a2 == b2 && a3 == b3 && a4 == b4 ==> a5 <= b5
  {
    var x5, y5 := [Num(a5)], [Num(b5)];
    var x4, y4 := [Num(a4)] + x5, [Num(b4)] + y5;
    var x3, y3 := [Text(a3)] + x4, [Text(b3)] + y4;
    var x2, y2 := [Num(a2)] + x3, [Num(b2)] + y3;
    var x1, y1 := [Num(a1)] + x2, [Num(b1)] + y2;
    assert [Num(a0), Num(a1), Num(a2), Text(a3), Num(a4), Num(a5)] == [Num(a0)] + x1;
    assert [Num(b0), Num(b1), Num(b2), Text(b3), Num(b4), Num(b5)] == [Num(b0)] + y1;
    KeyLeNum(a0, b0, x1, y1);
    if a0 == b0 {
      KeyLeNum(a1, b1, x2, y2);
      if a1 == b1 {
        KeyLeNum(a2, b2, x3, y3);
        if a2 == b2 {
          KeyLeText(a3, b3, x4, y4);
          if a3 == b3 {
            KeyLeNum(a4, b4, x5, y5);
            if a4 == b4 {
              assert x5 == [Num(a5)] + [] && y5 == [Num(b5)] + [];
              KeyLeNum(a5, b5, [], []);
            }
          }
        }
      }
    }
  }

  /** Keys shaped `(number, number, name, number)` compare part by part. */
  lemma KeyLeFour(a0: int, a1: int, a2: Option<string>, a3: int, b0: int, b1: int, b2: Option<string>, b3: int)
    requires KeyLe([Num(a0), Num(a1), Text(a2), Num(a3)], [Num(b0), Num(b1), Text(b2), Num(b3)])
    ensures a0 <= b0
    ensures a0 == b0 ==> a1 <= b1
    ensures a0 == b0 && a1 == b1 ==> a2 == b2 || OutputLess(a2, b2)
    ensures a0 == b0 && a1 == b1 && a2 == b2 ==> a3 <= b3
  {
    var x3, y3 := [Num(a3)], [Num(b3)];
    var x2, y2 := [Text(a2)] + x3, [Text(b2)] + y3;
    var x1, y1 := [Num(a1)] + x2, [Num(b1)] + y2;
    assert [Num(a0), Num(a1), Text(a2), Num(a3)] == [Num(a0)] + x1;
    assert [Num(b0), Num(b1), Text(b2), Num(b3)] == [Num(b0)] + y1;
    KeyLeNum(a0, b0, x1, y1);
    if a0 == b0 {
      KeyLeNum(a1, b1, x2, y2);
      if a1 == b1 {
        KeyLeText(a2, b2, x3, y3);
        if a2 == b2 {
          assert x3 == [Num(a3)] + [] && y3 == [Num(b3)] + [];
          KeyLeNum(a3, b3, [], []);
        }
      }
    }
  }

  /** The first part decides unless the parts are equal, in which case the rest does. */
  lemma KeyLeCons(p: KeyPart, q: KeyPart, a: Key, b: Key)
    ensures KeyLe([p] + a, [q] + b) <==> PartLess(p, q) || (p == q && KeyLe(a, b))
  {
    PartLessStrictTotalOrder();
    assert ([p] + a)[1..] == a && ([q] + b)[1..] == b;
  }

  /** The converse of `KeyLeSix`: keys whose parts compare that way are in order. */
  lemma KeyLeOfSix(a0: int, a1: int, a2: int, a3: Option<string>, a4: int, a5: int,
                   b0: int, b1: int, b2: int, b3: Option<string>, b4: int, b5: int)
    requires a0 <= b0
    requires a0 == b0 ==> a1 <= b1
    requires a0 == b0 && a1 == b1 ==> a2 <= b2
    requires a0 == b0 && a1 == b1 && a2 == b2 ==> a3 == b3 || OutputLess(a3, b3)
    requires a0 == b0 && a1 == b1 && a2 == b2 && a3 == b3 ==> a4 <= b4
    requires a0 == b0 && a1 == b1 && a2 == b2 && a3 == b3 && a4 == b4 ==> a5 <= b5
    ensures KeyLe([Num(a0), Num(a1), Num(a2), Text(a3), Num(a4), Num(a5)],
                  [Num(b0), Num(b1), Num(b2), Text(b3), Num(b4), Num(b5)])
  {
    var x5, y5 := [Num(a5)] + [], [Num(b5)] + [];
    var x4, y4 := [Num(a4)] + x5, [Num(b4)] + y5;
    var x3, y3 := [Text(a3)] + x4, [Text(b3)] + y4;
    var x2, y2 := [Num(a2)] + x3, [Num(b2)] + y3;
    var x1, y1 := [Num(a1)] + x2, [Num(b1)] + y2;
    assert [Num(a0), Num(a1), Num(a2), Text(a3), Num(a4), Num(a5)] == [Num(a0)] + x1;
    assert [Num(b0), Num(b1), Num(b2), Text(b3), Num(b4), Num(b5)] == [Num(b0)] + y1;
    KeyLeCons(Num(a5), Num(b5), [], []);
    KeyLeCons(Num(a4), Num(b4), x5, y5);
    KeyLeCons(Text(a3), Text(b3), x4, y4);
    KeyLeCons(Num(a2), Num(b2), x3, y3);
    KeyLeCons(Num(a1), Num(b1), x2, y2);
    KeyLeCons(Num(a0), Num(b0), x1, y1);
  }

  /** The converse of `KeyLeFour`. */
  lemma KeyLeOfFour(a0: int, a1: int, a2: Option<string>, a3: int, b0: int, b1: int, b2: Option<string>, b3: int)
    requires a0 <= b0
    requires a0 == b0 ==> a1 <= b1
    requires a0 == b0 && a1 == b1 ==> a2 == b2 || OutputLess(a2, b2)
    requires a0 == b0 && a1 == b1 && a2 == b2 ==> a3 <= b3
    ensures KeyLe([Num(a0), Num(a1), Text(a2), Num(a3)], [Num(b0), Num(b1), Text(b2), Num(b3)])
  {
    var x3, y3 := [Num(a3)] + [], [Num(b3)] + [];
    var x2, y2 := [Text(a2)] + x3, [Text(b2)] + y3;
    var x1, y1 := [Num(a1)] + x2, [Num(b1)] + y2;
    assert [Num(a0), Num(a1), Text(a2), Num(a3)] == [Num(a0)] + x1;
    assert [Num(b0), Num(b1), Text(b2), Num(b3)] == [Num(b0)] + y1;
    KeyLeCons(Num(a3), Num(b3), [], []);
    KeyLeCons(Text(a2), Text(b2), x3, y3);
    KeyLeCons(Num(a1), Num(b1), x2, y2);
    KeyLeCons(Num(a0), Num(b0), x1, y1);
  }

  /** A record paired with its sort key (`sort_key(record)`). */
  datatype Ranked<T> = Ranked(item: T, key: Key)

  ghost predicate SortedByKey<T>(s: seq<Ranked<T>>) {
    forall i, j :: 0 <= i < j < |s| ==> KeyLe(s[i].key, s[j].key)
  }

  /** Inserts `e` before the first entry whose key is not smaller. */
  function Insert<T(==)>(e: Ranked<T>, s: seq<Ranked<T>>): (r: seq<Ranked<T>>)
    ensures multiset(r) == multiset(s) + multiset{e}
  {
    if s == [] || !KeyLess(s[0].key, e.key) then [e] + s
    else
      assert s == [s[0]] + s[1..];
      [s[0]] + Insert(e, s[1..])
  }

  /** A strictly smaller key is in particular not larger. */
  lemma KeyLeOfLess(a: Key, b: Key)
    requires KeyLess(a, b)
    ensures KeyLe(a, b)
  {
    KeyLessStrictTotalOrder();
  }

  /** Putting a lower bound of a sorted sequence in front keeps it sorted. */
  lemma SortedCons<T>(x: Ranked<T>, s: seq<Ranked<T>>)
    requires SortedByKey(s)
    requires forall j :: 0 <= j < |s| ==> KeyLe(x.key, s[j].key)
    ensures SortedByKey([x] + s)
  {
    forall i, j | 0 <= i < j < |s| + 1 ensures KeyLe(([x] + s)[i].key, ([x] + s)[j].key) {
      if i > 0 {
        assert ([x] + s)[i] == s[i - 1];
      }
      assert ([x] + s)[j] == s[j - 1];
    }
  }

  /** Inserting into a sorted sequence keeps it sorted. */
  lemma {:induction false} InsertSorted<T>(e: Ranked<T>, s: seq<Ranked<T>>)
    requires SortedByKey(s)
    ensures SortedByKey(Insert(e, s))
  {
    if s == [] || !KeyLess(s[0].key, e.key) {
      forall j | 0 <= j < |s| ensures KeyLe(e.key, s[j].key) {
        if j > 0 { KeyLeTransitive(e.key, s[0].key, s[j].key); }
      }
      SortedCons(e, s);
    } else {
      var rest := Insert(e, s[1..]);
      SortedTail(s);
      InsertSorted(e, s[1..]);
      forall j | 0 <= j < |rest| ensures KeyLe(s[0].key, rest[j].key) {
        assert rest[j] in multiset(rest);
        if rest[j] != e {
          assert rest[j] in multiset(s[1..]);
          var k :| 0 <= k < |s[1..]| && s[1..][k] == rest[j];
          assert s[k + 1] == rest[j];
        } else {
          KeyLeOfLess(s[0].key, e.key);
        }
      }
      SortedCons(s[0], rest);
    }
  }

  /** `sorted(s, key=...)`: a stable insertion sort on the keys. */
  function SortByKey<T(==)>(s: seq<Ranked<T>>): (r: seq<Ranked<T>>)
    ensures multiset(r) == multiset(s)
    ensures SortedByKey(r)
  {
    if s == [] then []
    else
      assert s == [s[0]] + s[1..];
      InsertSorted(s[0], SortByKey(s[1..]));
      Insert(s[0], SortByKey(s[1..]))
  }

  /** The records of ranked entries, in order. */
  function Items<T>(s: seq<Ranked<T>>): (r: seq<T>)
    ensures |r| == |s| && forall i :: 0 <= i < |s| ==> r[i] == s[i].item
  {
    seq(|s|, i requires 0 <= i < |s| => s[i].item)
  }

  lemma SortedTail<T>(s: seq<Ranked<T>>)
    requires SortedByKey(s) && s != []
    ensures SortedByKey(s[1..])
  {
    forall i, j | 0 <= i < j < |s| - 1 ensures KeyLe(s[1..][i].key, s[1..][j].key) {
      assert s[1..][i] == s[i + 1] && s[1..][j] == s[j + 1];
    }
  }

  lemma MultisetWithout<T>(s: seq<T>, k: nat)
    requires k < |s|
    ensures multiset(s[..k] + s[k + 1..]) == multiset(s) - multiset{s[k]}
  {
    assert s == s[..k] + [s[k]] + s[k + 1..];
  }

  lemma ItemsAppend<T>(a: seq<Ranked<T>>, b: seq<Ranked<T>>)
    ensures Items(a + b) == Items(a) + Items(b)
  {
  }

  /** Rearranging the entries rearranges their records the same way. */
  lemma {:induction false} ItemsPermutation<T>(a: seq<Ranked<T>>, b: seq<Ranked<T>>)
    requires multiset(a) == multiset(b)
    ensures multiset(Items(a)) == multiset(Items(b))
  {
    if a != [] {
      assert a[0] in multiset(b);
      var k :| 0 <= k < |b| && b[k] == a[0];
      var rest := b[..k] + b[k + 1..];
      assert b == b[..k] + [b[k]] + b[k + 1..];
      assert a == [a[0]] + a[1..];
      MultisetWithout(b, k);
      MultisetWithout(a, 0);
      assert a[..0] + a[1..] == a[1..];
      ItemsPermutation(a[1..], rest);
      ItemsAppend(b[..k] + [b[k]], b[k + 1..]);
      ItemsAppend(b[..k], [b[k]]);
      ItemsAppend(b[..k], b[k + 1..]);
      ItemsAppend([a[0]], a[1..]);
    }
  }

  /** In a list that pairs each record of `s` with its key `key(record)`, an
      entry occurs as often as its record when it carries that record's
      key, and never otherwise. */
  lemma {:induction false} KeyedCount<T>(r: seq<Ranked<T>>, s: seq<T>, key: T --> Key, e: Ranked<T>)
    requires |r| == |s|
    requires forall x :: x in s ==> key.requires(x)
    requires forall i :: 0 <= i < |r| ==> r[i].item == s[i] && r[i].key == key(s[i])
    ensures multiset(r)[e] == if e.item in s && e.key == key(e.item) then multiset(s)[e.item] else 0
  {
    if s != [] {
      KeyedCount(r[1..], s[1..], key, e);
      assert r == [r[0]] + r[1..] && s == [s[0]] + s[1..];
      assert multiset(r) == multiset{r[0]} + multiset(r[1..]);
      assert multiset(s) == multiset{s[0]} + multiset(s[1..]);
      if e.item !in s[1..] {
        assert multiset(s[1..])[e.item] == 0;
      }
    }
  }

  lemma SortedHeadsEqual<T>(a: seq<Ranked<T>>, b: seq<Ranked<T>>)
    requires SortedByKey(a) && SortedByKey(b) && multiset(a) == multiset(b)
    requires KeysIdentify(a)
    requires a != [] && b != []
    ensures a[0] == b[0]
  {
    assert a[0] in multiset(b) && b[0] in multiset(a);
    var k :| 0 <= k < |b| && b[k] == a[0];
    var m :| 0 <= m < |a| && a[m] == b[0];
    assert KeyLe(b[0].key, a[0].key) by {
      if k > 0 { assert KeyLe(b[0].key, b[k].key); } else { KeyLessStrictTotalOrder(); }
    }
    assert KeyLe(a[0].key, b[0].key) by {
      if m > 0 { assert KeyLe(a[0].key, a[m].key); } else { KeyLessStrictTotalOrder(); }
    }
    KeyLeAntisymmetric(a[0].key, b[0].key);
    assert b[0] in a;
  }

  /** Entries with equal keys are equal. */
  ghost predicate KeysIdentify<T>(a: seq<Ranked<T>>) {
    forall x, y :: x in a && y in a && x.key == y.key ==> x == y
  }

  lemma KeysIdentifyTail<T>(a: seq<Ranked<T>>)
    requires KeysIdentify(a) && a != []
    ensures KeysIdentify(a[1..])
  {
    assert forall x :: x in a[1..] ==> x in a;
  }

  /** Dropping the same head from two arrangements of the same entries. */
  lemma MultisetTails<T>(a: seq<T>, b: seq<T>)
    requires multiset(a) == multiset(b) && a != [] && b != [] && a[0] == b[0]
    ensures multiset(a[1..]) == multiset(b[1..])
  {
    assert a == [a[0]] + a[1..] && b == [b[0]] + b[1..];
    assert multiset(a) == multiset{a[0]} + multiset(a[1..]);
    assert multiset(b) == multiset{b[0]} + multiset(b[1..]);
    assert multiset(a[1..]) == multiset(a) - multiset{a[0]};
    assert multiset(b[1..]) == multiset(b) - multiset{b[0]};
  }

  /** Two sorted arrangements of the same entries are equal when entries
      with equal keys are equal: the key then fixes the order completely. */
  lemma {:induction false} SortedUnique<T>(a: seq<Ranked<T>>, b: seq<Ranked<T>>)
    requires SortedByKey(a) && SortedByKey(b) && multiset(a) == multiset(b)
    requires KeysIdentify(a)
    ensures a == b
  {
    if a == [] {
      assert |b| == |multiset(b)| == 0;
    } else {
      assert |b| == |multiset(b)| == |a| > 0;
      SortedHeadsEqual(a, b);
      MultisetTails(a, b);
      SortedTail(a);
      SortedTail(b);
      KeysIdentifyTail(a);
      SortedUnique(a[1..], b[1..]);
      assert a == [a[0]] + a[1..] && b == [b[0]] + b[1..];
    }
  }
}
