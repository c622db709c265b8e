/** Column sorting: the sort-state toggle, the comparator handed to
    `Array.prototype.sort`, and a stable sort with that comparator. */
module Sorting {
  import opened Wrappers
  import opened Clients

  datatype Order = Asc | Desc

  /** `currentSortColumn` and `currentSortOrder`. */
  datatype SortState = SortState(column: string, order: Order)

  const INITIAL_SORT := SortState("", Asc)

  function Flip(o: Order): Order {
    if o == Asc then Desc else Asc
  }

  /** Clicking a header: the same column flips the order, another column starts ascending. */
  function Toggle(st: SortState, column: string): (r: SortState)
    ensures r.column == column
    ensures r.order == (if st.column == column then Flip(st.order) else Asc)
  {
    if st.column == column then SortState(column, Flip(st.order)) else SortState(column, Asc)
  }

  /** Clicking the same header twice restores the order; a new column needs two clicks for descending. */
  lemma ToggleTwice(st: SortState, column: string)
    ensures Toggle(Toggle(st, column), column).order ==
            (if st.column == column then st.order else Desc)
    ensures Toggle(Toggle(st, column), column).column == column
  {
  }

  /** The comparator: negative when `a` goes first, positive when `b` does, zero on a tie. */
  function Compare(a: Client, b: Client, field: Option<Field>, order: Order): int {
    var ka, kb := KeyOf(a, field), KeyOf(b, field);
    if Less(ka, kb) then (if order == Asc then -1 else 1)
    else if Less(kb, ka) then (if order == Asc then 1 else -1)
    else 0
  }

  /** The comparator is consistent: swapping its arguments negates it, and it is zero
      exactly when both records carry the same key. */
  lemma CompareConsistent(a: Client, b: Client, field: Option<Field>, order: Order)
    ensures Compare(a, b, field, order) == -Compare(b, a, field, order)
    ensures Compare(a, b, field, order) == 0 <==> KeyOf(a, field) == KeyOf(b, field)
  {
    var ka, kb := KeyOf(a, field), KeyOf(b, field);
    LessTotal(a, b, field);
    LessIrreflexive(ka);
    if Less(ka, kb) && Less(kb, ka) {
      LessTransitive(ka, kb, ka);
    }
  }

  /** `a` must be placed before `b`. */
  predicate Before(a: Client, b: Client, field: Option<Field>, order: Order) {
    Compare(a, b, field, order) < 0
  }

  lemma BeforeIrreflexive(a: Client, field: Option<Field>, order: Order)
    ensures !Before(a, a, field, order)
  {
    LessIrreflexive(KeyOf(a, field));
  }

  lemma BeforeAsymmetric(a: Client, b: Client, field: Option<Field>, order: Order)
    requires Before(a, b, field, order)
    ensures !Before(b, a, field, order)
  {
    CompareConsistent(a, b, field, order);
  }

  /** "Not after" is transitive: the comparator is a strict weak order. */
  lemma NotBeforeTransitive(a: Client, b: Client, c: Client, field: Option<Field>, order: Order)
    requires !Before(a, b, field, order) && !Before(b, c, field, order)
    ensures !Before(a, c, field, order)
  {
    var ka, kb, kc := KeyOf(a, field), KeyOf(b, field), KeyOf(c, field);
    CompareConsistent(a, b, field, order);
    CompareConsistent(b, c, field, order);
    CompareConsistent(a, c, field, order);
    if Before(a, c, field, order) {
      if order == Asc {
        LessTotal(a, b, field);
        if Less(kb, ka) {
          LessTransitive(kb, ka, kc);
        }
      } else {
        LessTotal(b, c, field);
        if Less(kb, kc) {
          LessTransitive(kc, ka, kb);
        }
      }
    }
  }

  /** No record is placed before one that precedes it. */
  predicate Sorted(s: seq<Client>, field: Option<Field>, order: Order) {
    forall i, j :: 0 <= i < j < |s| ==> !Before(s[j], s[i], field, order)
  }

  /** Inserts `x` before the first record not placed before it, so `x` stays ahead of
      the records with its key. */
  function Insert(x: Client, s: seq<Client>, field: Option<Field>, order: Order): (r: seq<Client>)
    ensures multiset(r) == multiset(s) + multiset{x}
    decreases |s|
  {
    if |s| == 0 || !Before(s[0], x, field, order) then [x] + s
    else
      assert s == [s[0]] + s[1..];
      [s[0]] + Insert(x, s[1..], field, order)
  }

  /** `[...allClients].sort(comparator)`, as a stable insertion sort. */
  function SortBy(s: seq<Client>, field: Option<Field>, order: Order): (r: seq<Client>)
    ensures multiset(r) == multiset(s)
    decreases |s|
  {
    if |s| == 0 then []
    else
      assert s == [s[0]] + s[1..];
      Insert(s[0], SortBy(s[1..], field, order), field, order)
  }

  lemma {:induction false} InsertSorted(x: Client, s: seq<Client>, field: Option<Field>, order: Order)
    requires Sorted(s, field, order)
    ensures Sorted(Insert(x, s, field, order), field, order)
    decreases |s|
  {
    var r := Insert(x, s, field, order);
    if |s| == 0 {
    } else if !Before(s[0], x, field, order) {
      forall j | 1 <= j < |r| ensures !Before(r[j], x, field, order) {
        if j > 1 {
          NotBeforeTransitive(r[j], s[0], x, field, order);
        }
      }
    } else {
      InsertSorted(x, s[1..], field, order);
      var t := Insert(x, s[1..], field, order);
      assert r == [s[0]] + t;
      forall j | 0 <= j < |t| ensures !Before(t[j], s[0], field, order) {
        assert t[j] in multiset(t);
        if t[j] == x {
          BeforeAsymmetric(s[0], x, field, order);
        } else {
          assert t[j] in s[1..];
        }
      }
    }
  }

  /** Sorting produces a sorted permutation. */
  lemma {:induction false} SortBySorted(s: seq<Client>, field: Option<Field>, order: Order)
    ensures Sorted(SortBy(s, field, order), field, order)
    decreases |s|
  {
    if |s| > 0 {
      SortBySorted(s[1..], field, order);
      InsertSorted(s[0], SortBy(s[1..], field, order), field, order);
    }
  }

  /** The records of `s` that carry key `k` in `field`, in their order. */
  function WithKey(s: seq<Client>, field: Option<Field>, k: Value): seq<Client>
    decreases |s|
  {
    if |s| == 0 then []
    else (if KeyOf(s[0], field) == k then [s[0]] else []) + WithKey(s[1..], field, k)
  }

  lemma WithKeyCons(c: Client, s: seq<Client>, field: Option<Field>, k: Value)
    ensures WithKey([c] + s, field, k) == (if KeyOf(c, field) == k then [c] else []) + WithKey(s, field, k)
  {
    assert ([c] + s)[1..] == s;
  }

  /** Records with equal keys are never placed before one another. */
  lemma BeforeKeysDiffer(a: Client, b: Client, field: Option<Field>, order: Order)
    requires Before(a, b, field, order)
    ensures KeyOf(a, field) != KeyOf(b, field)
  {
    CompareConsistent(a, b, field, order);
  }

  /** The key-`k` records after inserting `x`: `x` first if it has key `k`, then those of `s`. */
  function WithKeyAfterInsert(x: Client, s: seq<Client>, field: Option<Field>, k: Value): seq<Client> {
    (if KeyOf(x, field) == k then [x] else []) + WithKey(s, field, k)
  }

  /** A record with another key than `x` may pass ahead of `x` without disturbing the
      order of the records of any one key. */
  lemma WithKeyPass(a: Client, x: Client, t: seq<Client>, rest: seq<Client>, field: Option<Field>, k: Value)
    requires KeyOf(a, field) != KeyOf(x, field)
    requires WithKey(t, field, k) == WithKeyAfterInsert(x, rest, field, k)
    ensures WithKey([a] + t, field, k) == WithKeyAfterInsert(x, [a] + rest, field, k)
  {
    WithKeyCons(a, t, field, k);
    WithKeyCons(a, rest, field, k);
    var w := WithKey(rest, field, k);
    if KeyOf(x, field) == k {
      assert WithKey([a] + t, field, k) == [] + ([x] + w);
      assert WithKey([a] + rest, field, k) == [] + w;
    } else if KeyOf(a, field) == k {
      assert WithKey([a] + t, field, k) == [a] + ([] + w);
      assert WithKey([a] + rest, field, k) == [a] + w;
    } else {
      assert WithKey([a] + t, field, k) == [] + ([] + w);
      assert WithKey([a] + rest, field, k) == [] + w;
    }
  }

  lemma {:induction false} InsertWithKey(x: Client, s: seq<Client>, field: Option<Field>, order: Order, k: Value)
    ensures WithKey(Insert(x, s, field, order), field, k) == WithKeyAfterInsert(x, s, field, k)
    decreases |s|
  {
    if |s| == 0 || !Before(s[0], x, field, order) {
      assert Insert(x, s, field, order) == [x] + s;
      WithKeyCons(x, s, field, k);
    } else {
      InsertWithKey(x, s[1..], field, order, k);
      BeforeKeysDiffer(s[0], x, field, order);
      WithKeyPass(s[0], x, Insert(x, s[1..], field, order), s[1..], field, k);
      assert [s[0]] + s[1..] == s;
    }
  }

  /** Stability: for every key, the records with that key come out in the order they
      went in. */
  lemma {:induction false} SortByStable(s: seq<Client>, field: Option<Field>, order: Order, k: Value)
    ensures WithKey(SortBy(s, field, order), field, k) == WithKey(s, field, k)
    decreases |s|
  {
    if |s| > 0 {
      SortByStable(s[1..], field, order, k);
      InsertWithKey(s[0], SortBy(s[1..], field, order), field, order, k);
    }
  }

  lemma {:induction false} WithKeyCount(s: seq<Client>, field: Option<Field>, k: Value, c: Client)
    ensures multiset(WithKey(s, field, k))[c] == if KeyOf(c, field) == k then multiset(s)[c] else 0
    decreases |s|
  {
    if |s| > 0 {
      WithKeyCount(s[1..], field, k, c);
      assert s == [s[0]] + s[1..];
    }
  }

  /** A sorted sequence is fixed by what it holds of each key: two sorted sequences that
      agree key by key are equal. */
  lemma {:induction false} SortedUnique(t1: seq<Client>, t2: seq<Client>, field: Option<Field>, order: Order)
    requires Sorted(t1, field, order) && Sorted(t2, field, order)
    requires forall k :: WithKey(t1, field, k) == WithKey(t2, field, k)
    ensures t1 == t2
    decreases |t1|
  {
    forall c ensures multiset(t1)[c] == multiset(t2)[c] {
      var k := KeyOf(c, field);
      WithKeyCount(t1, field, k, c);
      WithKeyCount(t2, field, k, c);
    }
    assert multiset(t1) == multiset(t2);
    assert |t1| == |multiset(t1)| == |multiset(t2)| == |t2|;
    if |t1| > 0 {
      var a, b := t1[0], t2[0];
      if a != b {
        assert a in multiset(t2) && b in multiset(t1);
        var j :| 0 <= j < |t2| && t2[j] == a;
        var i :| 0 <= i < |t1| && t1[i] == b;
        assert !Before(a, b, field, order) && !Before(b, a, field, order);
        CompareConsistent(a, b, field, order);
      }
      var k := KeyOf(a, field);
      assert WithKey(t1, field, k)[0] == a && WithKey(t2, field, k)[0] == b;
      assert a == b;
      forall k' ensures WithKey(t1[1..], field, k') == WithKey(t2[1..], field, k') {
        var head := if KeyOf(a, field) == k' then [a] else [];
        assert WithKey(t1, field, k') == head + WithKey(t1[1..], field, k');
        assert WithKey(t2, field, k') == head + WithKey(t2[1..], field, k');
        assert WithKey(t1[1..], field, k') == WithKey(t1, field, k')[|head|..];
        assert WithKey(t2[1..], field, k') == WithKey(t2, field, k')[|head|..];
      }
      SortedUnique(t1[1..], t2[1..], field, order);
      assert t1 == [a] + t1[1..] && t2 == [b] + t2[1..];
    }
  }

  /** SortBy is the only stable sort: any sorted sequence that keeps each key's records
      in the input's order is SortBy's result. */
  lemma SortByCharacterized(s: seq<Client>, t: seq<Client>, field: Option<Field>, order: Order)
    requires Sorted(t, field, order)
    requires forall k :: WithKey(t, field, k) == WithKey(s, field, k)
    ensures t == SortBy(s, field, order)
  {
    SortBySorted(s, field, order);
    forall k ensures WithKey(t, field, k) == WithKey(SortBy(s, field, order), field, k) {
      SortByStable(s, field, order, k);
    }
    SortedUnique(t, SortBy(s, field, order), field, order);
  }

  function Reverse(s: seq<Client>): (r: seq<Client>)
    ensures |r| == |s|
    ensures forall i :: 0 <= i < |s| ==> r[i] == s[|s| - 1 - i]
    decreases |s|
  {
    if |s| == 0 then [] else Reverse(s[1..]) + [s[0]]
  }

  lemma {:induction false} WithKeyReverse(s: seq<Client>, field: Option<Field>, k: Value)
    ensures WithKey(Reverse(s), field, k) == Reverse(WithKey(s, field, k))
    decreases |s|
  {
    if |s| > 0 {
      WithKeyReverse(s[1..], field, k);
      WithKeyAppend(Reverse(s[1..]), [s[0]], field, k);
      var w := WithKey(s[1..], field, k);
      if KeyOf(s[0], field) == k {
        assert Reverse([s[0]] + w) == Reverse(w) + [s[0]] by {
          assert ([s[0]] + w)[1..] == w;
        }
      } else {
        assert [] + w == w;
      }
    }
  }

  lemma {:induction false} WithKeyAppend(a: seq<Client>, b: seq<Client>, field: Option<Field>, k: Value)
    ensures WithKey(a + b, field, k) == WithKey(a, field, k) + WithKey(b, field, k)
    decreases |a|
  {
    if |a| == 0 {
      assert a + b == b;
    } else {
      assert (a + b)[1..] == a[1..] + b;
      WithKeyAppend(a[1..], b, field, k);
    }
  }

  /** Descending order puts before exactly what ascending order puts after. */
  lemma BeforeDesc(a: Client, b: Client, field: Option<Field>)
    ensures Before(a, b, field, Desc) == Before(b, a, field, Asc)
  {
    CompareConsistent(a, b, field, Asc);
  }

  predicate DistinctKeys(s: seq<Client>, field: Option<Field>) {
    forall i, j :: 0 <= i < j < |s| ==> KeyOf(s[i], field) != KeyOf(s[j], field)
  }

  lemma {:induction false} WithKeyDistinct(s: seq<Client>, field: Option<Field>, k: Value)
    requires DistinctKeys(s, field)
    ensures |WithKey(s, field, k)| <= 1
    decreases |s|
  {
    if |s| > 0 {
      WithKeyDistinct(s[1..], field, k);
      if KeyOf(s[0], field) == k {
        forall c | c in s[1..] ensures KeyOf(c, field) != k {
          var j :| 0 <= j < |s[1..]| && s[1..][j] == c;
          assert s[j + 1] == c;
        }
        WithKeyNone(s[1..], field, k);
      }
    }
  }

  lemma {:induction false} WithKeyNone(s: seq<Client>, field: Option<Field>, k: Value)
    requires forall c :: c in s ==> KeyOf(c, field) != k
    ensures WithKey(s, field, k) == []
    decreases |s|
  {
    if |s| > 0 {
      WithKeyNone(s[1..], field, k);
    }
  }

  /** When no two records share the field's value, sorting descending gives the exact
      reverse of sorting the same records ascending. */
  lemma DescIsReversedAsc(s: seq<Client>, field: Option<Field>)
    requires DistinctKeys(s, field)
    ensures SortBy(s, field, Desc) == Reverse(SortBy(s, field, Asc))
  {
    var up := SortBy(s, field, Asc);
    var down := Reverse(up);
    SortBySorted(s, field, Asc);
    forall i, j | 0 <= i < j < |down| ensures !Before(down[j], down[i], field, Desc) {
      BeforeDesc(down[j], down[i], field);
    }
    forall k ensures WithKey(down, field, k) == WithKey(s, field, k) {
      WithKeyReverse(up, field, k);
      SortByStable(s, field, Asc, k);
      WithKeyDistinct(s, field, k);
    }
    SortByCharacterized(s, down, field, Desc);
  }

  /** A sequence with at most one record per key has distinct keys. */
  lemma {:induction false} DistinctFromWithKey(s: seq<Client>, field: Option<Field>)
    requires forall k :: |WithKey(s, field, k)| <= 1
    ensures DistinctKeys(s, field)
    decreases |s|
  {
    if |s| > 0 {
      var k := KeyOf(s[0], field);
      forall k' ensures |WithKey(s[1..], field, k')| <= 1 {
        assert |WithKey(s, field, k')| <= 1;
      }
      DistinctFromWithKey(s[1..], field);
      assert WithKey(s[1..], field, k) == [] by {
        assert |WithKey(s, field, k)| <= 1;
      }
      forall j | 1 <= j < |s| ensures KeyOf(s[j], field) != k {
        WithKeyCount(s[1..], field, k, s[j]);
        assert s[j] in s[1..] by {
          assert s[1..][j - 1] == s[j];
        }
      }
      forall i, j | 0 <= i < j < |s| ensures KeyOf(s[i], field) != KeyOf(s[j], field) {
        if i > 0 {
          assert s[1..][i - 1] == s[i] && s[1..][j - 1] == s[j];
        }
      }
    }
  }

  /** The second click on a column sorts the list the first click left ascending; when no
      two records share the field's value, that gives the exact reverse of the first result. */
  lemma SecondClickReverses(s: seq<Client>, field: Option<Field>)
    requires DistinctKeys(s, field)
    ensures SortBy(SortBy(s, field, Asc), field, Desc) == Reverse(SortBy(s, field, Asc))
  {
    var up := SortBy(s, field, Asc);
    forall k ensures |WithKey(up, field, k)| <= 1 {
      SortByStable(s, field, Asc, k);
      WithKeyDistinct(s, field, k);
    }
    DistinctFromWithKey(up, field);
    DescIsReversedAsc(up, field);
    SortBySorted(s, field, Asc);
    SortByCharacterized(up, up, field, Asc);
  }
}
