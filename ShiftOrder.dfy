/** The in-place sort of `check_consecutive_days` (EmployeeAnalyzer.py:57-62):
    rows ordered by the key `(employee name, time-in)`, compared as Python
    compares tuples of a string and a datetime, by a stable sort.

    Like CPython's `list.sort(key=...)`, the sort first computes every row's
    key (`Decorate`, where a short row or a bad time-in field aborts) and then
    sorts the key/row pairs together; the rows come back out with `Rows`.

    `SortByKey` is the specification: insertion of each row, left to right,
    after every row whose key is not greater. It is sorted, a permutation, and
    stable (the rows that share a key keep their order), and it is the only
    sequence with those three properties, so it is what Python's stable sort
    produces. `SortInPlace` sorts an array and is proved to produce it. */
module ShiftOrder {
  import opened Timestamps
  import opened Timecards

  // ---------------------------------------------------------------------------
  // Python's order on str: by code point, a proper prefix first

  predicate Precedes(a: string, b: string)
    decreases |a|
  {
    if |a| == 0 then |b| > 0
    else if |b| == 0 then false
    else if a[0] != b[0] then a[0] < b[0]
    else Precedes(a[1..], b[1..])
  }

  lemma {:induction false} PrecedesIrreflexive(a: string)
    ensures !Precedes(a, a)
    decreases |a|
  {
    if |a| > 0 {
      PrecedesIrreflexive(a[1..]);
    }
  }

  lemma {:induction false} PrecedesTransitive(a: string, b: string, c: string)
    requires Precedes(a, b) && Precedes(b, c)
    ensures Precedes(a, c)
    decreases |a|
  {
    if |a| > 0 && a[0] == b[0] && b[0] == c[0] {
      PrecedesTransitive(a[1..], b[1..], c[1..]);
    }
  }

  /** Of two different strings, one precedes the other. */
  lemma {:induction false} PrecedesTotal(a: string, b: string)
    ensures a == b || Precedes(a, b) || Precedes(b, a)
    decreases |a|
  {
    if |a| > 0 && |b| > 0 && a[0] == b[0] {
      PrecedesTotal(a[1..], b[1..]);
      if a[1..] == b[1..] {
        assert a == [a[0]] + a[1..] && b == [b[0]] + b[1..];
      }
    }
  }

  lemma {:induction false} PrecedesAsymmetric(a: string, b: string)
    requires Precedes(a, b)
    ensures !Precedes(b, a)
  {
    if Precedes(b, a) {
      PrecedesTransitive(a, b, a);
      PrecedesIrreflexive(a);
    }
  }

  // ---------------------------------------------------------------------------
  // The sort key

  /** `(x[EMPLOYEE_NAME_INDEX], strptime(x[TIME_INDEX], ...))`, the time as its
      integer value (which orders timestamps as datetime does, `ToSecondsOrder`). */
  datatype SortKey = SortKey(name: string, start: int)

  /** Tuple comparison: by name, then by start. */
  predicate KeyBefore(a: SortKey, b: SortKey) {
    Precedes(a.name, b.name) || (a.name == b.name && a.start < b.start)
  }

  /** The key order is a strict total order. */
  lemma {:induction false} KeyOrder(a: SortKey, b: SortKey, c: SortKey)
    ensures !KeyBefore(a, a)
    ensures KeyBefore(a, b) && KeyBefore(b, c) ==> KeyBefore(a, c)
    ensures a == b || KeyBefore(a, b) || KeyBefore(b, a)
    ensures KeyBefore(a, b) ==> !KeyBefore(b, a)
  {
    PrecedesIrreflexive(a.name);
    if Precedes(a.name, b.name) && Precedes(b.name, c.name) {
      PrecedesTransitive(a.name, b.name, c.name);
    }
    PrecedesTotal(a.name, b.name);
    if Precedes(a.name, b.name) {
      PrecedesAsymmetric(a.name, b.name);
    }
  }

  function KeyOf(row: Row, cols: Columns): SortKey
    requires HasKey(row, cols)
  {
    SortKey(Name(row, cols), TimeIn(row, cols).value)
  }

  /** A row together with its precomputed key. */
  datatype Keyed = Keyed(key: SortKey, row: Row)

  /** The keys `list.sort` computes before it sorts. */
  function Decorate(s: seq<Row>, cols: Columns): (r: seq<Keyed>)
    requires AllKeyed(s, cols)
    ensures |r| == |s|
    ensures forall i :: 0 <= i < |s| ==> r[i] == Keyed(KeyOf(s[i], cols), s[i])
  {
    seq(|s|, i requires 0 <= i < |s| => Keyed(KeyOf(s[i], cols), s[i]))
  }

  function Rows(s: seq<Keyed>): (r: seq<Row>)
    ensures |r| == |s| && forall i :: 0 <= i < |s| ==> r[i] == s[i].row
  {
    seq(|s|, i requires 0 <= i < |s| => s[i].row)
  }

  /** No row is followed by a row with a smaller key. */
  predicate Sorted(s: seq<Keyed>) {
    forall i :: 0 < i < |s| ==> !KeyBefore(s[i].key, s[i - 1].key)
  }

  /** The rows of `s` whose key is `k`, in their order in `s`. */
  function WithKey(s: seq<Keyed>, k: SortKey): seq<Keyed> {
    if |s| == 0 then []
    else WithKey(s[..|s| - 1], k) + (if s[|s| - 1].key == k then [s[|s| - 1]] else [])
  }

  // ---------------------------------------------------------------------------
  // The stable insertion sort, as a function

  /** `x` placed after the last pair of `t` whose key is not greater than its own. */
  function Insert(t: seq<Keyed>, x: Keyed): (r: seq<Keyed>)
    ensures |r| == |t| + 1
    ensures multiset(r) == multiset(t) + multiset{x}
  {
    if |t| == 0 || !KeyBefore(x.key, t[|t| - 1].key) then t + [x]
    else
      assert t == t[..|t| - 1] + [t[|t| - 1]];
      Insert(t[..|t| - 1], x) + [t[|t| - 1]]
  }

  function SortByKey(s: seq<Keyed>): (r: seq<Keyed>)
    ensures |r| == |s|
    ensures multiset(r) == multiset(s)
  {
    if |s| == 0 then []
    else
      assert s == s[..|s| - 1] + [s[|s| - 1]];
      Insert(SortByKey(s[..|s| - 1]), s[|s| - 1])
  }

  // ---------------------------------------------------------------------------
  // Sorted

  lemma {:induction false} InsertSorted(t: seq<Keyed>, x: Keyed)
    requires Sorted(t)
    ensures Sorted(Insert(t, x))
    ensures var r := Insert(t, x);
      |r| == |t| + 1 && (r[|r| - 1] == x || (|t| > 0 && r[|r| - 1] == t[|t| - 1]))
    decreases |t|
  {
    if |t| > 0 && KeyBefore(x.key, t[|t| - 1].key) {
      var front := t[..|t| - 1];
      InsertSorted(front, x);
      KeyOrder(x.key, t[|t| - 1].key, t[|t| - 1].key);
    }
  }

  /** The result is sorted by key. */
  lemma {:induction false} SortByKeySorted(s: seq<Keyed>)
    ensures Sorted(SortByKey(s))
    decreases |s|
  {
    if |s| > 0 {
      SortByKeySorted(s[..|s| - 1]);
      InsertSorted(SortByKey(s[..|s| - 1]), s[|s| - 1]);
    }
  }

  // ---------------------------------------------------------------------------
  // Stable

  lemma {:induction false} WithKeyAppend(s: seq<Keyed>, x: Keyed, k: SortKey)
    ensures WithKey(s + [x], k) == WithKey(s, k) + (if x.key == k then [x] else [])
  {
    assert (s + [x])[..|s|] == s;
  }

  lemma {:induction false} InsertWithKey(t: seq<Keyed>, x: Keyed, k: SortKey)
    ensures WithKey(Insert(t, x), k) == WithKey(t, k) + (if x.key == k then [x] else [])
    decreases |t|
  {
    if |t| == 0 || !KeyBefore(x.key, t[|t| - 1].key) {
      WithKeyAppend(t, x, k);
    } else {
      var front, last := t[..|t| - 1], t[|t| - 1];
      assert t == front + [last];
      InsertWithKey(front, x, k);
      WithKeyAppend(Insert(front, x), last, k);
      WithKeyAppend(front, last, k);
      KeyOrder(x.key, last.key, last.key);
    }
  }

  /** Pairs with equal keys keep their relative order. */
  lemma {:induction false} SortByKeyStable(s: seq<Keyed>, k: SortKey)
    ensures WithKey(SortByKey(s), k) == WithKey(s, k)
    decreases |s|
  {
    if |s| > 0 {
      var front, last := s[..|s| - 1], s[|s| - 1];
      SortByKeyStable(front, k);
      InsertWithKey(SortByKey(front), last, k);
    }
  }

  // ---------------------------------------------------------------------------
  // The only stable sort

  lemma {:induction false} WithKeyMember(s: seq<Keyed>, k: SortKey)
    requires WithKey(s, k) != []
    ensures exists i :: 0 <= i < |s| && s[i].key == k
    decreases |s|
  {
    if s[|s| - 1].key != k {
      WithKeyMember(s[..|s| - 1], k);
      var i :| 0 <= i < |s| - 1 && s[..|s| - 1][i].key == k;
      assert s[i] == s[..|s| - 1][i];
    }
  }

  /** In a sorted sequence no key exceeds the last one. */
  lemma {:induction false} SortedLastIsGreatest(s: seq<Keyed>, i: nat)
    requires Sorted(s) && i < |s|
    ensures !KeyBefore(s[|s| - 1].key, s[i].key)
    decreases |s| - i
  {
    if i < |s| - 1 {
      SortedLastIsGreatest(s, i + 1);
      KeyOrder(s[|s| - 1].key, s[i].key, s[i + 1].key);
      KeyOrder(s[i + 1].key, s[i].key, s[|s| - 1].key);
      KeyOrder(s[|s| - 1].key, s[i + 1].key, s[i].key);
    } else {
      KeyOrder(s[i].key, s[i].key, s[i].key);
    }
  }

  lemma {:induction false} LastKeyPresent(s: seq<Keyed>)
    ensures |s| > 0 ==> WithKey(s, s[|s| - 1].key) != []
  {
  }

  /** Two sorted sequences that hold, for every key, the same pairs with that
      key in the same order are equal. */
  lemma {:induction false} StableSortUnique(t1: seq<Keyed>, t2: seq<Keyed>)
    requires Sorted(t1) && Sorted(t2)
    requires forall k :: WithKey(t1, k) == WithKey(t2, k)
    ensures t1 == t2
    decreases |t1| + |t2|
  {
    if |t1| == 0 || |t2| == 0 {
      LastKeyPresent(t1);
      LastKeyPresent(t2);
    } else {
      var front1, front2, x := t1[..|t1| - 1], t2[..|t2| - 1], t1[|t1| - 1];
      SameLast(t1, t2);
      assert t1 == front1 + [x] && t2 == front2 + [x];
      SameFronts(front1, front2, x);
      StableSortUnique(front1, front2);
    }
  }

  /** Under the hypotheses of `StableSortUnique`, the last pairs agree: the
      last key of each list is a key of the other, so neither exceeds the
      other, and the last pair with that key is the last pair. */
  lemma {:induction false} SameLast(t1: seq<Keyed>, t2: seq<Keyed>)
    requires |t1| > 0 && |t2| > 0 && Sorted(t1) && Sorted(t2)
    requires forall k :: WithKey(t1, k) == WithKey(t2, k)
    ensures t1[|t1| - 1] == t2[|t2| - 1]
  {
    var front1, x1 := t1[..|t1| - 1], t1[|t1| - 1];
    var front2, x2 := t2[..|t2| - 1], t2[|t2| - 1];
    var k1, k2 := x1.key, x2.key;
    assert WithKey(t2, k1) == WithKey(t1, k1) != [];
    WithKeyMember(t2, k1);
    var i2 :| 0 <= i2 < |t2| && t2[i2].key == k1;
    SortedLastIsGreatest(t2, i2);
    assert WithKey(t1, k2) == WithKey(t2, k2) != [];
    WithKeyMember(t1, k2);
    var i1 :| 0 <= i1 < |t1| && t1[i1].key == k2;
    SortedLastIsGreatest(t1, i1);
    KeyOrder(k1, k2, k1);
    assert k1 == k2;
    var w := WithKey(t1, k1);
    assert w == WithKey(front1, k1) + [x1];
    assert w == WithKey(front2, k1) + [x2];
    assert x1 == w[|w| - 1] == x2;
  }

  /** Dropping the same last pair from both lists keeps the hypothesis of
      `StableSortUnique`. */
  lemma {:induction false} SameFronts(front1: seq<Keyed>, front2: seq<Keyed>, x: Keyed)
    requires forall k :: WithKey(front1 + [x], k) == WithKey(front2 + [x], k)
    ensures forall k :: WithKey(front1, k) == WithKey(front2, k)
  {
    forall k
      ensures WithKey(front1, k) == WithKey(front2, k)
    {
      var w1, w2 := WithKey(front1 + [x], k), WithKey(front2 + [x], k);
      assert w1 == w2;
      if k == x.key {
        assert WithKey(front1, k) == w1[..|w1| - 1];
        assert WithKey(front2, k) == w2[..|w2| - 1];
      } else {
        assert WithKey(front1, k) == w1;
      }
    }
  }

  /** `SortByKey` is what any stable sort by the key yields: a sorted sequence
      that keeps, for every key, the input's pairs with that key in their input
      order is `SortByKey` of the input. */
  lemma {:induction false} SortByKeyIsTheStableSort(s: seq<Keyed>, t: seq<Keyed>)
    requires Sorted(t)
    requires forall k :: WithKey(t, k) == WithKey(s, k)
    ensures t == SortByKey(s)
  {
    SortByKeySorted(s);
    forall k
      ensures WithKey(t, k) == WithKey(SortByKey(s), k)
    {
      SortByKeyStable(s, k);
    }
    StableSortUnique(t, SortByKey(s));
  }

  // ---------------------------------------------------------------------------
  // The rows, sorted

  lemma {:induction false} RowsConcat(x: seq<Keyed>, y: seq<Keyed>)
    ensures Rows(x + y) == Rows(x) + Rows(y)
  {
  }

  /** Adding one element to both sides of a permutation, at any place. */
  lemma {:induction false} MoveLast<T>(f: seq<T>, x: T, p: seq<T>, q: seq<T>)
    requires multiset(f) == multiset(p + q)
    ensures multiset(f + [x]) == multiset(p + [x] + q)
  {
  }

  /** The last element of a permutation sits somewhere in the other list, and
      the rest of the two lists are again a permutation. */
  lemma {:induction false} PickLast<T>(x: seq<T>, y: seq<T>) returns (j: nat)
    requires |x| > 0 && multiset(x) == multiset(y)
    ensures j < |y| && y[j] == x[|x| - 1]
    ensures y == y[..j] + [y[j]] + y[j + 1..]
    ensures multiset(x[..|x| - 1]) == multiset(y[..j] + y[j + 1..])
  {
    var e := x[|x| - 1];
    assert x == x[..|x| - 1] + [e];
    assert e in multiset(y);
    j :| 0 <= j < |y| && y[j] == e;
    assert y == y[..j] + [e] + y[j + 1..];
    assert multiset(y[..j] + y[j + 1..]) == multiset(y) - multiset{e};
  }

  /** Dropping the keys of a list split around one pair. */
  lemma {:induction false} RowsAround(p: seq<Keyed>, e: Keyed, q: seq<Keyed>)
    ensures Rows(p + [e] + q) == Rows(p) + [e.row] + Rows(q)
  {
    assert Rows([e]) == [e.row];
    RowsConcat(p + [e], q);
    RowsConcat(p, [e]);
  }

  lemma {:induction false} RowsPermutation(x: seq<Keyed>, y: seq<Keyed>)
    requires multiset(x) == multiset(y)
    ensures multiset(Rows(x)) == multiset(Rows(y))
    decreases |x|
  {
    if |x| > 0 {
      var j := PickLast(x, y);
      var front, e, p, q := x[..|x| - 1], x[|x| - 1], y[..j], y[j + 1..];
      RowsPermutation(front, p + q);
      RowsConcat(p, q);
      assert Rows(x) == Rows(front) + [e.row];
      RowsAround(p, e, q);
      MoveLast(Rows(front), e.row, Rows(p), Rows(q));
    } else {
      assert |y| == |multiset(y)| == 0;
    }
  }

  /** The caller's list after `employees.sort(key=...)`. */
  function SortRows(s: seq<Row>, cols: Columns): (r: seq<Row>)
    requires AllKeyed(s, cols)
    ensures multiset(r) == multiset(s)
    ensures AllKeyed(r, cols)
    ensures forall i :: 0 < i < |r| ==> !KeyBefore(KeyOf(r[i], cols), KeyOf(r[i - 1], cols))
  {
    var d := Decorate(s, cols);
    var sorted := SortByKey(d);
    assert Rows(d) == s;
    RowsPermutation(sorted, d);
    SortByKeySorted(d);
    forall i | 0 <= i < |sorted|
      ensures HasKey(sorted[i].row, cols) && sorted[i].key == KeyOf(sorted[i].row, cols)
    {
      assert sorted[i] in multiset(d);
    }
    Rows(sorted)
  }

  /** Dropping the keys `list.sort` computed gives back the caller's rows. */
  lemma {:induction false} DecorateRows(s: seq<Row>, cols: Columns)
    requires AllKeyed(s, cols)
    ensures Rows(Decorate(s, cols)) == s
  {
    var r := Rows(Decorate(s, cols));
    assert |r| == |s|;
    forall i | 0 <= i < |s|
      ensures r[i] == s[i]
    {
    }
  }

  /** Every pair carries the key of its own row. */
  predicate KeysMatch(x: seq<Keyed>, cols: Columns) {
    forall i :: 0 <= i < |x| ==> HasKey(x[i].row, cols) && x[i].key == KeyOf(x[i].row, cols)
  }

  /** The rows of `s` whose sort key is `k`, in their order in `s`. */
  function RowsWithKey(s: seq<Row>, cols: Columns, k: SortKey): seq<Row>
    requires AllKeyed(s, cols)
  {
    if |s| == 0 then []
    else RowsWithKey(s[..|s| - 1], cols, k) + (if KeyOf(s[|s| - 1], cols) == k then [s[|s| - 1]] else [])
  }

  /** On pairs that carry their rows' keys, picking the pairs with one key and
      dropping the keys picks the rows with that key. */
  lemma {:induction false} RowsOfWithKey(x: seq<Keyed>, cols: Columns, k: SortKey)
    requires KeysMatch(x, cols)
    ensures AllKeyed(Rows(x), cols)
    ensures Rows(WithKey(x, k)) == RowsWithKey(Rows(x), cols, k)
    decreases |x|
  {
    var r := Rows(x);
    if |x| > 0 {
      var front, e := x[..|x| - 1], x[|x| - 1];
      assert KeysMatch(front, cols) by {
        forall i | 0 <= i < |front|
          ensures HasKey(front[i].row, cols) && front[i].key == KeyOf(front[i].row, cols)
        {
          assert front[i] == x[i];
        }
      }
      RowsOfWithKey(front, cols, k);
      assert r[..|r| - 1] == Rows(front);
      assert r[|r| - 1] == e.row;
      var last := if e.key == k then [e] else [];
      RowsConcat(WithKey(front, k), last);
      assert Rows(last) == if KeyOf(e.row, cols) == k then [e.row] else [];
    }
  }

  /** Stability on the caller's rows: for every key, the rows with that key
      come out of the sort in the order they went in. */
  lemma {:induction false} SortRowsStable(s: seq<Row>, cols: Columns, k: SortKey)
    requires AllKeyed(s, cols)
    ensures RowsWithKey(SortRows(s, cols), cols, k) == RowsWithKey(s, cols, k)
  {
    var d := Decorate(s, cols);
    var sorted := SortByKey(d);
    DecorateRows(s, cols);
    forall i | 0 <= i < |sorted|
      ensures HasKey(sorted[i].row, cols) && sorted[i].key == KeyOf(sorted[i].row, cols)
    {
      assert sorted[i] in multiset(d);
    }
    SortByKeyStable(d, k);
    RowsOfWithKey(sorted, cols, k);
    RowsOfWithKey(d, cols, k);
  }

  // ---------------------------------------------------------------------------
  // Sorting the caller's list in place

  /** `employees.sort(key=...)`: the rows of `a` in the order of `SortByKey`
      of their decorated keys. A row whose key cannot be computed makes
      `ok` false and leaves `a` as it was. */
  method SortInPlace(a: array<Row>, cols: Columns) returns (ok: bool)
    modifies a
    ensures ok <==> AllKeyed(old(a[..]), cols)
    ensures ok ==> a[..] == SortRows(old(a[..]), cols)
    ensures !ok ==> a[..] == old(a[..])
  {
    ok := KeysPresent(a, cols);
    if !ok {
      return;
    }
    var decorated := Decorate(a[..], cols);
    var keyed := new Keyed[a.Length](k requires 0 <= k < a.Length => decorated[k]);
    assert keyed[..] == decorated;
    InsertionSort(keyed);
    StripKeys(keyed, a);
  }

  /** The key computation `list.sort` does before it moves anything: it
      raises on the first row without a name or a parsable time-in. */
  method KeysPresent(a: array<Row>, cols: Columns) returns (ok: bool)
    ensures ok <==> AllKeyed(a[..], cols)
  {
    var i := 0;
    while i < a.Length
      invariant 0 <= i <= a.Length
      invariant AllKeyed(a[..i], cols)
    {
      if !HasKey(a[i], cols) {
        return false;
      }
      assert a[..i + 1] == a[..i] + [a[i]];
      i := i + 1;
    }
    assert a[..a.Length] == a[..];
    return true;
  }

  /** Writes the rows of the sorted pairs back into the caller's list. */
  method StripKeys(keyed: array<Keyed>, a: array<Row>)
    requires keyed.Length == a.Length
    modifies a
    ensures a[..] == Rows(keyed[..])
  {
    forall k | 0 <= k < a.Length {
      a[k] := keyed[k].row;
    }
  }

  /** The stable insertion sort of an array of key/row pairs. */
  method InsertionSort(a: array<Keyed>)
    modifies a
    ensures a[..] == SortByKey(old(a[..]))
  {
    ghost var input := a[..];
    var i := 0;
    while i < a.Length
      invariant 0 <= i <= a.Length
      invariant a[..] == SortByKey(input[..i]) + input[i..]
    {
      SortStep(input, i);
      InsertLast(a, i);
      i := i + 1;
    }
    assert input[..a.Length] == input;
  }

  /** One step of the outer loop, on sequences. */
  lemma {:induction false} SortStep(input: seq<Keyed>, i: nat)
    requires i < |input|
    ensures var t := SortByKey(input[..i]) + input[i..];
      t[..i] == SortByKey(input[..i]) && t[i] == input[i] && t[i + 1..] == input[i + 1..]
      && Insert(t[..i], t[i]) + t[i + 1..] == SortByKey(input[..i + 1]) + input[i + 1..]
  {
    assert input[..i + 1] == input[..i] + [input[i]];
  }

  lemma {:induction false} InsertShift(p: seq<Keyed>, j: nat, x: Keyed)
    requires 0 < j <= |p| && KeyBefore(x.key, p[j - 1].key)
    ensures Insert(p[..j], x) + p[j..] == Insert(p[..j - 1], x) + p[j - 1..]
  {
    assert p[..j][..j - 1] == p[..j - 1];
    assert p[j - 1..] == [p[j - 1]] + p[j..];
  }

  lemma {:induction false} InsertStop(p: seq<Keyed>, j: nat, x: Keyed)
    requires j <= |p| && (j == 0 || !KeyBefore(x.key, p[j - 1].key))
    ensures Insert(p[..j], x) == p[..j] + [x]
  {
  }

  /** Writing `e` over the hole at `|front|`. */
  lemma {:induction false} FillHole(front: seq<Keyed>, d: Keyed, e: Keyed, back: seq<Keyed>, rest: seq<Keyed>)
    ensures (front + [d] + back + rest)[|front| := e] == front + [e] + back + rest
  {
  }

  /** Copying the pair left of the hole into it moves the hole one place left. */
  lemma {:induction false} MoveHole(p: seq<Keyed>, j: nat, d: Keyed, rest: seq<Keyed>)
    requires 0 < j <= |p|
    ensures (p[..j] + [d] + p[j..] + rest)[j := p[j - 1]] == p[..j - 1] + [p[j - 1]] + p[j - 1..] + rest
  {
    FillHole(p[..j], d, p[j - 1], p[j..], rest);
    assert p[..j] == p[..j - 1] + [p[j - 1]];
    assert p[j - 1..] == [p[j - 1]] + p[j..];
  }

  /** The pair left of the hole is the prefix's pair there. */
  lemma {:induction false} LeftOfHole(p: seq<Keyed>, j: nat, d: Keyed, rest: seq<Keyed>)
    requires 0 < j <= |p|
    ensures (p[..j] + [d] + p[j..] + rest)[j - 1] == p[j - 1]
  {
  }

  /** One step of the inner loop: the hole moves left, and what is left to
      insert into shrinks by the pair that moved. */
  lemma {:induction false} ShiftStep(p: seq<Keyed>, j: nat, d: Keyed, x: Keyed, rest: seq<Keyed>)
    requires 0 < j <= |p| && KeyBefore(x.key, p[j - 1].key)
    requires Insert(p, x) == Insert(p[..j], x) + p[j..]
    ensures (p[..j] + [d] + p[j..] + rest)[j := p[j - 1]] == p[..j - 1] + [p[j - 1]] + p[j - 1..] + rest
    ensures Insert(p, x) == Insert(p[..j - 1], x) + p[j - 1..]
  {
    InsertShift(p, j, x);
    MoveHole(p, j, d, rest);
  }

  /** The end of the inner loop: `x` fills the hole and the insertion is done. */
  lemma {:induction false} ShiftDone(p: seq<Keyed>, j: nat, d: Keyed, x: Keyed, rest: seq<Keyed>)
    requires j <= |p| && (j == 0 || !KeyBefore(x.key, p[j - 1].key))
    requires Insert(p, x) == Insert(p[..j], x) + p[j..]
    ensures (p[..j] + [d] + p[j..] + rest)[j := x] == Insert(p, x) + rest
  {
    InsertStop(p, j, x);
    FillHole(p[..j], d, x, p[j..], rest);
  }

  /** Moves `a[i]` left past the pairs with a greater key. */
  method InsertLast(a: array<Keyed>, i: nat)
    requires i < a.Length
    modifies a
    ensures a[..] == Insert(old(a[..i]), old(a[i])) + old(a[i + 1..])
  {
    ghost var prefix, rest := a[..i], a[i + 1..];
    var x := a[i];
    ghost var hole := x;
    assert prefix[..i] == prefix && prefix[i..] == [];
    assert a[..] == prefix[..i] + [hole] + prefix[i..] + rest;
    var j := i;
    while j > 0 && KeyBefore(x.key, a[j - 1].key)
      invariant 0 <= j <= i
      invariant a[..] == prefix[..j] + [hole] + prefix[j..] + rest
      invariant Insert(prefix, x) == Insert(prefix[..j], x) + prefix[j..]
    {
      LeftOfHole(prefix, j, hole, rest);
      ShiftStep(prefix, j, hole, x, rest);
      ghost var before := a[..];
      a[j] := a[j - 1];
      assert a[..] == before[j := prefix[j - 1]];
      j := j - 1;
      hole := prefix[j];
    }
    if j > 0 {
      LeftOfHole(prefix, j, hole, rest);
    }
    ShiftDone(prefix, j, hole, x, rest);
    ghost var before := a[..];
    a[j] := x;
    assert a[..] == before[j := x];
  }
}
