/** Sequence operations that stand for the SQL pieces the queries are built
    from: a table scan in primary-key order, `WHERE` (a filter that keeps the
    scan order) and `OFFSET ... LIMIT ...` with SQLite's treatment of negative
    values. */
module Sequences {

  /** `SELECT ... WHERE p`: the elements satisfying `p`, in their order. */
  function Filter<T(!new,==)>(s: seq<T>, p: T -> bool): (r: seq<T>)
    ensures |r| <= |s|
    ensures forall x :: x in r <==> x in s && p(x)
    ensures multiset(r) <= multiset(s)
    ensures forall y :: y in multiset(s) && p(y) ==> multiset(r)[y] == multiset(s)[y]
  {
    if s == [] then []
    else
      assert s == [s[0]] + s[1..];
      (if p(s[0]) then [s[0]] else []) + Filter(s[1..], p)
  }

  /** Two conditions that agree on every element select the same elements. */
  lemma {:induction false} FilterAgrees<T(!new)>(s: seq<T>, p: T -> bool, q: T -> bool)
    requires forall x :: x in s ==> p(x) == q(x)
    ensures Filter(s, p) == Filter(s, q)
  {
    if s != [] {
      FilterAgrees(s[1..], p, q);
    }
  }

  /** SQLite reads a negative OFFSET as zero. */
  function Offset(skip: int): nat
  {
    if skip < 0 then 0 else skip
  }

  /** `OFFSET skip LIMIT limit`: the elements from position `Offset(skip)` on,
      at most `limit` of them, and all of them when `limit` is negative
      (SQLite's "no limit"). */
  function Window<T>(s: seq<T>, skip: int, limit: int): (r: seq<T>)
    ensures limit >= 0 ==> |r| <= limit
    ensures forall i :: 0 <= i < |r| ==> Offset(skip) + i < |s| && r[i] == s[Offset(skip) + i]
    ensures (limit < 0 || |r| < limit) ==> Offset(skip) + |r| >= |s|
  {
    var from := if Offset(skip) < |s| then Offset(skip) else |s|;
    var rest := s[from..];
    if 0 <= limit < |rest| then rest[..limit] else rest
  }

  /** The rows of a table keyed by integer, visited in ascending key order,
      for the keys below `bound`. */
  function Scan<T(!new,==)>(m: map<int, T>, bound: nat): (r: seq<T>)
    ensures |r| <= bound
  {
    if bound == 0 then []
    else Scan(m, bound - 1) + (if bound - 1 in m then [m[bound - 1]] else [])
  }

  /** Every row whose key lies below the bound is visited. */
  lemma {:induction false} ScanFinds<T(!new)>(m: map<int, T>, bound: nat, k: int)
    requires 0 <= k < bound && k in m
    ensures m[k] in Scan(m, bound)
  {
    if k < bound - 1 {
      ScanFinds(m, bound - 1, k);
    }
  }

  /** Every visited row is a row of the table. */
  lemma {:induction false} ScanFromTable<T(!new)>(m: map<int, T>, bound: nat, x: T)
    requires x in Scan(m, bound)
    ensures exists k :: 0 <= k < bound && k in m && m[k] == x
  {
    if bound > 0 && x !in Scan(m, bound - 1) {
      assert m[bound - 1] == x;
    } else if bound > 0 {
      ScanFromTable(m, bound - 1, x);
    }
  }

  /** Removing a row at or above the bound does not change the scan. */
  lemma {:induction false} ScanIgnoresAbove<T(!new)>(m: map<int, T>, k: int, bound: nat)
    requires k >= bound
    ensures Scan(m - {k}, bound) == Scan(m, bound)
  {
    if bound > 0 {
      ScanIgnoresAbove(m, k, bound - 1);
    }
  }

  /** A scan whose bound lies above every key visits every row once. */
  lemma {:induction false} ScanVisitsAll<T(!new)>(m: map<int, T>, bound: nat)
    requires forall k :: k in m ==> 0 <= k < bound
    ensures |Scan(m, bound)| == |m|
  {
    if bound == 0 {
      NoKeysNoRows(m);
    } else {
      var k := bound - 1;
      var rest := m - {k};
      assert forall j :: j in rest ==> 0 <= j < k;
      ScanVisitsAll(rest, k);
      ScanIgnoresAbove(m, k, k);
      RemoveSize(m, k);
      ScanStep(m, bound);
    }
  }

  /** One more key below the bound adds its row, if there is one. */
  lemma ScanStep<T(!new)>(m: map<int, T>, bound: nat)
    requires bound > 0
    ensures |Scan(m, bound)| == |Scan(m, bound - 1)| + (if bound - 1 in m then 1 else 0)
  {
  }

  lemma NoKeysNoRows<T>(m: map<int, T>)
    requires forall k :: k in m ==> 0 <= k < 0
    ensures |m| == 0
  {
    assert forall j :: j !in m;
    assert m.Keys == {};
  }

  lemma RemoveSize<T>(m: map<int, T>, k: int)
    ensures |m - {k}| == if k in m then |m| - 1 else |m|
  {
    var rest := m - {k};
    if k in m {
      assert rest.Keys == m.Keys - {k};
      assert |rest.Keys| == |m.Keys| - 1;
    } else {
      assert rest == m;
    }
  }

  /** No element occurs twice. */
  ghost predicate NoDuplicates<T(!new)>(s: seq<T>)
  {
    forall x :: multiset(s)[x] <= 1
  }

  /** Two positions of a sequence without duplicates hold different
      elements. */
  lemma DistinctPositions<T(!new)>(s: seq<T>, i: int, j: int)
    requires NoDuplicates(s) && 0 <= i < j < |s|
    ensures s[i] != s[j]
  {
    var front, back := s[..j], s[j..];
    assert s == front + back;
    assert multiset(s)[s[i]] == multiset(front)[s[i]] + multiset(back)[s[i]];
    assert s[i] == front[i] && s[j] == back[0];
    assert multiset(front)[s[i]] >= 1 && multiset(back)[s[j]] >= 1;
  }

  /** A window is part of the listing it is taken from. */
  lemma WindowSubMultiset<T(!new)>(s: seq<T>, skip: int, limit: int)
    ensures multiset(Window(s, skip, limit)) <= multiset(s)
  {
    var from := if Offset(skip) < |s| then Offset(skip) else |s|;
    var to := from + |Window(s, skip, limit)|;
    assert Window(s, skip, limit) == s[from..to];
    assert s == s[..from] + s[from..to] + s[to..];
  }

  /** A scan of rows each stored under its own key visits only keys below
      the bound. */
  lemma ScanBelow<T(!new)>(m: map<int, T>, bound: nat, key: T -> int)
    requires forall k :: k in m ==> key(m[k]) == k
    ensures forall x :: x in Scan(m, bound) ==> key(x) < bound
  {
    forall x | x in Scan(m, bound) ensures key(x) < bound {
      ScanFromTable(m, bound, x);
    }
  }

  /** Rows stored under their own keys are visited once each. */
  lemma {:induction false} ScanNoDuplicates<T(!new)>(m: map<int, T>, bound: nat, key: T -> int)
    requires forall k :: k in m ==> key(m[k]) == k
    ensures NoDuplicates(Scan(m, bound))
  {
    if bound > 0 {
      var before := Scan(m, bound - 1);
      ScanNoDuplicates(m, bound - 1, key);
      if bound - 1 in m {
        ScanBelow(m, bound - 1, key);
        assert m[bound - 1] !in before;
        assert Scan(m, bound) == before + [m[bound - 1]];
      }
    }
  }

  /** Filtering a concatenation filters each part. */
  lemma {:induction false} FilterAppend<T(!new)>(a: seq<T>, b: seq<T>, p: T -> bool)
    ensures Filter(a + b, p) == Filter(a, p) + Filter(b, p)
  {
    if a == [] {
      assert a + b == b;
    } else {
      var h := if p(a[0]) then [a[0]] else [];
      FilterAppend(a[1..], b, p);
      FilterFirst(a + b, p);
      FilterFirst(a, p);
      ConcatTail(a, b);
      ConcatAssoc(h, Filter(a[1..], p), Filter(b, p));
    }
  }

  lemma FilterFirst<T(!new)>(s: seq<T>, p: T -> bool)
    requires s != []
    ensures Filter(s, p) == (if p(s[0]) then [s[0]] else []) + Filter(s[1..], p)
  {
  }

  lemma ConcatTail<T>(a: seq<T>, b: seq<T>)
    requires a != []
    ensures (a + b)[0] == a[0] && (a + b)[1..] == a[1..] + b
  {
  }

  lemma ConcatAssoc<T>(a: seq<T>, b: seq<T>, c: seq<T>)
    ensures a + (b + c) == (a + b) + c
  {
  }

  /** The keys below the bound whose rows satisfy `p`. */
  ghost function KeysWith<T(!new)>(m: map<int, T>, bound: nat, p: T -> bool): set<int>
  {
    set k | k in m && 0 <= k < bound && p(m[k])
  }

  /** `SELECT count(*) ... WHERE p` over a scan: the number of keys below
      the bound whose rows satisfy `p`. */
  lemma {:induction false} ScanFilterCount<T(!new)>(m: map<int, T>, bound: nat, p: T -> bool)
    ensures |Filter(Scan(m, bound), p)| == |KeysWith(m, bound, p)|
  {
    if bound == 0 {
      assert KeysWith(m, bound, p) == {};
    } else {
      var k := bound - 1;
      ScanFilterCount(m, k, p);
      var last := if k in m then [m[k]] else [];
      assert Scan(m, bound) == Scan(m, k) + last;
      FilterAppend(Scan(m, k), last, p);
      KeysStep(m, bound, p);
      FilterLast(m, k, p);
    }
  }

  /** The filtered row at the last key, if there is one that qualifies. */
  lemma FilterLast<T(!new)>(m: map<int, T>, k: int, p: T -> bool)
    ensures |Filter(if k in m then [m[k]] else [], p)| == if k in m && p(m[k]) then 1 else 0
  {
    if k in m {
      FilterFirst([m[k]], p);
      assert [m[k]][1..] == [];
    }
  }

  /** One more key below the bound adds it to the qualifying keys when its
      row qualifies. */
  lemma KeysStep<T(!new)>(m: map<int, T>, bound: nat, p: T -> bool)
    requires bound > 0
    ensures |KeysWith(m, bound, p)| == |KeysWith(m, bound - 1, p)| + if bound - 1 in m && p(m[bound - 1]) then 1 else 0
  {
    var k := bound - 1;
    var before := KeysWith(m, k, p);
    if k in m && p(m[k]) {
      assert KeysWith(m, bound, p) == before + {k};
      assert k !in before;
    } else {
      assert KeysWith(m, bound, p) == before;
    }
  }
}
