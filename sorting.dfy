/** The sort step of the list view: the comparator built from the sort
    state, and the stable sort of a copy of the employee list. */
module Sorting {
  import opened Employees

  /** The comparator handed to `sort`: with no active sort every pair is a
      tie; otherwise the column values decide, and the direction sets the
      sign. */
  function Compare(cfg: SortConfig, a: Employee, b: Employee): (r: int)
    ensures r == -1 || r == 0 || r == 1
    ensures r == 0 <==> cfg.Unsorted? || KeyOf(a, cfg.key) == KeyOf(b, cfg.key)
    ensures cfg.SortBy? && cfg.direction == Ascending ==>
              (r < 0 <==> KeyLess(KeyOf(a, cfg.key), KeyOf(b, cfg.key)))
    ensures cfg.SortBy? && cfg.direction == Descending ==>
              (r < 0 <==> KeyLess(KeyOf(b, cfg.key), KeyOf(a, cfg.key)))
  {
    match cfg
    case Unsorted => 0
    case SortBy(key, direction) =>
      var x, y := KeyOf(a, key), KeyOf(b, key);
      KeyLessStrictTotalOrder(x, y, x);
      if KeyLess(x, y) then (if direction == Ascending then -1 else 1)
      else if KeyLess(y, x) then (if direction == Ascending then 1 else -1)
      else 0
  }

  /** The comparator is consistent: antisymmetric, and both "not after" and
      "tie" are transitive. */
  lemma CompareConsistent(cfg: SortConfig, a: Employee, b: Employee, c: Employee)
    ensures Compare(cfg, a, b) == -Compare(cfg, b, a)
    ensures Compare(cfg, a, b) <= 0 && Compare(cfg, b, c) <= 0 ==> Compare(cfg, a, c) <= 0
    ensures Compare(cfg, a, b) == 0 && Compare(cfg, b, c) == 0 ==> Compare(cfg, a, c) == 0
  {
    if cfg.SortBy? {
      var x, y, z := KeyOf(a, cfg.key), KeyOf(b, cfg.key), KeyOf(c, cfg.key);
      KeyLessStrictTotalOrder(x, y, z);
      KeyLessStrictTotalOrder(z, y, x);
      KeyLessStrictTotalOrder(y, x, z);
      KeyLessStrictTotalOrder(x, z, y);
    }
  }

  /** No record is placed after a later one that the comparator puts first. */
  ghost predicate Sorted(cfg: SortConfig, s: seq<Employee>)
  {
    forall i, j :: 0 <= i < j < |s| ==> Compare(cfg, s[i], s[j]) <= 0
  }

  /** The records of `s` that tie with `e` under the comparator, in the
      order they have in `s`. */
  function Ties(cfg: SortConfig, s: seq<Employee>, e: Employee): seq<Employee>
  {
    if s == [] then []
    else (if Compare(cfg, s[0], e) == 0 then [s[0]] else []) + Ties(cfg, s[1..], e)
  }

  /** What a stable sort promises of its result `r`: it is ordered, it is a
      permutation of `s`, and each group of tying records keeps its order. */
  ghost predicate IsStableSortOf(cfg: SortConfig, r: seq<Employee>, s: seq<Employee>)
  {
    && Sorted(cfg, r)
    && multiset(r) == multiset(s)
    && forall e :: Ties(cfg, r, e) == Ties(cfg, s, e)
  }

  /** Places `x` before the first record of `t` that it does not follow. */
  function Insert(cfg: SortConfig, x: Employee, t: seq<Employee>): (r: seq<Employee>)
    ensures multiset(r) == multiset(t) + multiset{x}
  {
    if t == [] then [x]
    else if Compare(cfg, x, t[0]) <= 0 then [x] + t
    else
      assert t == [t[0]] + t[1..];
      [t[0]] + Insert(cfg, x, t[1..])
  }

  /** `[...employees].sort(comparator)`: a new sequence; the argument, a
      value, is untouched. */
  function StableSort(cfg: SortConfig, s: seq<Employee>): (r: seq<Employee>)
    ensures multiset(r) == multiset(s)
  {
    if s == [] then []
    else
      assert s == [s[0]] + s[1..];
      Insert(cfg, s[0], StableSort(cfg, s[1..]))
  }

  lemma {:induction false} TiesMember(cfg: SortConfig, s: seq<Employee>, e: Employee, x: Employee)
    ensures x in Ties(cfg, s, e) <==> x in s && Compare(cfg, x, e) == 0
    decreases |s|
  {
    if s != [] {
      TiesMember(cfg, s[1..], e, x);
      assert s == [s[0]] + s[1..];
    }
  }

  /** A record that follows no record of an ordered sequence can head it. */
  lemma SortedCons(cfg: SortConfig, a: Employee, t: seq<Employee>)
    requires Sorted(cfg, t)
    requires forall j :: 0 <= j < |t| ==> Compare(cfg, a, t[j]) <= 0
    ensures Sorted(cfg, [a] + t)
  {
    var r := [a] + t;
    forall i, j | 0 <= i < j < |r|
      ensures Compare(cfg, r[i], r[j]) <= 0
    {
      if i > 0 {
        assert r[i] == t[i - 1] && r[j] == t[j - 1];
      } else {
        assert r[j] == t[j - 1];
      }
    }
  }

  /** A record that does not follow the head of an ordered sequence follows
      none of its records. */
  lemma BeforeHead(cfg: SortConfig, x: Employee, t: seq<Employee>)
    requires Sorted(cfg, t) && t != [] && Compare(cfg, x, t[0]) <= 0
    ensures forall j :: 0 <= j < |t| ==> Compare(cfg, x, t[j]) <= 0
  {
    forall j | 0 <= j < |t|
      ensures Compare(cfg, x, t[j]) <= 0
    {
      CompareConsistent(cfg, x, t[0], t[j]);
    }
  }

  /** Where `x` passes over the head `y` of an ordered sequence `t`, `y`
      follows no record of the insertion of `x` into the rest of `t`. */
  lemma HeadBeforeInsert(cfg: SortConfig, x: Employee, y: Employee, t: seq<Employee>)
    requires Sorted(cfg, [y] + t) && Compare(cfg, x, y) > 0
    ensures forall j :: 0 <= j < |Insert(cfg, x, t)| ==> Compare(cfg, y, Insert(cfg, x, t)[j]) <= 0
  {
    var rest := Insert(cfg, x, t);
    forall j | 0 <= j < |rest|
      ensures Compare(cfg, y, rest[j]) <= 0
    {
      assert rest[j] in multiset(rest);
      if rest[j] == x {
        CompareConsistent(cfg, x, y, x);
      } else {
        assert rest[j] in multiset(t);
        var k :| 0 <= k < |t| && t[k] == rest[j];
        assert ([y] + t)[0] == y && ([y] + t)[k + 1] == rest[j];
      }
    }
  }

  lemma {:induction false} InsertSorted(cfg: SortConfig, x: Employee, t: seq<Employee>)
    requires Sorted(cfg, t)
    ensures Sorted(cfg, Insert(cfg, x, t))
    decreases |t|
  {
    if t == [] {
    } else if Compare(cfg, x, t[0]) <= 0 {
      BeforeHead(cfg, x, t);
      SortedCons(cfg, x, t);
    } else {
      assert t == [t[0]] + t[1..];
      InsertSorted(cfg, x, t[1..]);
      HeadBeforeInsert(cfg, x, t[0], t[1..]);
      SortedCons(cfg, t[0], Insert(cfg, x, t[1..]));
    }
  }

  /** The result of the sort is ordered by the comparator. */
  lemma {:induction false} StableSortSorted(cfg: SortConfig, s: seq<Employee>)
    ensures Sorted(cfg, StableSort(cfg, s))
    decreases |s|
  {
    if s != [] {
      StableSortSorted(cfg, s[1..]);
      InsertSorted(cfg, s[0], StableSort(cfg, s[1..]));
    }
  }

  lemma TiesCons(cfg: SortConfig, a: Employee, s: seq<Employee>, e: Employee)
    ensures Ties(cfg, [a] + s, e) == (if Compare(cfg, a, e) == 0 then [a] else []) + Ties(cfg, s, e)
  {
    assert ([a] + s)[1..] == s;
  }

  /** Where `x` passes over `y`, the two do not tie, so at most one of them
      ties with `e`. */
  lemma PassOverTies(cfg: SortConfig, x: Employee, y: Employee, e: Employee, rest: seq<Employee>)
    requires Compare(cfg, x, y) > 0
    ensures (if Compare(cfg, y, e) == 0 then [y] else []) + ((if Compare(cfg, x, e) == 0 then [x] else []) + rest)
         == (if Compare(cfg, x, e) == 0 then [x] else []) + ((if Compare(cfg, y, e) == 0 then [y] else []) + rest)
  {
    CompareConsistent(cfg, y, e, x);
    CompareConsistent(cfg, x, e, y);
  }

  lemma {:induction false} InsertTies(cfg: SortConfig, x: Employee, t: seq<Employee>, e: Employee)
    ensures Ties(cfg, Insert(cfg, x, t), e)
         == (if Compare(cfg, x, e) == 0 then [x] else []) + Ties(cfg, t, e)
    decreases |t|
  {
    if t == [] {
      TiesCons(cfg, x, [], e);
    } else if Compare(cfg, x, t[0]) <= 0 {
      TiesCons(cfg, x, t, e);
    } else {
      var rest := Insert(cfg, x, t[1..]);
      InsertTies(cfg, x, t[1..], e);
      TiesCons(cfg, t[0], rest, e);
      TiesCons(cfg, t[0], t[1..], e);
      assert t == [t[0]] + t[1..];
      PassOverTies(cfg, x, t[0], e, Ties(cfg, t[1..], e));
    }
  }

  /** Stability: records that tie keep their original relative order. */
  lemma {:induction false} StableSortKeepsTies(cfg: SortConfig, s: seq<Employee>, e: Employee)
    ensures Ties(cfg, StableSort(cfg, s), e) == Ties(cfg, s, e)
    decreases |s|
  {
    if s != [] {
      StableSortKeepsTies(cfg, s[1..], e);
      InsertTies(cfg, s[0], StableSort(cfg, s[1..]), e);
    }
  }

  /** The sort's result is a stable sort of its input. */
  lemma StableSortIsStableSort(cfg: SortConfig, s: seq<Employee>)
    ensures IsStableSortOf(cfg, StableSort(cfg, s), s)
  {
    StableSortSorted(cfg, s);
    forall e
      ensures Ties(cfg, StableSort(cfg, s), e) == Ties(cfg, s, e)
    {
      StableSortKeepsTies(cfg, s, e);
    }
  }

  lemma TiesHead(cfg: SortConfig, s: seq<Employee>, e: Employee)
    requires s != [] && Compare(cfg, s[0], e) == 0
    ensures Ties(cfg, s, e) == [s[0]] + Ties(cfg, s[1..], e)
  {
  }

  /** The first record of an ordered sequence follows none of the records
      that occur in it. */
  lemma HeadFirst(cfg: SortConfig, r: seq<Employee>, x: Employee)
    requires Sorted(cfg, r) && x in r
    ensures Compare(cfg, r[0], x) <= 0
  {
    var k :| 0 <= k < |r| && r[k] == x;
  }

  /** The heads of two ordered sequences with the same groups of ties tie
      with each other. */
  lemma HeadsTie(cfg: SortConfig, r1: seq<Employee>, r2: seq<Employee>)
    requires Sorted(cfg, r1) && Sorted(cfg, r2) && r1 != [] && r2 != []
    requires forall e :: Ties(cfg, r1, e) == Ties(cfg, r2, e)
    ensures Compare(cfg, r1[0], r2[0]) == 0
  {
    var a, b := r1[0], r2[0];
    TiesMember(cfg, r1, b, b);
    TiesMember(cfg, r2, b, b);
    assert Ties(cfg, r1, b) == Ties(cfg, r2, b);
    HeadFirst(cfg, r1, b);
    TiesMember(cfg, r1, a, a);
    TiesMember(cfg, r2, a, a);
    assert Ties(cfg, r1, a) == Ties(cfg, r2, a);
    HeadFirst(cfg, r2, a);
    CompareConsistent(cfg, a, b, a);
  }

  /** The heads of two ordered sequences with the same groups of ties are
      the head of their common group, hence equal. */
  lemma SameHead(cfg: SortConfig, r1: seq<Employee>, r2: seq<Employee>)
    requires Sorted(cfg, r1) && Sorted(cfg, r2) && r1 != [] && r2 != []
    requires forall e :: Ties(cfg, r1, e) == Ties(cfg, r2, e)
    ensures r1[0] == r2[0]
  {
    HeadsTie(cfg, r1, r2);
    CompareConsistent(cfg, r1[0], r2[0], r1[0]);
    TiesHead(cfg, r1, r1[0]);
    TiesHead(cfg, r2, r1[0]);
    assert Ties(cfg, r1, r1[0]) == Ties(cfg, r2, r1[0]);
    assert Ties(cfg, r1, r1[0])[0] == r1[0];
    assert Ties(cfg, r2, r1[0])[0] == r2[0];
  }

  /** Dropping one common head keeps the groups of ties equal. */
  lemma SameTailTies(cfg: SortConfig, r1: seq<Employee>, r2: seq<Employee>, e: Employee)
    requires r1 != [] && r2 != [] && r1[0] == r2[0]
    requires Ties(cfg, r1, e) == Ties(cfg, r2, e)
    ensures Ties(cfg, r1[1..], e) == Ties(cfg, r2[1..], e)
  {
    var head := if Compare(cfg, r1[0], e) == 0 then [r1[0]] else [];
    assert Ties(cfg, r1[1..], e) == Ties(cfg, r1, e)[|head|..];
    assert Ties(cfg, r2[1..], e) == Ties(cfg, r2, e)[|head|..];
  }

  /** The head of a sequence ties with itself, so its group is not empty. */
  lemma OwnTiesNonEmpty(cfg: SortConfig, r: seq<Employee>)
    requires r != []
    ensures Ties(cfg, r, r[0]) != []
  {
  }

  /** Two ordered sequences in which every group of ties is the same
      sequence are equal. */
  lemma {:induction false} SortedTiesUnique(cfg: SortConfig, r1: seq<Employee>, r2: seq<Employee>)
    requires Sorted(cfg, r1) && Sorted(cfg, r2)
    requires forall e :: Ties(cfg, r1, e) == Ties(cfg, r2, e)
    ensures r1 == r2
    decreases |r1|
  {
    if r1 != [] {
      OwnTiesNonEmpty(cfg, r1);
      assert Ties(cfg, r2, r1[0]) != [];
    }
    if r2 != [] {
      OwnTiesNonEmpty(cfg, r2);
      assert Ties(cfg, r1, r2[0]) != [];
    }
    if r1 != [] && r2 != [] {
      SameHead(cfg, r1, r2);
      forall e
        ensures Ties(cfg, r1[1..], e) == Ties(cfg, r2[1..], e)
      {
        SameTailTies(cfg, r1, r2, e);
      }
      SortedTiesUnique(cfg, r1[1..], r2[1..]);
      assert r1 == [r1[0]] + r1[1..] && r2 == [r2[0]] + r2[1..];
    }
  }

  /** Any stable sort of `s` is the sequence the model's sort returns: the
      sort's result is determined by the comparator and the input alone. */
  lemma StableSortUnique(cfg: SortConfig, r: seq<Employee>, s: seq<Employee>)
    requires IsStableSortOf(cfg, r, s)
    ensures r == StableSort(cfg, s)
  {
    StableSortIsStableSort(cfg, s);
    SortedTiesUnique(cfg, r, StableSort(cfg, s));
  }

  /** With no active sort a record is inserted in front. */
  lemma InsertUnsorted(x: Employee, t: seq<Employee>)
    ensures Insert(Unsorted, x, t) == [x] + t
  {
  }

  /** With no active sort every pair ties, so the input order is kept. */
  lemma {:induction false} StableSortUnsorted(s: seq<Employee>)
    ensures StableSort(Unsorted, s) == s
    decreases |s|
  {
    if s != [] {
      StableSortUnsorted(s[1..]);
      InsertUnsorted(s[0], s[1..]);
      assert s == [s[0]] + s[1..];
    }
  }

  /** Ascending leaves the column values non-decreasing, descending leaves
      them non-increasing. */
  lemma StableSortByColumn(k: SortKey, dir: Direction, s: seq<Employee>)
    ensures var r := StableSort(SortBy(k, dir), s);
      forall i, j :: 0 <= i < j < |r| ==>
        if dir == Ascending then !KeyLess(KeyOf(r[j], k), KeyOf(r[i], k))
        else !KeyLess(KeyOf(r[i], k), KeyOf(r[j], k))
  {
    var r := StableSort(SortBy(k, dir), s);
    StableSortSorted(SortBy(k, dir), s);
    forall i, j | 0 <= i < j < |r|
      ensures if dir == Ascending then !KeyLess(KeyOf(r[j], k), KeyOf(r[i], k))
              else !KeyLess(KeyOf(r[i], k), KeyOf(r[j], k))
    {
      KeyLessStrictTotalOrder(KeyOf(r[i], k), KeyOf(r[j], k), KeyOf(r[i], k));
    }
  }
}
