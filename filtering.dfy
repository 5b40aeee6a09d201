/** The filter step of the list view: the free-text search over name, email
    and phone, and the department filter. */
module Filtering {
  import opened Text
  import opened Employees
  import opened Sorting

  /** The search term occurs in the lowered name or the lowered email, or
      verbatim in the phone number. */
  predicate MatchesSearch(e: Employee, term: string)
  {
    || Includes(ToLowerCase(e.name), ToLowerCase(term))
    || Includes(ToLowerCase(e.email), ToLowerCase(term))
    || Includes(e.phone, term)
  }

  /** An empty department filter (a falsy string) lets every record through;
      otherwise the department must be exactly the one selected. */
  predicate MatchesDepartment(e: Employee, department: string)
  {
    if department != "" then e.department == department else true
  }

  predicate Keep(e: Employee, term: string, department: string)
  {
    MatchesSearch(e, term) && MatchesDepartment(e, department)
  }

  /** `sorted.filter(...)`: every kept record satisfies the predicate, and
      each record of the input is kept exactly as often as it occurs there
      when it satisfies the predicate, and not at all otherwise. */
  function FilterEmployees(s: seq<Employee>, term: string, department: string): (r: seq<Employee>)
    ensures |r| <= |s|
    ensures forall x :: x in r ==> Keep(x, term, department)
    ensures forall x :: multiset(r)[x] == if Keep(x, term, department) then multiset(s)[x] else 0
  {
    if s == [] then []
    else
      assert s == [s[0]] + s[1..];
      (if Keep(s[0], term, department) then [s[0]] else []) + FilterEmployees(s[1..], term, department)
  }

  /** `r` is `s` with some records left out and the others in their order. */
  predicate IsSubsequence(r: seq<Employee>, s: seq<Employee>)
    decreases |s|
  {
    if r == [] then true
    else if s == [] then false
    else if r[0] == s[0] then IsSubsequence(r[1..], s[1..])
    else IsSubsequence(r, s[1..])
  }

  /** The filter keeps the order of the sorted list. */
  lemma {:induction false} FilterIsSubsequence(s: seq<Employee>, term: string, department: string)
    ensures IsSubsequence(FilterEmployees(s, term, department), s)
    decreases |s|
  {
    if s != [] {
      FilterIsSubsequence(s[1..], term, department);
      var rest := FilterEmployees(s[1..], term, department);
      if Keep(s[0], term, department) {
        assert FilterEmployees(s, term, department) == [s[0]] + rest;
        assert ([s[0]] + rest)[1..] == rest;
      } else {
        assert FilterEmployees(s, term, department) == rest;
        SubsequenceSkip(rest, s);
      }
    }
  }

  /** A subsequence of the tail is a subsequence of the whole. */
  lemma {:induction false} SubsequenceSkip(r: seq<Employee>, s: seq<Employee>)
    requires s != [] && IsSubsequence(r, s[1..])
    ensures IsSubsequence(r, s)
    decreases |s|, 0
  {
    if r != [] && r[0] == s[0] {
      SubsequenceOfTail(r, s[1..]);
    }
  }

  /** Dropping the head of a subsequence leaves a subsequence. */
  lemma {:induction false} SubsequenceOfTail(r: seq<Employee>, s: seq<Employee>)
    requires r != [] && IsSubsequence(r, s)
    ensures IsSubsequence(r[1..], s)
    decreases |s|, 1
  {
    if r[0] != s[0] {
      SubsequenceOfTail(r, s[1..]);
    }
    SubsequenceSkip(r[1..], s);
  }

  /** An empty search term and an empty department filter keep every record,
      in order. */
  lemma {:induction false} FilterEmptyKeepsAll(s: seq<Employee>)
    ensures FilterEmployees(s, "", "") == s
    decreases |s|
  {
    if s != [] {
      EmptyFiltersKeep(s[0]);
      FilterEmptyKeepsAll(s[1..]);
      assert s == [s[0]] + s[1..];
    }
  }

  /** An empty search term and an empty department filter keep a record. */
  lemma EmptyFiltersKeep(e: Employee)
    ensures Keep(e, "", "")
  {
    IncludesEmpty(ToLowerCase(e.name));
    assert ToLowerCase("") == "";
  }

  /** A list in which no record passes filters to the empty list. */
  lemma {:induction false} FilterNoneKept(s: seq<Employee>, term: string, department: string)
    requires forall x :: x in s ==> !Keep(x, term, department)
    ensures FilterEmployees(s, term, department) == []
    decreases |s|
  {
    if s != [] {
      assert s[0] in s;
      FilterNoneKept(s[1..], term, department);
    }
  }

  /** The search is case-insensitive on the name: "alice" finds "Alice Smith",
      and a list that holds that record once, anywhere, and no other record
      that matches yields that one record. */
  lemma SearchAlice(alice: Employee, s: seq<Employee>)
    requires alice.name == "Alice Smith"
    requires multiset(s)[alice] == 1
    requires forall o :: o in s && o != alice ==> !MatchesSearch(o, "alice")
    ensures FilterEmployees(s, "alice", "") == [alice]
  {
    var lowered := ToLowerCase(alice.name);
    assert lowered[0..5] == "alice";
    assert ToLowerCase("alice") == "alice";
    assert OccursAt(lowered, "alice", 0);
    var r := FilterEmployees(s, "alice", "");
    forall x
      ensures multiset(r)[x] == multiset{alice}[x]
    {
      if x != alice && x in s {
        assert !Keep(x, "alice", "");
      }
    }
    assert multiset(r) == multiset{alice};
    assert |r| == 1;
    assert r[0] in multiset(r);
    assert r == [r[0]];
  }

  /** Every record of a subsequence is a record of the whole. */
  lemma {:induction false} SubsequenceMembers(r: seq<Employee>, s: seq<Employee>)
    requires IsSubsequence(r, s)
    ensures forall x :: x in r ==> x in s
    decreases |s|
  {
    if r != [] {
      if r[0] == s[0] {
        SubsequenceMembers(r[1..], s[1..]);
        forall x | x in r
          ensures x in s
        {
          if x != r[0] {
            assert x in r[1..];
            assert x in s[1..];
          }
        }
      } else {
        SubsequenceMembers(r, s[1..]);
        forall x | x in r
          ensures x in s
        {
          assert x in s[1..];
        }
      }
    }
  }

  /** Leaving records out of a list in the comparator's order keeps the
      rest in that order. */
  lemma {:induction false} SubsequenceSorted(cfg: SortConfig, r: seq<Employee>, s: seq<Employee>)
    requires IsSubsequence(r, s) && Sorted(cfg, s)
    ensures Sorted(cfg, r)
    decreases |s|
  {
    if r != [] {
      assert Sorted(cfg, s[1..]);
      if r[0] == s[0] {
        SubsequenceSorted(cfg, r[1..], s[1..]);
        SubsequenceMembers(r[1..], s[1..]);
        forall j | 0 <= j < |r[1..]|
          ensures Compare(cfg, r[0], r[1..][j]) <= 0
        {
          assert r[1..][j] in s[1..];
          var k :| 0 <= k < |s[1..]| && s[1..][k] == r[1..][j];
          assert s[k + 1] == r[1..][j];
        }
        SortedCons(cfg, r[0], r[1..]);
        assert r == [r[0]] + r[1..];
      } else {
        SubsequenceSorted(cfg, r, s[1..]);
      }
    }
  }
}
