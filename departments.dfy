/** The options of the department filter: the distinct departments of the
    whole, unfiltered employee list, found with the `indexOf` idiom. */
module Departments {
  import opened Employees

  /** `employees.map((employee) => employee.department)`. */
  function DepartmentsOf(es: seq<Employee>): (r: seq<string>)
    ensures |r| == |es|
    ensures forall i :: 0 <= i < |es| ==> r[i] == es[i].department
  {
    seq(|es|, i requires 0 <= i < |es| => es[i].department)
  }

  /** `s.indexOf(x)`: the first position holding `x`, or -1 when there is
      none. */
  function IndexOf(s: seq<string>, x: string): (r: int)
    ensures -1 <= r < |s|
    ensures r == -1 <==> x !in s
    ensures r >= 0 ==> r < |s| && s[r] == x && x !in s[..r]
  {
    if s == [] then -1
    else if s[0] == x then 0
    else
      assert s == [s[0]] + s[1..];
      var k := IndexOf(s[1..], x);
      assert k >= 0 ==> s[..k + 1] == [s[0]] + s[1..][..k];
      if k == -1 then -1 else k + 1
  }

  /** `.filter((dept, index, self) => self.indexOf(dept) === index)` over
      the positions from `i` on: a value is kept at the position where it
      first occurs. */
  function FirstSeenFrom(s: seq<string>, i: nat): seq<string>
    requires i <= |s|
    decreases |s| - i
  {
    if i == |s| then []
    else (if IndexOf(s, s[i]) == i then [s[i]] else []) + FirstSeenFrom(s, i + 1)
  }

  /** The departments offered by the filter drop-down. */
  function UniqueDepartments(es: seq<Employee>): seq<string>
  {
    FirstSeenFrom(DepartmentsOf(es), 0)
  }

  /** From position `i` on, the filter keeps exactly the values first seen
      at or after `i`. */
  lemma {:induction false} FirstSeenFromMembers(s: seq<string>, i: nat)
    requires i <= |s|
    ensures forall x :: x in FirstSeenFrom(s, i) <==> x in s && IndexOf(s, x) >= i
    decreases |s| - i
  {
    if i < |s| {
      FirstSeenFromMembers(s, i + 1);
      forall x | x in s && IndexOf(s, x) == i
        ensures x == s[i]
      {
      }
    }
  }

  /** The kept values come in the order of their first occurrences. */
  lemma {:induction false} FirstSeenFromOrdered(s: seq<string>, i: nat)
    requires i <= |s|
    ensures forall a, b :: 0 <= a < b < |FirstSeenFrom(s, i)| ==>
              IndexOf(s, FirstSeenFrom(s, i)[a]) < IndexOf(s, FirstSeenFrom(s, i)[b])
    decreases |s| - i
  {
    if i < |s| {
      FirstSeenFromOrdered(s, i + 1);
      FirstSeenFromMembers(s, i + 1);
      if IndexOf(s, s[i]) == i {
        FirstSeenPrepend(s, i, FirstSeenFrom(s, i + 1));
      }
    }
  }

  /** Putting the value first seen at `i` in front of values first seen
      after `i`, in order, keeps the order. */
  lemma FirstSeenPrepend(s: seq<string>, i: nat, rest: seq<string>)
    requires i < |s| && IndexOf(s, s[i]) == i
    requires forall x :: x in rest ==> IndexOf(s, x) >= i + 1
    requires forall a, b :: 0 <= a < b < |rest| ==> IndexOf(s, rest[a]) < IndexOf(s, rest[b])
    ensures forall a, b :: 0 <= a < b < |[s[i]] + rest| ==>
              IndexOf(s, ([s[i]] + rest)[a]) < IndexOf(s, ([s[i]] + rest)[b])
  {
    var r := [s[i]] + rest;
    forall a, b | 0 <= a < b < |r|
      ensures IndexOf(s, r[a]) < IndexOf(s, r[b])
    {
      assert r[b] == rest[b - 1];
      assert r[b] in rest;
      if a > 0 {
        assert r[a] == rest[a - 1];
      }
    }
  }

  /** The options contain every department of the list and nothing else,
      each once, in the order in which the departments first occur. */
  lemma UniqueDepartmentsSpec(es: seq<Employee>)
    ensures var r := UniqueDepartments(es);
      && (forall x :: x in r <==> exists e :: e in es && e.department == x)
      && (forall a, b :: 0 <= a < b < |r| ==> r[a] != r[b])
      && (forall a, b :: 0 <= a < b < |r| ==>
            IndexOf(DepartmentsOf(es), r[a]) < IndexOf(DepartmentsOf(es), r[b]))
  {
    var s := DepartmentsOf(es);
    var r := UniqueDepartments(es);
    FirstSeenFromMembers(s, 0);
    FirstSeenFromOrdered(s, 0);
    assert forall a, b :: 0 <= a < b < |r| ==> IndexOf(s, r[a]) < IndexOf(s, r[b]);
    forall x
      ensures x in r <==> exists e :: e in es && e.department == x
    {
      if x in s {
        var k :| 0 <= k < |s| && s[k] == x;
        assert es[k] in es;
      }
      if exists e :: e in es && e.department == x {
        var e :| e in es && e.department == x;
        var k :| 0 <= k < |es| && es[k] == e;
        assert s[k] == x;
      }
    }
  }
}
