/**
 * `EmployeeRepository`: a Spring Data JPA repository of `EmployeeDAO` keyed by a Long id, with
 * three derived queries. Here it is an in-memory table whose rows keep insertion order.
 */
module Repository {
  import opened Wrappers
  import opened Dates
  import opened Employees

  /** The rows of `s` that satisfy `p`, in the order of `s`. */
  function Select(s: seq<EmployeeRecord>, p: EmployeeRecord -> bool): (r: seq<EmployeeRecord>)
    ensures |r| <= |s|
    ensures forall x :: x in r <==> x in s && p(x)
  {
    if s == [] then [] else (if p(s[0]) then [s[0]] else []) + Select(s[1..], p)
  }

  /** `...Department...`: exact match; a null department matches nothing. */
  predicate InDepartment(r: EmployeeRecord, department: string) {
    r.department == Some(department)
  }

  /** `...YearOfEmploymentAfter`: strictly after the threshold; a null date matches nothing. */
  predicate HiredAfter(r: EmployeeRecord, threshold: LocalDate) {
    r.yearOfEmployment.Some? && IsAfter(r.yearOfEmployment.value, threshold)
  }

  /** `...YearOfEmployment` with no keyword: equal to the value. */
  predicate HiredOn(r: EmployeeRecord, date: LocalDate) {
    r.yearOfEmployment == Some(date)
  }

  predicate HasId(r: EmployeeRecord, id: int) {
    r.id == Some(id)
  }

  ghost predicate DistinctIds(s: seq<EmployeeRecord>) {
    forall j, k :: 0 <= j < k < |s| ==> s[j].id != s[k].id
  }

  /** The first row with the given id. */
  function Lookup(s: seq<EmployeeRecord>, id: int): (r: Option<EmployeeRecord>)
    ensures r.Some? <==> exists k :: 0 <= k < |s| && s[k].id == Some(id)
    ensures r.Some? ==> r.value in s && r.value.id == Some(id)
  {
    if s == [] then None
    else if s[0].id == Some(id) then Some(s[0])
    else Lookup(s[1..], id)
  }

  /** Where ids are distinct, the row `Lookup` finds is the one stored under the id. */
  lemma LookupFindsTheRow(s: seq<EmployeeRecord>, id: int)
    requires DistinctIds(s)
    ensures forall k :: 0 <= k < |s| && s[k].id == Some(id) ==> Lookup(s, id) == Some(s[k])
  {
    forall k | 0 <= k < |s| && s[k].id == Some(id)
      ensures Lookup(s, id) == Some(s[k])
    {
      var r := Lookup(s, id);
      assert r.Some?;
      var j :| 0 <= j < |s| && s[j] == r.value;
      assert s[j].id == s[k].id;
    }
  }

  /** `s` with the row that has `x`'s id replaced by `x`. */
  function Replace(s: seq<EmployeeRecord>, x: EmployeeRecord): (r: seq<EmployeeRecord>)
    ensures |r| == |s|
    ensures forall k :: 0 <= k < |s| ==> r[k] == if s[k].id == x.id then x else s[k]
  {
    seq(|s|, k requires 0 <= k < |s| => if s[k].id == x.id then x else s[k])
  }

  /** Selecting from a concatenation selects from each part: selection keeps the order of the rows. */
  lemma {:induction false} SelectConcat(a: seq<EmployeeRecord>, b: seq<EmployeeRecord>, p: EmployeeRecord -> bool)
    ensures Select(a + b, p) == Select(a, p) + Select(b, p)
    decreases |a|
  {
    if a != [] {
      assert (a + b)[1..] == a[1..] + b;
      SelectConcat(a[1..], b, p);
    } else {
      assert a + b == b;
    }
  }

  /** Two tests that agree on every row select the same rows. */
  lemma {:induction false} SelectSame(s: seq<EmployeeRecord>, p: EmployeeRecord -> bool, q: EmployeeRecord -> bool)
    requires forall x :: x in s ==> p(x) == q(x)
    ensures Select(s, p) == Select(s, q)
    decreases |s|
  {
    if s != [] {
      assert forall x :: x in s[1..] ==> x in s;
      SelectSame(s[1..], p, q);
    }
  }

  /** A test every row passes selects everything. */
  lemma {:induction false} SelectAll(s: seq<EmployeeRecord>, p: EmployeeRecord -> bool)
    requires forall x :: x in s ==> p(x)
    ensures Select(s, p) == s
    decreases |s|
  {
    if s != [] {
      assert forall x :: x in s[1..] ==> x in s;
      SelectAll(s[1..], p);
      assert [s[0]] + s[1..] == s;
    }
  }

  /** Selecting twice is selecting once by both tests. */
  lemma {:induction false} SelectSelect(s: seq<EmployeeRecord>, p: EmployeeRecord -> bool, q: EmployeeRecord -> bool)
    ensures Select(Select(s, p), q) == Select(s, x => p(x) && q(x))
    decreases |s|
  {
    if s != [] {
      SelectSelect(s[1..], p, q);
      var head := if p(s[0]) then [s[0]] else [];
      SelectConcat(head, Select(s[1..], p), q);
      if p(s[0]) {
        assert head[1..] == [];
      }
    }
  }

  /** Selection keeps ids distinct. */
  lemma {:induction false} SelectKeepsDistinct(s: seq<EmployeeRecord>, p: EmployeeRecord -> bool)
    requires DistinctIds(s)
    ensures DistinctIds(Select(s, p))
    decreases |s|
  {
    if s != [] {
      SelectKeepsDistinct(s[1..], p);
      var rest := Select(s[1..], p);
      forall x | x in rest
        ensures x.id != s[0].id
      {
        var k :| 0 <= k < |s[1..]| && s[1..][k] == x;
        assert s[k + 1] == x;
      }
    }
  }

  class EmployeeRepository {
    /** The stored `EmployeeDAO` rows, in insertion order. */
    var rows: seq<EmployeeRecord>
    /** The id the next new row receives. */
    var nextId: int

    /** Every row has a positive id, below `nextId`, and no two rows share one. */
    ghost predicate Valid()
      reads this
    {
      && nextId >= 1
      && (forall k :: 0 <= k < |rows| ==> rows[k].id.Some? && 1 <= rows[k].id.value < nextId)
      && DistinctIds(rows)
    }

    constructor ()
      ensures Valid() && rows == [] && nextId == 1
    {
      rows := [];
      nextId := 1;
    }

    /** `findAll()`. */
    function FindAll(): (r: seq<EmployeeRecord>)
      reads this
      ensures r == rows
    {
      rows
    }

    /** `findById(id)`: the row with that id, or empty. */
    function FindById(id: int): (r: Option<EmployeeRecord>)
      requires Valid()
      reads this
      ensures r.None? <==> forall k :: 0 <= k < |rows| ==> rows[k].id != Some(id)
      ensures forall k :: 0 <= k < |rows| && rows[k].id == Some(id) ==> r == Some(rows[k])
    {
      LookupFindsTheRow(rows, id);
      Lookup(rows, id)
    }

    /** `existsById(id)`. */
    function ExistsById(id: int): (b: bool)
      reads this
      ensures b <==> exists k :: 0 <= k < |rows| && rows[k].id == Some(id)
    {
      Lookup(rows, id).Some?
    }

    /** `findByDepartmentAndYearOfEmploymentAfter(department, threshold)`. */
    function FindByDepartmentAndYearOfEmploymentAfter(department: string, threshold: LocalDate): (r: seq<EmployeeRecord>)
      reads this
      ensures forall x :: x in r <==> x in rows && InDepartment(x, department) && HiredAfter(x, threshold)
    {
      Select(rows, x => InDepartment(x, department) && HiredAfter(x, threshold))
    }

    /** `findByDepartment(department)`: no date constraint. */
    function FindByDepartment(department: string): (r: seq<EmployeeRecord>)
      reads this
      ensures forall x :: x in r <==> x in rows && InDepartment(x, department)
    {
      Select(rows, x => InDepartment(x, department))
    }

    /** `findByYearOfEmploymentAfter(threshold)`: no department constraint; a row dated `threshold` is excluded. */
    function FindByYearOfEmploymentAfter(threshold: LocalDate): (r: seq<EmployeeRecord>)
      reads this
      ensures forall x :: x in r <==> x in rows && HiredAfter(x, threshold)
      ensures forall x :: x in r ==> !HiredOn(x, threshold)
    {
      Select(rows, x => HiredAfter(x, threshold))
    }

    /**
     * `findByYearOfEmployment(date)`, which the service calls although the repository interface
     * does not declare it; read as a derived query, it is an equality test.
     */
    function FindByYearOfEmployment(date: LocalDate): (r: seq<EmployeeRecord>)
      reads this
      ensures forall x :: x in r <==> x in rows && HiredOn(x, date)
    {
      Select(rows, x => HiredOn(x, date))
    }

    /** The combined query is the department query narrowed by the date test. */
    lemma CombinedQueryNarrowsDepartment(department: string, threshold: LocalDate)
      ensures FindByDepartmentAndYearOfEmploymentAfter(department, threshold)
           == Select(FindByDepartment(department), x => HiredAfter(x, threshold))
    {
      SelectSelect(rows, x => InDepartment(x, department), x => HiredAfter(x, threshold));
      SelectSame(rows,
        x => (x => InDepartment(x, department))(x) && (x => HiredAfter(x, threshold))(x),
        x => InDepartment(x, department) && HiredAfter(x, threshold));
    }

    /** An id at or above `nextId` was never handed out, so nothing is stored under it. */
    lemma NeverIssuedIdIsAbsent(id: int)
      requires Valid() && id >= nextId
      ensures FindById(id).None? && !ExistsById(id)
    {
    }

    /**
     * `save(entity)`. A null id, or one nothing is stored under, gets the next generated id and a
     * new row; an id already stored has its row replaced. Either way the entity comes back with its id.
     */
    method Save(e: EmployeeRecord) returns (saved: EmployeeRecord)
      requires Valid()
      modifies this
      ensures Valid()
      ensures saved.id.Some? && saved == e.(id := saved.id)
      ensures FindById(saved.id.value) == Some(saved)
      ensures e.id.Some? && old(ExistsById(e.id.value)) ==>
        saved.id == e.id && rows == Replace(old(rows), saved) && nextId == old(nextId)
      ensures !(e.id.Some? && old(ExistsById(e.id.value))) ==>
        saved.id == Some(old(nextId)) && rows == old(rows) + [saved] && nextId == old(nextId) + 1
    {
      if e.id.Some? && ExistsById(e.id.value) {
        saved := e;
        rows := Replace(rows, saved);
        ghost var k :| 0 <= k < |rows| && old(rows)[k].id == e.id;
        assert rows[k] == saved;
      } else {
        saved := e.(id := Some(nextId));
        rows := rows + [saved];
        nextId := nextId + 1;
        assert rows[|rows| - 1] == saved;
      }
    }

    /** `deleteById(id)`: removes the row with that id; nothing happens when there is none. */
    method DeleteById(id: int)
      requires Valid()
      modifies this
      ensures Valid() && nextId == old(nextId)
      ensures rows == Select(old(rows), x => !HasId(x, id))
      ensures !ExistsById(id) && FindById(id).None?
      ensures !old(ExistsById(id)) ==> rows == old(rows)
    {
      SelectKeepsDistinct(rows, x => !HasId(x, id));
      if !ExistsById(id) {
        SelectAll(rows, x => !HasId(x, id));
      }
      rows := Select(rows, x => !HasId(x, id));
      forall k | 0 <= k < |rows|
        ensures rows[k].id.Some? && 1 <= rows[k].id.value < nextId
      {
        assert rows[k] in old(rows);
      }
    }
  }
}
