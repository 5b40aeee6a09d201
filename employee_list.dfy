/** The employee list component: the four state cells it keeps, the event
    handlers that overwrite them, and the view each render derives from the
    employee list it is given and those cells. */
module EmployeeList {
  import opened Employees
  import opened Sorting
  import opened Filtering
  import opened Departments
  import opened Pagination
  import opened SortHeader

  /** What one render derives: the rows of the current page, the page
      count, the department options and the enabled state of the Previous
      and Next buttons. */
  datatype ListView = ListView(
    rows: seq<Employee>,
    totalPages: nat,
    departmentOptions: seq<string>,
    previousDisabled: bool,
    nextDisabled: bool)

  /** `filteredEmployees`: the sorted copy, filtered. It holds each record
      of the employee list that passes the search and the department filter
      as often as the list does, and no other record. */
  function Filtered(employees: seq<Employee>, term: string, department: string, cfg: SortConfig): (r: seq<Employee>)
    ensures |r| <= |employees|
    ensures forall x :: multiset(r)[x] == if Keep(x, term, department) then multiset(employees)[x] else 0
  {
    FilterEmployees(StableSort(cfg, employees), term, department)
  }

  /** The derived view: sort a copy, filter it, count and cut the pages,
      and collect the departments of the whole list. */
  function DeriveView(employees: seq<Employee>, term: string, department: string,
                      cfg: SortConfig, currentPage: int): (v: ListView)
    ensures v.totalPages * EmployeesPerPage >= |Filtered(employees, term, department, cfg)|
    ensures v.totalPages == 0 || (v.totalPages - 1) * EmployeesPerPage < |Filtered(employees, term, department, cfg)|
    ensures v.previousDisabled <==> currentPage == 1
    ensures v.nextDisabled <==> currentPage == v.totalPages
  {
    var filtered := Filtered(employees, term, department, cfg);
    var totalPages := TotalPages(|filtered|);
    ListView(
      PageRows(filtered, currentPage),
      totalPages,
      UniqueDepartments(employees),
      PreviousDisabled(currentPage),
      NextDisabled(currentPage, totalPages))
  }

  /** The filtered list holds exactly the records of the employee list that
      match the search and the department filter. */
  lemma FilteredMember(employees: seq<Employee>, term: string, department: string,
                       cfg: SortConfig, x: Employee)
    ensures x in Filtered(employees, term, department, cfg) <==> x in employees && Keep(x, term, department)
  {
    var sorted := StableSort(cfg, employees);
    assert x in employees <==> multiset(employees)[x] > 0;
    assert x in sorted <==> multiset(sorted)[x] > 0;
    assert x in Filtered(employees, term, department, cfg)
       <==> multiset(Filtered(employees, term, department, cfg))[x] > 0;
  }

  /** Every row shown is a record of the employee list that passes the
      search and the department filter, and a page never holds more than
      three rows. */
  lemma ViewRowsSound(employees: seq<Employee>, term: string, department: string,
                      cfg: SortConfig, currentPage: int)
    ensures |DeriveView(employees, term, department, cfg, currentPage).rows| <= EmployeesPerPage
    ensures forall x :: x in DeriveView(employees, term, department, cfg, currentPage).rows ==>
              x in employees && Keep(x, term, department)
  {
    var filtered := Filtered(employees, term, department, cfg);
    var rows := DeriveView(employees, term, department, cfg, currentPage).rows;
    forall x | x in rows
      ensures x in employees && Keep(x, term, department)
    {
      FilteredMember(employees, term, department, cfg, x);
    }
  }

  /** The filtered list is in the comparator's order: filtering the sorted
      copy leaves the records it keeps in their sorted order. */
  lemma FilteredSorted(employees: seq<Employee>, term: string, department: string, cfg: SortConfig)
    ensures Sorted(cfg, Filtered(employees, term, department, cfg))
  {
    var sorted := StableSort(cfg, employees);
    StableSortSorted(cfg, employees);
    FilterIsSubsequence(sorted, term, department);
    SubsequenceSorted(cfg, FilterEmployees(sorted, term, department), sorted);
  }

  /** A page of a list in the comparator's order is in that order too. */
  lemma PageRowsSorted(cfg: SortConfig, filtered: seq<Employee>, p: int)
    requires Sorted(cfg, filtered)
    ensures Sorted(cfg, PageRows(filtered, p))
  {
    var rows := PageRows(filtered, p);
    var from := RelativeIndex(p * EmployeesPerPage - EmployeesPerPage, |filtered|);
    forall i, j | 0 <= i < j < |rows|
      ensures Compare(cfg, rows[i], rows[j]) <= 0
    {
      assert rows[i] == filtered[from + i] && rows[j] == filtered[from + j];
    }
  }

  /** The rows of every page are in the comparator's order. */
  lemma ViewRowsOrdered(employees: seq<Employee>, term: string, department: string,
                        cfg: SortConfig, currentPage: int)
    ensures Sorted(cfg, DeriveView(employees, term, department, cfg, currentPage).rows)
  {
    var filtered := Filtered(employees, term, department, cfg);
    FilteredSorted(employees, term, department, cfg);
    PageRowsSorted(cfg, filtered, currentPage);
    assert DeriveView(employees, term, department, cfg, currentPage).rows == PageRows(filtered, currentPage);
  }

  /** Every record of the employee list that passes the search and the
      department filter is shown on some page between 1 and the page
      count. */
  lemma ViewRowsComplete(employees: seq<Employee>, term: string, department: string,
                         cfg: SortConfig, x: Employee)
    requires x in employees && Keep(x, term, department)
    ensures exists p :: 1 <= p <= DeriveView(employees, term, department, cfg, p).totalPages
                        && x in DeriveView(employees, term, department, cfg, p).rows
  {
    var filtered := Filtered(employees, term, department, cfg);
    FilteredMember(employees, term, department, cfg, x);
    var k :| 0 <= k < |filtered| && filtered[k] == x;
    var p := k / EmployeesPerPage + 1;
    RecordOnItsPage(filtered, k);
    assert DeriveView(employees, term, department, cfg, p).rows == PageRows(filtered, p);
  }

  /** Before any sort, search or filter, page `p` shows the employee list's
      own records `3p - 3` to `3p - 1`, in the order given. */
  lemma ViewInitialOrder(employees: seq<Employee>, p: int)
    ensures DeriveView(employees, "", "", Unsorted, p).rows == PageRows(employees, p)
  {
    StableSortUnsorted(employees);
    FilterEmptyKeepsAll(employees);
  }

  /** Seven employees, with no sort, search or filter: three pages, the
      first shows the first three employees and the third shows the seventh
      alone. */
  lemma SevenEmployees(employees: seq<Employee>)
    requires |employees| == 7
    ensures DeriveView(employees, "", "", Unsorted, 1).totalPages == 3
    ensures DeriveView(employees, "", "", Unsorted, 1).rows == employees[0..3]
    ensures DeriveView(employees, "", "", Unsorted, 3).rows == [employees[6]]
  {
    StableSortUnsorted(employees);
    FilterEmptyKeepsAll(employees);
    SevenRecords(employees);
  }

  /** The component's state: `searchTerm`, `filterDepartment`, `sortConfig`
      and `currentPage`. The employee list itself belongs to the owner and
      is passed in on every render. */
  class EmployeeListState {
    var searchTerm: string
    var filterDepartment: string
    var sortConfig: SortConfig
    var currentPage: int

    /** Page numbers start at 1. Every control except a bare `Paginate`
        keeps this; `Paginate` itself checks nothing. */
    ghost predicate Valid()
      reads this
    {
      currentPage >= 1
    }

    /** The initial state: no search, no filter, no sort, page 1. */
    constructor ()
      ensures Valid()
      ensures searchTerm == "" && filterDepartment == ""
      ensures sortConfig == Unsorted && currentPage == 1
    {
      searchTerm := "";
      filterDepartment := "";
      sortConfig := Unsorted;
      currentPage := 1;
    }

    /** The view of the current state over the given employee list: at
        most three rows, each a record of the list that passes the current
        search and department filter. */
    function View(employees: seq<Employee>): (v: ListView)
      reads this
      ensures |v.rows| <= EmployeesPerPage
      ensures forall x :: x in v.rows ==> x in employees && Keep(x, searchTerm, filterDepartment)
    {
      ViewRowsSound(employees, searchTerm, filterDepartment, sortConfig, currentPage);
      DeriveView(employees, searchTerm, filterDepartment, sortConfig, currentPage)
    }

    /** Typing in the search box replaces the search term; the page is not
        reset. */
    method HandleSearch(value: string)
      requires Valid()
      modifies this
      ensures Valid()
      ensures searchTerm == value
      ensures filterDepartment == old(filterDepartment) && sortConfig == old(sortConfig)
      ensures currentPage == old(currentPage)
    {
      searchTerm := value;
    }

    /** Choosing a department replaces the filter; the page is not reset. */
    method HandleFilter(value: string)
      requires Valid()
      modifies this
      ensures Valid()
      ensures filterDepartment == value
      ensures searchTerm == old(searchTerm) && sortConfig == old(sortConfig)
      ensures currentPage == old(currentPage)
    {
      filterDepartment := value;
    }

    /** A click on the header of column `key`. */
    method HandleSort(key: SortKey)
      requires Valid()
      modifies this
      ensures Valid()
      ensures sortConfig == NextSortConfig(old(sortConfig), key)
      ensures searchTerm == old(searchTerm) && filterDepartment == old(filterDepartment)
      ensures currentPage == old(currentPage)
    {
      sortConfig := NextSortConfig(sortConfig, key);
    }

    /** `paginate(pageNumber)`: sets the page, with no bounds check. */
    method Paginate(pageNumber: int)
      modifies this
      ensures currentPage == pageNumber
      ensures searchTerm == old(searchTerm) && filterDepartment == old(filterDepartment)
      ensures sortConfig == old(sortConfig)
    {
      currentPage := pageNumber;
    }

    /** A click on Previous: nothing happens while it is disabled (on page
        1); otherwise the page goes back by one. */
    method ClickPrevious(employees: seq<Employee>)
      requires Valid()
      modifies this
      ensures Valid()
      ensures old(View(employees).previousDisabled) ==> currentPage == old(currentPage)
      ensures !old(View(employees).previousDisabled) ==> currentPage == old(currentPage) - 1
      ensures searchTerm == old(searchTerm) && filterDepartment == old(filterDepartment)
      ensures sortConfig == old(sortConfig)
    {
      if !View(employees).previousDisabled {
        Paginate(currentPage - 1);
      }
    }

    /** A click on Next: nothing happens while it is disabled (on the last
        page); otherwise the page goes forward by one, past the last page
        too when the current page is already beyond it. */
    method ClickNext(employees: seq<Employee>)
      requires Valid()
      modifies this
      ensures Valid()
      ensures old(View(employees).nextDisabled) ==> currentPage == old(currentPage)
      ensures !old(View(employees).nextDisabled) ==> currentPage == old(currentPage) + 1
      ensures searchTerm == old(searchTerm) && filterDepartment == old(filterDepartment)
      ensures sortConfig == old(sortConfig)
    {
      if !View(employees).nextDisabled {
        Paginate(currentPage + 1);
      }
    }

    /** A click on the button of page `index + 1`; one button is rendered
        for each page. */
    method ClickPageNumber(employees: seq<Employee>, index: nat)
      requires index < View(employees).totalPages
      modifies this
      ensures Valid()
      ensures currentPage == index + 1
      ensures searchTerm == old(searchTerm) && filterDepartment == old(filterDepartment)
      ensures sortConfig == old(sortConfig)
    {
      Paginate(index + 1);
    }

    /** A click on Delete in row `row` of the current page hands that
        record's id to the owner, which is the id of a record of the list. */
    method ClickDelete(employees: seq<Employee>, row: nat) returns (id: int)
      requires row < |View(employees).rows|
      ensures id == View(employees).rows[row].id
      ensures exists e :: e in employees && e.id == id
    {
      var e := View(employees).rows[row];
      assert e in View(employees).rows;
      id := e.id;
    }
  }
}
