/** The employee record, the sortable columns of the list, and the order in
    which the list compares two records' values at one column. */
module Employees {
  import opened Text

  /** One employee record, with the fields a new record is created with. */
  datatype Employee = Employee(
    id: int,
    name: string,
    email: string,
    phone: string,
    department: string,
    designation: string,
    salary: int,
    dateOfJoining: string,
    location: string,
    manager: string)

  /** The nine columns whose header can be clicked to sort the list. */
  datatype SortKey =
    | Name | Email | Phone | Department | Designation
    | Salary | DateOfJoining | Location | Manager

  datatype Direction = Ascending | Descending

  /** The sort state: no sort yet, or one active column and its direction. */
  datatype SortConfig = Unsorted | SortBy(key: SortKey, direction: Direction)

  /** A record's value at one column: text for the text columns, a number
      for the salary. */
  datatype KeyValue = Str(s: string) | Num(n: int)

  /** `employee[key]`. */
  function KeyOf(e: Employee, k: SortKey): (v: KeyValue)
    ensures v.Num? <==> k == Salary
  {
    match k
    case Name => Str(e.name)
    case Email => Str(e.email)
    case Phone => Str(e.phone)
    case Department => Str(e.department)
    case Designation => Str(e.designation)
    case Salary => Num(e.salary)
    case DateOfJoining => Str(e.dateOfJoining)
    case Location => Str(e.location)
    case Manager => Str(e.manager)
  }

  /** `x < y` on two values of one column: numeric order on salaries,
      string order on text. The two forms never meet at one column (see
      KeyOf); ordering numbers before text only keeps the relation total. */
  predicate KeyLess(x: KeyValue, y: KeyValue)
  {
    match (x, y)
    case (Num(a), Num(b)) => a < b
    case (Str(a), Str(b)) => StrLess(a, b)
    case (Num(_), Str(_)) => true
    case (Str(_), Num(_)) => false
  }

  /** KeyLess is a strict total order: the comparator built on it is a
      consistent comparator, as a sort requires. */
  lemma KeyLessStrictTotalOrder(x: KeyValue, y: KeyValue, z: KeyValue)
    ensures !KeyLess(x, x)
    ensures KeyLess(x, y) ==> !KeyLess(y, x)
    ensures KeyLess(x, y) && KeyLess(y, z) ==> KeyLess(x, z)
    ensures x == y || KeyLess(x, y) || KeyLess(y, x)
  {
    if x.Str? {
      StrLessIrreflexive(x.s);
      if y.Str? {
        StrLessTotal(x.s, y.s);
        if KeyLess(x, y) {
          StrLessAsymmetric(x.s, y.s);
        }
        if z.Str? && KeyLess(x, y) && KeyLess(y, z) {
          StrLessTransitive(x.s, y.s, z.s);
        }
      }
    }
  }
}
