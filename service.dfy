/**
 * The employee service. Its views (name search, highest salary, top ten
 * earners) are computed from a fresh full listing; lookup, creation and
 * deletion go through the repository. Repository failures are rethrown as
 * `EmployeeRuntimeException`; the unchecked exceptions of the casts and of
 * `null` elements escape as they are.
 */
module EmployeeService {
  import opened JavaRuntime
  import opened EmployeeModel
  import opened EmployeeRepository

  /** What the service lets escape. */
  datatype ServiceFailure =
    | EmployeeRuntimeException(message: string, cause: Option<EmployeeException>)
    | Escaped(exception: Unchecked)

  /** How many names the ranking returns at most. */
  const TopCount := 10

  const FetchAllFailed := "Failed to fetch all employees"
  const SearchFailed := "Failed to search employees by name : "
  const NotFoundFor := "Employee not found for id: "
  const FetchFailedFor := "Failed to fetch employee by id: "
  const HighestFailed := "Failed to get highest salary among employees"
  const TopFailed := "Failed to get top 10 highest earning employees"
  const CreateFailedFor := "Failed to create employee: "
  const NotDeletedFor := "Employee not found or could not be deleted for id: "
  const DeleteFailedFor := "Failed to delete employee by id: "

  // ---------------------------------------------------------------------------
  // The listing behind the views

  /** The employees of a listing when none of them is `null`. */
  function NonNull(listing: seq<Option<EmployeeData>>): (r: Option<seq<EmployeeData>>)
    ensures r.Some? <==> forall k :: 0 <= k < |listing| ==> listing[k].Some?
    ensures r.Some? ==> |r.value| == |listing| && forall k :: 0 <= k < |listing| ==> listing[k] == Some(r.value[k])
    decreases |listing|
  {
    if listing == [] then Some([])
    else
      match listing[0]
      case None => None
      case Some(e) =>
        match NonNull(listing[1..])
        case None => None
        case Some(rest) => Some([e] + rest)
  }

  /** The employees a view is computed over, when the listing was read and holds no `null`. */
  function Employees(reply: Outcome): (r: Option<seq<EmployeeData>>)
    ensures r.Some? <==> GetAll(reply).Success? && forall k :: 0 <= k < |GetAll(reply).value| ==> GetAll(reply).value[k].Some?
    ensures r.Some? ==>
      && |r.value| == |GetAll(reply).value|
      && forall k :: 0 <= k < |r.value| ==> GetAll(reply).value[k] == Some(r.value[k])
  {
    match GetAll(reply)
    case Success(listing) => NonNull(listing)
    case Failure(_) => None
  }

  /** `getAllEmployees`: the repository's listing unchanged; its failure rethrown, never swallowed. */
  function GetAllEmployees(reply: Outcome): (r: Result<seq<Option<EmployeeData>>, ServiceFailure>)
    ensures r.Success? <==> GetAll(reply).Success?
    ensures r.Success? ==> r.value == GetAll(reply).value
    ensures r.Failure? ==> r.error == EmployeeRuntimeException(FetchAllFailed, Some(GetAll(reply).error))
  {
    match GetAll(reply)
    case Success(listing) => Success(listing)
    case Failure(e) => Failure(EmployeeRuntimeException(FetchAllFailed, Some(e)))
  }

  // ---------------------------------------------------------------------------
  // Search by name

  /** Case-insensitive containment of `fragment` in the employee's name. */
  predicate Matches(e: EmployeeData, fragment: string) {
    e.name.Some? && Contains(ToLowerCase(e.name.value), ToLowerCase(fragment))
  }

  predicate AllNamed(es: seq<EmployeeData>) {
    forall k :: 0 <= k < |es| ==> es[k].name.Some?
  }

  /** The employees whose name matches, in listing order. */
  function Search(es: seq<EmployeeData>, fragment: string): (r: seq<EmployeeData>)
    ensures |r| <= |es|
    ensures forall e :: e in r ==> e in es && Matches(e, fragment)
    decreases |es|
  {
    if es == [] then []
    else (if Matches(es[0], fragment) then [es[0]] else []) + Search(es[1..], fragment)
  }

  /** `sub` is obtained from `s` by leaving elements out, keeping the order of the rest. */
  ghost predicate IsSubsequence<T>(sub: seq<T>, s: seq<T>)
    decreases |s|
  {
    sub == [] || (s != [] && ((sub[0] == s[0] && IsSubsequence(sub[1..], s[1..])) || IsSubsequence(sub, s[1..])))
  }

  /** The search result keeps the listing order. */
  lemma {:induction false} SearchKeepsListingOrder(es: seq<EmployeeData>, fragment: string)
    ensures IsSubsequence(Search(es, fragment), es)
    decreases |es|
  {
    if es != [] {
      SearchKeepsListingOrder(es[1..], fragment);
      var rest := Search(es[1..], fragment);
      if Matches(es[0], fragment) {
        assert Search(es, fragment) == [es[0]] + rest;
        assert ([es[0]] + rest)[1..] == rest;
      } else {
        assert Search(es, fragment) == rest;
      }
    }
  }

  /** Every matching employee is kept, as often as it is listed, and nothing else is. */
  lemma {:induction false} SearchKeepsExactlyTheMatches(es: seq<EmployeeData>, fragment: string)
    ensures forall e :: multiset(Search(es, fragment))[e] == if Matches(e, fragment) then multiset(es)[e] else 0
    decreases |es|
  {
    if es != [] {
      SearchKeepsExactlyTheMatches(es[1..], fragment);
      assert es == [es[0]] + es[1..];
      assert multiset(es) == multiset{es[0]} + multiset(es[1..]);
    }
  }

  /** The empty fragment keeps every employee. */
  lemma {:induction false} SearchEmptyFragment(es: seq<EmployeeData>)
    requires AllNamed(es)
    ensures Search(es, "") == es
    decreases |es|
  {
    if es != [] {
      ContainsEmpty(ToLowerCase(es[0].name.value));
      SearchEmptyFragment(es[1..]);
      assert es == [es[0]] + es[1..];
    }
  }

  /** Searching the result of a search again changes nothing. */
  lemma {:induction false} SearchIdempotent(es: seq<EmployeeData>, fragment: string)
    ensures Search(Search(es, fragment), fragment) == Search(es, fragment)
    decreases |es|
  {
    if es != [] {
      SearchIdempotent(es[1..], fragment);
      var rest := Search(es[1..], fragment);
      if Matches(es[0], fragment) {
        assert Search(es, fragment) == [es[0]] + rest;
        assert ([es[0]] + rest)[1..] == rest;
        assert Search([es[0]] + rest, fragment) == [es[0]] + Search(rest, fragment);
      } else {
        assert Search(es, fragment) == rest;
      }
    }
  }

  /**
   * `searchEmployeesByName`: the matching employees of a fresh listing, in
   * listing order. A `null` employee or name fails the stream.
   */
  function SearchEmployeesByName(fragment: string, reply: Outcome): (r: Result<seq<EmployeeData>, ServiceFailure>)
    ensures r.Success? <==> Employees(reply).Some? && AllNamed(Employees(reply).value)
    ensures r.Success? ==> r.value == Search(Employees(reply).value, fragment)
    ensures GetAll(reply).Failure? ==> r == Failure(EmployeeRuntimeException(SearchFailed + fragment, Some(GetAll(reply).error)))
    ensures GetAll(reply).Success? && r.Failure? ==> r.error == Escaped(NullPointerException)
  {
    match GetAll(reply)
    case Failure(e) => Failure(EmployeeRuntimeException(SearchFailed + fragment, Some(e)))
    case Success(listing) =>
      match NonNull(listing)
      case None => Failure(Escaped(NullPointerException))
      case Some(es) =>
        if AllNamed(es) then Success(Search(es, fragment)) else Failure(Escaped(NullPointerException))
  }

  // ---------------------------------------------------------------------------
  // Highest salary

  /** The largest salary listed, or 0 for an empty listing. */
  function MaxSalary(es: seq<EmployeeData>): (r: Int32)
    ensures es == [] ==> r == 0
    ensures forall k :: 0 <= k < |es| ==> es[k].salary <= r
    ensures es != [] ==> exists k :: 0 <= k < |es| && es[k].salary == r
    decreases |es|
  {
    if es == [] then 0
    else if |es| == 1 then es[0].salary
    else
      var rest := MaxSalary(es[1..]);
      if es[0].salary >= rest then es[0].salary else rest
  }

  /** `getHighestSalary`: the maximum salary of a fresh listing, 0 when it is empty. */
  function GetHighestSalary(reply: Outcome): (r: Result<Int32, ServiceFailure>)
    ensures r.Success? <==> Employees(reply).Some?
    ensures r.Success? ==> r.value == MaxSalary(Employees(reply).value)
    ensures GetAll(reply).Failure? ==> r == Failure(EmployeeRuntimeException(HighestFailed, Some(GetAll(reply).error)))
    ensures GetAll(reply).Success? && r.Failure? ==> r.error == Escaped(NullPointerException)
  {
    match GetAll(reply)
    case Failure(e) => Failure(EmployeeRuntimeException(HighestFailed, Some(e)))
    case Success(listing) =>
      match NonNull(listing)
      case None => Failure(Escaped(NullPointerException))
      case Some(es) => Success(MaxSalary(es))
  }

  // ---------------------------------------------------------------------------
  // Top ten earners

  /** Salaries do not increase along `s`. */
  predicate SortedBySalary(s: seq<EmployeeData>) {
    forall i, j :: 0 <= i < j < |s| ==> s[i].salary >= s[j].salary
  }

  /** The employees of `s` earning exactly `salary`, in their order in `s`. */
  function WithSalary(s: seq<EmployeeData>, salary: int): seq<EmployeeData>
    decreases |s|
  {
    if s == [] then []
    else (if s[0].salary == salary then [s[0]] else []) + WithSalary(s[1..], salary)
  }

  lemma {:induction false} WithSalaryAppend(a: seq<EmployeeData>, b: seq<EmployeeData>, salary: int)
    ensures WithSalary(a + b, salary) == WithSalary(a, salary) + WithSalary(b, salary)
    decreases |a|
  {
    if a == [] {
      assert a + b == b;
    } else {
      WithSalaryAppend(a[1..], b, salary);
      assert (a + b)[0] == a[0];
      assert (a + b)[1..] == a[1..] + b;
    }
  }

  /** Places `e` ahead of the first employee of `s` that earns no more than it. */
  function Insert(e: EmployeeData, s: seq<EmployeeData>): (r: seq<EmployeeData>)
    ensures |r| == |s| + 1
    decreases |s|
  {
    if s == [] || e.salary >= s[0].salary then [e] + s
    else [s[0]] + Insert(e, s[1..])
  }

  /** Inserting into a sorted sequence keeps it sorted. */
  lemma {:induction false} InsertKeepsOrder(e: EmployeeData, s: seq<EmployeeData>)
    requires SortedBySalary(s)
    ensures SortedBySalary(Insert(e, s))
    ensures Insert(e, s)[0] == e || Insert(e, s)[0] == s[0]
    decreases |s|
  {
    if s != [] && e.salary < s[0].salary {
      InsertKeepsOrder(e, s[1..]);
      var r := Insert(e, s[1..]);
      assert Insert(e, s) == [s[0]] + r;
      assert r[0].salary <= s[0].salary;
    }
  }

  /** Inserting adds `e` and keeps every employee of `s`. */
  lemma {:induction false} InsertPermutes(e: EmployeeData, s: seq<EmployeeData>)
    ensures multiset(Insert(e, s)) == multiset(s) + multiset{e}
    decreases |s|
  {
    if s != [] && e.salary < s[0].salary {
      InsertPermutes(e, s[1..]);
      assert s == [s[0]] + s[1..];
    }
  }

  /** Inserting keeps `e` ahead of the employees of `s` that earn as much as it. */
  lemma {:induction false} InsertStable(e: EmployeeData, s: seq<EmployeeData>, salary: int)
    ensures WithSalary(Insert(e, s), salary) == WithSalary([e] + s, salary)
    decreases |s|
  {
    if s != [] && e.salary < s[0].salary {
      InsertStable(e, s[1..], salary);
      WithSalaryAppend([s[0]], Insert(e, s[1..]), salary);
      WithSalaryAppend([e], s[1..], salary);
      WithSalaryAppend([e], s, salary);
      WithSalaryAppend([s[0]], s[1..], salary);
      assert s == [s[0]] + s[1..];
    }
  }

  /** The stable sort by descending salary that `Stream.sorted` performs with the salary comparator. */
  function SortBySalaryDesc(es: seq<EmployeeData>): (r: seq<EmployeeData>)
    ensures |r| == |es|
    decreases |es|
  {
    if es == [] then []
    else Insert(es[0], SortBySalaryDesc(es[1..]))
  }

  /** The sort orders by non-increasing salary. */
  lemma {:induction false} SortIsOrdered(es: seq<EmployeeData>)
    ensures SortedBySalary(SortBySalaryDesc(es))
    decreases |es|
  {
    if es != [] {
      SortIsOrdered(es[1..]);
      InsertKeepsOrder(es[0], SortBySalaryDesc(es[1..]));
    }
  }

  /** The sort neither loses nor adds an employee. */
  lemma {:induction false} SortIsPermutation(es: seq<EmployeeData>)
    ensures multiset(SortBySalaryDesc(es)) == multiset(es)
    decreases |es|
  {
    if es != [] {
      SortIsPermutation(es[1..]);
      InsertPermutes(es[0], SortBySalaryDesc(es[1..]));
      assert es == [es[0]] + es[1..];
    }
  }

  /** Employees of equal salary keep their listing order. */
  lemma {:induction false} SortIsStable(es: seq<EmployeeData>, salary: int)
    ensures WithSalary(SortBySalaryDesc(es), salary) == WithSalary(es, salary)
    decreases |es|
  {
    if es != [] {
      SortIsStable(es[1..], salary);
      InsertStable(es[0], SortBySalaryDesc(es[1..]), salary);
      WithSalaryAppend([es[0]], SortBySalaryDesc(es[1..]), salary);
      WithSalaryAppend([es[0]], es[1..], salary);
      assert es == [es[0]] + es[1..];
    }
  }

  function Names(s: seq<EmployeeData>): (names: seq<JString>)
    ensures |names| == |s|
    ensures forall k :: 0 <= k < |s| ==> names[k] == s[k].name
  {
    seq(|s|, k requires 0 <= k < |s| => s[k].name)
  }

  /** The first ten employees by descending salary (all of them when fewer are listed). */
  function TopEarners(es: seq<EmployeeData>): (top: seq<EmployeeData>)
    ensures |top| == if |es| < TopCount then |es| else TopCount
  {
    var sorted := SortBySalaryDesc(es);
    sorted[..if |sorted| < TopCount then |sorted| else TopCount]
  }

  /** The names of the top earners, in rank order. */
  function TopTen(es: seq<EmployeeData>): (names: seq<JString>)
    ensures |names| == if |es| < TopCount then |es| else TopCount
    ensures forall k :: 0 <= k < |names| ==> names[k] == TopEarners(es)[k].name
  {
    Names(TopEarners(es))
  }

  /** The top earners are in rank order. */
  lemma TopEarnersRanked(es: seq<EmployeeData>)
    ensures SortedBySalary(TopEarners(es))
  {
    SortIsOrdered(es);
  }

  lemma TopEarnersSplit(es: seq<EmployeeData>)
    ensures SortBySalaryDesc(es) == TopEarners(es) + SortBySalaryDesc(es)[|TopEarners(es)|..]
  {
  }

  /** The top earners are drawn from the listing, and nobody left out earns more than any of them. */
  lemma TopEarnersEarnMost(es: seq<EmployeeData>)
    ensures multiset(TopEarners(es)) <= multiset(es)
    ensures forall e, t :: e in multiset(es) - multiset(TopEarners(es)) && t in TopEarners(es) ==> e.salary <= t.salary
  {
    var sorted := SortBySalaryDesc(es);
    var top := TopEarners(es);
    var n := |top|;
    var left := sorted[n..];
    TopEarnersSplit(es);
    SortIsOrdered(es);
    SortIsPermutation(es);
    assert multiset(sorted) == multiset(top) + multiset(left);
    forall e, t | e in multiset(es) - multiset(top) && t in top
      ensures e.salary <= t.salary
    {
      assert e in left;
      var i :| 0 <= i < |top| && top[i] == t;
      var j :| 0 <= j < |left| && left[j] == e;
      assert sorted[i] == t && sorted[n + j] == e;
    }
  }

  /** Among employees of equal salary, the top earners are the ones listed first. */
  lemma TopEarnersTakeFirstListed(es: seq<EmployeeData>, salary: int)
    ensures WithSalary(TopEarners(es), salary) <= WithSalary(es, salary)
  {
    var sorted := SortBySalaryDesc(es);
    TopEarnersSplit(es);
    WithSalaryAppend(TopEarners(es), sorted[|TopEarners(es)|..], salary);
    SortIsStable(es, salary);
  }

  /** The first of the employees of `s` earning `salary` is the earliest listed one. */
  lemma {:induction false} WithSalaryHead(s: seq<EmployeeData>, salary: int)
    requires WithSalary(s, salary) != []
    ensures exists k :: 0 <= k < |s| && s[k] == WithSalary(s, salary)[0] && s[k].salary == salary &&
                        forall j :: 0 <= j < k ==> s[j].salary != salary
    decreases |s|
  {
    if s[0].salary != salary {
      WithSalaryHead(s[1..], salary);
      var k :| 0 <= k < |s[1..]| && s[1..][k] == WithSalary(s[1..], salary)[0] && s[1..][k].salary == salary &&
               forall j :: 0 <= j < k ==> s[1..][j].salary != salary;
      assert s[k + 1] == s[1..][k];
      assert forall j :: 1 <= j < k + 1 ==> s[j] == s[1..][j - 1];
    } else {
      assert s[0] == WithSalary(s, salary)[0];
    }
  }

  /** The sort puts a highest salary first. */
  lemma SortedHeadEarnsMost(es: seq<EmployeeData>)
    requires es != []
    ensures SortBySalaryDesc(es)[0].salary == MaxSalary(es)
  {
  }

  /** Of the employees earning the most, the sort puts the earliest listed first. */
  lemma SortedHeadListedFirst(es: seq<EmployeeData>)
    requires es != []
    ensures WithSalary(es, MaxSalary(es)) != []
    ensures SortBySalaryDesc(es)[0] == WithSalary(es, MaxSalary(es))[0]
  {
    var sorted := SortBySalaryDesc(es);
    var most := MaxSalary(es);
    SortedHeadEarnsMost(es);
    assert sorted == [sorted[0]] + sorted[1..];
    WithSalaryAppend([sorted[0]], sorted[1..], most);
    SortIsStable(es, most);
  }

  /** `es[k]` earns the most, and everyone listed before it earns less. */
  predicate FirstHighestEarner(es: seq<EmployeeData>, k: int) {
    0 <= k < |es| && es[k].salary == MaxSalary(es) && forall j :: 0 <= j < k ==> es[j].salary < es[k].salary
  }

  /** The ranking starts with the highest earner, the first one listed when several earn the most. */
  lemma TopTenStartsWithHighestEarner(es: seq<EmployeeData>)
    requires es != []
    ensures exists k :: FirstHighestEarner(es, k) && TopTen(es)[0] == es[k].name
  {
    var most := MaxSalary(es);
    SortedHeadListedFirst(es);
    WithSalaryHead(es, most);
    var k :| 0 <= k < |es| && es[k] == WithSalary(es, most)[0] && es[k].salary == most &&
             forall j :: 0 <= j < k ==> es[j].salary != most;
    assert FirstHighestEarner(es, k);
    assert TopEarners(es)[0] == SortBySalaryDesc(es)[0];
    assert TopTen(es)[0] == es[k].name;
  }

  /**
   * `getTop10HighestEarningEmployeeNames`: the ranking of a fresh listing.
   * A `null` employee fails the stream.
   */
  function GetTop10HighestEarningEmployeeNames(reply: Outcome): (r: Result<seq<JString>, ServiceFailure>)
    ensures r.Success? <==> Employees(reply).Some?
    ensures r.Success? ==> r.value == TopTen(Employees(reply).value)
    ensures GetAll(reply).Failure? ==> r == Failure(EmployeeRuntimeException(TopFailed, Some(GetAll(reply).error)))
    ensures GetAll(reply).Success? && r.Failure? ==> r.error == Escaped(NullPointerException)
  {
    match GetAll(reply)
    case Failure(e) => Failure(EmployeeRuntimeException(TopFailed, Some(e)))
    case Success(listing) =>
      match NonNull(listing)
      case None => Failure(Escaped(NullPointerException))
      case Some(es) => Success(TopTen(es))
  }

  // ---------------------------------------------------------------------------
  // Listings with rising salaries

  /** `s` back to front. */
  function Reversed(s: seq<EmployeeData>): (r: seq<EmployeeData>)
    ensures |r| == |s|
    ensures forall k :: 0 <= k < |s| ==> r[k] == s[|s| - 1 - k]
  {
    seq(|s|, k requires 0 <= k < |s| => s[|s| - 1 - k])
  }

  /** Every employee earns strictly more than those listed before it. */
  predicate RisingSalaries(es: seq<EmployeeData>) {
    forall i, j :: 0 <= i < j < |es| ==> es[i].salary < es[j].salary
  }

  /** An employee earning less than everyone already ranked is inserted last. */
  lemma {:induction false} InsertLast(e: EmployeeData, s: seq<EmployeeData>)
    requires forall k :: 0 <= k < |s| ==> s[k].salary > e.salary
    ensures Insert(e, s) == s + [e]
    decreases |s|
  {
    if s != [] {
      InsertLast(e, s[1..]);
      assert [s[0]] + (s[1..] + [e]) == s + [e];
    }
  }

  /** Reversing a non-empty listing puts its head last. */
  lemma ReversedCons(es: seq<EmployeeData>)
    requires es != []
    ensures Reversed(es[1..]) + [es[0]] == Reversed(es)
  {
    var rest := es[1..];
    forall k | 0 <= k < |es|
      ensures (Reversed(rest) + [es[0]])[k] == Reversed(es)[k]
    {
      if k < |rest| { assert Reversed(rest)[k] == rest[|rest| - 1 - k]; }
    }
  }

  /** The tail of a rising listing rises, and all of it earns more than the head. */
  lemma RisingTail(es: seq<EmployeeData>)
    requires es != [] && RisingSalaries(es)
    ensures RisingSalaries(es[1..])
    ensures forall k :: 0 <= k < |es| - 1 ==> Reversed(es[1..])[k].salary > es[0].salary
  {
    var rest := es[1..];
    forall i, j | 0 <= i < j < |rest| ensures rest[i].salary < rest[j].salary {
      assert rest[i] == es[i + 1] && rest[j] == es[j + 1];
    }
    forall k | 0 <= k < |rest| ensures Reversed(rest)[k].salary > es[0].salary {
      assert Reversed(rest)[k] == es[|es| - 1 - k];
    }
  }

  /** A listing with rising salaries is ranked back to front. */
  lemma {:induction false} SortOfRisingIsReversed(es: seq<EmployeeData>)
    requires RisingSalaries(es)
    ensures SortBySalaryDesc(es) == Reversed(es)
    decreases |es|
  {
    if es != [] {
      RisingTail(es);
      SortOfRisingIsReversed(es[1..]);
      InsertLast(es[0], Reversed(es[1..]));
      ReversedCons(es);
    }
  }

  /** With rising salaries, the ranking names the last-listed employees, latest first. */
  lemma TopTenOfRising(es: seq<EmployeeData>)
    requires RisingSalaries(es)
    ensures forall k :: 0 <= k < |TopTen(es)| ==> TopTen(es)[k] == es[|es| - 1 - k].name
  {
    SortOfRisingIsReversed(es);
  }

  /** Fifteen employees earning 1100, 1200, ..., 2500: ten names, the best paid first. */
  lemma TopTenOfFifteen(es: seq<EmployeeData>)
    requires |es| == 15
    requires forall i :: 0 <= i < 15 ==> es[i].salary == 1000 + (i + 1) * 100
    ensures |TopTen(es)| == 10
    ensures TopTen(es)[0] == es[14].name
  {
    TopTenOfRising(es);
  }

  // ---------------------------------------------------------------------------
  // The service's sample listing

  function Sample(): seq<EmployeeData> {
    [ EmployeeData(Some("1"), Some("John"), 1000, 30, Some("Dev"), Some("john@company.com")),
      EmployeeData(Some("2"), Some("Jane"), 2000, 28, Some("QA"), Some("jane@company.com")),
      EmployeeData(Some("3"), Some("Jake"), 3000, 35, Some("Lead"), Some("jake@company.com")) ]
  }

  /** The highest salary of the sample listing. */
  lemma SampleHighestSalary()
    ensures MaxSalary(Sample()) == 3000
  {
  }

  /** A search that matches no employee returns nothing. */
  lemma {:induction false} SearchNothing(es: seq<EmployeeData>, fragment: string)
    requires forall k :: 0 <= k < |es| ==> !Matches(es[k], fragment)
    ensures Search(es, fragment) == []
    decreases |es|
  {
    if es != [] {
      SearchNothing(es[1..], fragment);
    }
  }

  lemma SearchSkipsFirstOfThree(s: seq<EmployeeData>, fragment: string)
    requires |s| == 3 && !Matches(s[0], fragment) && Matches(s[1], fragment) && Matches(s[2], fragment)
    ensures Search(s, fragment) == s[1..]
  {
    assert s[1..][1..][1..] == [];
    assert Search(s[1..][1..], fragment) == [s[2]];
  }

  /** Searching the sample for "Ja" finds Jane and Jake, whatever the case. */
  lemma SampleSearch()
    ensures Search(Sample(), "Ja") == Sample()[1..]
  {
    var s := Sample();
    assert ToLowerCase("Ja") == "ja";
    assert ToLowerCase("John") == "john";
    assert ToLowerCase("Jane") == "jane";
    assert ToLowerCase("Jake") == "jake";
    ContainsNeedsFirstChar("ohn", "ja");
    assert "john"[1..] == "ohn";
    assert !StartsWith("john", "ja");
    assert !Contains("john", "ja");
    assert StartsWith("jane", "ja");
    assert StartsWith("jake", "ja");
    SearchSkipsFirstOfThree(s, "Ja");
  }

  /** Searching John and Jane for "zzz" finds nobody. */
  lemma SampleSearchNoMatch()
    ensures Search(Sample()[..2], "zzz") == []
  {
  }

  // ---------------------------------------------------------------------------
  // Lookup

  /**
   * `getEmployeeById`: an absent employee and a failed read are both
   * `EmployeeRuntimeException`, told apart by their message and cause.
   */
  function GetEmployeeById(id: string, reply: Outcome): (r: Result<EmployeeData, ServiceFailure>)
    ensures r.Success? <==> GetById(reply).Success? && GetById(reply).value.Some?
    ensures r.Success? ==> GetById(reply) == Success(Some(r.value))
    ensures GetById(reply) == Success(None) ==> r == Failure(EmployeeRuntimeException(NotFoundFor + id, None))
    ensures GetById(reply).Failure? ==> r == Failure(EmployeeRuntimeException(FetchFailedFor + id, Some(GetById(reply).error)))
  {
    match GetById(reply)
    case Success(Some(e)) => Success(e)
    case Success(None) => Failure(EmployeeRuntimeException(NotFoundFor + id, None))
    case Failure(e) => Failure(EmployeeRuntimeException(FetchFailedFor + id, Some(e)))
  }

  // ---------------------------------------------------------------------------
  // Creation

  /**
   * The employee `createEmployeeFromMap` builds from a request map: name,
   * salary, age and title read with the casts the source applies, in its
   * order; id and email left null.
   */
  function FieldsFromMap(empMap: map<string, Value>): (r: Result<EmployeeData, Unchecked>)
    ensures r.Success? <==>
      && IsText(Get(empMap, "name"))
      && Get(empMap, "salary").Num? && InIntRange(Get(empMap, "salary").n)
      && Get(empMap, "age").Num? && InIntRange(Get(empMap, "age").n)
      && IsText(Get(empMap, "title"))
    ensures r.Success? ==> r.value.id.None? && r.value.email.None?
    ensures r.Success? ==> forall k :: k in RequestKeys ==> CreateRequest(r.value)[k] == Get(empMap, k)
  {
    var name :- CastString(Get(empMap, "name"));
    var salary :- UnboxInteger(Get(empMap, "salary"));
    var age :- UnboxInteger(Get(empMap, "age"));
    var title :- CastString(Get(empMap, "title"));
    Success(EmployeeData(None, name, salary, age, title, None))
  }

  /** Reading a creation request back gives the employee it was made from, without id and email. */
  lemma FieldsFromMapInvertsCreateRequest(e: EmployeeData)
    ensures FieldsFromMap(CreateRequest(e)) == Success(e.(id := None, email := None))
  {
  }

  /** Keys other than name, salary, age and title are ignored. */
  lemma FieldsFromMapIgnoresOtherKeys(empMap: map<string, Value>, key: string, v: Value)
    requires key !in RequestKeys
    ensures FieldsFromMap(empMap[key := v]) == FieldsFromMap(empMap)
  {
  }

  /** A missing salary fails on unboxing `null`, once the name has been read. */
  lemma FieldsFromMapMissingSalary(empMap: map<string, Value>)
    requires IsText(Get(empMap, "name")) && "salary" !in empMap
    ensures FieldsFromMap(empMap) == Failure(NullPointerException)
  {
  }

  /** `createEmployeeFromMap`: a fresh employee filled in through four setters. */
  method CreateEmployeeFromMap(empMap: map<string, Value>) returns (r: Result<Employee, Unchecked>)
    ensures FieldsFromMap(empMap).Failure? ==> r == Failure(FieldsFromMap(empMap).error)
    ensures FieldsFromMap(empMap).Success? ==> r.Success? && fresh(r.value) && r.value.Value() == FieldsFromMap(empMap).value
  {
    var employee := new Employee.Default();
    var name := CastString(Get(empMap, "name"));
    if name.Failure? {
      return Failure(name.error);
    }
    employee.SetName(name.value);
    var salary := UnboxInteger(Get(empMap, "salary"));
    if salary.Failure? {
      return Failure(salary.error);
    }
    employee.SetSalary(salary.value);
    var age := UnboxInteger(Get(empMap, "age"));
    if age.Failure? {
      return Failure(age.error);
    }
    employee.SetAge(age.value);
    var title := CastString(Get(empMap, "title"));
    if title.Failure? {
      return Failure(title.error);
    }
    employee.SetTitle(title.value);
    return Success(employee);
  }

  /**
   * `createEmployee`: converts the request body, then posts it. A body that
   * cannot be converted fails before anything is sent, with the unchecked
   * exception itself; a repository failure is rethrown.
   */
  method CreateEmployee(emp: Value, reply: Outcome) returns (sent: seq<Request>, r: Result<Option<EmployeeData>, ServiceFailure>)
    ensures emp.Null? ==> sent == [] && r == Failure(Escaped(NullPointerException))
    ensures !emp.Null? && !emp.Obj? ==> sent == [] && r == Failure(Escaped(ClassCastException))
    ensures emp.Obj? && FieldsFromMap(emp.fields).Failure? ==>
      sent == [] && r == Failure(Escaped(FieldsFromMap(emp.fields).error))
    ensures emp.Obj? && FieldsFromMap(emp.fields).Success? ==>
      && sent == [Post(CreateRequest(FieldsFromMap(emp.fields).value))]
      && (r.Success? <==> reply.Ok? && reply.body.Some? && MapToEmployee(Get(reply.body.value, DataKey)).Success?)
      && (r.Success? ==> MapToEmployee(Get(reply.body.value, DataKey)) == Success(r.value))
      && (r.Failure? ==> r.error == EmployeeRuntimeException(
            Concat(CreateFailedFor, FieldsFromMap(emp.fields).value.name), Some(EmployeeException(CreateFailed))))
  {
    sent := [];
    if emp.Null? {
      return sent, Failure(Escaped(NullPointerException));
    }
    if !emp.Obj? {
      return sent, Failure(Escaped(ClassCastException));
    }
    var built := CreateEmployeeFromMap(emp.fields);
    if built.Failure? {
      return sent, Failure(Escaped(built.error));
    }
    var employee := built.value;
    var request, created := Create(employee, reply);
    sent := [request];
    match created
    case Success(e) =>
      r := Success(e);
    case Failure(cause) =>
      var name := employee.GetName();
      r := Failure(EmployeeRuntimeException(Concat(CreateFailedFor, name), Some(cause)));
  }

  // ---------------------------------------------------------------------------
  // Deletion

  /** The repository's read by id found an employee. */
  predicate Found(reply: Outcome) {
    GetById(reply).Success? && GetById(reply).value.Some?
  }

  /**
   * `deleteEmployeeById`: looks the employee up, then has the repository
   * delete it (the repository reads it again and deletes by the name it read);
   * returns the name found by the first lookup.
   */
  method DeleteEmployeeById(id: string, lookup: Outcome, recheck: Outcome, deletion: Outcome)
    returns (sent: seq<Request>, r: Result<JString, ServiceFailure>)
    ensures |sent| >= 1 && sent[0] == ReadOne(id)
    ensures GetEmployeeById(id, lookup).Failure? ==>
      sent == [ReadOne(id)] && r == Failure(GetEmployeeById(id, lookup).error)
    ensures r.Success? <==>
      GetEmployeeById(id, lookup).Success? && Found(recheck) && DeleteOutcome(deletion) == Success(true)
    ensures r.Success? ==>
      && r.value == GetEmployeeById(id, lookup).value.name
      && sent == [ReadOne(id), ReadOne(id), Delete(GetById(recheck).value.value.name)]
    ensures GetEmployeeById(id, lookup).Success? && Found(recheck) ==>
      sent == [ReadOne(id), ReadOne(id), Delete(GetById(recheck).value.value.name)]
    ensures GetEmployeeById(id, lookup).Success? && GetById(recheck) == Success(None) ==>
      sent == [ReadOne(id), ReadOne(id)] && r == Failure(EmployeeRuntimeException(NotDeletedFor + id, None))
    ensures GetEmployeeById(id, lookup).Success? && GetById(recheck).Failure? ==>
      sent == [ReadOne(id), ReadOne(id)]
    ensures GetEmployeeById(id, lookup).Success? && Found(recheck) && DeleteOutcome(deletion) == Success(false) ==>
      r == Failure(EmployeeRuntimeException(NotDeletedFor + id, None))
    ensures GetEmployeeById(id, lookup).Success? && (GetById(recheck).Failure? || (Found(recheck) && DeleteOutcome(deletion).Failure?)) ==>
      r == Failure(EmployeeRuntimeException(DeleteFailedFor + id, Some(EmployeeException(DeleteFailed))))
  {
    sent := [ReadOne(id)];
    var found := GetEmployeeById(id, lookup);
    if found.Failure? {
      return sent, Failure(found.error);
    }
    var repoSent, deleted := DeleteById(id, recheck, deletion);
    sent := sent + repoSent;
    match deleted
    case Success(true) =>
      r := Success(found.value.name);
    case Success(false) =>
      r := Failure(EmployeeRuntimeException(NotDeletedFor + id, None));
    case Failure(cause) =>
      r := Failure(EmployeeRuntimeException(DeleteFailedFor + id, Some(cause)));
  }
}
