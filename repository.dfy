/**
 * The upstream client: it reads, creates and deletes employees at the
 * provider, renames the provider's fields to the employee's own, and sorts
 * failed exchanges into "absent" and "error".
 *
 * No HTTP exchange is performed here. Each exchange is given as the `Outcome`
 * it ended in, and an operation reports the requests it issued, in order.
 */
module EmployeeRepository {
  import opened JavaRuntime
  import opened EmployeeModel

  /** A 4xx status code. */
  type ClientStatus = s: int | 400 <= s < 500 witness 400

  /** How one HTTP exchange with the provider ended. */
  datatype Outcome =
    | Ok(body: Option<map<string, Value>>)  // a success status; the body is a JSON object, or empty
    | ClientError(status: ClientStatus)     // raised as HttpClientErrorException
    | OtherFailure                          // any other status, an I/O error, or an unreadable body

  /** A request issued to the provider. */
  datatype Request =
    | ReadAll
    | ReadOne(id: string)
    | Post(body: map<string, Value>)
    | Delete(name: JString)

  /** The checked exception every repository failure is reported as. */
  datatype EmployeeException = EmployeeException(message: string)

  const DataKey := "data"
  const ListFailed := "Error fetching all employees"
  const ReadFailed := "Error fetching employee by id"
  const CreateFailed := "Failed to create employee"
  const DeleteFailed := "Error deleting employee"

  /** The provider's names for the six employee fields. */
  const UpstreamKeys: set<string> :=
    {"id", "employee_name", "employee_salary", "employee_age", "employee_title", "employee_email"}

  /** The keys of a creation request. */
  const RequestKeys: set<string> := {"name", "salary", "age", "title"}

  /**
   * `response.getBody().get("data")`: an empty body fails on the call, and a
   * body without a `data` entry yields `null`.
   */
  function EnvelopeData(body: Option<map<string, Value>>): (r: Result<Value, Unchecked>)
    ensures r.Failure? <==> body.None?
    ensures r.Failure? ==> r.error == NullPointerException
    ensures body.Some? && DataKey in body.value ==> r == Success(body.value[DataKey])
    ensures body.Some? && DataKey !in body.value ==> r == Success(Null)
  {
    match body
    case None => Failure(NullPointerException)
    case Some(m) => Success(Get(m, DataKey))
  }

  /** A value `(String)` accepts: text or `null`. */
  predicate IsText(v: Value) {
    CastString(v).Success?
  }

  /** The provider records `mapToEmployee` accepts: text or null for the strings, numbers for salary and age. */
  predicate WellTyped(m: map<string, Value>) {
    && IsText(Get(m, "id"))
    && IsText(Get(m, "employee_name"))
    && Get(m, "employee_salary").Num?
    && Get(m, "employee_age").Num?
    && IsText(Get(m, "employee_title"))
    && IsText(Get(m, "employee_email"))
  }

  /** Each field of `e` is what the provider record `m` holds under the provider's name for that field. */
  predicate Renamed(m: map<string, Value>, e: EmployeeData) {
    && Get(m, "id") == FromJString(e.id)
    && Get(m, "employee_name") == FromJString(e.name)
    && Get(m, "employee_salary").Num? && IntValue(Get(m, "employee_salary").n) == e.salary
    && Get(m, "employee_age").Num? && IntValue(Get(m, "employee_age").n) == e.age
    && Get(m, "employee_title") == FromJString(e.title)
    && Get(m, "employee_email") == FromJString(e.email)
  }

  /**
   * `mapToEmployee` applied to one element of a response (with the cast to a
   * map that precedes it): `null` gives no employee, a record gives the
   * employee under the renamed fields, anything else fails.
   */
  function MapToEmployee(record: Value): (r: Result<Option<EmployeeData>, Unchecked>)
    ensures record.Null? ==> r == Success(None)
    ensures record.Obj? ==> (r.Success? <==> WellTyped(record.fields))
    ensures record.Obj? && r.Success? ==> r.value.Some? && Renamed(record.fields, r.value.value)
    ensures !record.Null? && !record.Obj? ==> r == Failure(ClassCastException)
  {
    match record
    case Null => Success(None)
    case Obj(m) =>
      var id :- CastString(Get(m, "id"));
      var name :- CastString(Get(m, "employee_name"));
      var salary :- NumberIntValue(Get(m, "employee_salary"));
      var age :- NumberIntValue(Get(m, "employee_age"));
      var title :- CastString(Get(m, "employee_title"));
      var email :- CastString(Get(m, "employee_email"));
      Success(Some(EmployeeData(id, name, salary, age, title, email)))
    case _ => Failure(ClassCastException)
  }

  /** A provider record names at most one employee. */
  lemma RenamedDetermines(m: map<string, Value>, e: EmployeeData, e': EmployeeData)
    requires Renamed(m, e) && Renamed(m, e')
    ensures e == e'
  {
  }

  /** The record the provider sends for an employee. */
  function ToUpstream(e: EmployeeData): (m: map<string, Value>)
    ensures m.Keys == UpstreamKeys
    ensures Renamed(m, e)
  {
    map[
      "id" := FromJString(e.id),
      "employee_name" := FromJString(e.name),
      "employee_salary" := Num(e.salary),
      "employee_age" := Num(e.age),
      "employee_title" := FromJString(e.title),
      "employee_email" := FromJString(e.email)]
  }

  /** Reading back what the provider sends for an employee gives that employee. */
  lemma MapToEmployeeInvertsToUpstream(e: EmployeeData)
    ensures MapToEmployee(Obj(ToUpstream(e))) == Success(Some(e))
  {
  }

  /** Keys other than the provider's six field names do not affect the mapping. */
  lemma MapToEmployeeIgnoresOtherKeys(m: map<string, Value>, key: string, v: Value)
    requires key !in UpstreamKeys
    ensures MapToEmployee(Obj(m[key := v])) == MapToEmployee(Obj(m))
  {
  }

  /** A salary beyond the `int` range is truncated to its low 32 bits, as `intValue()` does. */
  lemma MapToEmployeeTruncatesSalary(m: map<string, Value>)
    requires WellTyped(m) && Get(m, "employee_salary") == Num(0x8000_0000)
    ensures MapToEmployee(Obj(m)).value.value.salary == -0x8000_0000
  {
  }

  /** A record without a salary (or age) cannot be mapped: unboxing `null` fails. */
  lemma MapToEmployeeNeedsSalary(m: map<string, Value>)
    requires "employee_salary" !in m
    ensures MapToEmployee(Obj(m)).Failure?
  {
  }

  /** Maps every element of a response list, in order; one failing element fails the whole list. */
  function MapAll(items: seq<Value>): (r: Result<seq<Option<EmployeeData>>, Unchecked>)
    ensures r.Success? <==> forall k :: 0 <= k < |items| ==> MapToEmployee(items[k]).Success?
    ensures r.Success? ==> |r.value| == |items|
    ensures r.Success? ==> forall k :: 0 <= k < |items| ==> MapToEmployee(items[k]) == Success(r.value[k])
    decreases |items|
  {
    if items == [] then Success([])
    else
      var head :- MapToEmployee(items[0]);
      var tail :- MapAll(items[1..]);
      Success([head] + tail)
  }

  /** The list under `data` in a successful response, if there is one. */
  function ListedItems(reply: Outcome): Option<seq<Value>> {
    if reply.Ok? && reply.body.Some? && Get(reply.body.value, DataKey).Arr?
    then Some(Get(reply.body.value, DataKey).items)
    else None
  }

  /**
   * `getAll`: one employee per element of the `data` list, in order, or an
   * `EmployeeException` for any failure on the way; never a partial list.
   */
  function GetAll(reply: Outcome): (r: Result<seq<Option<EmployeeData>>, EmployeeException>)
    ensures r.Failure? ==> r.error == EmployeeException(ListFailed)
    ensures ListedItems(reply).None? ==> r.Failure?
    ensures ListedItems(reply).Some? ==>
      (r.Success? <==> forall k :: 0 <= k < |ListedItems(reply).value| ==> MapToEmployee(ListedItems(reply).value[k]).Success?)
    ensures r.Success? ==>
      && ListedItems(reply).Some?
      && |r.value| == |ListedItems(reply).value|
      && forall k :: 0 <= k < |r.value| ==> MapToEmployee(ListedItems(reply).value[k]) == Success(r.value[k])
  {
    match reply
    case Ok(body) =>
      (match EnvelopeData(body)
       case Failure(_) => Failure(EmployeeException(ListFailed))
       case Success(data) =>
         match data
         case Arr(items) =>
           (match MapAll(items)
            case Success(listing) => Success(listing)
            case Failure(_) => Failure(EmployeeException(ListFailed)))
         case _ => Failure(EmployeeException(ListFailed)))  // `null.stream()`, or a failed cast to a list
    case _ => Failure(EmployeeException(ListFailed))
  }

  /** The provider's listing of `es` is read back as exactly `es`, in order. */
  lemma {:induction false} GetAllOfUpstream(es: seq<EmployeeData>)
    ensures var records := seq(|es|, k requires 0 <= k < |es| => Obj(ToUpstream(es[k])));
            GetAll(Ok(Some(map[DataKey := Arr(records)]))) == Success(seq(|es|, k requires 0 <= k < |es| => Some(es[k])))
  {
    var records := seq(|es|, k requires 0 <= k < |es| => Obj(ToUpstream(es[k])));
    var reply := Ok(Some(map[DataKey := Arr(records)]));
    forall k | 0 <= k < |records|
      ensures MapToEmployee(records[k]) == Success(Some(es[k]))
    {
      MapToEmployeeInvertsToUpstream(es[k]);
    }
    assert ListedItems(reply) == Some(records);
    var r := GetAll(reply);
    assert r.value == seq(|es|, k requires 0 <= k < |es| => Some(es[k]));
  }

  /**
   * `getById`: any client error (not only 404) and a `null` under `data` mean
   * "no such employee"; every other failure is an `EmployeeException`.
   */
  function GetById(reply: Outcome): (r: Result<Option<EmployeeData>, EmployeeException>)
    ensures reply.ClientError? ==> r == Success(None)
    ensures reply.OtherFailure? || reply == Ok(None) ==> r.Failure?
    ensures r.Failure? ==> r.error == EmployeeException(ReadFailed)
    ensures r == Success(None) <==>
      reply.ClientError? || (reply.Ok? && reply.body.Some? && Get(reply.body.value, DataKey) == Null)
    ensures r.Success? && r.value.Some? ==>
      reply.Ok? && reply.body.Some? && MapToEmployee(Get(reply.body.value, DataKey)) == Success(r.value)
    ensures reply.Ok? && reply.body.Some? && MapToEmployee(Get(reply.body.value, DataKey)).Success? ==>
      r == Success(MapToEmployee(Get(reply.body.value, DataKey)).value)
  {
    match reply
    case Ok(body) =>
      (match EnvelopeData(body)
       case Failure(_) => Failure(EmployeeException(ReadFailed))
       case Success(data) =>
         match MapToEmployee(data)
         case Success(found) => Success(found)
         case Failure(_) => Failure(EmployeeException(ReadFailed)))
    case ClientError(_) => Success(None)
    case OtherFailure => Failure(EmployeeException(ReadFailed))
  }

  /** The provider's record of `e` under `data` is read back as exactly `e`. */
  lemma GetByIdOfUpstream(e: EmployeeData)
    ensures GetById(Ok(Some(map[DataKey := Obj(ToUpstream(e))]))) == Success(Some(e))
  {
  }

  /** The body of a creation request: name, salary, age and title of `e`, and nothing else. */
  function CreateRequest(e: EmployeeData): (request: map<string, Value>)
    ensures request.Keys == RequestKeys
    ensures "id" !in request && "email" !in request
    ensures CastString(request["name"]) == Success(e.name) && CastString(request["title"]) == Success(e.title)
    ensures UnboxInteger(request["salary"]) == Success(e.salary) && UnboxInteger(request["age"]) == Success(e.age)
  {
    map["name" := FromJString(e.name), "salary" := Num(e.salary), "age" := Num(e.age), "title" := FromJString(e.title)]
  }

  /**
   * `create`: posts the four request fields of `employee` and maps the `data`
   * of the response; any failure is an `EmployeeException`.
   */
  method Create(employee: Employee, reply: Outcome) returns (sent: Request, r: Result<Option<EmployeeData>, EmployeeException>)
    ensures sent == Post(CreateRequest(employee.Value()))
    ensures r.Failure? ==> r.error == EmployeeException(CreateFailed)
    ensures r.Success? <==>
      reply.Ok? && reply.body.Some? && MapToEmployee(Get(reply.body.value, DataKey)).Success?
    ensures r.Success? ==> MapToEmployee(Get(reply.body.value, DataKey)) == Success(r.value)
  {
    var name := employee.GetName();
    var salary := employee.GetSalary();
    var age := employee.GetAge();
    var title := employee.GetTitle();
    var request: map<string, Value> := map[];
    request := request["name" := FromJString(name)];
    request := request["salary" := Num(salary)];
    request := request["age" := Num(age)];
    request := request["title" := FromJString(title)];
    sent := Post(request);
    r := Failure(EmployeeException(CreateFailed));
    if reply.Ok? {
      var data := EnvelopeData(reply.body);
      if data.Success? {
        var created := MapToEmployee(data.value);
        if created.Success? {
          r := Success(created.value);
        }
      }
    }
  }

  /**
   * How the delete exchange decides the result of `deleteById`: true exactly
   * when `data` is the boolean true, false on a client error, and an
   * `EmployeeException` on any other failure.
   */
  function DeleteOutcome(reply: Outcome): (r: Result<bool, EmployeeException>)
    ensures r == Success(true) <==> reply.Ok? && reply.body.Some? && Get(reply.body.value, DataKey) == Bool(true)
    ensures reply.ClientError? ==> r == Success(false)
    ensures r.Failure? <==> reply.OtherFailure? || reply == Ok(None)
    ensures r.Failure? ==> r.error == EmployeeException(DeleteFailed)
  {
    match reply
    case Ok(body) =>
      (match EnvelopeData(body)
       case Failure(_) => Failure(EmployeeException(DeleteFailed))
       case Success(data) => Success(data == Bool(true)))
    case ClientError(_) => Success(false)
    case OtherFailure => Failure(EmployeeException(DeleteFailed))
  }

  /**
   * `deleteById`: reads the employee by id, then deletes by the name read.
   * An absent employee gives false with no delete request issued; a failed
   * read is reported as a failed delete.
   */
  method DeleteById(id: string, lookup: Outcome, deletion: Outcome) returns (sent: seq<Request>, deleted: Result<bool, EmployeeException>)
    ensures |sent| >= 1 && sent[0] == ReadOne(id)
    ensures deleted.Failure? ==> deleted.error == EmployeeException(DeleteFailed)
    ensures GetById(lookup).Failure? ==> sent == [ReadOne(id)] && deleted.Failure?
    ensures GetById(lookup) == Success(None) ==> sent == [ReadOne(id)] && deleted == Success(false)
    ensures GetById(lookup).Success? && GetById(lookup).value.Some? ==>
      sent == [ReadOne(id), Delete(GetById(lookup).value.value.name)] && deleted == DeleteOutcome(deletion)
  {
    sent := [ReadOne(id)];
    var found := GetById(lookup);
    match found
    case Failure(_) =>
      deleted := Failure(EmployeeException(DeleteFailed));
    case Success(None) =>
      deleted := Success(false);
    case Success(Some(employee)) =>
      sent := sent + [Delete(employee.name)];
      deleted := DeleteOutcome(deletion);
  }
}
