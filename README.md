# Employee proxy: a Dafny model

This project models the core of a Spring Boot service that proxies an
upstream "mock employee" HTTP API. It covers four parts of the service:

- **the repository client** (`EmployeeRepository`): reads the provider's listing
  and single records, posts new employees and deletes by name. It renames the
  provider's `employee_*` fields to the employee's own. It sorts failed
  exchanges into "absent" and "error".
- **the service** (`EmployeeService`): the name search, the highest salary and
  the top-ten earners are all computed from a fresh listing. Lookup, creation
  and deletion go through the repository. The service rethrows repository
  failures as `EmployeeRuntimeException` and translates request maps into
  employees.
- **the employee entity** (`EmployeeModel`): a mutable class with six fields,
  getters and setters.
- **the request filter** (`JwtFilter`): bypasses the authentication and health
  paths. Every other request needs an `Authorization: Bearer <token>` header
  whose token validates.

Supporting Java behaviour lives in `JavaRuntime`:
- `null` as `Option`;
- 32-bit `int` with the wrap of `Number.intValue()`;
- the `(String)` and `(Integer)` casts with their `ClassCastException` and
  `NullPointerException`;
- string concatenation of `null`;
- `toLowerCase`, `startsWith` and `contains`.

**How the model stands in for I/O and Java runtime behaviour**
- No HTTP exchange is performed. Each exchange is an input `Outcome`:
  - `Ok` with an optional JSON body;
  - `ClientError` with a 4xx status;
  - `OtherFailure`.
- The operations that issue requests in sequence (`Create`, `DeleteById`,
  `CreateEmployee` and `DeleteEmployeeById`) also return the `Request`s they
  issued, in order.
- JSON values are the `Value` datatype.
- Token validation is a function parameter that returns `Invalid` or
  `Valid(subject)`.
- The service and repository operations are functions over these values.
- The state-changing parts are imperative, because the source changes state
  step by step there:
  - `Employee`'s setters;
  - `Create`, `CreateEmployeeFromMap`, `DeleteById`, `CreateEmployee` and
    `DeleteEmployeeById`, which call getters, setters and the repository in
    sequence;
  - the filter's effect on the response, the security context and the filter
    chain (`Exchange`).

Paths are relative to the repository root.

## Model

| member | source | states |
|---|---|---|
| JavaRuntime.IntValue | api/src/main/java/com/reliaquest/api/repository/EmployeeRepositoryImpl.java:160-161 | `Number.intValue()` of an integral JSON number: the result is congruent to the number modulo 2^32 and lies in the `int` range; numbers already in range are kept |
| JavaRuntime.Get | api/src/main/java/com/reliaquest/api/repository/EmployeeRepositoryImpl.java:158-163 | `Map.get` yields the value stored under a present key and `null` for an absent one |
| JavaRuntime.NumberIntValue | api/src/main/java/com/reliaquest/api/repository/EmployeeRepositoryImpl.java:160-161 | `((Number) v).intValue()` succeeds exactly for numbers, with the number's `int` value; `null` is a `NullPointerException`, anything else a `ClassCastException` |
| JavaRuntime.CastString | api/src/main/java/com/reliaquest/api/repository/EmployeeRepositoryImpl.java:158-163 | `(String) v` succeeds exactly for text and `null`; anything else is a `ClassCastException` |
| JavaRuntime.FromJString | api/src/main/java/com/reliaquest/api/repository/EmployeeRepositoryImpl.java:95-98 | a Java string or `null` put into a JSON map is cast back by `(String)` to itself |
| JavaRuntime.UnboxInteger | api/src/main/java/com/reliaquest/api/service/EmployeeService.java:44-45 | `(Integer)` followed by unboxing to `int` succeeds exactly for a number in the `int` range (larger ones arrive as `Long`), keeps its value, and fails with a `NullPointerException` on `null` and a `ClassCastException` on anything else |
| JavaRuntime.Concat | api/src/main/java/com/reliaquest/api/service/EmployeeService.java:151 | string concatenation keeps the left operand as a prefix and appends the right one, or "null" when it is `null` |
| JavaRuntime.StartsWith | api/src/main/java/com/reliaquest/api/security/JwtFilter.java:69 | `String.startsWith` holds exactly when the prefix is a prefix of the string |
| JavaRuntime.Contains | api/src/main/java/com/reliaquest/api/service/EmployeeService.java:76 | a string contains only fragments no longer than itself |
| JavaRuntime.ToLowerCase | api/src/main/java/com/reliaquest/api/service/EmployeeService.java:76 | lower-casing keeps the length and maps every character to its lower-case form |
| JavaRuntime.ToLowerCaseIdempotent | api/src/main/java/com/reliaquest/api/service/EmployeeService.java:76 | lower-casing twice is lower-casing once |
| JavaRuntime.ContainsIffOccurs | api/src/main/java/com/reliaquest/api/service/EmployeeService.java:76 | `String.contains` holds exactly when the fragment occurs at some index |
| JavaRuntime.ContainsEmpty | api/src/main/java/com/reliaquest/api/service/EmployeeService.java:76 | every string contains the empty string |
| JavaRuntime.ContainsNeedsFirstChar | api/src/main/java/com/reliaquest/api/service/EmployeeService.java:76 | a string none of whose characters is the fragment's first one does not contain the fragment |
| EmployeeModel.Employee.constructor | api/src/main/java/com/reliaquest/api/model/Employee.java:27-34 | the all-fields constructor stores each argument in its field |
| EmployeeModel.Employee.Default | api/src/main/java/com/reliaquest/api/model/Employee.java:39 | the no-argument constructor leaves strings `null` and numbers 0 |
| EmployeeModel.Employee.GetId | api/src/main/java/com/reliaquest/api/model/Employee.java:46-48 | returns the stored id |
| EmployeeModel.Employee.GetName | api/src/main/java/com/reliaquest/api/model/Employee.java:64-66 | returns the stored name |
| EmployeeModel.Employee.GetSalary | api/src/main/java/com/reliaquest/api/model/Employee.java:82-84 | returns the stored salary |
| EmployeeModel.Employee.GetAge | api/src/main/java/com/reliaquest/api/model/Employee.java:100-102 | returns the stored age |
| EmployeeModel.Employee.GetTitle | api/src/main/java/com/reliaquest/api/model/Employee.java:118-120 | returns the stored title |
| EmployeeModel.Employee.GetEmail | api/src/main/java/com/reliaquest/api/model/Employee.java:136-138 | returns the stored email |
| EmployeeModel.Employee.SetId | api/src/main/java/com/reliaquest/api/model/Employee.java:55-57 | replaces the id and leaves the other five fields as they were |
| EmployeeModel.Employee.SetName | api/src/main/java/com/reliaquest/api/model/Employee.java:73-75 | replaces the name and leaves the other five fields as they were |
| EmployeeModel.Employee.SetSalary | api/src/main/java/com/reliaquest/api/model/Employee.java:91-93 | replaces the salary and leaves the other five fields as they were |
| EmployeeModel.Employee.SetAge | api/src/main/java/com/reliaquest/api/model/Employee.java:109-111 | replaces the age and leaves the other five fields as they were |
| EmployeeModel.Employee.SetTitle | api/src/main/java/com/reliaquest/api/model/Employee.java:127-129 | replaces the title and leaves the other five fields as they were |
| EmployeeModel.Employee.SetEmail | api/src/main/java/com/reliaquest/api/model/Employee.java:145-147 | replaces the email and leaves the other five fields as they were |
| EmployeeRepository.EnvelopeData | api/src/main/java/com/reliaquest/api/repository/EmployeeRepositoryImpl.java:72 | `getBody().get("data")` fails with a `NullPointerException` exactly when there is no body; otherwise it is the `data` entry, or `null` when there is none |
| EmployeeRepository.MapToEmployee | api/src/main/java/com/reliaquest/api/repository/EmployeeRepositoryImpl.java:155-164 | `null` maps to `null`; a record maps exactly when its six provider fields have the cast types, and then each employee field is the renamed provider field (numbers truncated to `int`); any other value is a `ClassCastException` |
| EmployeeRepository.RenamedDetermines | api/src/main/java/com/reliaquest/api/repository/EmployeeRepositoryImpl.java:157-163 | a provider record renames to at most one employee |
| EmployeeRepository.ToUpstream | api/src/main/java/com/reliaquest/api/repository/EmployeeRepositoryImpl.java:157-163 | the provider record of an employee has exactly the six provider keys and renames to that employee |
| EmployeeRepository.MapToEmployeeInvertsToUpstream | api/src/main/java/com/reliaquest/api/repository/EmployeeRepositoryImpl.java:155-164 | mapping the provider record of an employee gives that employee back |
| EmployeeRepository.MapToEmployeeIgnoresOtherKeys | api/src/main/java/com/reliaquest/api/repository/EmployeeRepositoryImpl.java:157-163 | keys outside the six provider fields do not affect the mapping |
| EmployeeRepository.MapToEmployeeTruncatesSalary | api/src/main/java/com/reliaquest/api/repository/EmployeeRepositoryImpl.java:160 | a salary of 2^31 reads as -2^31 |
| EmployeeRepository.MapToEmployeeNeedsSalary | api/src/main/java/com/reliaquest/api/repository/EmployeeRepositoryImpl.java:160 | a record without a salary cannot be mapped |
| EmployeeRepository.MapAll | api/src/main/java/com/reliaquest/api/repository/EmployeeRepositoryImpl.java:52 | mapping a list succeeds exactly when every element maps, and then element k of the result is the mapping of element k |
| EmployeeRepository.GetAll | api/src/main/java/com/reliaquest/api/repository/EmployeeRepositoryImpl.java:46-57 | one employee per element of the `data` list, in order; any failure (failed exchange, empty body, `data` not a list, an element that cannot be mapped) is the single exception "Error fetching all employees", never a partial list |
| EmployeeRepository.GetAllOfUpstream | api/src/main/java/com/reliaquest/api/repository/EmployeeRepositoryImpl.java:46-57 | a listing of provider records is read back as exactly the listed employees, in order |
| EmployeeRepository.GetById | api/src/main/java/com/reliaquest/api/repository/EmployeeRepositoryImpl.java:67-81 | absent exactly on a client error or a `null` record; the mapped employee whenever the record under `data` maps, and an employee only then; every other failure is "Error fetching employee by id" |
| EmployeeRepository.GetByIdOfUpstream | api/src/main/java/com/reliaquest/api/repository/EmployeeRepositoryImpl.java:67-81 | the provider's record of an employee is read back as that employee |
| EmployeeRepository.CreateRequest | api/src/main/java/com/reliaquest/api/repository/EmployeeRepositoryImpl.java:94-98 | the creation request has exactly the keys name, salary, age and title (no id, no email), and each casts back to the employee's field |
| EmployeeRepository.Create | api/src/main/java/com/reliaquest/api/repository/EmployeeRepositoryImpl.java:91-111 | posts the creation request of the employee's current fields; succeeds exactly when the response's `data` maps, with that employee; otherwise "Failed to create employee" |
| EmployeeRepository.DeleteOutcome | api/src/main/java/com/reliaquest/api/repository/EmployeeRepositoryImpl.java:136-146 | the delete exchange yields true exactly when `data` is the boolean true, false on a client error, and "Error deleting employee" exactly on any other failure |
| EmployeeRepository.DeleteById | api/src/main/java/com/reliaquest/api/repository/EmployeeRepositoryImpl.java:121-147 | reads by id first; an absent employee gives false and no delete request; a failed read gives "Error deleting employee"; otherwise deletes by the name read and reports the delete exchange's result |
| EmployeeService.NonNull | api/src/main/java/com/reliaquest/api/service/EmployeeService.java:75-76 | a listing is usable by the stream views exactly when it has no `null` employee, and then keeps every employee in place |
| EmployeeService.Employees | api/src/main/java/com/reliaquest/api/service/EmployeeService.java:110-111 | the employees the views stream over: present exactly when the listing was read and holds no `null`, and then element k is the listing's element k |
| EmployeeService.GetAllEmployees | api/src/main/java/com/reliaquest/api/service/EmployeeService.java:56-63 | the repository's listing unchanged, or its failure wrapped as "Failed to fetch all employees" with the repository exception as cause |
| EmployeeService.Search | api/src/main/java/com/reliaquest/api/service/EmployeeService.java:75-77 | the result is no longer than the listing and holds only listed employees whose lower-cased name contains the lower-cased fragment |
| EmployeeService.SearchKeepsListingOrder | api/src/main/java/com/reliaquest/api/service/EmployeeService.java:75-77 | the search result is a subsequence of the listing |
| EmployeeService.SearchKeepsExactlyTheMatches | api/src/main/java/com/reliaquest/api/service/EmployeeService.java:76 | every matching employee is kept as often as it is listed and every other one is dropped |
| EmployeeService.SearchEmptyFragment | api/src/main/java/com/reliaquest/api/service/EmployeeService.java:76 | the empty fragment keeps the whole listing |
| EmployeeService.SearchIdempotent | api/src/main/java/com/reliaquest/api/service/EmployeeService.java:75-77 | searching a search result again with the same fragment changes nothing |
| EmployeeService.SearchEmployeesByName | api/src/main/java/com/reliaquest/api/service/EmployeeService.java:72-81 | the matches of a fresh listing in listing order; a `null` employee or name escapes as `NullPointerException`; a repository failure becomes "Failed to search employees by name : " followed by the fragment |
| EmployeeService.MaxSalary | api/src/main/java/com/reliaquest/api/service/EmployeeService.java:110-113 | 0 for no employees; otherwise a salary that some employee earns and no employee exceeds |
| EmployeeService.GetHighestSalary | api/src/main/java/com/reliaquest/api/service/EmployeeService.java:107-117 | the maximum salary of a fresh listing, 0 when it is empty; a `null` employee escapes as `NullPointerException`; a repository failure is wrapped |
| EmployeeService.Insert | api/src/main/java/com/reliaquest/api/service/EmployeeService.java:129 | inserting adds exactly one element |
| EmployeeService.InsertKeepsOrder | api/src/main/java/com/reliaquest/api/service/EmployeeService.java:129 | inserting into a list sorted by descending salary keeps it sorted |
| EmployeeService.InsertPermutes | api/src/main/java/com/reliaquest/api/service/EmployeeService.java:129 | inserting adds the employee and keeps all others |
| EmployeeService.InsertStable | api/src/main/java/com/reliaquest/api/service/EmployeeService.java:129 | the inserted employee stays ahead of those earning the same |
| EmployeeService.SortBySalaryDesc | api/src/main/java/com/reliaquest/api/service/EmployeeService.java:128-129 | the sort keeps the number of employees |
| EmployeeService.SortIsOrdered | api/src/main/java/com/reliaquest/api/service/EmployeeService.java:129 | the sort orders by non-increasing salary |
| EmployeeService.SortIsPermutation | api/src/main/java/com/reliaquest/api/service/EmployeeService.java:128-129 | the sort is a permutation of the listing |
| EmployeeService.SortIsStable | api/src/main/java/com/reliaquest/api/service/EmployeeService.java:128-129 | employees of equal salary keep their listing order (`Stream.sorted` is stable on ordered streams) |
| EmployeeService.WithSalaryAppend | api/src/main/java/com/reliaquest/api/service/EmployeeService.java:128-129 | selecting the employees of one salary distributes over concatenation |
| EmployeeService.Names | api/src/main/java/com/reliaquest/api/service/EmployeeService.java:131 | one name per employee, in order |
| EmployeeService.TopEarners | api/src/main/java/com/reliaquest/api/service/EmployeeService.java:128-130 | the first min(10, n) employees of the sorted listing |
| EmployeeService.TopEarnersRanked | api/src/main/java/com/reliaquest/api/service/EmployeeService.java:128-130 | the top earners are in descending salary order |
| EmployeeService.TopEarnersSplit | api/src/main/java/com/reliaquest/api/service/EmployeeService.java:130 | the sorted listing is the top earners followed by the rest |
| EmployeeService.TopEarnersEarnMost | api/src/main/java/com/reliaquest/api/service/EmployeeService.java:128-130 | the top earners are drawn from the listing, and nobody left out earns more than any of them |
| EmployeeService.TopEarnersTakeFirstListed | api/src/main/java/com/reliaquest/api/service/EmployeeService.java:128-130 | among employees of one salary, those ranked are a prefix of those listed |
| EmployeeService.WithSalaryHead | api/src/main/java/com/reliaquest/api/service/EmployeeService.java:129 | the first employee of a salary is the earliest listed one with it |
| EmployeeService.SortedHeadEarnsMost | api/src/main/java/com/reliaquest/api/service/EmployeeService.java:129 | the sort puts a highest salary first |
| EmployeeService.SortedHeadListedFirst | api/src/main/java/com/reliaquest/api/service/EmployeeService.java:128-129 | of the employees earning the most, the sort puts the earliest listed first |
| EmployeeService.TopTen | api/src/main/java/com/reliaquest/api/service/EmployeeService.java:128-132 | min(10, n) names, each the name of the top earner of the same rank |
| EmployeeService.TopTenStartsWithHighestEarner | api/src/main/java/com/reliaquest/api/service/EmployeeService.java:128-132 | the first name is that of a highest earner, and of the first listed when several earn the most |
| EmployeeService.InsertLast | api/src/main/java/com/reliaquest/api/service/EmployeeService.java:129 | an employee earning less than everyone ranked goes last |
| EmployeeService.SortOfRisingIsReversed | api/src/main/java/com/reliaquest/api/service/EmployeeService.java:128-129 | a listing whose salaries rise strictly is ranked back to front |
| EmployeeService.TopTenOfRising | api/src/main/java/com/reliaquest/api/service/EmployeeService.java:128-132 | with strictly rising salaries, name k of the ranking is that of the k-th employee from the end |
| EmployeeService.TopTenOfFifteen | api/src/test/java/com/reliaquest/api/service/EmployeeServiceTest.java:169-179 | fifteen employees earning 1100 to 2500 give ten names, the last-listed (best-paid) first |
| EmployeeService.SampleHighestSalary | api/src/test/java/com/reliaquest/api/service/EmployeeServiceTest.java:137-141 | the highest salary of John (1000), Jane (2000) and Jake (3000) is 3000 |
| EmployeeService.SearchNothing | api/src/main/java/com/reliaquest/api/service/EmployeeService.java:75-77 | a search that matches no employee returns the empty list |
| EmployeeService.SearchSkipsFirstOfThree | api/src/main/java/com/reliaquest/api/service/EmployeeService.java:75-77 | when only the last two of three employees match, the search returns those two in order |
| EmployeeService.SampleSearch | api/src/test/java/com/reliaquest/api/service/EmployeeServiceTest.java:72-78 | searching John, Jane and Jake for "Ja" finds Jane and Jake, case-insensitively |
| EmployeeService.SampleSearchNoMatch | api/src/test/java/com/reliaquest/api/service/EmployeeServiceTest.java:85-89 | searching John and Jane for "zzz" finds nobody |
| EmployeeService.GetTop10HighestEarningEmployeeNames | api/src/main/java/com/reliaquest/api/service/EmployeeService.java:125-136 | the ranking of a fresh listing; a `null` employee escapes as `NullPointerException`; a repository failure is wrapped |
| EmployeeService.GetEmployeeById | api/src/main/java/com/reliaquest/api/service/EmployeeService.java:90-99 | the employee when found; "Employee not found for id: " plus the id, without a cause, when absent; "Failed to fetch employee by id: " plus the id, with the repository exception as cause, when the read failed |
| EmployeeService.FieldsFromMap | api/src/main/java/com/reliaquest/api/service/EmployeeService.java:41-48 | a request map converts exactly when name and title are text or `null` and salary and age are numbers in the `int` range; id and email stay `null`; the result's creation request agrees with the map on its four keys |
| EmployeeService.FieldsFromMapInvertsCreateRequest | api/src/main/java/com/reliaquest/api/service/EmployeeService.java:41-48 | converting the creation request of an employee gives that employee back without id and email |
| EmployeeService.FieldsFromMapIgnoresOtherKeys | api/src/main/java/com/reliaquest/api/service/EmployeeService.java:41-48 | keys other than name, salary, age and title are ignored |
| EmployeeService.FieldsFromMapMissingSalary | api/src/main/java/com/reliaquest/api/service/EmployeeService.java:44 | a missing salary is a `NullPointerException` |
| EmployeeService.CreateEmployeeFromMap | api/src/main/java/com/reliaquest/api/service/EmployeeService.java:41-48 | a new employee whose fields are the converted map, or the cast's exception |
| EmployeeService.CreateEmployee | api/src/main/java/com/reliaquest/api/service/EmployeeService.java:145-152 | a `null` body, a non-object body or an unconvertible one fails with its unchecked exception before anything is sent; otherwise posts the converted employee, returns what the repository created, or wraps its failure as "Failed to create employee: " plus the name |
| EmployeeService.DeleteEmployeeById | api/src/main/java/com/reliaquest/api/service/EmployeeService.java:162-175 | succeeds exactly when the lookup finds the employee, the repository's second read finds it and the delete returns true, and then returns the name of the first lookup; a failed lookup is its own exception with nothing else sent; after a successful lookup the repository's read is always sent, and the delete request (with the name of that second read) exactly when it finds the employee; a false result is "Employee not found or could not be deleted for id: " without a cause; a repository failure is "Failed to delete employee by id: " with the cause |
| JwtFilter.ShouldNotFilter | api/src/main/java/com/reliaquest/api/security/JwtFilter.java:67-70 | a request skips the token check exactly when "/api/v1/auth/" or "/api/v1/health" is a prefix of its path |
| JwtFilter.BypassClosedUnderExtension | api/src/main/java/com/reliaquest/api/security/JwtFilter.java:67-70 | extending a bypassed path keeps it bypassed |
| JwtFilter.BypassExamples | api/src/test/java/com/reliaquest/api/security/JwtFilterTest.java:95-116 | the token and health endpoints are bypassed, the employee endpoint and "/api/v1/auth" are not, and "/api/v1/healthz" is |
| JwtFilter.BearerToken | api/src/main/java/com/reliaquest/api/security/JwtFilter.java:42 | the token is what follows "Bearer " in the header |
| JwtFilter.BearerTokenRoundTrip | api/src/main/java/com/reliaquest/api/security/JwtFilter.java:41-42 | prefixing a token with "Bearer " and stripping seven characters gives the token back |
| JwtFilter.Decide | api/src/main/java/com/reliaquest/api/security/JwtFilter.java:40-56 | a request is admitted exactly when the header is present, starts with "Bearer " and its remainder validates, and then the principal is the validated subject |
| JwtFilter.DecideSeesOnlyToken | api/src/main/java/com/reliaquest/api/security/JwtFilter.java:42-44 | the validator is consulted on the token alone |
| JwtFilter.NoBearerNoAdmission | api/src/main/java/com/reliaquest/api/security/JwtFilter.java:41-55 | a missing or non-bearer header is rejected whatever the validator says |
| JwtFilter.LowerCaseSchemeRejected | api/src/main/java/com/reliaquest/api/security/JwtFilter.java:41 | the scheme is compared case-sensitively |
| JwtFilter.DoFilterInternal | api/src/main/java/com/reliaquest/api/security/JwtFilter.java:38-57 | a rejected request gets status 401, no authentication and no chain call; an admitted one keeps its status, is authenticated as the principal and goes down the chain exactly once |

## Left out

- HTTP transport, JSON parsing and the `RestTemplate` configuration are not modelled. An exchange is its `Outcome`. A body that cannot be read is `OtherFailure`.
- Floating-point numbers are left out. A JSON number is an integer. Fractional numbers, which `intValue()` would truncate and `(Integer)` would reject, are not represented.
- `toLowerCase` folds only ASCII letters. Locale-dependent and non-ASCII case mapping is not modelled.
- `JwtUtil` (signing key, expiry, wall clock and token generation) is not part of this model. Validation is a parameter.
- Logging is left out. It has no effect on results.
- The controllers, the application configuration, the exception classes and the `DeleteMockEmployeeInput` DTO are not modelled. The exceptions are datatypes.
- EmployeeRepository.EmployeeException: holds only its message. The underlying exception the source passes as its cause (EmployeeRepositoryImpl.java lines 55, 79, 109 and 145) is dropped, because the transport failures it would carry are not modelled. The service's `EmployeeRuntimeException` does keep the `EmployeeException` it wraps.
- Concurrency and the thread-local security context are not modelled. The security context is a field of `Exchange`.
- Listings and results are employee values, not shared `Employee` objects. Aliasing between the listing and its callers is not captured.
- EmployeeService.SearchEmployeesByName: the fragment is never `null`. A `null` fragment, which would throw a `NullPointerException`, is not modelled.
- EmployeeService.DeleteEmployeeById: the source's `getEmployeeById` call is modelled by its result, with the same request trace.
- JwtFilter.DoFilterInternal: the request itself is represented only by its `Authorization` header, and the path bypass is a separate predicate, because it is Spring's `OncePerRequestFilter.doFilter`, the base class of the filter, that calls `shouldNotFilter` and invokes `doFilterInternal` only when it returns false.

Where the behaviour is subtler than the service's own documentation suggests, the model follows the code:
- **Not-found handling**: every 4xx client error counts as "not found" in `getById` and in `deleteById`, not only 404.
- **Conversion failures in `createEmployee`**: a missing or mistyped request field raises the cast's own unchecked exception; no validation error is produced.
- **Missing provider fields**: a missing string field maps to `null`, while a missing number field fails the mapping.
- **`deleteById`**: the employee is read twice. The service's lookup comes first, then the repository's own read. The delete request carries the name from the second read, and the service returns the name from the first.
