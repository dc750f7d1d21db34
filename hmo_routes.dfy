/**
 * HMOController (api/routes/hmo.php): the dispatch of a request to one
 * handler, the pruning of empty list filters, and the authorization gate
 * and record construction of createHMOEnrollment.
 */
module HmoRoutes {

  import opened Wrappers
  import opened ByteStrings
  import opened PhpValues
  import opened Jwt
  import opened Auth

  /** The handler handleRequest selects. */
  datatype Handler =
    | ListPlans
    | ShowPlan(id: Bytes)
    | ListProviders
    | ListEnrollments
    | CreatePlan
    | CreateEnrollment
    | UpdatePlan(id: Bytes)
    | DeletePlan(id: Bytes)
    | MethodNotAllowed

  const GET: Bytes := Ascii("GET")
  const POST: Bytes := Ascii("POST")
  const PUT: Bytes := Ascii("PUT")
  const PATCH: Bytes := Ascii("PATCH")
  const DELETE: Bytes := Ascii("DELETE")
  const PROVIDERS: Bytes := Ascii("providers")
  const ENROLLMENTS: Bytes := Ascii("enrollments")

  /** handleRequest($method, $id, $subResource); None stands for null. */
  function HandleRequest(verb: Bytes, id: Option<Bytes>, subResource: Option<Bytes>): Handler
  {
    if verb == GET then
      if id.None? then
        if subResource == Some(PROVIDERS) then ListProviders
        else if subResource == Some(ENROLLMENTS) then ListEnrollments
        else ListPlans
      else ShowPlan(id.value)
    else if verb == POST then
      if subResource == Some(ENROLLMENTS) then CreateEnrollment else CreatePlan
    else if verb == PUT || verb == PATCH then
      if id.None? then MethodNotAllowed else UpdatePlan(id.value)
    else if verb == DELETE then
      if id.None? then MethodNotAllowed else DeletePlan(id.value)
    else MethodNotAllowed
  }

  /** The route table, one row per (verb, id, sub-resource) case it serves. */
  predicate Route(verb: Bytes, id: Option<Bytes>, sub: Option<Bytes>, h: Handler)
  {
    || (verb == GET && id.None? && sub == Some(PROVIDERS) && h == ListProviders)
    || (verb == GET && id.None? && sub == Some(ENROLLMENTS) && h == ListEnrollments)
    || (verb == GET && id.None? && sub != Some(PROVIDERS) && sub != Some(ENROLLMENTS) && h == ListPlans)
    || (verb == GET && id.Some? && h == ShowPlan(id.value))
    || (verb == POST && sub == Some(ENROLLMENTS) && h == CreateEnrollment)
    || (verb == POST && sub != Some(ENROLLMENTS) && h == CreatePlan)
    || ((verb == PUT || verb == PATCH) && id.Some? && h == UpdatePlan(id.value))
    || (verb == DELETE && id.Some? && h == DeletePlan(id.value))
    || (verb !in {GET, POST, PUT, PATCH, DELETE} && h == MethodNotAllowed)
    || (verb in {PUT, PATCH, DELETE} && id.None? && h == MethodNotAllowed)
  }

  lemma MethodsDistinct()
    ensures GET != POST && GET != PUT && GET != PATCH && GET != DELETE
    ensures POST != PUT && POST != PATCH && POST != DELETE
    ensures PUT != PATCH && PUT != DELETE && PATCH != DELETE
    ensures PROVIDERS != ENROLLMENTS
  {
    assert GET[0] != PUT[0] && POST[1] != PATCH[1];
  }

  /** Every request selects exactly one handler: the one its row of the table names. */
  lemma DispatchFollowsTable(verb: Bytes, id: Option<Bytes>, sub: Option<Bytes>, h: Handler)
    ensures HandleRequest(verb, id, sub) == h <==> Route(verb, id, sub, h)
  {
    MethodsDistinct();
  }

  /** methodNotAllowed answers an unknown method, and PUT, PATCH or DELETE without an id. */
  lemma MethodNotAllowedCases(verb: Bytes, id: Option<Bytes>, sub: Option<Bytes>)
    ensures HandleRequest(verb, id, sub) == MethodNotAllowed <==>
      verb !in {GET, POST, PUT, PATCH, DELETE} || (verb in {PUT, PATCH, DELETE} && id.None?)
  {
    DispatchFollowsTable(verb, id, sub, MethodNotAllowed);
  }

  /** POST ignores the id; GET with an id ignores the sub-resource. */
  lemma IgnoredArguments(id1: Option<Bytes>, id2: Option<Bytes>, id: Bytes, s1: Option<Bytes>, s2: Option<Bytes>)
    ensures HandleRequest(POST, id1, s1) == HandleRequest(POST, id2, s1)
    ensures HandleRequest(GET, Some(id), s1) == HandleRequest(GET, Some(id), s2) == ShowPlan(id)
  {
    MethodsDistinct();
  }

  // ---- Filter pruning: array_filter($filters, fn($v) => $v !== null && $v !== '') ----

  predicate KeepFilter(v: Json)
  {
    v != JNull && v != JStr([])
  }

  /** array_filter with that callback: keys, values and order of the kept entries are preserved. */
  function PruneFilters(entries: seq<(Bytes, Json)>): (r: seq<(Bytes, Json)>)
    ensures |r| <= |entries|
    decreases |entries|
  {
    if entries == [] then []
    else (if KeepFilter(entries[0].1) then [entries[0]] else []) + PruneFilters(entries[1..])
  }

  /** An entry survives exactly when it was there and its value is neither null nor ''. */
  lemma {:induction false} PruneFiltersMembers(entries: seq<(Bytes, Json)>, e: (Bytes, Json))
    ensures e in PruneFilters(entries) <==> e in entries && KeepFilter(e.1)
    decreases |entries|
  {
    if entries != [] {
      PruneFiltersMembers(entries[1..], e);
      assert entries == [entries[0]] + entries[1..];
    }
  }

  /** Pruning a concatenation prunes each part in place, so the order is kept. */
  lemma {:induction false} PruneFiltersAppend(a: seq<(Bytes, Json)>, b: seq<(Bytes, Json)>)
    ensures PruneFilters(a + b) == PruneFilters(a) + PruneFilters(b)
    decreases |a|
  {
    if a == [] {
      assert a + b == b;
    } else {
      var head := if KeepFilter(a[0].1) then [a[0]] else [];
      assert (a + b)[0] == a[0];
      assert (a + b)[1..] == a[1..] + b;
      assert PruneFilters(a + b) == head + PruneFilters(a[1..] + b);
      PruneFiltersAppend(a[1..], b);
      assert PruneFilters(a) == head + PruneFilters(a[1..]);
    }
  }

  /** Pruning twice is pruning once. */
  lemma {:induction false} PruneFiltersIdempotent(entries: seq<(Bytes, Json)>)
    ensures PruneFilters(PruneFilters(entries)) == PruneFilters(entries)
    decreases |entries|
  {
    if entries != [] {
      var head := if KeepFilter(entries[0].1) then [entries[0]] else [];
      PruneFiltersAppend(head, PruneFilters(entries[1..]));
      PruneFiltersIdempotent(entries[1..]);
      if head != [] {
        assert head[1..] == [];
      }
    }
  }

  /** Falsy values other than null and '' are kept: '0', 0 and false stay filters. */
  lemma FalsyFiltersKept(key: Bytes)
    ensures PruneFilters([(key, JStr([DIGIT_ZERO]))]) == [(key, JStr([DIGIT_ZERO]))]
    ensures PruneFilters([(key, JInt(0))]) == [(key, JInt(0))]
    ensures PruneFilters([(key, JBool(false))]) == [(key, JBool(false))]
    ensures PruneFilters([(key, JNull)]) == [] && PruneFilters([(key, JStr([]))]) == []
  {
  }

  const PROVIDER_ID: Bytes := Ascii("provider_id")
  const IS_ACTIVE: Bytes := Ascii("is_active")
  const STATUS: Bytes := Ascii("status")

  /** The filters of getHMOPlans, from the request values of provider_id and is_active. */
  function PlanFilters(providerId: Json, isActive: Json): seq<(Bytes, Json)>
  {
    PruneFilters([(PROVIDER_ID, providerId), (IS_ACTIVE, isActive)])
  }

  /** The filters of getHMOEnrollments, from the request values of employee_id and status. */
  function EnrollmentFilters(employeeId: Json, status: Json): seq<(Bytes, Json)>
  {
    PruneFilters([(EMPLOYEE_ID, employeeId), (STATUS, status)])
  }

  lemma PlanFiltersKept(providerId: Json, isActive: Json)
    ensures (PROVIDER_ID, providerId) in PlanFilters(providerId, isActive) <==> KeepFilter(providerId)
    ensures (IS_ACTIVE, isActive) in PlanFilters(providerId, isActive) <==> KeepFilter(isActive)
    ensures |PlanFilters(providerId, isActive)| == (if KeepFilter(providerId) then 1 else 0) + (if KeepFilter(isActive) then 1 else 0)
  {
    assert PROVIDER_ID != IS_ACTIVE by { assert PROVIDER_ID[0] != IS_ACTIVE[0]; }
    var entries := [(PROVIDER_ID, providerId), (IS_ACTIVE, isActive)];
    PruneFiltersMembers(entries, (PROVIDER_ID, providerId));
    PruneFiltersMembers(entries, (IS_ACTIVE, isActive));
    assert entries[1..] == [(IS_ACTIVE, isActive)] && [(IS_ACTIVE, isActive)][1..] == [];
  }

  lemma EnrollmentFiltersKept(employeeId: Json, status: Json)
    ensures (EMPLOYEE_ID, employeeId) in EnrollmentFilters(employeeId, status) <==> KeepFilter(employeeId)
    ensures (STATUS, status) in EnrollmentFilters(employeeId, status) <==> KeepFilter(status)
    ensures |EnrollmentFilters(employeeId, status)| == (if KeepFilter(employeeId) then 1 else 0) + (if KeepFilter(status) then 1 else 0)
  {
    assert EMPLOYEE_ID != STATUS by { assert EMPLOYEE_ID[0] != STATUS[0]; }
    var entries := [(EMPLOYEE_ID, employeeId), (STATUS, status)];
    PruneFiltersMembers(entries, (EMPLOYEE_ID, employeeId));
    PruneFiltersMembers(entries, (STATUS, status));
    assert entries[1..] == [(STATUS, status)] && [(STATUS, status)][1..] == [];
  }

  // ---- createHMOEnrollment ----

  const SYSTEM_ADMIN: Bytes := Ascii("System Admin")
  const HR_MANAGER: Bytes := Ascii("HR Manager")
  const ACTIVE: Bytes := Ascii("Active")
  const PLAN_ID: Bytes := Ascii("plan_id")
  const MONTHLY_DEDUCTION: Bytes := Ascii("monthly_deduction")
  const ENROLLMENT_DATE: Bytes := Ascii("enrollment_date")
  const EFFECTIVE_DATE: Bytes := Ascii("effective_date")

  /** The record handed to HMO::createHMOEnrollment. */
  datatype Enrollment = Enrollment(
    employeeId: int,
    planId: int,
    status: Bytes,
    monthlyDeduction: Json,
    enrollmentDate: Json,
    effectiveDate: Json)

  /** `isset($data[$key]) ? $data[$key] : date('Y-m-d')`, with today's date as a parameter. */
  function OrToday(data: map<Bytes, Json>, key: Bytes, today: Bytes): Json
  {
    if Index(JObject(data), key) != JNull then Index(JObject(data), key) else JStr(today)
  }

  function BuildEnrollment(data: map<Bytes, Json>, today: Bytes): Enrollment
  {
    Enrollment(
      IntCast(Index(JObject(data), EMPLOYEE_ID)),
      IntCast(Index(JObject(data), PLAN_ID)),
      ACTIVE,
      Index(JObject(data), MONTHLY_DEDUCTION),
      OrToday(data, ENROLLMENT_DATE, today),
      OrToday(data, EFFECTIVE_DATE, today))
  }

  /** How createHMOEnrollment ends, given validateRequired's errors. */
  datatype CreateOutcome =
    | Forbidden
    | ValidationFailed(errors: seq<Bytes>)
    | Created(record: Enrollment)

  /** The authorization gate: only System Admin and HR Manager may enroll. */
  predicate MayEnroll(auth: AuthMiddleware)
    reads auth.globals
  {
    auth.HasAnyRole([SYSTEM_ADMIN, HR_MANAGER])
  }

  function CreateEnrollmentOutcome(auth: AuthMiddleware, errors: seq<Bytes>,
                                   data: map<Bytes, Json>, today: Bytes): CreateOutcome
    reads auth.globals
  {
    if !MayEnroll(auth) then Forbidden
    else if errors != [] then ValidationFailed(errors)
    else Created(BuildEnrollment(data, today))
  }

  /**
   * forbidden is chosen exactly when hasAnyRole(['System Admin', 'HR Manager'])
   * is false; a record is built only for one of those two roles.
   */
  lemma EnrollmentGate(auth: AuthMiddleware, errors: seq<Bytes>, data: map<Bytes, Json>, today: Bytes)
    ensures CreateEnrollmentOutcome(auth, errors, data, today) == Forbidden <==> !MayEnroll(auth)
    ensures CreateEnrollmentOutcome(auth, errors, data, today).Created? ==>
      (auth.HasRole(SYSTEM_ADMIN) || auth.HasRole(HR_MANAGER)) && errors == []
  {
    AnyRoleIsSomeRole(auth, [SYSTEM_ADMIN, HR_MANAGER]);
  }

  /**
   * The record always has status 'Active', takes the ids through (int),
   * so a decimal string or an integer is read back as that integer, and
   * falls back to today's date for a date that is absent or null.
   */
  lemma EnrollmentRecord(data: map<Bytes, Json>, today: Bytes, employee: int, plan: int)
    ensures BuildEnrollment(data, today).status == ACTIVE
    ensures Index(JObject(data), EMPLOYEE_ID) in {JStr(Decimal(employee)), JInt(employee)} ==>
      BuildEnrollment(data, today).employeeId == employee
    ensures Index(JObject(data), PLAN_ID) in {JStr(Decimal(plan)), JInt(plan)} ==>
      BuildEnrollment(data, today).planId == plan
    ensures ENROLLMENT_DATE !in data || data[ENROLLMENT_DATE] == JNull ==>
      BuildEnrollment(data, today).enrollmentDate == JStr(today)
    ensures EFFECTIVE_DATE !in data || data[EFFECTIVE_DATE] == JNull ==>
      BuildEnrollment(data, today).effectiveDate == JStr(today)
    ensures ENROLLMENT_DATE in data && data[ENROLLMENT_DATE] != JNull ==>
      BuildEnrollment(data, today).enrollmentDate == data[ENROLLMENT_DATE]
    ensures EFFECTIVE_DATE in data && data[EFFECTIVE_DATE] != JNull ==>
      BuildEnrollment(data, today).effectiveDate == data[EFFECTIVE_DATE]
  {
    IntCastDecimal(employee);
    IntCastDecimal(plan);
  }
}
