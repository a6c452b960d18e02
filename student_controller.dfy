/**
 * The four request handlers of the student-application service, over an
 * in-memory stand-in for the students collection. Records keep creation
 * order and carry ids drawn from a strictly increasing counter, which plays
 * the part of ObjectId order. Creating and deleting change the store;
 * listing and fetching are functions of its contents. Requests are handled
 * one at a time.
 *
 * Whether a string casts to an ObjectId is the parameter `castId` (None:
 * Mongoose raises a CastError); `isEmail` is the email check of the
 * validator library.
 */
module StudentController {
  import opened Text
  import opened StudentModel

  /** The id string is well formed: it casts to an ObjectId. */
  predicate ValidId(castId: string -> Option<nat>, s: string) {
    castId(s).Some?
  }

  // ---------------------------------------------------------------------
  // Responses: the HTTP status and the JSON payload of each handler.

  datatype CreateResponse =
    | Created(id: nat, name: string, email: string, country: string)
    | ValidationFailed(errors: map<string, string>)
    | EmailConflict
  {
    function Status(): nat {
      match this
      case Created(_, _, _, _) => 201
      case ValidationFailed(_) => 400
      case EmailConflict => 409
    }

    function Message(): string {
      match this
      case Created(_, _, _, _) => "Student application submitted successfully"
      case ValidationFailed(_) => "Validation failed"
      case EmailConflict => "A student application with this email already exists"
    }
  }

  /** The list payload; its status is always 200. */
  datatype ListResponse = ListResponse(count: nat, total: nat, page: nat, pages: nat, data: seq<Student>)

  datatype GetResponse = Found(student: Student) | NotFound | InvalidId
  {
    function Status(): nat {
      match this
      case Found(_) => 200
      case NotFound => 404
      case InvalidId => 400
    }

    /** The `message` of the payload; a found record is sent without one. */
    function Message(): Option<string> {
      match this
      case Found(_) => None
      case NotFound => Some("Student not found")
      case InvalidId => Some("Invalid student ID format")
    }
  }

  datatype DeleteResponse = Deleted(id: nat, name: string, email: string) | DeleteNotFound | DeleteInvalidId
  {
    function Status(): nat {
      match this
      case Deleted(_, _, _) => 200
      case DeleteNotFound => 404
      case DeleteInvalidId => 400
    }

    function Message(): string {
      match this
      case Deleted(_, _, _) => "Student deleted successfully"
      case DeleteNotFound => "Student not found"
      case DeleteInvalidId => "Invalid student ID format"
    }
  }

  // ---------------------------------------------------------------------
  // Properties of the stored sequence.

  /** No two records share an email: the schema's unique index. */
  predicate EmailsUnique(records: seq<Student>) {
    forall i, j :: 0 <= i < j < |records| ==> records[i].email != records[j].email
  }

  /** Later records have larger ids. */
  predicate IdsAscending(records: seq<Student>) {
    forall i, j :: 0 <= i < j < |records| ==> records[i].id < records[j].id
  }

  /** What `findOne({ email })` finds: the lowercase setter also runs on the
      query, so the submitted email is compared in lower case. A query
      without an email is taken to find nothing. */
  predicate EmailTaken(records: seq<Student>, email: Option<string>) {
    email.Some? && exists i :: 0 <= i < |records| && records[i].email == Lower(email.value)
  }

  /** The lookup ignores the case of the submitted email: it finds a record
      exactly when it finds one for the email's lowercase. */
  lemma EmailLookupIgnoresCase(records: seq<Student>, email: string)
    ensures EmailTaken(records, Some(email)) <==> EmailTaken(records, Some(Lower(email)))
  {
    LowerIdempotent(email);
  }

  // ---------------------------------------------------------------------
  // Listing.

  function Min(a: int, b: int): int {
    if a <= b then a else b
  }

  /** `sort({ _id: -1 })`: the records, newest first. */
  function NewestFirst(records: seq<Student>): (r: seq<Student>)
    ensures |r| == |records|
  {
    seq(|records|, i requires 0 <= i < |records| => records[|records| - 1 - i])
  }

  /** When ids grow with creation order, newest-first is strictly descending by id. */
  lemma NewestFirstDescending(records: seq<Student>)
    requires IdsAscending(records)
    ensures forall i, j :: 0 <= i < j < |records| ==> NewestFirst(records)[i].id > NewestFirst(records)[j].id
  {
  }

  /** Newest-first holds the same records, with the same multiplicities. */
  lemma {:induction false} NewestFirstPermutes(records: seq<Student>)
    ensures multiset(NewestFirst(records)) == multiset(records)
    decreases |records|
  {
    if records != [] {
      var n := |records|;
      var init := records[..n - 1];
      NewestFirstPermutes(init);
      assert NewestFirst(records) == [records[n - 1]] + NewestFirst(init);
      assert records == init + [records[n - 1]];
    }
  }

  /** `n` times `limit`, as repeated addition: page arithmetic stated this
      way stays linear, which keeps the proofs about pages cheap. */
  function Span(limit: nat, n: nat): nat
    decreases n
  {
    if n == 0 then 0 else limit + Span(limit, n - 1)
  }

  lemma MulStep(a: nat, b: nat)
    ensures (a + 1) * b == a * b + b
  {
  }

  lemma {:induction false} SpanIsProduct(limit: nat, n: nat)
    ensures Span(limit, n) == n * limit
    decreases n
  {
    if n > 0 {
      SpanIsProduct(limit, n - 1);
      MulStep(n - 1, limit);
    }
  }

  lemma {:induction false} SpanMonotone(limit: nat, m: nat, n: nat)
    requires m <= n
    ensures Span(limit, m) <= Span(limit, n)
    decreases n
  {
    if m < n {
      SpanMonotone(limit, m, n - 1);
    }
  }

  /** `Math.ceil(a / b)`: the least number of pages of `b` records that hold
      `a` records. */
  function CeilDiv(a: nat, b: nat): (q: nat)
    requires b >= 1
    ensures Span(b, q) >= a
    ensures q >= 1 ==> Span(b, q - 1) < a
    decreases a
  {
    if a == 0 then 0 else if a <= b then 1 else 1 + CeilDiv(a - b, b)
  }

  /** The same bounds with multiplication: `q` pages suffice and `q - 1` do not. */
  lemma CeilDivIsCeiling(a: nat, b: nat)
    requires b >= 1
    ensures CeilDiv(a, b) * b >= a
    ensures CeilDiv(a, b) >= 1 ==> (CeilDiv(a, b) - 1) * b < a
    ensures a == 0 <==> CeilDiv(a, b) == 0
  {
    var q := CeilDiv(a, b);
    SpanIsProduct(b, q);
    if q >= 1 {
      SpanIsProduct(b, q - 1);
    }
  }

  /** `skip(skip).limit(limit)` over the sorted records. */
  function PageOf(newest: seq<Student>, skip: nat, limit: nat): (data: seq<Student>)
    ensures |data| <= limit
    ensures skip >= |newest| ==> data == []
    ensures skip < |newest| ==> |data| == Min(limit, |newest| - skip)
  {
    newest[Min(skip, |newest|)..Min(skip + limit, |newest|)]
  }

  /** The window holds the records from position `skip` on, in order. */
  lemma PageOfIndex(newest: seq<Student>, skip: nat, limit: nat)
    ensures var data := PageOf(newest, skip, limit);
      forall i :: 0 <= i < |data| ==> skip + i < |newest| && data[i] == newest[skip + i]
  {
  }

  /** `getAllStudents` for `?page=page&limit=limit`: skip `(page - 1) * limit`
      newest-first records, return at most `limit` of them, their count, the
      size of the collection, the page and the number of pages, the least
      number of pages of `limit` that hold every record. */
  function ListStudents(records: seq<Student>, page: nat, limit: nat): (r: ListResponse)
    requires page >= 1 && limit >= 1
    ensures r.total == |records| && r.page == page
    ensures r.count == |r.data| <= limit
    ensures Span(limit, r.pages) >= |records| && (r.pages >= 1 ==> Span(limit, r.pages - 1) < |records|)
    ensures r.data == PageOf(NewestFirst(records), Span(limit, page - 1), limit)
  {
    var skip := (page - 1) * limit;
    SpanIsProduct(limit, page - 1);
    var data := PageOf(NewestFirst(records), skip, limit);
    ListResponse(|data|, |records|, page, CeilDiv(|records|, limit), data)
  }

  /** The values `page` and `limit` take when the query leaves them out. */
  const DefaultPage: nat := 1
  const DefaultLimit: nat := 10

  /** `getAllStudents` for a query in which `page`, `limit` or both may be
      absent: an absent one takes its default. */
  function GetAllStudents(records: seq<Student>, page: Option<nat>, limit: Option<nat>): (r: ListResponse)
    requires page.Some? ==> page.value >= 1
    requires limit.Some? ==> limit.value >= 1
    ensures r.total == |records|
    ensures r.page == (if page.Some? then page.value else DefaultPage)
    ensures r.count == |r.data| <= (if limit.Some? then limit.value else DefaultLimit)
  {
    ListStudents(records, if page.Some? then page.value else DefaultPage,
                 if limit.Some? then limit.value else DefaultLimit)
  }

  /** A request without a query string gets page 1: the ten newest records,
      and the number of pages of ten that hold the collection. */
  lemma DefaultQuery(records: seq<Student>)
    ensures var r := GetAllStudents(records, None, None);
      && r.page == 1
      && r.data == NewestFirst(records)[..Min(10, |records|)]
      && r.pages * 10 >= |records|
      && (r.pages >= 1 ==> (r.pages - 1) * 10 < |records|)
  {
    CeilDivIsCeiling(|records|, 10);
  }

  /** The response to `?page=page&limit=limit` in the source's own terms:
      the records at newest-first positions `(page - 1) * limit` onwards, as
      many as `limit` allows and the collection holds, and `Math.ceil(total / limit)`
      pages. */
  lemma ListStudentsMeaning(records: seq<Student>, page: nat, limit: nat)
    requires page >= 1 && limit >= 1
    ensures var r := ListStudents(records, page, limit);
      var skip := Span(limit, page - 1);
      && skip == (page - 1) * limit
      && (skip >= |records| ==> r.data == [])
      && (skip < |records| ==> |r.data| == Min(limit, |records| - skip))
      && (forall i :: 0 <= i < |r.data| ==> skip + i < |records| && r.data[i] == NewestFirst(records)[skip + i])
      && r.pages * limit >= |records|
      && (r.pages >= 1 ==> (r.pages - 1) * limit < |records|)
  {
    SpanIsProduct(limit, page - 1);
    PageOfIndex(NewestFirst(records), Span(limit, page - 1), limit);
    CeilDivIsCeiling(|records|, limit);
  }

  /** What a client sees requesting pages `page`, `page + 1`, ... in turn,
      `n` requests in all, with the same `limit`. */
  function PagesFrom(records: seq<Student>, limit: nat, page: nat, n: nat): seq<Student>
    requires page >= 1 && limit >= 1
    decreases n
  {
    if n == 0 then [] else ListStudents(records, page, limit).data + PagesFrom(records, limit, page + 1, n - 1)
  }

  lemma SliceConcat(s: seq<Student>, a: nat, b: nat, c: nat)
    requires a <= b <= c <= |s|
    ensures s[a..b] + s[b..c] == s[a..c]
  {
  }

  /** `n` consecutive windows of `limit` records from `skip` on. */
  function Windows(newest: seq<Student>, skip: nat, limit: nat, n: nat): seq<Student>
    decreases n
  {
    if n == 0 then [] else PageOf(newest, skip, limit) + Windows(newest, skip + limit, limit, n - 1)
  }

  /** Consecutive windows are one slice. */
  lemma {:induction false} WindowsSlice(newest: seq<Student>, skip: nat, limit: nat, n: nat)
    ensures Windows(newest, skip, limit, n) == newest[Min(skip, |newest|)..Min(skip + Span(limit, n), |newest|)]
    decreases n
  {
    if n > 0 {
      WindowsSlice(newest, skip + limit, limit, n - 1);
      SliceConcat(newest, Min(skip, |newest|), Min(skip + limit, |newest|), Min(skip + Span(limit, n), |newest|));
    }
  }

  /** Requesting pages in turn walks consecutive windows. */
  lemma {:induction false} PagesFromWindows(records: seq<Student>, limit: nat, page: nat, n: nat)
    requires page >= 1 && limit >= 1
    ensures PagesFrom(records, limit, page, n) == Windows(NewestFirst(records), Span(limit, page - 1), limit, n)
    decreases n
  {
    if n > 0 {
      var newest := NewestFirst(records);
      var skip := Span(limit, page - 1);
      var rest := PagesFrom(records, limit, page + 1, n - 1);
      assert rest == Windows(newest, skip + limit, limit, n - 1) by {
        PagesFromWindows(records, limit, page + 1, n - 1);
        assert Span(limit, page) == skip + limit;
      }
      assert PagesFrom(records, limit, page, n) == PageOf(newest, skip, limit) + rest;
    }
  }

  /** Pagination loses and repeats nothing: requesting pages 1 up to the
      number of pages any response reports, in turn, yields exactly the
      newest-first records. */
  lemma PagesCoverAllRecords(records: seq<Student>, page: nat, limit: nat)
    requires page >= 1 && limit >= 1
    ensures var pages := ListStudents(records, page, limit).pages;
      PagesFrom(records, limit, 1, pages) == NewestFirst(records)
  {
    var pages := ListStudents(records, page, limit).pages;
    PagesFromWindows(records, limit, 1, pages);
    WindowsSlice(NewestFirst(records), 0, limit, pages);
    assert NewestFirst(records)[0..|records|] == NewestFirst(records);
  }

  /** With ids in creation order, any window of the newest-first records
      is strictly descending by id. */
  lemma WindowDescending(records: seq<Student>, skip: nat, limit: nat)
    requires IdsAscending(records)
    ensures var data := PageOf(NewestFirst(records), skip, limit);
      forall i, j :: 0 <= i < j < |data| ==> data[i].id > data[j].id
  {
    var newest := NewestFirst(records);
    var data := PageOf(newest, skip, limit);
    NewestFirstDescending(records);
    PageOfIndex(newest, skip, limit);
    forall i, j | 0 <= i < j < |data| ensures data[i].id > data[j].id {
      assert data[i] == newest[skip + i] && data[j] == newest[skip + j];
    }
  }

  /** With ids in creation order, every record of a window is newer than
      every record of a window that starts after the first one ends. */
  lemma WindowsOrdered(records: seq<Student>, sp: nat, sq: nat, limit: nat)
    requires IdsAscending(records) && sp + limit <= sq
    ensures var dp := PageOf(NewestFirst(records), sp, limit);
      var dq := PageOf(NewestFirst(records), sq, limit);
      forall i, j :: 0 <= i < |dp| && 0 <= j < |dq| ==> dp[i].id > dq[j].id
  {
    var newest := NewestFirst(records);
    var dp := PageOf(newest, sp, limit);
    var dq := PageOf(newest, sq, limit);
    NewestFirstDescending(records);
    PageOfIndex(newest, sp, limit);
    PageOfIndex(newest, sq, limit);
    forall i, j | 0 <= i < |dp| && 0 <= j < |dq| ensures dp[i].id > dq[j].id {
      assert dp[i] == newest[sp + i] && dq[j] == newest[sq + j];
    }
  }

  /** With ids in creation order, a page lists its records newest first. */
  lemma PageDescending(records: seq<Student>, page: nat, limit: nat)
    requires IdsAscending(records) && page >= 1 && limit >= 1
    ensures var data := ListStudents(records, page, limit).data;
      forall i, j :: 0 <= i < j < |data| ==> data[i].id > data[j].id
  {
    WindowDescending(records, Span(limit, page - 1), limit);
  }

  /** With ids in creation order, every record on an earlier page is newer
      than every record on a later one. */
  lemma PagesOrdered(records: seq<Student>, limit: nat, p: nat, q: nat)
    requires IdsAscending(records) && limit >= 1 && 1 <= p < q
    ensures var dp := ListStudents(records, p, limit).data;
      var dq := ListStudents(records, q, limit).data;
      forall i, j :: 0 <= i < |dp| && 0 <= j < |dq| ==> dp[i].id > dq[j].id
  {
    SpanMonotone(limit, p, q - 1);
    WindowsOrdered(records, Span(limit, p - 1), Span(limit, q - 1), limit);
  }

  // ---------------------------------------------------------------------
  // Fetching by id.

  /** The position of the record with the given id, if one is stored. */
  function IndexOfId(records: seq<Student>, id: nat): (r: Option<nat>)
    ensures r.Some? ==> r.value < |records| && records[r.value].id == id
    ensures r.None? ==> forall i :: 0 <= i < |records| ==> records[i].id != id
  {
    if records == [] then None
    else if records[0].id == id then Some(0)
    else
      match IndexOfId(records[1..], id)
      case None => None
      case Some(k) => Some(k + 1)
  }

  /** `getStudentById`: 400 when the id does not cast, 404 when it casts but
      no record has it, 200 with the record otherwise. */
  function GetStudentById(records: seq<Student>, castId: string -> Option<nat>, raw: string): (r: GetResponse)
    ensures r.InvalidId? <==> !ValidId(castId, raw)
    ensures r.NotFound? <==> ValidId(castId, raw) && forall i :: 0 <= i < |records| ==> records[i].id != castId(raw).value
    ensures r.Found? ==> r.student in records && r.student.id == castId(raw).value
  {
    match castId(raw)
    case None => InvalidId
    case Some(id) =>
      match IndexOfId(records, id)
      case None => NotFound
      case Some(i) => Found(records[i])
  }

  // ---------------------------------------------------------------------
  // The validation-error payload.

  /** The `forEach` that copies a ValidationError's errors into the response
      object: one key per failing path; where a key repeats, the later
      message wins, as for repeated assignment to a JavaScript object. */
  method ErrorsToMap(errs: seq<FieldError>) returns (m: map<string, string>)
    ensures m.Keys == set e | e in errs :: Key(e.path)
    ensures forall i :: 0 <= i < |errs| && (forall j :: i < j < |errs| ==> Key(errs[j].path) != Key(errs[i].path)) ==>
      Key(errs[i].path) in m && m[Key(errs[i].path)] == errs[i].message
  {
    m := map[];
    var i := 0;
    while i < |errs|
      invariant 0 <= i <= |errs|
      invariant m.Keys == set e | e in errs[..i] :: Key(e.path)
      invariant forall k :: 0 <= k < i && (forall j :: k < j < i ==> Key(errs[j].path) != Key(errs[k].path)) ==>
        Key(errs[k].path) in m && m[Key(errs[k].path)] == errs[k].message
    {
      assert errs[..i + 1] == errs[..i] + [errs[i]];
      m := m[Key(errs[i].path) := errs[i].message];
      i := i + 1;
    }
    assert errs[..i] == errs;
  }

  /** The payload for the errors of `Validate`: keyed by exactly the failing
      paths, each with its own validator's message. */
  lemma ValidationPayload(a: Application, now: int, isEmail: string -> bool, m: map<string, string>)
    requires var errs := Validate(a, now, isEmail);
      && m.Keys == (set e | e in errs :: Key(e.path))
      && forall i :: 0 <= i < |errs| && (forall j :: i < j < |errs| ==> Key(errs[j].path) != Key(errs[i].path)) ==>
           Key(errs[i].path) in m && m[Key(errs[i].path)] == errs[i].message
    ensures m.Keys == set p | p in FailingFields(a, now, isEmail) :: Key(p)
    ensures forall p :: p in FailingFields(a, now, isEmail) ==> Some(m[Key(p)]) == PathCheck(a, now, isEmail, p)
  {
    var errs := Validate(a, now, isEmail);
    ValidateMeaning(a, now, isEmail);
    forall i, j | 0 <= i < j < |errs| ensures Key(errs[j].path) != Key(errs[i].path) {
      KeyInjective(errs[i].path, errs[j].path);
    }
    forall p | p in FailingFields(a, now, isEmail) ensures Some(m[Key(p)]) == PathCheck(a, now, isEmail, p) {
      var e :| e in errs && e.path == p;
      var i :| 0 <= i < |errs| && errs[i] == e;
    }
  }

  // ---------------------------------------------------------------------
  // The store.

  /** Ids grow with creation order and are all below the counter; emails
      are unique; every record is a conforming, normalised document. */
  ghost predicate StoreInvariant(records: seq<Student>, nextId: nat, isEmail: string -> bool) {
    && IdsAscending(records)
    && (forall i :: 0 <= i < |records| ==> records[i].id < nextId)
    && EmailsUnique(records)
    && (forall i :: 0 <= i < |records| ==> Conforms(records[i], isEmail))
  }

  /** Every stored email is its own lowercase. */
  lemma StoredEmailsLowercase(records: seq<Student>, nextId: nat, isEmail: string -> bool)
    requires StoreInvariant(records, nextId, isEmail)
    ensures forall i :: 0 <= i < |records| ==> Lower(records[i].email) == records[i].email
  {
    forall i | 0 <= i < |records| ensures Lower(records[i].email) == records[i].email {
      LowerFixedPoint(records[i].email);
    }
  }

  /** Appending a conforming record whose id is the counter and whose email
      is not yet stored keeps the invariant, with the counter advanced. */
  lemma AppendKeepsInvariant(records: seq<Student>, nextId: nat, isEmail: string -> bool, st: Student)
    requires StoreInvariant(records, nextId, isEmail)
    requires st.id == nextId && Conforms(st, isEmail)
    requires forall i :: 0 <= i < |records| ==> records[i].email != st.email
    ensures StoreInvariant(records + [st], nextId + 1, isEmail)
  {
    var s := records + [st];
    assert s[|records|] == st;
    forall k | 0 <= k < |s| ensures s[k].id < nextId + 1 && Conforms(s[k], isEmail) {
      if k < |records| { assert s[k] == records[k]; }
    }
    forall k, l | 0 <= k < l < |s| ensures s[k].id < s[l].id && s[k].email != s[l].email {
      assert s[k] == records[k];
      if l < |records| { assert s[l] == records[l]; }
    }
  }

  /** Admitting a submission that the schema accepts and whose email is not
      yet stored keeps the invariant: its normal form gets the counter as a
      fresh id. */
  lemma AdmitKeepsInvariant(records: seq<Student>, nextId: nat, isEmail: string -> bool, app: Application, now: int)
    requires StoreInvariant(records, nextId, isEmail)
    requires !EmailTaken(records, app.email) && FailingFields(app, now, isEmail) == {}
    ensures Complete(app)
    ensures StoreInvariant(records + [Normalize(app, nextId)], nextId + 1, isEmail)
    ensures forall i :: 0 <= i < |records| ==> records[i].id != nextId
  {
    NormalizeConforms(app, nextId, now, isEmail);
    AppendKeepsInvariant(records, nextId, isEmail, Normalize(app, nextId));
  }

  /** Removing one record keeps the invariant, and the removed id is then absent. */
  lemma RemoveKeepsInvariant(records: seq<Student>, nextId: nat, isEmail: string -> bool, i: nat)
    requires StoreInvariant(records, nextId, isEmail) && i < |records|
    ensures StoreInvariant(records[..i] + records[i + 1..], nextId, isEmail)
    ensures var rest := records[..i] + records[i + 1..];
      forall k :: 0 <= k < |rest| ==> rest[k].id != records[i].id
  {
    var s := records[..i] + records[i + 1..];
    forall k | 0 <= k < |s| ensures s[k] == records[Skip(k, i)] {
      if k < i { assert s[k] == records[..i][k]; } else { assert s[k] == records[i + 1..][k - i]; }
    }
    forall k | 0 <= k < |s| ensures s[k].id < nextId && Conforms(s[k], isEmail) && s[k].id != records[i].id {
      assert s[k] == records[Skip(k, i)];
    }
    forall k, l | 0 <= k < l < |s| ensures s[k].id < s[l].id && s[k].email != s[l].email {
      assert s[k] == records[Skip(k, i)] && s[l] == records[Skip(l, i)];
    }
  }

  /** The index in the original sequence of position `k` once position `i` is removed. */
  function Skip(k: nat, i: nat): (j: nat)
    ensures j == k || j == k + 1
    ensures j != i
    ensures (j < i) == (k < i)
  {
    if k < i then k else k + 1
  }

  class Store {
    /** The collection, oldest first. */
    var records: seq<Student>
    /** The id the next created record receives. */
    var nextId: nat
    const isEmail: string -> bool
    const castId: string -> Option<nat>

    ghost predicate Valid()
      reads this
    {
      StoreInvariant(records, nextId, isEmail)
    }

    constructor (isEmail: string -> bool, castId: string -> Option<nat>)
      ensures Valid()
      ensures records == [] && nextId == 0
      ensures this.isEmail == isEmail && this.castId == castId
    {
      records := [];
      nextId := 0;
      this.isEmail := isEmail;
      this.castId := castId;
    }

    /** `createStudent`: 409 when the email is already stored; otherwise
        400 with the failing paths when the schema rejects the submission;
        otherwise the normalised document is appended under a fresh id and
        201 reports its id, name, email and country. */
    method Create(app: Application, now: int) returns (r: CreateResponse)
      requires Valid()
      modifies this
      ensures Valid()
      ensures EmailTaken(old(records), app.email) ==>
        r == EmailConflict && records == old(records) && nextId == old(nextId)
      ensures !EmailTaken(old(records), app.email) && FailingFields(app, now, isEmail) != {} ==>
        && r.ValidationFailed?
        && r.errors.Keys == (set p | p in FailingFields(app, now, isEmail) :: Key(p))
        && (forall p :: p in FailingFields(app, now, isEmail) ==> Some(r.errors[Key(p)]) == PathCheck(app, now, isEmail, p))
        && records == old(records) && nextId == old(nextId)
      ensures !EmailTaken(old(records), app.email) && FailingFields(app, now, isEmail) == {} ==>
        && Complete(app)
        && records == old(records) + [Normalize(app, old(nextId))]
        && nextId == old(nextId) + 1
        && (forall i :: 0 <= i < |old(records)| ==> old(records)[i].id != old(nextId))
        && var st := records[|records| - 1];
           r == Created(st.id, st.name, st.email, st.country)
    {
      if EmailTaken(records, app.email) {
        return EmailConflict;
      }
      var errs := Validate(app, now, isEmail);
      assert errs == [] <==> FailingFields(app, now, isEmail) == {} by {
        ValidateMeaning(app, now, isEmail);
      }
      if errs != [] {
        var m := ErrorsToMap(errs);
        ValidationPayload(app, now, isEmail, m);
        return ValidationFailed(m);
      }
      AdmitKeepsInvariant(records, nextId, isEmail, app, now);
      var st := Normalize(app, nextId);
      records := records + [st];
      nextId := nextId + 1;
      r := Created(st.id, st.name, st.email, st.country);
    }

    /** `deleteStudentById`: 400 when the id does not cast and 404 when no
        record has it, both leaving the store alone; otherwise exactly that
        record is removed and 200 reports its id, name and email. Afterwards
        no record has the id, so deleting it again yields 404. */
    method DeleteById(raw: string) returns (r: DeleteResponse)
      requires Valid()
      modifies this
      ensures Valid() && nextId == old(nextId)
      ensures !ValidId(castId, raw) ==> r == DeleteInvalidId && records == old(records)
      ensures ValidId(castId, raw) && IndexOfId(old(records), castId(raw).value).None? ==>
        r == DeleteNotFound && records == old(records)
      ensures ValidId(castId, raw) && IndexOfId(old(records), castId(raw).value).Some? ==>
        var i := IndexOfId(old(records), castId(raw).value).value;
        && r == Deleted(old(records)[i].id, old(records)[i].name, old(records)[i].email)
        && records == old(records)[..i] + old(records)[i + 1..]
      ensures ValidId(castId, raw) ==> forall i :: 0 <= i < |records| ==> records[i].id != castId(raw).value
    {
      match castId(raw)
      case None =>
        return DeleteInvalidId;
      case Some(id) =>
        match IndexOfId(records, id)
        case None =>
          return DeleteNotFound;
        case Some(i) =>
          var st := records[i];
          RemoveKeepsInvariant(records, nextId, isEmail, i);
          records := records[..i] + records[i + 1..];
          r := Deleted(st.id, st.name, st.email);
    }
  }

  // ---------------------------------------------------------------------
  // What callers can conclude from the specifications alone.

  /** Submitting the same email twice: once it is stored, the second
      submission is refused with 409 and the store does not grow. */
  method CreateTwice(store: Store, app: Application, now: int) returns (first: CreateResponse, second: CreateResponse)
    requires store.Valid()
    modifies store
    ensures store.Valid()
    ensures first.Created? ==> second == EmailConflict && |store.records| == |old(store.records)| + 1
  {
    first := store.Create(app, now);
    ghost var afterFirst := store.records;
    second := store.Create(app, now);
    if first.Created? {
      assert afterFirst[|afterFirst| - 1].email == Lower(app.email.value);
      assert EmailTaken(afterFirst, app.email);
    }
  }

  /** Deleting the same id twice: the first call may succeed, the second
      never does; after a successful delete the second answers 404 and a
      fetch of the id answers 404 too. */
  method DeleteTwice(store: Store, raw: string) returns (first: DeleteResponse, second: DeleteResponse)
    requires store.Valid()
    modifies store
    ensures store.Valid()
    ensures first.DeleteInvalidId? <==> second.DeleteInvalidId?
    ensures !second.Deleted?
    ensures first.Deleted? ==> second == DeleteNotFound
    ensures ValidId(store.castId, raw) ==> GetStudentById(store.records, store.castId, raw) == NotFound
  {
    first := store.DeleteById(raw);
    second := store.DeleteById(raw);
  }

  /** One request to the store. */
  datatype Request = Submit(app: Application, now: int) | Remove(id: string)

  /** The status codes each kind of request can answer with. */
  function Statuses(req: Request): set<nat> {
    if req.Submit? then {201, 400, 409} else {200, 400, 404}
  }

  /** Dispatches one request and answers with its status. */
  method Handle(store: Store, req: Request) returns (status: nat)
    requires store.Valid()
    modifies store
    ensures store.Valid()
    ensures status in Statuses(req)
  {
    match req
    case Submit(app, now) =>
      var r := store.Create(app, now);
      status := r.Status();
    case Remove(id) =>
      var r := store.DeleteById(id);
      status := r.Status();
  }

  /** Any sequence of creates and deletes keeps the store valid, so no two
      stored records ever share an email. Returns the status of each. */
  method Replay(store: Store, requests: seq<Request>) returns (statuses: seq<nat>)
    requires store.Valid()
    modifies store
    ensures store.Valid() && EmailsUnique(store.records)
    ensures |statuses| == |requests|
    ensures forall k :: 0 <= k < |requests| ==> statuses[k] in Statuses(requests[k])
  {
    statuses := [];
    for k := 0 to |requests|
      invariant store.Valid()
      invariant |statuses| == k
      invariant forall j :: 0 <= j < k ==> statuses[j] in Statuses(requests[j])
    {
      var status := Handle(store, requests[k]);
      statuses := statuses + [status];
    }
  }
}
