/** The write handlers of `backend/server.js`: the validation chains of
    `POST /employees` and `PUT /employees/:id`, and the `employees` table
    with the INSERT, UPDATE and DELETE statements the handlers issue. */
module Server {
  import opened Calendar
  import opened Patterns
  import opened Records

  // ---------------------------------------------------------------------------
  // Validation

  /** The checks of the POST chain, in the order the handler applies them. */
  datatype Rule = Required | AgeRule | EmailRule | PhoneRule | JoiningRule

  function Rank(r: Rule): (n: nat) {
    match r
    case Required => 0
    case AgeRule => 1
    case EmailRule => 2
    case PhoneRule => 3
    case JoiningRule => 4
  }

  datatype Verdict = Pass | Fail(rule: Rule)

  /** The 400 message each failing rule produces. */
  function Message(r: Rule): (m: string) {
    match r
    case Required => "All fields are required."
    case AgeRule => "Employee must be at least 18 years old."
    case EmailRule => "Invalid email format."
    case PhoneRule => "Phone number must be 10 digits."
    case JoiningRule => "Date of joining cannot be in the future."
  }

  /** A 400 message names its rule: no two rules share one. */
  lemma MessagesDistinct(r1: Rule, r2: Rule)
    ensures Message(r1) == Message(r2) <==> r1 == r2
  {
  }

  /** JavaScript truthiness of a field value. */
  predicate Present(s: string) { s != "" }
  predicate DatePresent(d: DateInput) { !d.Blank? }

  /** The seven fields PUT demands. */
  predicate SevenPresent(b: Submission) {
    Present(b.name) && Present(b.employeeId) && Present(b.email) && Present(b.phoneNumber) &&
    Present(b.department) && DatePresent(b.dateOfJoining) && Present(b.role)
  }

  /** The eight fields POST demands. */
  predicate AllPresent(b: Submission) {
    SevenPresent(b) && DatePresent(b.dateOfBirth)
  }

  /** `isAdult` for a parsed birth date: the year difference, and when it is
      exactly 18, `today >= dob.setFullYear(today.getFullYear())`. `today`
      carries a time of day, so on the birthday itself it is at or after the
      birthday's midnight. */
  predicate IsAdult(dob: CalendarDate, today: CalendarDate) {
    var age := today.year - dob.year;
    age > 18 || (age == 18 && OnOrBefore(SetFullYear(dob, today.year), today))
  }

  /** An unparsable birth date gives NaN for `age`, and both comparisons with
      NaN are false, so `isAdult` is false. */
  predicate AgeRuleHolds(dob: DateInput, today: CalendarDate) {
    dob.On? && IsAdult(dob.date, today)
  }

  /** `joiningDate > today` is false for an Invalid Date (NaN), so only a
      parsed date strictly after today fails. */
  predicate JoiningRuleHolds(doj: DateInput, today: CalendarDate) {
    !(doj.On? && Before(today, doj.date))
  }

  predicate CreateRuleHolds(r: Rule, b: Submission, today: CalendarDate) {
    match r
    case Required => AllPresent(b)
    case AgeRule => AgeRuleHolds(b.dateOfBirth, today)
    case EmailRule => IsEmail(b.email)
    case PhoneRule => IsPhoneNumber(b.phoneNumber)
    case JoiningRule => JoiningRuleHolds(b.dateOfJoining, today)
  }

  /** PUT applies only the seven-field presence check and the joining date. */
  predicate UpdateRuleHolds(r: Rule, b: Submission, today: CalendarDate) {
    match r
    case Required => SevenPresent(b)
    case JoiningRule => JoiningRuleHolds(b.dateOfJoining, today)
    case _ => true
  }

  /** The POST chain: the verdict names the first rule, in chain order, that
      the body breaks, and is `Pass` only when it breaks none. */
  function ValidateCreate(b: Submission, today: CalendarDate): (v: Verdict)
    ensures v == Pass <==> forall r :: CreateRuleHolds(r, b, today)
    ensures v.Fail? ==> !CreateRuleHolds(v.rule, b, today)
    ensures v.Fail? ==> forall r :: Rank(r) < Rank(v.rule) ==> CreateRuleHolds(r, b, today)
  {
    if !AllPresent(b) then assert !CreateRuleHolds(Required, b, today); Fail(Required)
    else if !AgeRuleHolds(b.dateOfBirth, today) then assert !CreateRuleHolds(AgeRule, b, today); Fail(AgeRule)
    else if !IsEmail(b.email) then assert !CreateRuleHolds(EmailRule, b, today); Fail(EmailRule)
    else if !IsPhoneNumber(b.phoneNumber) then assert !CreateRuleHolds(PhoneRule, b, today); Fail(PhoneRule)
    else if !JoiningRuleHolds(b.dateOfJoining, today) then assert !CreateRuleHolds(JoiningRule, b, today); Fail(JoiningRule)
    else Pass
  }

  /** The PUT chain, with the same first-failure reading over its two rules. */
  function ValidateUpdate(b: Submission, today: CalendarDate): (v: Verdict)
    ensures v == Pass <==> forall r :: UpdateRuleHolds(r, b, today)
    ensures v.Fail? ==> (v.rule == Required || v.rule == JoiningRule) && !UpdateRuleHolds(v.rule, b, today)
    ensures v.Fail? ==> forall r :: Rank(r) < Rank(v.rule) ==> UpdateRuleHolds(r, b, today)
  {
    if !SevenPresent(b) then assert !UpdateRuleHolds(Required, b, today); Fail(Required)
    else if !JoiningRuleHolds(b.dateOfJoining, today) then assert !UpdateRuleHolds(JoiningRule, b, today); Fail(JoiningRule)
    else Pass
  }

  // ---------------------------------------------------------------------------
  // Properties of the chains

  /** A missing field is reported whatever the present fields hold and
      whatever the date: the later checks are never consulted. */
  lemma MissingFieldWins(b: Submission, today: CalendarDate)
    requires !AllPresent(b)
    ensures ValidateCreate(b, today) == Fail(Required)
    ensures Message(ValidateCreate(b, today).rule) == "All fields are required."
  {
  }

  /** The age rule agrees with the reference notion of age: the employee is
      accepted exactly when at least 18 years have been completed. */
  lemma IsAdultIffEighteen(dob: CalendarDate, today: CalendarDate)
    ensures IsAdult(dob, today) <==> CompletedYears(dob, today) >= 18
  {
    var bday := SetFullYear(dob, today.year);
    if dob.month == 2 && dob.day == 29 && !IsLeapYear(today.year) {
      assert bday == Date(today.year, 3, 1);
      assert !(today.month == 2 && today.day == 29);
      assert OnOrBefore(bday, today) <==> !MonthDayBefore(today.month, today.day, 2, 29);
    } else {
      assert bday == Date(today.year, dob.month, dob.day);
    }
  }

  /** The eighteenth birthday is admitted: on the day the calendar reaches
      the birth month and day 18 years on, the employee is adult. */
  lemma EighteenthBirthdayAdmitted(dob: CalendarDate, today: CalendarDate)
    requires today == SetFullYear(dob, dob.year + 18)
    ensures IsAdult(dob, today)
  {
  }

  /** The day before that birthday is rejected. */
  lemma DayBeforeEighteenthBirthdayRejected(dob: CalendarDate, today: CalendarDate)
    requires NextDay(today) == SetFullYear(dob, dob.year + 18)
    ensures !IsAdult(dob, today)
  {
    if today.year != dob.year + 18 {
      assert today.month == 12 && today.day == 31;
    }
  }

  /** Born on 29 February, the employee becomes adult on 1 March of a common
      year: JavaScript rolls the birthday forward. */
  lemma LeapDayBirthday(dob: CalendarDate, today: CalendarDate)
    requires dob.month == 2 && dob.day == 29
    requires today.year == dob.year + 18 && !IsLeapYear(today.year)
    ensures IsAdult(dob, today) <==> (today.month >= 3)
  {
  }

  /** A joining date equal to today passes, one day later fails; the same
      rule serves POST and PUT. */
  lemma JoiningBoundary(b: Submission, today: CalendarDate)
    ensures b.dateOfJoining == On(today) ==> CreateRuleHolds(JoiningRule, b, today) && UpdateRuleHolds(JoiningRule, b, today)
    ensures b.dateOfJoining == On(NextDay(today)) ==> !CreateRuleHolds(JoiningRule, b, today) && !UpdateRuleHolds(JoiningRule, b, today)
  {
  }

  /** PUT ignores the birth date, the email format and the phone format:
      changing any of them never changes its verdict. */
  lemma UpdateIgnoresUncheckedFields(b: Submission, today: CalendarDate, email: string, phone: string, dob: DateInput)
    requires Present(email) == Present(b.email) && Present(phone) == Present(b.phoneNumber)
    ensures ValidateUpdate(b.(email := email, phoneNumber := phone, dateOfBirth := dob), today) == ValidateUpdate(b, today)
  {
  }

  /** Whatever PUT accepts with a valid email, phone and age, POST rules
      agree on; but PUT accepts records POST would refuse. */
  lemma UpdateWeakerThanCreate(b: Submission, today: CalendarDate)
    ensures ValidateCreate(b, today) == Pass ==> ValidateUpdate(b, today) == Pass
    ensures ValidateUpdate(b, today) == Pass && DatePresent(b.dateOfBirth) ==>
              (ValidateCreate(b, today) == Pass <==>
               AgeRuleHolds(b.dateOfBirth, today) && IsEmail(b.email) && IsPhoneNumber(b.phoneNumber))
  {
  }

  // ---------------------------------------------------------------------------
  // The employees table

  /** An HTTP response: status code and JSON `message`. */
  datatype Response = Response(status: int, message: string)

  /** The 400 message for a repeated primary key, written in two pieces so
      that the verifier can read its first word. */
  const DuplicateMessage := "Duplicate" + " data detected: Employee ID or Email already exists."
  const NotFound := Response(404, "Employee not found.")

  /** The stored row after `UPDATE ... SET` with the seven columns of the
      body: every column comes from the body except `date_of_birth`. */
  function Updated(row: Submission, b: Submission): (r: Submission)
    ensures r == b.(dateOfBirth := row.dateOfBirth)
    ensures r.employeeId == b.employeeId
  {
    row.(name := b.name, employeeId := b.employeeId, email := b.email, phoneNumber := b.phoneNumber,
         department := b.department, dateOfJoining := b.dateOfJoining, role := b.role)
  }

  /** The `employees` table: rows keyed by their primary key `employee_id`.
      `email` carries no unique index, so only the key can collide. */
  class EmployeeTable {
    var rows: map<string, Submission>

    /** Every row is stored under its own `employee_id`. */
    ghost predicate Valid()
      reads this
    {
      forall k :: k in rows ==> rows[k].employeeId == k
    }

    constructor ()
      ensures Valid() && rows == map[]
    {
      rows := map[];
    }

    /** `INSERT INTO employees` of the eight fields; a second row with the
        same primary key is refused (`ER_DUP_ENTRY`). */
    method Insert(b: Submission) returns (inserted: bool)
      requires Valid()
      modifies this
      ensures Valid()
      ensures inserted <==> b.employeeId !in old(rows)
      ensures inserted ==> rows == old(rows)[b.employeeId := b] && |rows| == |old(rows)| + 1
      ensures !inserted ==> rows == old(rows)
    {
      inserted := b.employeeId !in rows;
      if inserted {
        rows := rows[b.employeeId := b];
      }
    }

    /** `POST /employees`: the validation chain, then the insert, with a
        duplicate key reported as a 400. */
    method Create(b: Submission, today: CalendarDate) returns (resp: Response)
      requires Valid()
      modifies this
      ensures Valid()
      ensures ValidateCreate(b, today).Fail? ==>
                resp == Response(400, Message(ValidateCreate(b, today).rule)) && rows == old(rows)
      ensures ValidateCreate(b, today) == Pass && b.employeeId in old(rows) ==>
                resp == Response(400, DuplicateMessage) && rows == old(rows)
      ensures ValidateCreate(b, today) == Pass && b.employeeId !in old(rows) ==>
                resp == Response(201, "Employee added successfully.") &&
                rows == old(rows)[b.employeeId := b] && |rows| == |old(rows)| + 1
    {
      var v := ValidateCreate(b, today);
      if v.Fail? {
        return Response(400, Message(v.rule));
      }
      var inserted := Insert(b);
      if !inserted {
        return Response(400, DuplicateMessage);
      }
      resp := Response(201, "Employee added successfully.");
    }

    /** `GET /employees/:id`: the row `WHERE employee_id = ?` matches, or
        404 when none does. */
    method Find(id: string) returns (resp: Response, row: Option<Submission>)
      requires Valid()
      ensures id in rows ==> resp.status == 200 && row == Some(rows[id]) && row.value.employeeId == id
      ensures id !in rows ==> resp == NotFound && row == None
    {
      var matched := LookupBy(KeyColumn, rows, id);
      KeyFilterFindsRow(rows, id);
      if matched.keys == {} {
        resp, row := NotFound, None;
      } else {
        resp, row := Response(200, ""), Some(rows[id]);
      }
    }

    /** `PUT /employees/:id`: the smaller chain, then `UPDATE` of seven
        columns of the row `WHERE employee_id = ?` matches; zero matched
        rows give 404. As the statement also sets the
        primary key, the row moves to the body's `employee_id`; if another
        row already holds it, the statement fails with `ER_DUP_ENTRY`, which
        this handler reports as a 500. */
    method Update(id: string, b: Submission, today: CalendarDate) returns (resp: Response)
      requires Valid()
      modifies this
      ensures Valid()
      ensures ValidateUpdate(b, today).Fail? ==>
                resp == Response(400, Message(ValidateUpdate(b, today).rule)) && rows == old(rows)
      ensures ValidateUpdate(b, today) == Pass && id !in old(rows) ==>
                resp == NotFound && rows == old(rows)
      ensures ValidateUpdate(b, today) == Pass && id in old(rows) && b.employeeId != id && b.employeeId in old(rows) ==>
                resp == Response(500, "Error updating employee.") && rows == old(rows)
      ensures ValidateUpdate(b, today) == Pass && id in old(rows) && (b.employeeId == id || b.employeeId !in old(rows)) ==>
                resp == Response(200, "Employee updated successfully.") &&
                rows == (old(rows) - {id})[b.employeeId := Updated(old(rows)[id], b)]
    {
      var v := ValidateUpdate(b, today);
      if v.Fail? {
        return Response(400, Message(v.rule));
      }
      var matched := LookupBy(KeyColumn, rows, id);
      KeyFilterFindsRow(rows, id);
      if matched.keys == {} {
        return NotFound;
      }
      if b.employeeId != id && b.employeeId in rows {
        return Response(500, "Error updating employee.");
      }
      rows := (rows - {id})[b.employeeId := Updated(rows[id], b)];
      resp := Response(200, "Employee updated successfully.");
    }

    /** `DELETE /employees/:id`: removes the row `WHERE employee_id = ?`
        matches and no other; zero matched rows give 404 and change nothing. */
    method Delete(id: string) returns (resp: Response)
      requires Valid()
      modifies this
      ensures Valid()
      ensures id in old(rows) ==>
                resp == Response(200, "Employee deleted successfully.") && rows == old(rows) - {id} &&
                |rows| == |old(rows)| - 1
      ensures id !in old(rows) ==> resp == NotFound && rows == old(rows)
    {
      var matched := LookupBy(KeyColumn, rows, id);
      KeyFilterFindsRow(rows, id);
      if matched.keys == {} {
        return NotFound;
      }
      rows := rows - matched.keys;
      resp := Response(200, "Employee deleted successfully.");
    }
  }

  /** Creating and then reading back by the same key returns the submitted
      record, all eight fields equal. */
  method CreateThenFind(t: EmployeeTable, b: Submission, today: CalendarDate) returns (row: Option<Submission>)
    requires t.Valid() && ValidateCreate(b, today) == Pass && b.employeeId !in t.rows
    modifies t
    ensures t.Valid() && row == Some(b)
  {
    var created := t.Create(b, today);
    var found;
    found, row := t.Find(b.employeeId);
  }

  /** A second create with an existing `employee_id` is refused and leaves
      the first row as it was, while a new `employee_id` with an email that is
      already stored is accepted. */
  method RepeatedKeysAndEmails(t: EmployeeTable, first: Submission, again: Submission, today: CalendarDate)
      returns (second: Response, third: Response)
    requires t.Valid() && t.rows == map[]
    requires ValidateCreate(first, today) == Pass && ValidateCreate(again, today) == Pass
    requires again.email == first.email
    modifies t
    ensures again.employeeId == first.employeeId ==>
              second == Response(400, DuplicateMessage) && t.rows == map[first.employeeId := first]
    ensures again.employeeId != first.employeeId ==>
              second.status == 201 && t.rows == map[first.employeeId := first, again.employeeId := again]
    ensures third == Response(400, DuplicateMessage)
  {
    var r := t.Create(first, today);
    second := t.Create(again, today);
    third := t.Create(first, today);
  }

  // ---------------------------------------------------------------------------
  // The key column of the GET, PUT and DELETE statements

  /** The columns of `CREATE TABLE employees`. */
  const TableColumns: set<string> :=
    {"name", "employee_id", "email", "phone_number", "department", "date_of_joining", "role", "date_of_birth"}

  /** The column the GET-by-id, UPDATE and DELETE statements filter on. */
  const WrittenFilterColumn := "id"

  /** The primary key, which the handlers evidently mean to filter on. */
  const KeyColumn := "employee_id"

  datatype Lookup = UnknownColumn | Matches(keys: set<string>)

  /** How MySQL evaluates `WHERE <column> = ?` for the two columns the
      handlers can name: a column the table lacks is an error
      (`ER_BAD_FIELD_ERROR`); the key column selects the stored rows whose
      `employee_id` equals the parameter. */
  function LookupBy(column: string, rows: map<string, Submission>, param: string): (r: Lookup)
    requires column == WrittenFilterColumn || column == KeyColumn
    ensures r.UnknownColumn? <==> column !in TableColumns
    ensures r.Matches? ==> r.keys <= rows.Keys
    ensures r.Matches? ==> forall k :: k in rows ==> (k in r.keys <==> rows[k].employeeId == param)
  {
    if column !in TableColumns then UnknownColumn
    else Matches(set k | k in rows && rows[k].employeeId == param)
  }

  /** The reply of a handler whose statement, as written, filters
      `WHERE id = ?`: a statement error gives the handler's 500 with
      `errorMessage` (lines 132-135, 190-193, 205-208); no matched row gives
      404; otherwise the handler's `success` reply. */
  function WrittenReply(rows: map<string, Submission>, param: string, errorMessage: string, success: Response): (resp: Response)
  {
    match LookupBy(WrittenFilterColumn, rows, param)
    case UnknownColumn => Response(500, errorMessage)
    case Matches(keys) => if keys == {} then NotFound else success
  }

  /** As written, every GET-by-id, PUT and DELETE statement names a column
      the table does not have, so each request that reaches its statement
      ends in the handler's 500 branch, whatever the table holds and
      whichever id is asked for. */
  lemma WrittenFilterAlwaysFails(rows: map<string, Submission>, param: string, errorMessage: string, success: Response)
    ensures LookupBy(WrittenFilterColumn, rows, param) == UnknownColumn
    ensures WrittenReply(rows, param, errorMessage, success) == Response(500, errorMessage)
  {
  }

  /** Filtering on the primary key instead finds exactly the row stored
      under the parameter, when every row is stored under its own
      `employee_id`: at most one row, and that row's key is the parameter.
      `EmployeeTable.Find`, `Update` and `Delete` look rows up this way. */
  lemma KeyFilterFindsRow(rows: map<string, Submission>, param: string)
    requires forall k :: k in rows ==> rows[k].employeeId == k
    ensures LookupBy(KeyColumn, rows, param) == Matches(if param in rows then {param} else {})
  {
  }
}
