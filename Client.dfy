/** The registration form of `frontend/src/App.jsx`: its state (`formData`,
    `errors`, `successMessage`), `handleChange`, `validateForm`, and what
    `handleSubmit` does with the server's answer. */
module Client {
  import opened Calendar
  import opened Patterns
  import opened Records
  import Server

  // ---------------------------------------------------------------------------
  // What validateForm reports, field by field

  /** `age < 18 || (age === 18 && today < ageCheckDate)`. */
  predicate FormUnderage(dob: CalendarDate, today: CalendarDate) {
    var age := today.year - dob.year;
    age < 18 || (age == 18 && Before(today, SetFullYear(dob, today.year)))
  }

  /** `!value.trim()` */
  predicate IsBlank(s: string) {
    Trim(s) == ""
  }

  function NameError(s: string): (e: Option<string>) {
    if IsBlank(s) then Some("Name is required.") else None
  }

  /** An unparsable date makes both comparisons with NaN false: no message. */
  function BirthDateError(d: DateInput, today: CalendarDate): (e: Option<string>) {
    match d
    case Blank => Some("Date of birth is required.")
    case Unparsable => None
    case On(dob) => if FormUnderage(dob, today) then Some("Employee must be at least 18 years old.") else None
  }

  /** The pattern is tested on the untrimmed value. */
  function EmployeeIdError(s: string): (e: Option<string>) {
    if IsBlank(s) then Some("Employee ID is required.")
    else if !IsEmployeeIdShape(s) then Some("Employee ID must be alphanumeric and max 10 characters.")
    else None
  }

  function EmailError(s: string): (e: Option<string>) {
    if IsBlank(s) then Some("Email is required.")
    else if !IsEmail(s) then Some("Invalid email format.")
    else None
  }

  function PhoneError(s: string): (e: Option<string>) {
    if IsBlank(s) then Some("Phone number is required.")
    else if !IsPhoneNumber(s) then Some("Phone number must be 10 digits.")
    else None
  }

  /** The department is tested for emptiness without `trim`. */
  function DepartmentError(s: string): (e: Option<string>) {
    if s == "" then Some("Please select a department.") else None
  }

  function JoiningDateError(d: DateInput, today: CalendarDate): (e: Option<string>) {
    match d
    case Blank => Some("Date of joining is required.")
    case Unparsable => None
    case On(doj) => if Before(today, doj) then Some("Date of joining cannot be in the future.") else None
  }

  function RoleError(s: string): (e: Option<string>) {
    if IsBlank(s) then Some("Role is required.") else None
  }

  /** The outcome of each of `validateForm`'s eight checks: the message, if
      any. */
  datatype Report = Report(
    name: Option<string>, dateOfBirth: Option<string>, employeeId: Option<string>, email: Option<string>,
    phoneNumber: Option<string>, department: Option<string>, dateOfJoining: Option<string>, role: Option<string>)

  const AllClear := Report(None, None, None, None, None, None, None, None)

  /** Runs the eight checks: each reads its own field alone. */
  function Checks(form: Submission, today: CalendarDate): (rep: Report) {
    Report(NameError(form.name), BirthDateError(form.dateOfBirth, today),
      EmployeeIdError(form.employeeId), EmailError(form.email), PhoneError(form.phoneNumber),
      DepartmentError(form.department), JoiningDateError(form.dateOfJoining, today), RoleError(form.role))
  }

  function At(rep: Report, f: Field): (e: Option<string>) {
    match f
    case Name => rep.name
    case DateOfBirth => rep.dateOfBirth
    case EmployeeId => rep.employeeId
    case Email => rep.email
    case PhoneNumber => rep.phoneNumber
    case Department => rep.department
    case DateOfJoining => rep.dateOfJoining
    case Role => rep.role
  }

  /** The message `validateForm` records for one field, if any. */
  function FieldError(form: Submission, f: Field, today: CalendarDate): (e: Option<string>) {
    At(Checks(form, today), f)
  }

  /** `if (<check>) newErrors[f] = <message>` */
  function Note(m: map<Field, string>, f: Field, e: Option<string>): (m': map<Field, string>) {
    if e.Some? then m[f := e.value] else m
  }

  /** The dictionary `validateForm` fills, in the order of its checks. */
  function Tally(rep: Report): (errs: map<Field, string>) {
    var m := Note(map[], Name, rep.name);
    var m := Note(m, DateOfBirth, rep.dateOfBirth);
    var m := Note(m, EmployeeId, rep.employeeId);
    var m := Note(m, Email, rep.email);
    var m := Note(m, PhoneNumber, rep.phoneNumber);
    var m := Note(m, Department, rep.department);
    var m := Note(m, DateOfJoining, rep.dateOfJoining);
    Note(m, Role, rep.role)
  }

  function FormErrors(form: Submission, today: CalendarDate): (errs: map<Field, string>) {
    Tally(Checks(form, today))
  }

  /** Every one of the eight checks passes. */
  predicate FormPasses(form: Submission, today: CalendarDate) {
    Checks(form, today) == AllClear
  }

  /** The message of the required check of each text field. */
  function RequiredMessage(f: Field): (msg: string)
    requires !IsDateField(f)
  {
    match f
    case Name => "Name is required."
    case EmployeeId => "Employee ID is required."
    case Email => "Email is required."
    case PhoneNumber => "Phone number is required."
    case Department => "Please select a department."
    case Role => "Role is required."
  }

  predicate TrimmedField(f: Field) {
    f == Name || f == EmployeeId || f == Email || f == PhoneNumber || f == Role
  }

  // ---------------------------------------------------------------------------
  // Properties of the form's checks

  /** The dictionary has an entry for exactly the fields with a message, and
      that entry is the message: no check overwrites another's entry. */
  lemma TallyAt(rep: Report, f: Field)
    ensures f in Tally(rep) <==> At(rep, f).Some?
    ensures f in Tally(rep) ==> Some(Tally(rep)[f]) == At(rep, f)
  {
    match f
    case Name =>
    case DateOfBirth =>
    case EmployeeId =>
    case Email =>
    case PhoneNumber =>
    case Department =>
    case DateOfJoining =>
    case Role =>
  }

  /** The dictionary is empty exactly when no check produced a message. */
  lemma TallyEmptyIff(rep: Report)
    ensures Tally(rep) == map[] <==> rep == AllClear
  {
    if Tally(rep) == map[] {
      TallyAt(rep, Name);
      TallyAt(rep, DateOfBirth);
      TallyAt(rep, EmployeeId);
      TallyAt(rep, Email);
      TallyAt(rep, PhoneNumber);
      TallyAt(rep, Department);
      TallyAt(rep, DateOfJoining);
      TallyAt(rep, Role);
    }
  }

  /** A report is clear exactly when every field's entry is empty. */
  lemma AllClearIff(rep: Report)
    ensures rep == AllClear <==> forall f :: At(rep, f) == None
  {
    if forall f :: At(rep, f) == None {
      assert At(rep, Name) == None && At(rep, DateOfBirth) == None;
      assert At(rep, EmployeeId) == None && At(rep, Email) == None;
      assert At(rep, PhoneNumber) == None && At(rep, Department) == None;
      assert At(rep, DateOfJoining) == None && At(rep, Role) == None;
    }
  }

  /** The errors of the form, field by field. */
  lemma FormErrorsAt(form: Submission, f: Field, today: CalendarDate)
    ensures f in FormErrors(form, today) <==> FieldError(form, f, today).Some?
    ensures f in FormErrors(form, today) ==> Some(FormErrors(form, today)[f]) == FieldError(form, f, today)
  {
    TallyAt(Checks(form, today), f);
  }

  /** The form passes exactly when the dictionary is empty, that is when no
      field produced a message. */
  lemma NoErrorsIffFormPasses(form: Submission, today: CalendarDate)
    ensures FormErrors(form, today) == map[] <==> FormPasses(form, today)
    ensures FormPasses(form, today) <==> forall f :: FieldError(form, f, today) == None
  {
    TallyEmptyIff(Checks(form, today));
    AllClearIff(Checks(form, today));
    assert forall f :: FieldError(form, f, today) == At(Checks(form, today), f);
  }

  /** An error for one field depends on that field's value alone, so errors of
      different fields are all reported together and never mask each other. */
  lemma ErrorsAreLocal(form: Submission, form': Submission, f: Field, today: CalendarDate)
    requires Get(form, f) == Get(form', f)
    ensures FieldError(form, f, today) == FieldError(form', f, today)
  {
    match f
    case Name => assert form.name == form'.name;
    case EmployeeId => assert form.employeeId == form'.employeeId;
    case Email => assert form.email == form'.email;
    case PhoneNumber => assert form.phoneNumber == form'.phoneNumber;
    case Department => assert form.department == form'.department;
    case DateOfJoining => assert form.dateOfJoining == form'.dateOfJoining;
    case Role => assert form.role == form'.role;
    case DateOfBirth => assert form.dateOfBirth == form'.dateOfBirth;
  }

  /** Whitespace alone counts as missing for the five trimmed fields, and the
      required message then wins over any format message. */
  lemma WhitespaceIsMissing(form: Submission, f: Field, today: CalendarDate)
    requires TrimmedField(f) && AllWhitespace(Get(form, f).text)
    ensures FieldError(form, f, today) == Some(RequiredMessage(f))
  {
    TrimEmptyIffBlank(Get(form, f).text);
  }

  /** The department is not trimmed: a blank-looking selection is accepted. */
  lemma DepartmentNotTrimmed(form: Submission, today: CalendarDate)
    requires form.department != "" && AllWhitespace(form.department)
    ensures FieldError(form, Department, today) == None
  {
  }

  /** The form accepts an employee ID exactly when it is 1 to 10 ASCII
      letters or digits. */
  lemma EmployeeIdAcceptedIff(form: Submission, today: CalendarDate)
    ensures FieldError(form, EmployeeId, today) == None <==> IsEmployeeIdShape(form.employeeId)
  {
    if IsEmployeeIdShape(form.employeeId) {
      WordNotBlank(form.employeeId);
    }
  }

  /** The form's age error is the negation of the server's `isAdult`. */
  lemma FormAgeNegatesServer(dob: CalendarDate, today: CalendarDate)
    ensures FormUnderage(dob, today) <==> !Server.IsAdult(dob, today)
  {
  }

  /** For a birth date JavaScript cannot parse every comparison with NaN is
      false: the form raises no age error, while the server refuses the
      record as underage. */
  lemma UnparsableBirthDateDisagreement(form: Submission, today: CalendarDate)
    requires form.dateOfBirth == Unparsable && Server.SevenPresent(form)
    ensures FieldError(form, DateOfBirth, today) == None
    ensures Server.ValidateCreate(form, today) == Server.Fail(Server.AgeRule)
  {
  }

  /** A non-blank string is non-empty, so the form's trimmed required checks
      imply the server's truthiness checks. */
  lemma NotBlankIsPresent(s: string)
    requires !IsBlank(s)
    ensures Server.Present(s)
  {
  }

  /** A form that passes (with a birth date that parses) keeps each of the
      server's POST rules. */
  lemma FormPassKeepsRule(form: Submission, today: CalendarDate, r: Server.Rule)
    requires FormPasses(form, today)
    requires !form.dateOfBirth.Unparsable?
    ensures Server.CreateRuleHolds(r, form, today)
  {
    match r
    case Required =>
      NotBlankIsPresent(form.name);
      NotBlankIsPresent(form.employeeId);
      NotBlankIsPresent(form.email);
      NotBlankIsPresent(form.phoneNumber);
      NotBlankIsPresent(form.role);
    case AgeRule =>
      FormAgeNegatesServer(form.dateOfBirth.date, today);
    case EmailRule =>
    case PhoneRule =>
    case JoiningRule =>
  }

  /** Whatever the form lets through (with a birth date that parses) passes
      the server's POST chain on the same day. */
  lemma FormPassImpliesServerPass(form: Submission, today: CalendarDate)
    requires FormPasses(form, today)
    requires !form.dateOfBirth.Unparsable?
    ensures Server.ValidateCreate(form, today) == Server.Pass
  {
    forall r ensures Server.CreateRuleHolds(r, form, today) {
      FormPassKeepsRule(form, today, r);
    }
  }

  // ---------------------------------------------------------------------------
  // The server's answer

  /** `message.includes(part)` */
  predicate Contains(s: string, part: string) {
    exists i | 0 <= i <= |s| - |part| :: OccursAt(s, part, i)
  }

  predicate OccursAt(s: string, part: string, i: int) {
    0 <= i <= |s| - |part| && s[i..i + |part|] == part
  }

  /** What `axios.post` brings back: a response, or nothing when the server
      cannot be reached. */
  datatype Reply = NoResponse | Answered(response: Server.Response)

  predicate IsDuplicateReply(r: Reply) {
    r.Answered? && r.response.status == 400 && Contains(r.response.message, "Duplicate")
  }

  /** The server's duplicate-key answer is recognised by the form. */
  lemma ServerDuplicateIsRecognised()
    ensures IsDuplicateReply(Answered(Server.Response(400, Server.DuplicateMessage)))
  {
    assert Server.DuplicateMessage[0..9] == "Duplicate";
    assert OccursAt(Server.DuplicateMessage, "Duplicate", 0);
  }

  // ---------------------------------------------------------------------------
  // The component's state

  class RegistrationForm {
    var formData: Submission
    var errors: map<Field, string>
    var successMessage: string

    constructor ()
      ensures formData == EmptyForm && errors == map[] && successMessage == ""
    {
      formData, errors, successMessage := EmptyForm, map[], "";
    }

    /** `handleChange`: sets the edited field and clears that field's error
        (to the empty message); every other field and error is kept. */
    method HandleChange(f: Field, v: Value)
      requires Fits(f, v)
      modifies this
      ensures formData == With(old(formData), f, v)
      ensures Get(formData, f) == v && forall g :: g != f ==> Get(formData, g) == Get(old(formData), g)
      ensures errors == old(errors)[f := ""]
      ensures successMessage == old(successMessage)
    {
      formData := With(formData, f, v);
      errors := errors[f := ""];
    }

    /** `validateForm`: fills a fresh dictionary with the outcome of each
        check in turn (the conditions and messages are the functions
        `NameError` to `RoleError` above), stores it as the errors, and
        succeeds when it is empty. `today` stands for `new Date()`. */
    method ValidateForm(today: CalendarDate) returns (ok: bool)
      modifies this`errors
      ensures errors == FormErrors(formData, today)
      ensures ok <==> FormPasses(formData, today)
    {
      var newErrors: map<Field, string> := map[];
      newErrors := Note(newErrors, Name, NameError(formData.name));
      newErrors := Note(newErrors, DateOfBirth, BirthDateError(formData.dateOfBirth, today));
      newErrors := Note(newErrors, EmployeeId, EmployeeIdError(formData.employeeId));
      newErrors := Note(newErrors, Email, EmailError(formData.email));
      newErrors := Note(newErrors, PhoneNumber, PhoneError(formData.phoneNumber));
      newErrors := Note(newErrors, Department, DepartmentError(formData.department));
      newErrors := Note(newErrors, DateOfJoining, JoiningDateError(formData.dateOfJoining, today));
      newErrors := Note(newErrors, Role, RoleError(formData.role));
      errors := newErrors;
      ok := |newErrors| == 0;
      NoErrorsIffFormPasses(formData, today);
    }

    /** `handleSubmit`, given the server's reply. The `catch` branch spreads
        the `errors` the handler closed over when the form was rendered, that
        is the errors from before this submit, not the empty dictionary
        `validateForm` has just stored. Alerts are not modelled. */
    method HandleSubmit(today: CalendarDate, reply: Reply)
      modifies this
      ensures FormErrors(old(formData), today) != map[] ==>
                errors == FormErrors(old(formData), today) && formData == old(formData) && successMessage == ""
      ensures FormErrors(old(formData), today) == map[] && reply.Answered? && 200 <= reply.response.status < 300 ==>
                successMessage == reply.response.message && formData == EmptyForm && errors == map[]
      ensures FormErrors(old(formData), today) == map[] && IsDuplicateReply(reply) ==>
                errors == old(errors)[EmployeeId := "Employee ID already exists."][Email := "Email already exists."] &&
                formData == old(formData) && successMessage == ""
      ensures FormErrors(old(formData), today) == map[] && !IsDuplicateReply(reply) &&
              !(reply.Answered? && 200 <= reply.response.status < 300) ==>
                errors == map[] && formData == old(formData) && successMessage == ""
    {
      successMessage := "";
      var rendered := errors;
      var ok := ValidateForm(today);
      NoErrorsIffFormPasses(formData, today);
      if !ok {
        return;
      }
      if reply.Answered? && 200 <= reply.response.status < 300 {
        successMessage := reply.response.message;
        formData := EmptyForm;
      } else {
        successMessage := "";
        if IsDuplicateReply(reply) {
          errors := rendered[EmployeeId := "Employee ID already exists."][Email := "Email already exists."];
        }
      }
    }
  }
}
