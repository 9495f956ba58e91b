/** The eight fields of an employee record, as the browser form holds them and
    as the JSON body of `POST /employees` carries them. Text fields are
    strings, the empty string standing for a missing or otherwise falsy
    value; the two dates are `DateInput`s. */
module Records {
  import opened Calendar

  datatype Option<T> = None | Some(value: T)

  datatype Submission = Submission(
    name: string,
    employeeId: string,
    email: string,
    phoneNumber: string,
    department: string,
    dateOfJoining: DateInput,
    role: string,
    dateOfBirth: DateInput)

  /** The field names, used as keys of the form's state and of its errors. */
  datatype Field = Name | EmployeeId | Email | PhoneNumber | Department | DateOfJoining | Role | DateOfBirth

  /** The value an input element delivers: the text of a text input or a
      select, the date of a date input. */
  datatype Value = Text(text: string) | Day(input: DateInput)

  predicate IsDateField(f: Field) {
    f == DateOfJoining || f == DateOfBirth
  }

  /** A value of the right kind for the field. */
  predicate Fits(f: Field, v: Value) {
    IsDateField(f) <==> v.Day?
  }

  /** The record before anything has been typed (`App.jsx` lines 5-14). */
  const EmptyForm := Submission("", "", "", "", "", Blank, "", Blank)

  /** `record[f]` */
  function Get(r: Submission, f: Field): (v: Value)
    ensures Fits(f, v)
  {
    match f
    case Name => Text(r.name)
    case EmployeeId => Text(r.employeeId)
    case Email => Text(r.email)
    case PhoneNumber => Text(r.phoneNumber)
    case Department => Text(r.department)
    case DateOfJoining => Day(r.dateOfJoining)
    case Role => Text(r.role)
    case DateOfBirth => Day(r.dateOfBirth)
  }

  /** `{ ...record, [f]: v }` */
  function With(r: Submission, f: Field, v: Value): (r': Submission)
    requires Fits(f, v)
    ensures Get(r', f) == v
    ensures forall g :: g != f ==> Get(r', g) == Get(r, g)
  {
    match f
    case Name => r.(name := v.text)
    case EmployeeId => r.(employeeId := v.text)
    case Email => r.(email := v.text)
    case PhoneNumber => r.(phoneNumber := v.text)
    case Department => r.(department := v.text)
    case DateOfJoining => r.(dateOfJoining := v.input)
    case Role => r.(role := v.text)
    case DateOfBirth => r.(dateOfBirth := v.input)
  }
}
