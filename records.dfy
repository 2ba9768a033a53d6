/** The `students` table as values: one record per applicant, the constraints
    the schema puts on the table, the row update made by the verify action and
    the projection used by the CSV export. */
module Records {
  import opened Wrappers
  import Ticket

  /** One row of the `students` table. `hallTicket` is nullable in the schema;
      `verified` defaults to false. */
  datatype Student = Student(
    id: nat,
    name: string,
    fatherName: string,
    dob: string,
    className: string,
    gender: string,
    academicYear: string,
    aadhar: string,
    village: string,
    taluka: string,
    district: string,
    pin: string,
    religion: string,
    caste: string,
    nationality: string,
    motherTongue: string,
    medium: string,
    residentialAddress: string,
    phone1: string,
    phone2: string,
    photo: string,
    signature: string,
    paymentUtr: string,
    hallTicket: Option<string>,
    verified: bool,
    examCenter: string)

  /** The text value of the column called `column`, as a row addressed by
      column name returns it; None for NULL and for names that are not text
      columns of the table. */
  function Column(s: Student, column: string): Option<string>
  {
    match column
    case "name" => Some(s.name)
    case "father_name" => Some(s.fatherName)
    case "dob" => Some(s.dob)
    case "class" => Some(s.className)
    case "gender" => Some(s.gender)
    case "academic_year" => Some(s.academicYear)
    case "aadhar" => Some(s.aadhar)
    case "village" => Some(s.village)
    case "taluka" => Some(s.taluka)
    case "district" => Some(s.district)
    case "pin" => Some(s.pin)
    case "religion" => Some(s.religion)
    case "caste" => Some(s.caste)
    case "nationality" => Some(s.nationality)
    case "mother_tongue" => Some(s.motherTongue)
    case "medium" => Some(s.medium)
    case "residential_address" => Some(s.residentialAddress)
    case "phone1" => Some(s.phone1)
    case "phone2" => Some(s.phone2)
    case "photo" => Some(s.photo)
    case "signature" => Some(s.signature)
    case "payment_utr" => Some(s.paymentUtr)
    case "hall_ticket" => s.hallTicket
    case "exam_center" => Some(s.examCenter)
    case _ => None
  }

  /** The submitted form fields, keyed by field name. */
  type Form = map<string, string>

  /** Named parameters of the INSERT that are bound straight from the form, in
      the order they appear in the statement. A form lacking one of them makes
      the binding fail, even for the nullable `phone2`. */
  const BoundKeys: seq<string> := [
    "name", "father_name", "dob", "class", "gender", "academic_year", "aadhar",
    "village", "taluka", "district", "pin", "religion", "caste", "nationality",
    "mother_tongue", "medium", "residential_address", "phone1", "phone2"]

  /** The first key of `keys` that the form lacks, if any. */
  function FirstMissing(keys: seq<string>, form: Form): (r: Option<string>)
    ensures r.None? <==> forall i :: 0 <= i < |keys| ==> keys[i] in form
    ensures r.Some? ==> exists i :: 0 <= i < |keys| && keys[i] == r.value && r.value !in form
                          && forall j :: 0 <= j < i ==> keys[j] in form
  {
    if |keys| == 0 then None
    else if keys[0] !in form then Some(keys[0])
    else
      var r := FirstMissing(keys[1..], form);
      if r.Some? then
        var i :| 0 <= i < |keys| - 1 && keys[1..][i] == r.value && r.value !in form
                 && forall j :: 0 <= j < i ==> keys[1..][j] in form;
        assert keys[i + 1] == r.value;
        r
      else
        assert forall i :: 1 <= i < |keys| ==> keys[i] == keys[1..][i - 1];
        r
  }

  /** Every parameter of the INSERT has a value: the bound keys are present,
      and so are the two keys read with `get`, which would otherwise bind NULL
      into a NOT NULL column. An empty string is a value. */
  predicate Complete(form: Form)
  {
    FirstMissing(BoundKeys, form).None? && "payment_utr" in form && "exam_center" in form
  }

  /** The row the INSERT creates for identifier `id`: form values, the stored
      upload paths, no hall ticket yet and `verified` at its default. */
  function NewStudent(id: nat, form: Form, photoPath: string, signaturePath: string): (s: Student)
    requires Complete(form)
    ensures s.id == id && !s.verified && s.hallTicket.None?
    ensures s.photo == photoPath && s.signature == signaturePath
    ensures s.paymentUtr == form["payment_utr"] && s.examCenter == form["exam_center"]
    ensures forall i :: 0 <= i < |BoundKeys| ==> Column(s, BoundKeys[i]) == Some(form[BoundKeys[i]])
  {
    assert forall i :: 0 <= i < |BoundKeys| ==> BoundKeys[i] in form;
    assert BoundKeys[3] == "class" && BoundKeys[18] == "phone2";
    var f := (i: nat) requires i < |BoundKeys| && BoundKeys[i] in form => form[BoundKeys[i]];
    Student(
      id, f(0), f(1), f(2), f(3), f(4), f(5), f(6), f(7), f(8), f(9), f(10), f(11), f(12), f(13),
      f(14), f(15), f(16), f(17), f(18),
      photoPath, signaturePath, form["payment_utr"], None, false, form["exam_center"])
  }

  // ----- Table invariants -------------------------------------------------

  /** Rows are kept in rowid order, and AUTOINCREMENT ids are positive and
      below the next id to hand out. */
  ghost predicate IdsOrdered(rows: seq<Student>, nextId: nat)
  {
    && (forall i, j :: 0 <= i < j < |rows| ==> rows[i].id < rows[j].id)
    && (forall i :: 0 <= i < |rows| ==> 1 <= rows[i].id < nextId)
  }

  /** The UNIQUE constraint on `payment_utr`. */
  ghost predicate UniqueUtr(rows: seq<Student>)
  {
    forall i, j :: 0 <= i < j < |rows| ==> rows[i].paymentUtr != rows[j].paymentUtr
  }

  /** The UNIQUE constraint on `hall_ticket` (NULLs never clash). */
  ghost predicate UniqueTickets(rows: seq<Student>)
  {
    forall i, j :: 0 <= i < j < |rows| && rows[i].hallTicket.Some? && rows[j].hallTicket.Some?
      ==> rows[i].hallTicket.value != rows[j].hallTicket.value
  }

  /** Every committed row carries the code derived from its own id: the insert
      and the update that writes the code run in one transaction. */
  ghost predicate TicketsDerived(rows: seq<Student>)
  {
    forall i :: 0 <= i < |rows| ==> rows[i].hallTicket == Some(Ticket.HallTicket(rows[i].id))
  }

  ghost predicate TableInvariant(rows: seq<Student>, nextId: nat)
  {
    1 <= nextId && IdsOrdered(rows, nextId) && UniqueUtr(rows) && UniqueTickets(rows) && TicketsDerived(rows)
  }

  /** Derived codes of rows with distinct ids never clash, so the UNIQUE
      constraint on `hall_ticket` is a consequence of the other invariants. */
  lemma DerivedTicketsAreUnique(rows: seq<Student>, nextId: nat)
    requires IdsOrdered(rows, nextId) && TicketsDerived(rows)
    ensures UniqueTickets(rows)
  {
    forall i, j | 0 <= i < j < |rows|
      ensures rows[i].hallTicket.value != rows[j].hallTicket.value
    {
      Ticket.HallTicketInjective(rows[i].id, rows[j].id);
    }
  }

  ghost predicate UtrTaken(rows: seq<Student>, utr: string)
  {
    exists i :: 0 <= i < |rows| && rows[i].paymentUtr == utr
  }

  ghost predicate HasId(rows: seq<Student>, id: nat)
  {
    exists i :: 0 <= i < |rows| && rows[i].id == id
  }

  /** Appending a new row with a fresh id and an unused payment reference, and
      then writing its derived code, keeps every invariant. */
  lemma AppendKeepsInvariant(rows: seq<Student>, nextId: nat, s: Student)
    requires TableInvariant(rows, nextId)
    requires s.id == nextId && !UtrTaken(rows, s.paymentUtr)
    requires s.hallTicket == Some(Ticket.HallTicket(s.id))
    ensures TableInvariant(rows + [s], nextId + 1)
  {
    var rows' := rows + [s];
    assert forall i :: 0 <= i < |rows| ==> rows'[i] == rows[i];
    assert UniqueUtr(rows') by {
      forall i, j | 0 <= i < j < |rows'|
        ensures rows'[i].paymentUtr != rows'[j].paymentUtr
      {
        if j == |rows| {
          assert rows'[i] == rows[i];
        }
      }
    }
    DerivedTicketsAreUnique(rows', nextId + 1);
  }

  // ----- The verify action ------------------------------------------------

  /** `UPDATE students SET verified = TRUE WHERE id = ?`. */
  function MarkVerified(rows: seq<Student>, id: nat): seq<Student>
  {
    seq(|rows|, i requires 0 <= i < |rows| => if rows[i].id == id then rows[i].(verified := true) else rows[i])
  }

  /** Verifying sets the flag of the rows with that id and touches nothing else:
      no other field of that row, no other row. */
  lemma MarkVerifiedEffect(rows: seq<Student>, id: nat)
    ensures |MarkVerified(rows, id)| == |rows|
    ensures forall i :: 0 <= i < |rows| && rows[i].id == id ==>
      MarkVerified(rows, id)[i] == rows[i].(verified := true) && MarkVerified(rows, id)[i].verified
    ensures forall i :: 0 <= i < |rows| && rows[i].id != id ==> MarkVerified(rows, id)[i] == rows[i]
  {
  }

  /** Verifying twice is the same as verifying once. */
  lemma MarkVerifiedIdempotent(rows: seq<Student>, id: nat)
    ensures MarkVerified(MarkVerified(rows, id), id) == MarkVerified(rows, id)
  {
  }

  /** Verifying an id that is not in the table changes nothing. */
  lemma MarkVerifiedUnknown(rows: seq<Student>, id: nat)
    requires !HasId(rows, id)
    ensures MarkVerified(rows, id) == rows
  {
  }

  /** Verifying keeps every table invariant. */
  lemma MarkVerifiedKeepsInvariant(rows: seq<Student>, nextId: nat, id: nat)
    requires TableInvariant(rows, nextId)
    ensures TableInvariant(MarkVerified(rows, id), nextId)
  {
  }

  /** Once set, the flag stays set whichever id is verified next. */
  lemma MarkVerifiedMonotone(rows: seq<Student>, other: nat)
    ensures forall i :: 0 <= i < |rows| && rows[i].verified ==> MarkVerified(rows, other)[i].verified
  {
  }

  // ----- The CSV export ---------------------------------------------------

  /** The export's fixed column order. */
  const Header: seq<string> := ["ID", "Hall Ticket Number", "Name", "Class", "UTR Number", "Status"]

  function StatusLabel(verified: bool): (status: string)
    ensures status == "Verified" <==> verified
    ensures status == "Not Verified" <==> !verified
  {
    if verified then "Verified" else "Not Verified"
  }

  /** One record's export line; a NULL hall ticket is written as an empty field. */
  function ExportRow(s: Student): seq<string>
  {
    [Ticket.Decimal(s.id), if s.hallTicket.Some? then s.hallTicket.value else "",
     s.name, s.className, s.paymentUtr, StatusLabel(s.verified)]
  }

  /** The whole export: the header, then one line per record in table order. */
  function ExportTable(rows: seq<Student>): seq<seq<string>>
  {
    [Header] + seq(|rows|, i requires 0 <= i < |rows| => ExportRow(rows[i]))
  }

  /** A record's line has the six columns of the header: the ID reads back as
      the record's id, the next four are its hall ticket, name, class and
      payment reference, and Status is "Verified" exactly when it is verified. */
  lemma ExportRowMeaning(s: Student)
    ensures |ExportRow(s)| == |Header|
    ensures Ticket.AllDigits(ExportRow(s)[0]) && Ticket.ValueOf(ExportRow(s)[0]) == s.id
    ensures s.hallTicket.Some? ==> ExportRow(s)[1] == s.hallTicket.value
    ensures ExportRow(s)[2] == s.name && ExportRow(s)[3] == s.className
    ensures ExportRow(s)[4] == s.paymentUtr
    ensures ExportRow(s)[5] == "Verified" <==> s.verified
    ensures ExportRow(s)[5] == "Not Verified" <==> !s.verified
  {
    Ticket.DecimalRoundTrip(s.id);
  }

  /** The export holds the header and then exactly one line per record, in
      table order. */
  lemma ExportShape(rows: seq<Student>)
    ensures |ExportTable(rows)| == |rows| + 1 && ExportTable(rows)[0] == Header
    ensures forall i :: 0 <= i < |rows| ==> ExportTable(rows)[i + 1] == ExportRow(rows[i])
  {
  }

  /** On a table that keeps its invariants, the Hall Ticket column holds each
      record's derived code and no two lines share an ID or a hall ticket. */
  lemma ExportOfValidTable(rows: seq<Student>, nextId: nat)
    requires TableInvariant(rows, nextId)
    ensures forall i :: 0 <= i < |rows| ==> ExportRow(rows[i])[1] == Ticket.HallTicket(rows[i].id)
    ensures forall i, j :: 0 <= i < j < |rows| ==>
      ExportRow(rows[i])[0] != ExportRow(rows[j])[0] && ExportRow(rows[i])[1] != ExportRow(rows[j])[1]
  {
    forall i, j | 0 <= i < j < |rows|
      ensures ExportRow(rows[i])[0] != ExportRow(rows[j])[0]
      ensures ExportRow(rows[i])[1] != ExportRow(rows[j])[1]
    {
      ExportRowMeaning(rows[i]);
      ExportRowMeaning(rows[j]);
    }
  }
}
