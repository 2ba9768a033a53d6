/** The request handlers of the registration and approval workflow, over an
    in-memory `students` table. Redirects and flash messages become Result
    values; the table is a class whose methods change it in place. */
module Registry {
  import opened Wrappers
  import opened Upload
  import Ticket
  import opened Records

  /** Largest rowid SQLite hands out; an AUTOINCREMENT insert fails after it. */
  const MaxRowId: nat := 0x7FFF_FFFF_FFFF_FFFF

  /** A file part of the submitted form. */
  datatype FilePart = FilePart(filename: string)

  /** A file part counts as uploaded when it is present and its file name is
      not empty (an uploaded-file object is false when it has no name). */
  predicate Uploaded(f: Option<FilePart>)
  {
    f.Some? && f.value.filename != ""
  }

  /** Why a registration was turned back to the form. */
  datatype RegisterError =
    | MissingFile                 // a photo or signature part is absent
    | DisallowedExtension         // a file name fails the extension check
    | SaveFailed                  // writing an upload to disk raised
    | MissingField(key: string)   // an INSERT parameter has no form value to bind
    | TableFull                   // the largest rowid is already in use
    | NullColumn(column: string)  // NULL bound into a NOT NULL column
    | DuplicatePayment            // UNIQUE(payment_utr) violated

  /** What a successful registration reports: the new id and its hall ticket. */
  datatype Registration = Registration(id: nat, hallTicket: string)

  /** Why a hall ticket could not be generated: the record is missing or not
      verified (one message covers both). */
  datatype TicketError = NotVerifiedOrMissing

  /** Both uploads are present and pass the extension check. */
  predicate UploadsAllowed(photo: Option<FilePart>, signature: Option<FilePart>)
  {
    Uploaded(photo) && Uploaded(signature)
    && AllowedFile(photo.value.filename) && AllowedFile(signature.value.filename)
  }

  /** Every condition a submission must meet to be stored, in terms of the
      table before the request. */
  ghost predicate Admissible(rows: seq<Student>, nextId: nat, form: Form,
                             photo: Option<FilePart>, signature: Option<FilePart>, filesSaved: bool)
  {
    && UploadsAllowed(photo, signature)
    && filesSaved
    && Complete(form)
    && nextId <= MaxRowId
    && !UtrTaken(rows, form["payment_utr"])
  }

  class StudentTable {
    /** The rows of `students`, in rowid order. */
    var rows: seq<Student>
    /** The id the next successful insert receives. */
    var nextId: nat

    ghost predicate Valid()
      reads this
    {
      TableInvariant(rows, nextId)
    }

    /** A freshly initialised, empty table. */
    constructor ()
      ensures Valid() && rows == [] && nextId == 1
    {
      rows := [];
      nextId := 1;
    }

    /** `WHERE id = ?`: the position of the row with that id, if there is one. */
    method FindIndex(id: nat) returns (k: Option<nat>)
      ensures k.Some? ==> k.value < |rows| && rows[k.value].id == id
      ensures k.None? ==> !HasId(rows, id)
    {
      var i := 0;
      while i < |rows|
        invariant 0 <= i <= |rows|
        invariant forall j :: 0 <= j < i ==> rows[j].id != id
      {
        if rows[i].id == id {
          return Some(i);
        }
        i := i + 1;
      }
      return None;
    }

    /** The UNIQUE index probe on `payment_utr`. */
    method UtrInUse(utr: string) returns (taken: bool)
      ensures taken <==> UtrTaken(rows, utr)
    {
      var i := 0;
      while i < |rows|
        invariant 0 <= i <= |rows|
        invariant forall j :: 0 <= j < i ==> rows[j].paymentUtr != utr
      {
        if rows[i].paymentUtr == utr {
          return true;
        }
        i := i + 1;
      }
      return false;
    }

    /** `SELECT * FROM students WHERE id = ?`, as the hall-ticket view and the
        ticket generator run it. */
    method Lookup(id: nat) returns (s: Option<Student>)
      ensures s.Some? <==> HasId(rows, id)
      ensures s.Some? ==> s.value.id == id && s.value in rows
    {
      var k := FindIndex(id);
      if k.Some? {
        s := Some(rows[k.value]);
      } else {
        s := None;
      }
    }

    /** `register_student`: validate both uploads, store them, insert the row
        and write its hall ticket. A failure at any step leaves the table as
        it was; a success appends exactly one row. */
    method Register(form: Form, photo: Option<FilePart>, signature: Option<FilePart>,
                    sanitize: string -> string, filesSaved: bool)
      returns (r: Result<Registration, RegisterError>)
      requires Valid()
      modifies this
      ensures Valid()
      ensures r.Ok? <==> Admissible(old(rows), old(nextId), form, photo, signature, filesSaved)
      ensures r.Err? ==> rows == old(rows) && nextId == old(nextId)
      ensures r.Ok? ==>
        && r.value == Registration(old(nextId), Ticket.HallTicket(old(nextId)))
        && nextId == old(nextId) + 1
        && (forall i :: 0 <= i < |old(rows)| ==> old(rows)[i].id < r.value.id)
        && rows == old(rows) + [NewStudent(r.value.id, form,
                                           StoredPath(sanitize(photo.value.filename)),
                                           StoredPath(sanitize(signature.value.filename)))
                                  .(hallTicket := Some(r.value.hallTicket))]
      // Which check turns a submission back, in the order the handler and the
      // INSERT perform them.
      ensures r == Err(MissingFile) <==> !Uploaded(photo) || !Uploaded(signature)
      ensures r == Err(DisallowedExtension) <==>
              Uploaded(photo) && Uploaded(signature) && !UploadsAllowed(photo, signature)
      ensures r == Err(SaveFailed) <==> UploadsAllowed(photo, signature) && !filesSaved
      ensures r.Err? && r.error.MissingField? <==>
              UploadsAllowed(photo, signature) && filesSaved && FirstMissing(BoundKeys, form).Some?
      ensures r.Err? && r.error.MissingField? ==> FirstMissing(BoundKeys, form) == Some(r.error.key)
      ensures r == Err(TableFull) <==>
              UploadsAllowed(photo, signature) && filesSaved && FirstMissing(BoundKeys, form).None?
              && old(nextId) > MaxRowId
      ensures r.Err? && r.error.NullColumn? <==>
              UploadsAllowed(photo, signature) && filesSaved && FirstMissing(BoundKeys, form).None?
              && old(nextId) <= MaxRowId && !Complete(form)
      ensures r.Err? && r.error.NullColumn? ==>
              r.error.column == if "payment_utr" !in form then "payment_utr" else "exam_center"
      ensures r == Err(DuplicatePayment) <==>
              UploadsAllowed(photo, signature) && filesSaved && Complete(form)
              && old(nextId) <= MaxRowId && UtrTaken(old(rows), form["payment_utr"])
    {
      if !Uploaded(photo) || !Uploaded(signature) {
        return Err(MissingFile);
      }
      var photoName, signatureName := photo.value.filename, signature.value.filename;
      if !(AllowedFile(photoName) && AllowedFile(signatureName)) {
        return Err(DisallowedExtension);
      }
      var photoPath := JoinPath(UploadFolder, sanitize(photoName));
      var signaturePath := JoinPath(UploadFolder, sanitize(signatureName));
      if !filesSaved {
        return Err(SaveFailed);
      }
      photoPath := NormalizeSlashes(photoPath);
      signaturePath := NormalizeSlashes(signaturePath);

      // INSERT: bind the parameters, allocate the rowid, check the constraints.
      var missing := FirstMissing(BoundKeys, form);
      if missing.Some? {
        return Err(MissingField(missing.value));
      }
      if nextId > MaxRowId {
        return Err(TableFull);
      }
      if "payment_utr" !in form {
        return Err(NullColumn("payment_utr"));
      }
      if "exam_center" !in form {
        return Err(NullColumn("exam_center"));
      }
      var taken := UtrInUse(form["payment_utr"]);
      if taken {
        return Err(DuplicatePayment);
      }
      var registration := InsertWithTicket(form, photoPath, signaturePath);
      r := Ok(registration);
    }

    /** The body of the transaction once every check has passed: INSERT the row
        with no hall ticket, take its rowid, then UPDATE the row with the code
        derived from that id. */
    method InsertWithTicket(form: Form, photoPath: string, signaturePath: string)
      returns (registration: Registration)
      requires Valid() && Complete(form) && nextId <= MaxRowId
      requires !UtrTaken(rows, form["payment_utr"])
      modifies this
      ensures Valid()
      ensures registration == Registration(old(nextId), Ticket.HallTicket(old(nextId)))
      ensures nextId == old(nextId) + 1
      ensures rows == old(rows) + [NewStudent(registration.id, form, photoPath, signaturePath)
                                     .(hallTicket := Some(registration.hallTicket))]
    {
      var id := nextId;
      var inserted := NewStudent(id, form, photoPath, signaturePath);
      rows := rows + [inserted];
      nextId := nextId + 1;

      var ticket := Ticket.HallTicket(id);
      rows := rows[|rows| - 1 := inserted.(hallTicket := Some(ticket))];
      assert rows == old(rows) + [inserted.(hallTicket := Some(ticket))];
      AppendKeepsInvariant(old(rows), old(nextId), inserted.(hallTicket := Some(ticket)));
      registration := Registration(id, ticket);
    }

    /** `verify_student`: set `verified` on the row with that id. An unknown id
        matches no row and is still reported as a success. */
    method Verify(id: nat)
      requires Valid()
      modifies this
      ensures Valid()
      ensures rows == MarkVerified(old(rows), id) && nextId == old(nextId)
    {
      var k := FindIndex(id);
      if k.Some? {
        rows := rows[k.value := rows[k.value].(verified := true)];
      }
      MarkVerifiedKeepsInvariant(old(rows), nextId, id);
    }

    /** `generate_hall_ticket`: only a row that exists and is verified gets its
        code (re)written; the code written is the one registration assigned, so
        the table is the same afterwards either way. */
    method GenerateHallTicket(id: nat) returns (r: Result<string, TicketError>)
      requires Valid()
      modifies this
      ensures Valid()
      ensures rows == old(rows) && nextId == old(nextId)
      ensures r.Ok? <==> exists i :: 0 <= i < |rows| && rows[i].id == id && rows[i].verified
      ensures r.Ok? ==> r.value == Ticket.HallTicket(id)
      ensures r.Ok? ==> exists i :: 0 <= i < |rows| && rows[i].id == id && rows[i].hallTicket == Some(r.value)
    {
      var k := FindIndex(id);
      if k.Some? && rows[k.value].verified {
        var ticket := Ticket.HallTicket(id);
        rows := rows[k.value := rows[k.value].(hallTicket := Some(ticket))];
        r := Ok(ticket);
      } else {
        r := Err(NotVerifiedOrMissing);
      }
    }

    /** `download_csv`: the header, then one line per row, built row by row. */
    method ExportCsv() returns (table: seq<seq<string>>)
      ensures table == ExportTable(rows)
    {
      table := [Header];
      var i := 0;
      while i < |rows|
        invariant 0 <= i <= |rows|
        invariant |table| == i + 1 && table[0] == Header
        invariant forall j :: 0 <= j < i ==> table[j + 1] == ExportRow(rows[j])
      {
        table := table + [ExportRow(rows[i])];
        i := i + 1;
      }
    }
  }

  /** A complete form with the given payment reference; every other field is empty. */
  function SampleForm(utr: string): (form: Form)
    ensures Complete(form) && form["payment_utr"] == utr
  {
    var form := map k | k in BoundKeys + ["payment_utr", "exam_center"] :: "";
    var form := form["payment_utr" := utr];
    assert forall i :: 0 <= i < |BoundKeys| ==> BoundKeys[i] in form;
    form
  }

  /** The first submission of a complete form with two acceptable uploads
      (such as "Photo.PNG" and "signature.jpg", see AcceptsUpperCasePng and
      AcceptsAnyStem) gets id 1 and "HT-000001". */
  method ExampleRegistration(photo: Option<FilePart>, signature: Option<FilePart>, sanitize: string -> string)
    returns (table: StudentTable)
    requires UploadsAllowed(photo, signature)
    ensures fresh(table)
    ensures table.Valid() && |table.rows| == 1 && table.rows[0].id == 1 && table.nextId == 2
    ensures table.rows[0].paymentUtr == "UTR123" && !table.rows[0].verified
  {
    table := new StudentTable();
    var r := table.Register(SampleForm("UTR123"), photo, signature, sanitize, true);
    Ticket.FirstHallTicket();
    assert r == Ok(Registration(1, "HT-000001"));
  }

  /** Resubmitting a payment reference already in the table, or a photo whose
      name fails the check (such as "photo.exe", see RejectsExe), is turned
      back and stores nothing. */
  method ExampleRejections(table: StudentTable, photo: Option<FilePart>, signature: Option<FilePart>,
                           exe: Option<FilePart>, sanitize: string -> string)
    requires table.Valid() && |table.rows| == 1 && table.rows[0].paymentUtr == "UTR123"
    requires table.nextId == 2
    requires UploadsAllowed(photo, signature)
    requires Uploaded(exe) && !AllowedFile(exe.value.filename)
    modifies table
    ensures table.Valid() && table.rows == old(table.rows) && table.nextId == old(table.nextId)
  {
    var again := table.Register(SampleForm("UTR123"), photo, signature, sanitize, true);
    assert again == Err(DuplicatePayment);
    var bad := table.Register(SampleForm("UTR999"), exe, signature, sanitize, true);
    assert bad == Err(DisallowedExtension);
  }

  /** Approving record 1: verifying it twice leaves the table as verifying it
      once, generating its ticket gives "HT-000001" again, an unknown id gets
      no ticket, and the export shows the record as verified. */
  method ExampleApproval(table: StudentTable)
    requires table.Valid() && |table.rows| == 1 && table.rows[0].id == 1
    modifies table
  {
    table.Verify(1);
    var once := table.rows;
    table.Verify(1);
    MarkVerifiedIdempotent(old(table.rows), 1);
    assert table.rows == once && table.rows[0].verified;

    var t := table.GenerateHallTicket(1);
    Ticket.FirstHallTicket();
    assert t == Ok("HT-000001");
    var missing := table.GenerateHallTicket(2);
    assert missing.Err?;

    var csv := table.ExportCsv();
    ExportShape(table.rows);
    ExportRowMeaning(table.rows[0]);
    assert |csv| == 2 && csv[1][1] == "HT-000001" && csv[1][5] == "Verified";
  }

  /** The whole session: registration, the two rejected resubmissions and the
      approval of the stored record. */
  method ExampleSession(photo: Option<FilePart>, signature: Option<FilePart>, exe: Option<FilePart>,
                        sanitize: string -> string)
    requires UploadsAllowed(photo, signature)
    requires Uploaded(exe) && !AllowedFile(exe.value.filename)
  {
    var table := ExampleRegistration(photo, signature, sanitize);
    ExampleRejections(table, photo, signature, exe, sanitize);
    ExampleApproval(table);
  }
}
