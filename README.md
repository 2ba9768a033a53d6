# Student exam registration: a verified model of the registration and approval workflow

The application lets applicants submit a registration form with a photo and a
signature upload. An administrator then verifies each applicant and issues a
hall ticket (the exam-admission code), and can export every registration as a
CSV file. All state lives in one `students` table.

This project models that workflow without the web framework and the database
engine:

- `upload.dfy` (module `Upload`): the upload checks. `AllowedFile` is the
  case-insensitive extension test against png/jpg/jpeg. `StoredPath` is the
  path recorded for a stored upload, joined under `static/uploads` with every
  backslash turned into a forward slash.
- `ticket.dfy` (module `Ticket`): the hall-ticket code `"HT-"` followed by the
  id in decimal, zero-padded to at least six digits. There is a parser for it,
  and the round trip through the parser proves the code injective.
- `records.dfy` (module `Records`): the `Student` row and the form binding.
  The binding follows the INSERT's named parameters. It also holds the table
  invariants that come from the schema: AUTOINCREMENT ids in rowid order,
  UNIQUE `payment_utr`, UNIQUE `hall_ticket`, and `verified` defaulting to
  false. Beside them are the row update made by the verify action and the CSV
  projection.
- `registry.dfy` (module `Registry`): the class `StudentTable`, holding the
  rows and the next id. Its methods stand for `register_student`,
  `verify_student`, `generate_hall_ticket`, the record lookup and
  `download_csv`. `Register` and `GenerateHallTicket` return a Result value
  where the handler would flash a message and redirect. `Verify` has no
  result, because the handler always reports success. `Lookup` returns an
  Option, and `ExportCsv` returns the exported lines. The client methods
  `ExampleRegistration`, `ExampleRejections`, `ExampleApproval` and
  `ExampleSession` prove from the contracts alone two facts: a first
  registration gets id 1 and `HT-000001`, and resubmitting `UTR123` is
  refused.

Inputs the model cannot compute are parameters. Werkzeug's `secure_filename`
is the function parameter `sanitize`. Whether both upload files were written
to disk is the boolean `filesSaved`.

Three behaviours of the code are worth knowing:

- `verify_student` on an id that matches no row runs an UPDATE that changes
  nothing and still reports success. There is no NotFound outcome.
- A form field that is present but empty is accepted, because `NOT NULL`
  allows `''`. Only a missing key fails. For the 19 keys bound directly from
  the form, the parameter binding fails (`MissingField`). This includes the
  nullable `phone2`. For `payment_utr` and `exam_center`, read with `get`, a
  NULL reaches a `NOT NULL` column (`NullColumn`).
- `generate_hall_ticket` reports one error for both a missing and an
  unverified record.

The order of the checks follows the code and SQLite:

1. Both uploads are present. An upload with an empty file name counts as
   absent, since that is when the uploaded-file object is false.
2. Both extensions are allowed.
3. Both files are saved.
4. Every named parameter is bound.
5. A rowid is allocated (`TableFull` once the largest rowid, 2^63-1, is in
   use).
6. NOT NULL constraints.
7. UNIQUE constraints.

The insert and the hall-ticket update run in one transaction. So every
committed row's hall ticket is the code of its own id, and regenerating a
ticket writes the value already there.

## Model

| member | source | states |
|---|---|---|
| `Upload.LastIndexOf` | app.py:26 | the position returned holds the character and none follows it; none is returned exactly when the character does not occur (the split point of `rsplit('.', 1)`) |
| `Upload.AllowedFileIff` | app.py:15-26 | `allowed_file(f)` holds exactly when some '.' in `f` has no '.' after it and the text after it, lower-cased, is png, jpg or jpeg |
| `Upload.RejectsWithoutDot` | app.py:26 | a name with no '.' is rejected, a bare `png` included |
| `Upload.AcceptsAnyStem` | app.py:25-26 | any stem + "." + an allowed extension in any letter case is accepted |
| `Upload.RejectsOtherLastExtension` | app.py:25-26 | only the last extension counts: a name whose last extension is not allowed is rejected |
| `Upload.AcceptsUpperCasePng` | app.py:25-26 | `Photo.PNG` is accepted |
| `Upload.RejectsExe` | app.py:25-26 | `photo.exe` is rejected |
| `Upload.JoinPath` | app.py:92-93 | the joined path ends with the file name; an absolute name replaces the directory; otherwise the path starts with the directory, and exactly one '/' separates a directory not ending in '/' from the name |
| `Upload.NormalizeSlashesMeaning` | app.py:99-100 | the normalised path has no backslash and the same length; every backslash becomes '/' and every other character stays in place |
| `Upload.NormalizeSlashesIdempotent` | app.py:99-100 | normalising a normalised path changes nothing |
| `Upload.StoredPath` | app.py:90-100 | the path recorded for an upload contains no backslash |
| `Ticket.Decimal` | app.py:125 | the decimal text has at least one character, digits only, and no leading zero except for 0 |
| `Ticket.DecimalRoundTrip` | app.py:125 | reading the decimal text back gives the number |
| `Ticket.DecimalLength` | app.py:125 | a number below 10^k has at most k digits |
| `Ticket.ZeroPad` | app.py:125 | the padded text has length max(width, length), ends with the unpadded text and has only zeros before it |
| `Ticket.LeadingZerosValue` | app.py:125 | leading zeros do not change the value of a digit string |
| `Ticket.HallTicketShape` | app.py:125 | every code starts with "HT-" followed by at least six decimal digits |
| `Ticket.HallTicketRoundTrip` | app.py:125 | parsing the code of id gives back id |
| `Ticket.HallTicketInjective` | app.py:56 | distinct ids give distinct hall-ticket codes, so the UNIQUE constraint can never clash |
| `Ticket.HallTicketLength` | app.py:125 | for ids below one million the code is exactly nine characters |
| `Ticket.FirstHallTicket` | app.py:125 | id 1 gives "HT-000001" |
| `Records.FirstMissing` | app.py:105-121 | none is returned exactly when every named parameter has a form value; otherwise the first parameter (in statement order) lacking one |
| `Records.NewStudent` | app.py:105-121 | the inserted row has the new id, no hall ticket, `verified` false, the stored upload paths, and every bound column equal to its form value |
| `Records.DerivedTicketsAreUnique` | app.py:33-56 | rows with increasing ids and derived codes satisfy UNIQUE(hall_ticket) |
| `Records.AppendKeepsInvariant` | app.py:33-57 | appending a row with the next id, an unused payment reference and its derived code keeps ids ordered and fresh, UTRs unique and tickets unique and derived |
| `Records.MarkVerifiedEffect` | app.py:155 | the verify update sets `verified` on the rows with that id and changes no other field and no other row |
| `Records.MarkVerifiedIdempotent` | app.py:155 | verifying twice equals verifying once |
| `Records.MarkVerifiedUnknown` | app.py:155 | verifying an id not in the table changes nothing |
| `Records.MarkVerifiedKeepsInvariant` | app.py:155 | verifying keeps every table invariant |
| `Records.MarkVerifiedMonotone` | app.py:155 | a verified flag is never cleared by any verify action |
| `Records.StatusLabel` | app.py:209 | the status is "Verified" exactly when verified and "Not Verified" exactly when not |
| `Records.ExportRowMeaning` | app.py:203-210 | a line has the header's six columns: an ID column that reads back as the id, then the hall ticket, name, class and UTR, and the status label |
| `Records.ExportShape` | app.py:196-210 | the export is the header followed by exactly one line per record, in table order |
| `Records.ExportOfValidTable` | app.py:196-210 | on a valid table each line's hall ticket is the record's derived code and no two lines share an ID or a hall ticket |
| `Registry.StudentTable.constructor` | app.py:29-60 | a newly created table is empty, valid, and will give id 1 first |
| `Registry.StudentTable.FindIndex` | app.py:139 | a returned position holds the row with that id; none means no row has it |
| `Registry.StudentTable.UtrInUse` | app.py:55 | true exactly when some row already has that payment reference |
| `Registry.StudentTable.Lookup` | app.py:136-143 | a record is returned exactly when one with that id exists, and it is that row |
| `Registry.StudentTable.Register` | app.py:73-134 | success exactly when uploads, save, binding, rowid and constraints all pass; then one row is appended with the next id (greater than every existing id), `verified` false and hall ticket `HT-`+pad6(id), and nothing else changes; on any failure the table is unchanged, and each error is reported exactly under its condition, in check order |
| `Registry.StudentTable.InsertWithTicket` | app.py:103-127 | the INSERT followed by the hall-ticket UPDATE appends exactly the bound row carrying its derived code, advances the id counter and keeps the table valid |
| `Registry.StudentTable.Verify` | app.py:151-160 | the new rows are the verify update of the old ones, the id counter is unchanged and the table stays valid |
| `Registry.StudentTable.GenerateHallTicket` | app.py:162-189 | succeeds exactly when a record with that id exists and is verified, returning `HT-`+pad6(id); the table is the same afterwards in every case |
| `Registry.StudentTable.ExportCsv` | app.py:192-210 | the loop builds exactly the header plus one projected line per row |

## Left out

- Flask routing, `render_template`, `flash` messages, `redirect`/`url_for`, the `Cache-Control` header and `app.run`: transport and presentation. The admin dashboard only renders all rows through a template.
- The SQLite connection, `row_factory`, the DDL text and storage I/O errors. The model keeps only the constraints the schema imposes, as invariants of an in-memory table. A storage failure other than the ones modelled (for example a disk error) is not represented.
- Row deletion does not exist in the application. So the model hands out ids as a simple counter. It does not model AUTOINCREMENT's `sqlite_sequence` bookkeeping after deletes.
- `secure_filename` is the parameter `sanitize`. Writing the files is the boolean `filesSaved`, covering both `save` calls at once. The model does not capture:
  - files written before a database failure: they stay on disk, as orphans;
  - a photo saved when the signature's save then fails;
  - two uploads with the same sanitised name, which overwrite each other on disk.
- `os.path.join` is modelled with POSIX rules only. On Windows it inserts a backslash, which the slash normalisation then replaces.
- `Upload.LowerChar`: lower-cases ASCII letters only, unlike Python's Unicode-wide `str.lower`. No other character lower-cases to a letter of png, jpg or jpeg, so `AllowedFile` decides the same.
- CSV quoting and escaping, UTF-8 encoding, `send_file` and the download name: the export is modelled as a sequence of lines of fields.
- An integer id in the CSV's ID column is written as its decimal text (`Ticket.Decimal`). A NULL hall ticket would be written as an empty field; under the invariants none exists.
- Exception message texts and flash strings.
- Concurrency: requests are modelled one at a time.
