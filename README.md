# Student records store, modelled in Dafny

A model of the core of a small Flask student-records application (`app.py`).
An administrator creates and edits students, uploads their documents and
issues each new student a QR code pointing at the login page. Students log in
and see their own record. What is modelled is the store under the routes:

- the `Student` and `Document` tables, keyed by primary key;
- the uploads folder and the QR folder, as sets of file names;
- the session and the role gate (visitor, administrator, any other student);
- every route handler, as an operation on that store.

Files:

- `naming.dfy` (module `Naming`): how `process_file` classifies an upload by
  its extension and builds the name it is stored under, and the QR file name.
- `credentials.dfy` (module `Credentials`): the password digest and its check.
- `records.dfy` (module `Records`): the data model, the database constraints
  (`Valid`), the current-user resolution and one function per handler giving
  the store afterwards and the response.
- `properties.dfy` (module `RecordsProperties`): the lemmas about those
  handlers (role gate, login, the admin form's branches, the two deletes).
- `app.dfy` (module `App`): class `RecordsApp`, holding the tables and folders
  as fields and running the state-changing handlers in place, with loops where
  the Python loops. Each method is proved to reach the state and response the
  matching `Records` function gives.

Environment inputs are parameters:

- the clock and `os.urandom(2)` are a `Stamp` carried by each `Upload`;
- `werkzeug.utils.secure_filename` is the function parameter `secure`;
- the current user is an explicit `Session`.

`@login_required` (app.py:116, 164, 172, 184) runs before the admin test, so
a visitor who opens `/admin`, `/delete_document/<id>` or `/delete/<id>` is
redirected to the login page. Only a signed-in non-administrator gets the 403.

Behaviour kept as written, though odd:

- A reset or update whose `student_pk` has no row dereferences `None`. The
  model gives `ServerError` and changes nothing.
- On update, stored file names use the form's `student_id`, not the student's
  stored one.
- A create whose `student_id` is already taken fails at the commit. Its
  uploads are already on disk, so the files stay but no rows and no QR image
  are added.
- An empty `password` field on create is hashed as the empty password. Only a
  missing field falls back to `"12345"`.
- A name with no dot is its own extension, so an upload named `png` is
  converted to a PDF.

## Model

| member | source | states |
|---|---|---|
| `Naming.AfterLastDotIsLastPart` | app.py:79 | `split('.')[-1]`: the result is the longest dot-free suffix of the name, preceded by a dot when shorter than the name, and the whole name when it has no dot |
| `Naming.Decimal` | app.py:80 | the timestamp as `str(int)` writes it: non-empty, decimal digits only, one digit exactly below 10 |
| `Naming.DecimalInjective` | app.py:80 | different timestamps are written differently |
| `Naming.Hex4Injective` | app.py:81 | different random ids give different 4-digit hex strings |
| `Naming.AfterLastDotLower` | app.py:79 | lower-casing commutes with taking the text after the last dot |
| `Naming.ExtensionIgnoresCase` | app.py:79-82 | names that differ only in case get the same extension and the same image/non-image decision (`PHOTO.PNG` and `photo.png`) |
| `Naming.StoredNameShape` | app.py:82-91 | the stored name begins with `sid_`; it ends in `.pdf` for a jpg/jpeg/png upload and in `_` + the sanitised original name otherwise |
| `Naming.StoredNamesDiffer` | app.py:80-89 | for one student, two uploads with different clock readings or random ids get different stored names, whatever their original names |
| `Naming.QrName` | app.py:157 | the QR image of a student is `{sid}_qr.png` |
| `Credentials.VerifyHash` | app.py:107 | a digest made from a password accepts that password and no other |
| `Records.FindStudent` | app.py:106 | the lookup by `student_id` finds the student holding it, or reports that none does |
| `Records.CurrentRole` | app.py:64-66 | the session's student is the current user only while its row exists; the administrator is the student whose `student_id` is `admin` |
| `Records.Listing` | app.py:160 | the admin panel lists exactly the students whose `student_id` is not `admin` |
| `Records.StoredNames` | app.py:148-151 | the upload loop stores one name per upload with a non-empty filename, and stores the name of every such upload |
| `RecordsProperties.IngestAttaches` | app.py:148-152 | the upload loop turns the batch into its table plus `NewRows` of the stored names (the k-th stored name under key `nextDoc + k`, owned by the student), advances the next key by their number and adds exactly those names to the uploads folder; that the keys are fresh and earlier rows are kept is `ExtendsTable`'s |
| `RecordsProperties.ExtendsTable` | app.py:148-152 | after the upload loop every earlier row is kept, the k-th stored name sits under key `nextDoc + k` owned by the student, every new key is fresh, and the table grows by exactly the number of named uploads |
| `RecordsProperties.AdminPanelGate` | app.py:115-118 | a non-administrator gets 403 "Access Denied" and a visitor a redirect to login, and neither changes the store |
| `RecordsProperties.DeleteDocumentGate` | app.py:171-174 | a non-administrator gets 403 "Forbidden", a visitor a redirect to login, and the store is unchanged |
| `RecordsProperties.DeleteStudentGate` | app.py:183-186 | a non-administrator gets 403 "Forbidden", a visitor a redirect to login, and the store is unchanged |
| `RecordsProperties.IndexRouting` | app.py:95-101 | `/` sends a session that names nobody, or a student whose row is gone, to login; a session of the student with `student_id` `admin` to the admin panel; a session of any other existing student to the portal |
| `RecordsProperties.PortalRouting` | app.py:163-169 | `/portal` sends the administrator to the admin panel and shows any other student its own record |
| `RecordsProperties.LogoutSignsOut` | app.py:205-208 | after logout nobody is signed in and `/` leads to the login page |
| `RecordsProperties.FindStudentFinds` | app.py:106 | with unique `student_id`s, the lookup returns the one student holding it |
| `RecordsProperties.LoginSucceedsIff` | app.py:103-113 | a login succeeds iff a student with that `student_id` exists and the password checks; success signs that student in and routes by role; every failure gives the same response and keeps the session |
| `RecordsProperties.LoginWithPassword` | app.py:106-111 | logging in as a given student succeeds iff the attempt checks against its digest, and then signs that student in |
| `RecordsProperties.LoginAgreesWithIndex` | app.py:108-111 | after a successful login, `/` sends the new session where the login redirected it |
| `RecordsProperties.ResetPasswordEffect` | app.py:124-128 | the reset changes only the target's password; afterwards login with the new password succeeds and with any other fails |
| `RecordsProperties.UnknownKeyChangesNothing` | app.py:124-132 | a reset or update naming a missing student fails with a server error and changes nothing |
| `RecordsProperties.CreateStudentEffect` | app.py:130-158 | create adds exactly one student under a fresh key, holding the form's `student_id` and profile. Its password checks against the supplied one, or `12345` when none is given. The document table becomes the old one plus one row per named upload, the k-th under the k-th fresh key, naming the k-th stored file and owned by the new student; each such file is in the uploads folder, which gains exactly the stored names. Its QR image is issued. The new student can then log in and is sent to the portal |
| `RecordsProperties.CreateDuplicateEffect` | app.py:148-154 | a create with a taken `student_id` fails at the commit: the uploads stay on disk, nothing else changes |
| `RecordsProperties.UpdateStudentEffect` | app.py:130-154 | update overwrites the profile and keeps `student_id` and password. The document table becomes the old one plus one row per named upload, naming the stored file, owned by the student, under fresh keys; each such file is in the uploads folder, which gains exactly the stored names. No QR image is issued |
| `RecordsProperties.AdminPostPreservesValid` | app.py:115-158 | every outcome of the admin form keeps `student_id` unique, every document owned by an existing student and the next keys fresh |
| `RecordsProperties.DeleteDocumentEffect` | app.py:175-181 | deleting an existing document removes its file (if present) and its row and nothing else; a missing id changes nothing |
| `RecordsProperties.DeleteDocumentIdempotent` | app.py:175-176 | deleting a document twice is the same as deleting it once |
| `RecordsProperties.DeleteStudentCascade` | app.py:187-197 | deleting a student removes its QR image, the file of every document it owns, its row and all its document rows; other students, their rows and every file not named by a deleted document stay |
| `RecordsProperties.DeleteStudentIdempotent` | app.py:187-188 | the administrator deleting a key with no student row is redirected to the admin panel and changes nothing; so deleting a student twice is the same as deleting it once |
| `RecordsProperties.DeletedStudentIsGone` | app.py:187-203 | after a student is deleted none of its documents can be downloaded, its rows are gone and a session naming it is signed out |
| `App.RecordsApp.AdminPost` | app.py:115-158 | the in-place handler reaches the state and response `Records.AdminPost` gives and keeps the database constraints |
| `App.RecordsApp.ResetPassword` | app.py:124-128 | the in-place reset matches `Records.ResetPassword` |
| `App.RecordsApp.SaveStudent` | app.py:130-158 | the in-place create/update matches `Records.SaveStudent`, including the failed commit |
| `App.RecordsApp.StoreUploads` | app.py:148-152 | the upload loop writes the files and stages the rows that `Records.Ingest` gives |
| `App.RecordsApp.DeleteDocument` | app.py:171-181 | the in-place delete matches `Records.DeleteDocument` and keeps the constraints |
| `App.RecordsApp.DeleteStudent` | app.py:183-198 | the loop over the student's documents removes their files; the handler matches `Records.DeleteStudent` and keeps the constraints |
| `App.RecordsApp.RemoveFiles` | app.py:193-195 | the loop over a student's documents leaves the uploads folder without exactly the files those documents name |

## Left out

- Flask request parsing, template rendering and HTTP redirects: responses are the `Response` datatype.
- The department list passed to the template (app.py:22-23): the server never checks it.
- `Student.to_dict` (app.py:42-57): a serialisation helper that no handler calls.
- SQLAlchemy sessions and flask_login mechanics: the tables are maps, the current user is a `Session` parameter.
- Primary keys: the model hands out the next key from a counter. SQLite may reuse the largest key after a delete.
- `img2pdf.convert`, `qrcode.make`/`save` and file contents: only file names are modelled. A malformed image that makes the conversion raise is not modelled.
- File writes always succeed, and file names are plain names, not paths. A `student_id` holding `/` or `..` makes app.py write to another directory, or raise a server error after the row is committed (the QR save) or before it (`process_file`). The model instead records the name in the folder as given.
- `get_ip` and the QR payload URL (app.py:69-76, 156): a network probe, and the image content is not kept.
- `send_from_directory`'s path checks (app.py:203): `Download` only tests that the name is in the uploads folder.
- Startup bootstrap of the `admin` account and `app.run` (app.py:210-221): process setup. A store is opened from any `Valid` state instead.
- Form fields other than `student_pk`, `new_password` and `password` are always present strings. A missing `username` or `student_id`, which would fail the NOT NULL constraint, is not modelled.
- Credentials.VerifyHash: the digest is deterministic, whereas werkzeug salts each hash at random. Only "accepts exactly its password" is kept.
- Naming.ExtensionIgnoresCase: `str.lower` is modelled for the ASCII letters only, so case is ignored only for those.
- Concurrency between requests: each handler is one atomic step.
