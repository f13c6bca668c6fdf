/** The records store behind app.py's routes, as values: the student and
    document tables, the uploads folder and the QR folder, the session and
    role gate, and one function per route handler giving the new store and
    the response. The class in module App runs the same handlers in place. */
module Records {
  import opened Naming
  import opened Credentials

  datatype Option<T> = None | Some(value: T)

  // ---------------------------------------------------------------------
  // Data model (app.py:26-62)

  /** The profile columns the admin form overwrites (app.py:137-146). */
  datatype Profile = Profile(
    username: string,
    department: string,
    yearStart: string,
    yearEnd: string,
    fatherName: string,
    motherName: string,
    phone: string,
    altPhone: string,
    address: string,
    bloodGrp: string)

  /** A Student row; its primary key is the key of the students map. */
  datatype Student = Student(studentId: string, profile: Profile, password: Digest)

  /** A Document row: the stored file name and the primary key of its owner. */
  datatype Document = Document(filename: string, owner: nat)

  /** Everything the application keeps between requests: the two tables
      (keyed by primary key, with the next key each will hand out), the
      names of the files in the uploads folder and of the QR images in the
      static folder. */
  datatype Store = Store(
    students: map<nat, Student>,
    documents: map<nat, Document>,
    nextStudent: nat,
    nextDoc: nat,
    uploads: set<string>,
    qrCodes: set<string>)

  /** The reserved student_id of the administrator. */
  const AdminId := "admin"

  /** student_id is a unique column (app.py:28). */
  predicate UniqueIds(students: map<nat, Student>) {
    forall p, q :: p in students && q in students && students[p].studentId == students[q].studentId ==> p == q
  }

  /** The database constraints: unique student_id, every document owned by
      an existing student (the non-null foreign key, app.py:62), and fresh
      keys for the next inserts. */
  predicate Valid(st: Store) {
    && UniqueIds(st.students)
    && (forall d :: d in st.documents ==> st.documents[d].owner in st.students)
    && (forall p :: p in st.students ==> p < st.nextStudent)
    && (forall d :: d in st.documents ==> d < st.nextDoc)
  }

  /** Student.query.filter_by(student_id=sid).first() */
  function FindStudent(students: map<nat, Student>, sid: string): (r: Option<nat>)
    requires UniqueIds(students)
    ensures r.Some? ==> r.value in students && students[r.value].studentId == sid
    ensures r.None? ==> forall p :: p in students ==> students[p].studentId != sid
  {
    if IdTaken(students, sid) then
      var p :| p in students && students[p].studentId == sid; Some(p)
    else None
  }

  predicate IdTaken(students: map<nat, Student>, sid: string) {
    exists p :: p in students && students[p].studentId == sid
  }

  /** The documents a student owns (the `documents` relationship, app.py:40). */
  function OwnedDocs(documents: map<nat, Document>, pk: nat): set<nat> {
    set d | d in documents && documents[d].owner == pk
  }

  /** The stored file names of the given documents. */
  function FilesOf(documents: map<nat, Document>, ids: set<nat>): set<string> {
    set d | d in ids && d in documents :: documents[d].filename
  }

  // ---------------------------------------------------------------------
  // Sessions, roles and responses

  /** The flask_login session: nobody, or the primary key of a student. */
  datatype Session = Anonymous | SignedIn(pk: nat)

  datatype Role = Unauthenticated | Admin | Regular(pk: nat)

  datatype Page = LoginPage | AdminPanel | PortalPage

  datatype Response =
    | Redirect(to: Page)
    | Forbidden(message: string)     // the 403 responses
    | LoginForm(invalid: bool)       // login.html, with the 'Invalid Credentials' flash when invalid
    | AdminView(listed: set<nat>)    // admin.html with the students it lists
    | PortalView(pk: nat)            // viewer.html for one student
    | FileBody(filename: string)     // a file of the uploads folder
    | NotFound
    | ServerError                    // an exception the handler does not catch

  /** The current user: the session's student if that row still exists
      (load_user, app.py:64-66); the administrator is the student whose
      student_id is "admin". */
  function CurrentRole(st: Store, session: Session): (r: Role)
    ensures r.Unauthenticated? <==> (session.Anonymous? || session.pk !in st.students)
    ensures r.Admin? <==> (session.SignedIn? && session.pk in st.students && st.students[session.pk].studentId == AdminId)
    ensures r.Regular? ==> session == SignedIn(r.pk)
  {
    match session
    case Anonymous => Unauthenticated
    case SignedIn(pk) =>
      if pk !in st.students then Unauthenticated
      else if st.students[pk].studentId == AdminId then Admin
      else Regular(pk)
  }

  /** @login_required followed by the admin test of the admin-only
      handlers: None lets the handler go on. */
  function AdminGate(role: Role, message: string): Option<Response> {
    match role
    case Unauthenticated => Some(Redirect(LoginPage))
    case Regular(_) => Some(Forbidden(message))
    case Admin => None
  }

  /** A handler's effect: the store afterwards and the response. */
  datatype Step = Step(store: Store, response: Response)

  // ---------------------------------------------------------------------
  // Read-only routes

  /** `/` (app.py:95-101). */
  function Index(st: Store, session: Session): Response {
    match CurrentRole(st, session)
    case Unauthenticated => Redirect(LoginPage)
    case Admin => Redirect(AdminPanel)
    case Regular(_) => Redirect(PortalPage)
  }

  /** `/portal` (app.py:163-169). */
  function Portal(st: Store, session: Session): Response {
    match CurrentRole(st, session)
    case Unauthenticated => Redirect(LoginPage)
    case Admin => Redirect(AdminPanel)
    case Regular(pk) => PortalView(pk)
  }

  /** The students the admin panel lists: every one but the administrator
      (app.py:160). */
  function Listing(students: map<nat, Student>): (r: set<nat>)
    ensures forall p :: p in r ==> p in students && students[p].studentId != AdminId
    ensures forall p :: p in students && p !in r ==> students[p].studentId == AdminId
  {
    set p | p in students && students[p].studentId != AdminId
  }

  /** `/admin` with GET (app.py:115-118, 160-161). */
  function AdminGet(st: Store, session: Session): Response {
    match AdminGate(CurrentRole(st, session), "Access Denied")
    case Some(denied) => denied
    case None => AdminView(Listing(st.students))
  }

  /** `/uploads/<filename>` (app.py:200-203): any signed-in user gets any
      stored file. */
  function Download(st: Store, session: Session, filename: string): Response {
    if CurrentRole(st, session).Unauthenticated? then Redirect(LoginPage)
    else if filename in st.uploads then FileBody(filename)
    else NotFound
  }

  // ---------------------------------------------------------------------
  // Login and logout (app.py:103-113, 205-208)

  datatype LoginRequest = ShowLogin | SubmitLogin(username: string, password: string)

  datatype LoginStep = LoginStep(session: Session, response: Response)

  function Login(st: Store, session: Session, req: LoginRequest): LoginStep
    requires UniqueIds(st.students)
  {
    match req
    case ShowLogin => LoginStep(session, LoginForm(false))
    case SubmitLogin(username, password) =>
      match FindStudent(st.students, username)
      case Some(pk) =>
        if Verify(st.students[pk].password, password) then
          LoginStep(SignedIn(pk), if st.students[pk].studentId == AdminId then Redirect(AdminPanel) else Redirect(PortalPage))
        else LoginStep(session, LoginForm(true))
      case None => LoginStep(session, LoginForm(true))
  }

  function Logout(): LoginStep {
    LoginStep(Anonymous, Redirect(LoginPage))
  }

  // ---------------------------------------------------------------------
  // File intake (app.py:78-91, 148-152)

  /** One uploaded file: its original name and what process_file draws for it. */
  datatype Upload = Upload(filename: string, at: Stamp)

  /** The rows staged in the session and the uploads folder while the
      uploads of one request are processed. */
  datatype Batch = Batch(documents: map<nat, Document>, nextDoc: nat, uploads: set<string>)

  /** One turn of the upload loop: a file with a name is written to the
      uploads folder and gets a Document row; a file without one is skipped. */
  function Attach(b: Batch, owner: nat, sid: string, u: Upload, secure: string -> string): Batch {
    if u.filename == "" then b
    else
      var name := NameOf(sid, u, secure);
      Batch(b.documents[b.nextDoc := Document(name, owner)], b.nextDoc + 1, b.uploads + {name})
  }

  /** The whole upload loop. */
  function Ingest(b: Batch, owner: nat, sid: string, files: seq<Upload>, secure: string -> string): Batch
    decreases |files|
  {
    if files == [] then b
    else Attach(Ingest(b, owner, sid, files[..|files| - 1], secure), owner, sid, files[|files| - 1], secure)
  }

  /** The name an upload with a name is stored under. */
  function NameOf(sid: string, u: Upload, secure: string -> string): string {
    StoredName(sid, u.at, u.filename, secure)
  }

  /** How many of the uploads have a name. */
  function NamedCount(files: seq<Upload>): (n: nat)
    ensures n <= |files|
    ensures (forall i :: 0 <= i < |files| ==> files[i].filename != "") ==> n == |files|
    decreases |files|
  {
    if files == [] then 0
    else NamedCount(files[..|files| - 1]) + if files[|files| - 1].filename == "" then 0 else 1
  }

  /** The names the upload loop stores, in order: one per upload with a name. */
  function StoredNames(sid: string, files: seq<Upload>, secure: string -> string): (r: seq<string>)
    ensures |r| == NamedCount(files)
    ensures forall i :: 0 <= i < |files| && files[i].filename != "" ==> NameOf(sid, files[i], secure) in r
    decreases |files|
  {
    if files == [] then []
    else
      var init := StoredNames(sid, files[..|files| - 1], secure);
      var u := files[|files| - 1];
      assert forall i :: 0 <= i < |files| - 1 ==> files[i] == files[..|files| - 1][i];
      if u.filename == "" then init else init + [NameOf(sid, u, secure)]
  }

  // ---------------------------------------------------------------------
  // The admin form (app.py:115-158)

  /** The fields of a POST to `/admin`. An empty student_pk or new_password
      counts as absent, as Python's truth test does; `password` is None only
      when the field is missing (request.form.get's default applies then). */
  datatype AdminForm = AdminForm(
    studentPk: Option<nat>,
    newPassword: string,
    studentId: string,
    password: Option<string>,
    profile: Profile,
    documents: seq<Upload>)

  function PasswordOrDefault(password: Option<string>): string {
    match password
    case Some(p) => p
    case None => DefaultPassword
  }

  /** The reset branch (app.py:124-128); a key without a row dereferences
      None and fails. */
  function ResetPassword(st: Store, pk: nat, newPassword: string): Step {
    if pk !in st.students then Step(st, ServerError)
    else
      var s := st.students[pk];
      Step(st.(students := st.students[pk := s.(password := Hash(newPassword))]), Redirect(AdminPanel))
  }

  /** The create/update branch (app.py:130-158). File names and the QR name
      use the form's student_id even on update. The uploads reach the disk
      before the commit; a create whose student_id is taken fails at the
      commit, leaving those files but no rows and no QR image. */
  function SaveStudent(st: Store, form: AdminForm, secure: string -> string): Step {
    var sid := form.studentId;
    match form.studentPk
    case Some(pk) =>
      if pk !in st.students then Step(st, ServerError)
      else
        var b := Ingest(Batch(st.documents, st.nextDoc, st.uploads), pk, sid, form.documents, secure);
        var s := st.students[pk].(profile := form.profile);
        Step(st.(students := st.students[pk := s], documents := b.documents, nextDoc := b.nextDoc, uploads := b.uploads),
             Redirect(AdminPanel))
    case None =>
      var pk := st.nextStudent;
      var b := Ingest(Batch(st.documents, st.nextDoc, st.uploads), pk, sid, form.documents, secure);
      if IdTaken(st.students, sid) then Step(st.(uploads := b.uploads), ServerError)
      else
        var s := Student(sid, form.profile, Hash(PasswordOrDefault(form.password)));
        Step(Store(st.students[pk := s], b.documents, pk + 1, b.nextDoc, b.uploads, st.qrCodes + {QrName(sid)}),
             Redirect(AdminPanel))
  }

  /** `/admin` with POST. */
  function AdminPost(st: Store, session: Session, form: AdminForm, secure: string -> string): Step {
    match AdminGate(CurrentRole(st, session), "Access Denied")
    case Some(denied) => Step(st, denied)
    case None =>
      if form.studentPk.Some? && form.newPassword != "" then ResetPassword(st, form.studentPk.value, form.newPassword)
      else SaveStudent(st, form, secure)
  }

  // ---------------------------------------------------------------------
  // Deletes (app.py:171-198)

  /** `/delete_document/<id>`: removes the file if present and the row. */
  function DeleteDocument(st: Store, session: Session, id: nat): Step {
    match AdminGate(CurrentRole(st, session), "Forbidden")
    case Some(denied) => Step(st, denied)
    case None =>
      if id !in st.documents then Step(st, Redirect(AdminPanel))
      else Step(st.(uploads := st.uploads - {st.documents[id].filename}, documents := st.documents - {id}),
                Redirect(AdminPanel))
  }

  /** `/delete/<id>`: removes the QR image, the file of every owned document,
      the student row and, by the cascade, its document rows. */
  function DeleteStudent(st: Store, session: Session, pk: nat): Step {
    match AdminGate(CurrentRole(st, session), "Forbidden")
    case Some(denied) => Step(st, denied)
    case None =>
      if pk !in st.students then Step(st, Redirect(AdminPanel))
      else
        var docs := st.documents;
        Step(Store(st.students - {pk},
                   map d | d in docs && docs[d].owner != pk :: docs[d],
                   st.nextStudent,
                   st.nextDoc,
                   st.uploads - FilesOf(docs, OwnedDocs(docs, pk)),
                   st.qrCodes - {QrName(st.students[pk].studentId)}),
             Redirect(AdminPanel))
  }
}
