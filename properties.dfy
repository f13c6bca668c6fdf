/** What the route handlers of module Records promise: the role gate, login,
    the admin form's three branches and the two cascading deletes. */
module RecordsProperties {
  import opened Naming
  import opened Credentials
  import opened Records

  // ---------------------------------------------------------------------
  // The upload loop

  /** The rows the upload loop adds for `names`: the k-th name under key
      `start + k`, owned by `owner`. */
  ghost function NewRows(start: nat, owner: nat, names: seq<string>): map<nat, Document>
    decreases |names|
  {
    if names == [] then map[]
    else NewRows(start, owner, names[..|names| - 1])[start + |names| - 1 := Document(names[|names| - 1], owner)]
  }

  /** NewRows has exactly the keys `start` to `start + |names| - 1`, and the
      row under `start + k` stores `names[k]` for `owner`. */
  lemma {:induction false} NewRowsShape(start: nat, owner: nat, names: seq<string>)
    ensures forall d :: d in NewRows(start, owner, names) <==> start <= d < start + |names|
    ensures forall k :: 0 <= k < |names| ==> NewRows(start, owner, names)[start + k] == Document(names[k], owner)
    ensures |NewRows(start, owner, names)| == |names|
    decreases |names|
  {
    if names != [] {
      var init := names[..|names| - 1];
      NewRowsShape(start, owner, init);
      forall k | 0 <= k < |init|
        ensures names[k] == init[k]
      {
      }
    }
  }

  /** `b'` is `b` with the rows NewRows gives for `names` added, and exactly
      those names added to the uploads folder. */
  ghost predicate Extends(b: Batch, b': Batch, owner: nat, names: seq<string>) {
    && b'.nextDoc == b.nextDoc + |names|
    && b'.documents == b.documents + NewRows(b.nextDoc, owner, names)
    && b'.uploads == b.uploads + (set n | n in names)
  }

  /** Appending one more row keeps Extends. */
  lemma ExtendsStep(b: Batch, m: Batch, owner: nat, names: seq<string>, name: string)
    requires Extends(b, m, owner, names)
    ensures Extends(b, Batch(m.documents[m.nextDoc := Document(name, owner)], m.nextDoc + 1, m.uploads + {name}),
                    owner, names + [name])
  {
    var names' := names + [name];
    assert names'[..|names'| - 1] == names;
    var rows := NewRows(b.nextDoc, owner, names);
    assert NewRows(b.nextDoc, owner, names') == rows[m.nextDoc := Document(name, owner)];
    assert m.documents[m.nextDoc := Document(name, owner)] == b.documents + rows[m.nextDoc := Document(name, owner)];
    UploadsStep(b.uploads, m.uploads, names, name);
  }

  /** Adding one more name to the folder keeps it the old folder plus the
      names so far. */
  lemma UploadsStep(folder: set<string>, folder': set<string>, names: seq<string>, name: string)
    requires folder' == folder + (set n | n in names)
    ensures folder' + {name} == folder + (set n | n in names + [name])
  {
    assert (set n | n in names + [name]) == (set n | n in names) + {name};
  }

  /** What Extends means for the table: every earlier row is kept, the new
      rows sit under the fresh keys from `b.nextDoc` on, one per name and all
      owned by `owner`, and the table grows by one row per name. */
  lemma ExtendsTable(b: Batch, b': Batch, owner: nat, names: seq<string>)
    requires forall d :: d in b.documents ==> d < b.nextDoc
    requires Extends(b, b', owner, names)
    ensures forall d :: d in b.documents ==> d in b'.documents && b'.documents[d] == b.documents[d]
    ensures forall d :: d in b'.documents && d !in b.documents ==>
              b.nextDoc <= d < b'.nextDoc && b'.documents[d].owner == owner
    ensures forall k :: 0 <= k < |names| ==>
              b.nextDoc + k in b'.documents && b'.documents[b.nextDoc + k] == Document(names[k], owner)
    ensures |b'.documents| == |b.documents| + |names|
    ensures forall d :: d in b'.documents && d !in b.documents ==> b'.documents[d].filename in b'.uploads
  {
    var rows := NewRows(b.nextDoc, owner, names);
    NewRowsShape(b.nextDoc, owner, names);
    forall d | d in b'.documents && d !in b.documents
      ensures b'.documents[d].owner == owner && b'.documents[d].filename in b'.uploads
    {
      var k := d - b.nextDoc;
      assert b'.documents[b.nextDoc + k] == Document(names[k], owner);
      assert names[k] in names;
    }
    assert b.documents.Keys !! rows.Keys;
    assert b'.documents.Keys == b.documents.Keys + rows.Keys;
    assert |b'.documents.Keys| == |b.documents.Keys| + |rows.Keys|;
  }

  /** The upload loop appends one Document row per upload with a name, in
      order, owned by `owner`, and adds exactly the stored names to the
      uploads folder. */
  lemma {:induction false} IngestAttaches(b: Batch, owner: nat, sid: string, files: seq<Upload>, secure: string -> string)
    ensures Extends(b, Ingest(b, owner, sid, files, secure), owner, StoredNames(sid, files, secure))
    decreases |files|
  {
    if files == [] {
      assert (set n | n in StoredNames(sid, files, secure)) == {};
    } else {
      var init := files[..|files| - 1];
      var u := files[|files| - 1];
      var m := Ingest(b, owner, sid, init, secure);
      var names := StoredNames(sid, init, secure);
      IngestAttaches(b, owner, sid, init, secure);
      assert Ingest(b, owner, sid, files, secure) == Attach(m, owner, sid, u, secure);
      if u.filename != "" {
        var name := NameOf(sid, u, secure);
        assert StoredNames(sid, files, secure) == names + [name];
        ExtendsStep(b, m, owner, names, name);
      } else {
        assert StoredNames(sid, files, secure) == names;
      }
    }
  }

  // ---------------------------------------------------------------------
  // Role gate and routing

  /** Only the administrator gets past the admin panel: a signed-in student
      gets a 403, a visitor is sent to the login page by @login_required, and
      neither changes anything. */
  lemma AdminPanelGate(st: Store, session: Session, form: AdminForm, secure: string -> string)
    requires !CurrentRole(st, session).Admin?
    ensures AdminPost(st, session, form, secure).store == st
    ensures CurrentRole(st, session).Regular? ==>
              AdminGet(st, session) == Forbidden("Access Denied")
              && AdminPost(st, session, form, secure).response == Forbidden("Access Denied")
    ensures CurrentRole(st, session).Unauthenticated? ==>
              AdminGet(st, session) == Redirect(LoginPage)
              && AdminPost(st, session, form, secure).response == Redirect(LoginPage)
  {
  }

  /** Only the administrator deletes documents. */
  lemma DeleteDocumentGate(st: Store, session: Session, id: nat)
    requires !CurrentRole(st, session).Admin?
    ensures DeleteDocument(st, session, id).store == st
    ensures DeleteDocument(st, session, id).response ==
              if CurrentRole(st, session).Regular? then Forbidden("Forbidden") else Redirect(LoginPage)
  {
  }

  /** Only the administrator deletes students. */
  lemma DeleteStudentGate(st: Store, session: Session, pk: nat)
    requires !CurrentRole(st, session).Admin?
    ensures DeleteStudent(st, session, pk).store == st
    ensures DeleteStudent(st, session, pk).response ==
              if CurrentRole(st, session).Regular? then Forbidden("Forbidden") else Redirect(LoginPage)
  {
  }

  /** `/` sends a visitor to the login page, the administrator to the admin
      panel and any other student to the portal. */
  lemma IndexRouting(st: Store, session: Session)
    ensures (session.Anonymous? || session.pk !in st.students) ==> Index(st, session) == Redirect(LoginPage)
    ensures session.SignedIn? && session.pk in st.students && st.students[session.pk].studentId == AdminId ==>
              Index(st, session) == Redirect(AdminPanel)
    ensures session.SignedIn? && session.pk in st.students && st.students[session.pk].studentId != AdminId ==>
              Index(st, session) == Redirect(PortalPage)
  {
  }

  /** `/portal` shows a student its own record and sends the administrator
      back to the admin panel. */
  lemma PortalRouting(st: Store, session: Session)
    ensures CurrentRole(st, session).Admin? ==> Portal(st, session) == Redirect(AdminPanel)
    ensures CurrentRole(st, session).Unauthenticated? ==> Portal(st, session) == Redirect(LoginPage)
    ensures CurrentRole(st, session).Regular? ==>
              session.SignedIn? && Portal(st, session) == PortalView(session.pk) && session.pk in st.students
    ensures Portal(st, session).PortalView? ==> st.students[Portal(st, session).pk].studentId != AdminId
  {
  }

  /** After logout nobody is signed in, so `/` leads to the login page. */
  lemma LogoutSignsOut(st: Store)
    ensures CurrentRole(st, Logout().session).Unauthenticated?
    ensures Index(st, Logout().session) == Redirect(LoginPage)
    ensures Logout().response == Redirect(LoginPage)
  {
  }

  // ---------------------------------------------------------------------
  // Login

  /** FindStudent finds the one student holding a student_id. */
  lemma FindStudentFinds(students: map<nat, Student>, pk: nat)
    requires UniqueIds(students) && pk in students
    ensures FindStudent(students, students[pk].studentId) == Some(pk)
  {
  }

  /** A login succeeds exactly when a student with that student_id exists
      and the password checks against its digest; it then signs that student
      in and sends the administrator to the admin panel and anyone else to
      the portal. Every failure gives the same response and keeps the session,
      whether the student_id is unknown or the password wrong. */
  lemma LoginSucceedsIff(st: Store, session: Session, username: string, password: string)
    requires UniqueIds(st.students)
    ensures var l := Login(st, session, SubmitLogin(username, password));
            && (l.response.Redirect? <==>
                  exists p :: p in st.students && st.students[p].studentId == username && Verify(st.students[p].password, password))
            && (!l.response.Redirect? ==> l == LoginStep(session, LoginForm(true)))
            && (l.response.Redirect? ==>
                  && l.session.SignedIn? && l.session.pk in st.students
                  && st.students[l.session.pk].studentId == username
                  && (l.response.to == AdminPanel <==> username == AdminId)
                  && (l.response.to == PortalPage <==> username != AdminId))
  {
    var l := Login(st, session, SubmitLogin(username, password));
    match FindStudent(st.students, username)
    case Some(pk) =>
      FindStudentFinds(st.students, pk);
    case None =>
  }

  /** Signing in as a student whose password is `password`. */
  lemma LoginWithPassword(st: Store, session: Session, pk: nat, attempt: string)
    requires UniqueIds(st.students) && pk in st.students
    ensures var l := Login(st, session, SubmitLogin(st.students[pk].studentId, attempt));
            (l.response.Redirect? <==> Verify(st.students[pk].password, attempt))
            && (l.response.Redirect? ==> l.session == SignedIn(pk))
  {
    FindStudentFinds(st.students, pk);
  }

  /** After a successful login, `/` sends the new session where the login
      itself redirected it. */
  lemma LoginAgreesWithIndex(st: Store, session: Session, username: string, password: string)
    requires UniqueIds(st.students)
    ensures var l := Login(st, session, SubmitLogin(username, password));
            l.response.Redirect? ==> Index(st, l.session) == l.response
  {
    LoginSucceedsIff(st, session, username, password);
  }

  // ---------------------------------------------------------------------
  // The admin form

  /** The reset branch changes the target's password and nothing else;
      afterwards the new password signs the student in and any other is
      refused. */
  lemma ResetPasswordEffect(st: Store, session: Session, form: AdminForm, secure: string -> string, attempt: string)
    requires Valid(st) && CurrentRole(st, session).Admin?
    requires form.studentPk.Some? && form.newPassword != "" && form.studentPk.value in st.students
    ensures var pk := form.studentPk.value;
            var r := AdminPost(st, session, form, secure);
            && r.response == Redirect(AdminPanel)
            && r.store == st.(students := st.students[pk := st.students[pk].(password := r.store.students[pk].password)])
            && Valid(r.store)
            && var l := Login(r.store, Anonymous, SubmitLogin(st.students[pk].studentId, attempt));
               (l.response.Redirect? <==> attempt == form.newPassword)
               && (l.response.Redirect? ==> l.session == SignedIn(pk))
  {
    var pk := form.studentPk.value;
    var r := AdminPost(st, session, form, secure);
    assert r.store.students[pk].studentId == st.students[pk].studentId;
    assert Valid(r.store);
    LoginWithPassword(r.store, Anonymous, pk, attempt);
  }

  /** A reset or update naming a key without a row fails with a server
      error (the handler dereferences None) and changes nothing. */
  lemma UnknownKeyChangesNothing(st: Store, session: Session, form: AdminForm, secure: string -> string)
    requires CurrentRole(st, session).Admin?
    requires form.studentPk.Some? && form.studentPk.value !in st.students
    ensures AdminPost(st, session, form, secure) == Step(st, ServerError)
  {
  }

  /** Creating a student adds exactly one row, under a fresh key, holding the
      form's student_id and profile and a digest of the given password, or of
      "12345" when none is given; it adds one document per upload with a name,
      all owned by the new student, and issues its QR image. The new student
      can then sign in with that password and is sent to the portal. */
  lemma CreateStudentEffect(st: Store, session: Session, form: AdminForm, secure: string -> string, attempt: string)
    requires Valid(st) && CurrentRole(st, session).Admin?
    requires form.studentPk.None? && !IdTaken(st.students, form.studentId)
    ensures var r := AdminPost(st, session, form, secure);
            var pk := st.nextStudent;
            var names := StoredNames(form.studentId, form.documents, secure);
            && r.response == Redirect(AdminPanel)
            && pk !in st.students
            && r.store.students.Keys == st.students.Keys + {pk}
            && (forall p :: p in st.students ==> r.store.students[p] == st.students[p])
            && r.store.students[pk].studentId == form.studentId
            && r.store.students[pk].profile == form.profile
            && (Verify(r.store.students[pk].password, attempt) <==> attempt == PasswordOrDefault(form.password))
            && |r.store.documents| == |st.documents| + NamedCount(form.documents)
            && (forall d :: d in st.documents ==> d in r.store.documents && r.store.documents[d] == st.documents[d])
            && (forall d :: d in r.store.documents && d !in st.documents ==> r.store.documents[d].owner == pk)
            && r.store.documents == st.documents + NewRows(st.nextDoc, pk, StoredNames(form.studentId, form.documents, secure))
            && (forall d :: d in r.store.documents && d !in st.documents ==> r.store.documents[d].filename in r.store.uploads)
            && r.store.uploads == st.uploads + (set n | n in names)
            && r.store.qrCodes == st.qrCodes + {QrName(form.studentId)}
            && Valid(r.store)
            && var l := Login(r.store, Anonymous, SubmitLogin(form.studentId, attempt));
               (l.response.Redirect? <==> attempt == PasswordOrDefault(form.password))
               && (l.response.Redirect? ==> l.session == SignedIn(pk) && l.response == Redirect(PortalPage))
  {
    assert AdminPost(st, session, form, secure) == SaveStudent(st, form, secure);
    CreateStudentTables(st, form, secure);
    assert form.studentId != AdminId by {
      match session
      case SignedIn(a) =>
        assert st.students[a].studentId == AdminId;
    }
    CreateStudentSignsIn(st, form, secure, attempt);
  }

  /** After a successful create the constraints hold, and the new student,
      which is not the administrator, can sign in exactly with its password
      and is sent to the portal. */
  lemma CreateStudentSignsIn(st: Store, form: AdminForm, secure: string -> string, attempt: string)
    requires Valid(st) && form.studentId != AdminId
    requires form.studentPk.None? && !IdTaken(st.students, form.studentId)
    ensures var r := SaveStudent(st, form, secure);
            var pk := st.nextStudent;
            && Valid(r.store)
            && pk in r.store.students
            && (Verify(r.store.students[pk].password, attempt) <==> attempt == PasswordOrDefault(form.password))
            && var l := Login(r.store, Anonymous, SubmitLogin(form.studentId, attempt));
               (l.response.Redirect? <==> attempt == PasswordOrDefault(form.password))
               && (l.response.Redirect? ==> l.session == SignedIn(pk) && l.response == Redirect(PortalPage))
  {
    var pk := st.nextStudent;
    var r := SaveStudent(st, form, secure);
    CreateStudentTables(st, form, secure);
    InsertKeepsUnique(st.students, pk, r.store.students[pk]);
    AddRowsKeepsValid(st, r.store, pk);
    LoginWithPassword(r.store, Anonymous, pk, attempt);
  }

  /** The tables and folders after a successful create. */
  lemma CreateStudentTables(st: Store, form: AdminForm, secure: string -> string)
    requires Valid(st)
    requires form.studentPk.None? && !IdTaken(st.students, form.studentId)
    ensures var r := SaveStudent(st, form, secure);
            var pk := st.nextStudent;
            && r.response == Redirect(AdminPanel)
            && pk !in st.students
            && r.store.students == st.students[pk := Student(form.studentId, form.profile, Hash(PasswordOrDefault(form.password)))]
            && r.store.nextStudent == pk + 1
            && |r.store.documents| == |st.documents| + NamedCount(form.documents)
            && (forall d :: d in st.documents ==> d in r.store.documents && r.store.documents[d] == st.documents[d])
            && (forall d :: d in r.store.documents && d !in st.documents ==>
                  d < r.store.nextDoc && r.store.documents[d].owner == pk)
            && r.store.documents == st.documents + NewRows(st.nextDoc, pk, StoredNames(form.studentId, form.documents, secure))
            && (forall d :: d in r.store.documents && d !in st.documents ==> r.store.documents[d].filename in r.store.uploads)
            && st.nextDoc <= r.store.nextDoc
            && r.store.uploads == st.uploads + (set n | n in StoredNames(form.studentId, form.documents, secure))
            && r.store.qrCodes == st.qrCodes + {QrName(form.studentId)}
  {
    var pk := st.nextStudent;
    var b0 := Batch(st.documents, st.nextDoc, st.uploads);
    IngestAttaches(b0, pk, form.studentId, form.documents, secure);
    ExtendsTable(b0, Ingest(b0, pk, form.studentId, form.documents, secure), pk,
                 StoredNames(form.studentId, form.documents, secure));
  }

  /** Inserting a student whose student_id nobody holds keeps it unique. */
  lemma InsertKeepsUnique(students: map<nat, Student>, pk: nat, s: Student)
    requires UniqueIds(students) && pk !in students
    requires forall p :: p in students ==> students[p].studentId != s.studentId
    ensures UniqueIds(students[pk := s])
  {
  }

  /** Rewriting a student without changing its student_id keeps it unique. */
  lemma ReplaceKeepsUnique(students: map<nat, Student>, pk: nat, s: Student)
    requires UniqueIds(students) && pk in students && s.studentId == students[pk].studentId
    ensures UniqueIds(students[pk := s])
  {
  }

  /** Keeping every student and every document and adding documents owned by
      an existing student under fresh keys keeps the constraints. */
  lemma AddRowsKeepsValid(st: Store, r: Store, owner: nat)
    requires Valid(st) && UniqueIds(r.students)
    requires forall p :: p in st.students ==> p in r.students
    requires owner in r.students
    requires forall p :: p in r.students ==> p < r.nextStudent
    requires forall d :: d in st.documents ==> d in r.documents && r.documents[d] == st.documents[d]
    requires forall d :: d in r.documents && d !in st.documents ==> d < r.nextDoc && r.documents[d].owner == owner
    requires st.nextDoc <= r.nextDoc
    ensures Valid(r)
  {
  }

  /** A create whose student_id is taken fails at the commit: the uploads are
      already on disk, but no row and no QR image is added. */
  lemma CreateDuplicateEffect(st: Store, session: Session, form: AdminForm, secure: string -> string)
    requires Valid(st) && CurrentRole(st, session).Admin?
    requires form.studentPk.None? && IdTaken(st.students, form.studentId)
    ensures var r := AdminPost(st, session, form, secure);
            && r.response == ServerError
            && r.store == st.(uploads := st.uploads + (set n | n in StoredNames(form.studentId, form.documents, secure)))
  {
    IngestAttaches(Batch(st.documents, st.nextDoc, st.uploads), st.nextStudent, form.studentId, form.documents, secure);
  }

  /** Updating a student overwrites its profile, keeps its student_id and
      password, adds one document per upload with a name, all owned by it,
      and issues no QR image. */
  lemma UpdateStudentEffect(st: Store, session: Session, form: AdminForm, secure: string -> string)
    requires Valid(st) && CurrentRole(st, session).Admin?
    requires form.studentPk.Some? && form.newPassword == "" && form.studentPk.value in st.students
    ensures var pk := form.studentPk.value;
            var r := AdminPost(st, session, form, secure);
            && r.response == Redirect(AdminPanel)
            && r.store.students == st.students[pk := st.students[pk].(profile := form.profile)]
            && |r.store.documents| == |st.documents| + NamedCount(form.documents)
            && (forall d :: d in st.documents ==> d in r.store.documents && r.store.documents[d] == st.documents[d])
            && (forall d :: d in r.store.documents && d !in st.documents ==> r.store.documents[d].owner == pk)
            && r.store.documents == st.documents + NewRows(st.nextDoc, pk, StoredNames(form.studentId, form.documents, secure))
            && (forall d :: d in r.store.documents && d !in st.documents ==> r.store.documents[d].filename in r.store.uploads)
            && r.store.uploads == st.uploads + (set n | n in StoredNames(form.studentId, form.documents, secure))
            && r.store.qrCodes == st.qrCodes
            && Valid(r.store)
  {
    var pk := form.studentPk.value;
    var r := SaveStudent(st, form, secure);
    assert AdminPost(st, session, form, secure) == r;
    UpdateStudentTables(st, form, secure);
    ReplaceKeepsUnique(st.students, pk, r.store.students[pk]);
    AddRowsKeepsValid(st, r.store, pk);
  }

  /** The tables and folders after an update. */
  lemma UpdateStudentTables(st: Store, form: AdminForm, secure: string -> string)
    requires Valid(st)
    requires form.studentPk.Some? && form.studentPk.value in st.students
    ensures var pk := form.studentPk.value;
            var r := SaveStudent(st, form, secure);
            && r.response == Redirect(AdminPanel)
            && r.store.students == st.students[pk := st.students[pk].(profile := form.profile)]
            && r.store.nextStudent == st.nextStudent
            && |r.store.documents| == |st.documents| + NamedCount(form.documents)
            && (forall d :: d in st.documents ==> d in r.store.documents && r.store.documents[d] == st.documents[d])
            && (forall d :: d in r.store.documents && d !in st.documents ==>
                  d < r.store.nextDoc && r.store.documents[d].owner == pk)
            && r.store.documents == st.documents + NewRows(st.nextDoc, pk, StoredNames(form.studentId, form.documents, secure))
            && (forall d :: d in r.store.documents && d !in st.documents ==> r.store.documents[d].filename in r.store.uploads)
            && st.nextDoc <= r.store.nextDoc
            && r.store.uploads == st.uploads + (set n | n in StoredNames(form.studentId, form.documents, secure))
            && r.store.qrCodes == st.qrCodes
  {
    var pk := form.studentPk.value;
    var b0 := Batch(st.documents, st.nextDoc, st.uploads);
    IngestAttaches(b0, pk, form.studentId, form.documents, secure);
    ExtendsTable(b0, Ingest(b0, pk, form.studentId, form.documents, secure), pk,
                 StoredNames(form.studentId, form.documents, secure));
  }

  /** Every outcome of the admin form keeps the database constraints. */
  lemma AdminPostPreservesValid(st: Store, session: Session, form: AdminForm, secure: string -> string)
    requires Valid(st)
    ensures Valid(AdminPost(st, session, form, secure).store)
  {
    if CurrentRole(st, session).Admin? {
      if form.studentPk.Some? && form.newPassword != "" {
        var pk := form.studentPk.value;
        if pk in st.students {
          ResetPasswordEffect(st, session, form, secure, "");
        }
      } else if form.studentPk.Some? {
        if form.studentPk.value in st.students {
          UpdateStudentEffect(st, session, form, secure);
        }
      } else if IdTaken(st.students, form.studentId) {
        CreateDuplicateEffect(st, session, form, secure);
      } else {
        CreateStudentEffect(st, session, form, secure, "");
      }
    }
  }

  // ---------------------------------------------------------------------
  // Deleting a document

  /** Deleting an existing document removes its row and its file, if
      present, and changes nothing else; an unknown id changes nothing. */
  lemma DeleteDocumentEffect(st: Store, session: Session, id: nat)
    requires Valid(st) && CurrentRole(st, session).Admin?
    ensures var r := DeleteDocument(st, session, id);
            && r.response == Redirect(AdminPanel)
            && (id in st.documents ==>
                  r.store == st.(uploads := st.uploads - {st.documents[id].filename}, documents := st.documents - {id}))
            && (id !in st.documents ==> r.store == st)
            && Valid(r.store)
  {
  }

  /** Deleting the same document twice is deleting it once. */
  lemma DeleteDocumentIdempotent(st: Store, session: Session, id: nat)
    ensures var once := DeleteDocument(st, session, id).store;
            DeleteDocument(once, session, id).store == once
  {
    var once := DeleteDocument(st, session, id).store;
    assert once.students == st.students;
    assert CurrentRole(once, session) == CurrentRole(st, session);
  }

  // ---------------------------------------------------------------------
  // Deleting a student

  /** Deleting an existing student removes its QR image, the file of every
      document it owns, its row and all its document rows; other students,
      their rows and every file not named by a deleted document stay. */
  lemma DeleteStudentCascade(st: Store, session: Session, pk: nat)
    requires Valid(st) && CurrentRole(st, session).Admin? && pk in st.students
    ensures var r := DeleteStudent(st, session, pk);
            var owned := OwnedDocs(st.documents, pk);
            && r.response == Redirect(AdminPanel)
            && r.store.students == st.students - {pk}
            && r.store.documents.Keys == st.documents.Keys - owned
            && (forall d :: d in r.store.documents ==> r.store.documents[d] == st.documents[d] && r.store.documents[d].owner != pk)
            && (forall d :: d in owned ==> st.documents[d].filename !in r.store.uploads)
            && (forall f :: f in st.uploads && f !in FilesOf(st.documents, owned) ==> f in r.store.uploads)
            && r.store.uploads <= st.uploads
            && QrName(st.students[pk].studentId) !in r.store.qrCodes
            && r.store.qrCodes == st.qrCodes - {QrName(st.students[pk].studentId)}
            && Valid(r.store)
  {
    var r := DeleteStudent(st, session, pk);
    var owned := OwnedDocs(st.documents, pk);
    forall d | d in owned
      ensures st.documents[d].filename !in r.store.uploads
    {
      assert st.documents[d].filename in FilesOf(st.documents, owned);
    }
  }

  /** Deleting a student that is not there changes nothing, so deleting the
      same student twice is deleting it once. */
  lemma DeleteStudentIdempotent(st: Store, session: Session, pk: nat)
    ensures CurrentRole(st, session).Admin? && pk !in st.students ==>
              DeleteStudent(st, session, pk) == Step(st, Redirect(AdminPanel))
    ensures var once := DeleteStudent(st, session, pk).store;
            DeleteStudent(once, session, pk).store == once
  {
    var once := DeleteStudent(st, session, pk).store;
    if CurrentRole(st, session).Admin? && pk in st.students {
      assert pk !in once.students;
    }
  }

  /** Once a student is deleted, none of its documents can be fetched and a
      session still naming it counts as signed out. */
  lemma DeletedStudentIsGone(st: Store, admin: Session, pk: nat, viewer: Session, d: nat)
    requires Valid(st) && CurrentRole(st, admin).Admin? && pk in st.students
    requires d in st.documents && st.documents[d].owner == pk
    ensures var after := DeleteStudent(st, admin, pk).store;
            && Download(after, viewer, st.documents[d].filename) != FileBody(st.documents[d].filename)
            && d !in after.documents
            && CurrentRole(after, SignedIn(pk)).Unauthenticated?
  {
    DeleteStudentCascade(st, admin, pk);
  }
}
