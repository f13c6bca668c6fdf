/** The state-changing handlers of app.py run in place: the database and the
    two folders are fields of one object, and each handler updates them step
    by step as the Python does. Each method is proved to end in the state
    (and give the response) that module Records specifies. */
module App {
  import opened Naming
  import opened Credentials
  import opened Records
  import RecordsProperties

  class RecordsApp {
    var students: map<nat, Student>
    var documents: map<nat, Document>
    var nextStudent: nat
    var nextDoc: nat
    var uploads: set<string>
    var qrCodes: set<string>

    /** The store as a value. */
    function State(): Store
      reads this
    {
      Store(students, documents, nextStudent, nextDoc, uploads, qrCodes)
    }

    /** Opens a store that already holds `init` (the database file and the
        two folders as the previous run left them). */
    constructor (init: Store)
      requires Valid(init)
      ensures State() == init && Valid(State())
    {
      students := init.students;
      documents := init.documents;
      nextStudent := init.nextStudent;
      nextDoc := init.nextDoc;
      uploads := init.uploads;
      qrCodes := init.qrCodes;
    }

    /** `/admin` with POST (app.py:115-158). */
    method AdminPost(session: Session, form: AdminForm, secure: string -> string) returns (response: Response)
      requires Valid(State())
      modifies this
      ensures Step(State(), response) == Records.AdminPost(old(State()), session, form, secure)
      ensures Valid(State())
    {
      RecordsProperties.AdminPostPreservesValid(State(), session, form, secure);
      var role := CurrentRole(State(), session);
      if role.Unauthenticated? {
        return Redirect(LoginPage);
      }
      if role.Regular? {
        return Forbidden("Access Denied");
      }
      if form.studentPk.Some? && form.newPassword != "" {
        response := ResetPassword(form.studentPk.value, form.newPassword);
      } else {
        response := SaveStudent(form, secure);
      }
    }

    /** The reset branch (app.py:124-128). */
    method ResetPassword(pk: nat, newPassword: string) returns (response: Response)
      modifies this
      ensures Step(State(), response) == Records.ResetPassword(old(State()), pk, newPassword)
    {
      if pk !in students {
        return ServerError;
      }
      var s := students[pk];
      s := s.(password := Hash(newPassword));
      students := students[pk := s];
      return Redirect(AdminPanel);
    }

    /** The create/update branch (app.py:130-158). */
    method SaveStudent(form: AdminForm, secure: string -> string) returns (response: Response)
      modifies this
      ensures Step(State(), response) == Records.SaveStudent(old(State()), form, secure)
    {
      var spk := form.studentPk;
      var sid := form.studentId;
      var pk: nat;
      var s: Student;
      if spk.Some? {
        if spk.value !in students {
          return ServerError;
        }
        pk := spk.value;
        s := students[pk];
      } else {
        pk := nextStudent;
        s := Student(sid, form.profile, Hash(PasswordOrDefault(form.password)));
      }
      s := s.(profile := form.profile);
      var staged, next := StoreUploads(pk, sid, form.documents, secure);
      if spk.None? && IdTaken(students, sid) {
        // The unique constraint on student_id fails the commit.
        return ServerError;
      }
      students := students[pk := s];
      documents, nextDoc := staged, next;
      if spk.None? {
        nextStudent := nextStudent + 1;
        qrCodes := qrCodes + {QrName(sid)};
      }
      return Redirect(AdminPanel);
    }

    /** The upload loop (app.py:148-152): each named upload is written to the
        folder at once (process_file); its row is staged until the commit and
        returned. */
    method StoreUploads(owner: nat, sid: string, files: seq<Upload>, secure: string -> string)
      returns (staged: map<nat, Document>, next: nat)
      modifies this`uploads
      ensures Batch(staged, next, uploads) == Ingest(Batch(documents, nextDoc, old(uploads)), owner, sid, files, secure)
    {
      staged, next := documents, nextDoc;
      var i := 0;
      while i < |files|
        invariant 0 <= i <= |files|
        invariant Batch(staged, next, uploads) == Ingest(Batch(documents, nextDoc, old(uploads)), owner, sid, files[..i], secure)
      {
        var file := files[i];
        if file.filename != "" {
          var name := NameOf(sid, file, secure);
          uploads := uploads + {name};
          staged := staged[next := Document(name, owner)];
          next := next + 1;
        }
        assert files[..i + 1][..i] == files[..i];
        i := i + 1;
      }
      assert files[..i] == files;
    }

    /** `/delete_document/<id>` (app.py:171-181). */
    method DeleteDocument(session: Session, id: nat) returns (response: Response)
      requires Valid(State())
      modifies this
      ensures Step(State(), response) == Records.DeleteDocument(old(State()), session, id)
      ensures Valid(State())
    {
      var role := CurrentRole(State(), session);
      if role.Unauthenticated? {
        return Redirect(LoginPage);
      }
      if role.Regular? {
        return Forbidden("Forbidden");
      }
      if id in documents {
        var doc := documents[id];
        if doc.filename in uploads {
          uploads := uploads - {doc.filename};
        }
        documents := documents - {id};
      }
      return Redirect(AdminPanel);
    }

    /** `/delete/<id>` (app.py:183-198): the QR image first, then the file of
        each owned document, then the row with its documents. */
    method DeleteStudent(session: Session, pk: nat) returns (response: Response)
      requires Valid(State())
      modifies this
      ensures Step(State(), response) == Records.DeleteStudent(old(State()), session, pk)
      ensures Valid(State())
    {
      var role := CurrentRole(State(), session);
      if role.Unauthenticated? {
        return Redirect(LoginPage);
      }
      if role.Regular? {
        return Forbidden("Forbidden");
      }
      if pk !in students {
        return Redirect(AdminPanel);
      }
      RecordsProperties.DeleteStudentCascade(State(), session, pk);
      var s := students[pk];
      var qr := QrName(s.studentId);
      if qr in qrCodes {
        qrCodes := qrCodes - {qr};
      }
      RemoveFiles(OwnedDocs(documents, pk));
      students := students - {pk};
      documents := map d | d in documents && documents[d].owner != pk :: documents[d];
      return Redirect(AdminPanel);
    }

    /** The loop of `/delete/<id>` over the student's documents: the file of
        each one is removed from the uploads folder if it is there. */
    method RemoveFiles(ids: set<nat>)
      requires ids <= documents.Keys
      modifies this`uploads
      ensures uploads == old(uploads) - FilesOf(documents, ids)
    {
      var todo := ids;
      ghost var done: set<nat> := {};
      while todo != {}
        invariant todo !! done && todo + done == ids
        invariant uploads == old(uploads) - FilesOf(documents, done)
        decreases todo
      {
        var d :| d in todo;
        var path := documents[d].filename;
        if path in uploads {
          uploads := uploads - {path};
        }
        assert FilesOf(documents, done + {d}) == FilesOf(documents, done) + {path};
        todo, done := todo - {d}, done + {d};
      }
    }
  }
}
