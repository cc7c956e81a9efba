/**
 * The administrative views: the encrypted backup download and restore of the database file, the
 * student create and edit views with their encrypted address column, and the student list, which
 * decrypts each address for display. The role gate in front of them is in module Access.
 */
module AdminRoutes {
  import opened Wrappers
  import opened Text
  import opened Models
  import opened Forms
  import opened Web
  import opened Encryption

  const DbMissingMessage := "Database not found."
  const NoKeyDownloadMessage := "Encryption key not configured. Set ENCRYPTION_KEY in .env"
  const NoFileMessage := "No file uploaded."
  const NoKeyRestoreMessage := "Encryption key not configured."
  /** The flash for a backup that does not decrypt; the text of InvalidToken, which follows it, is empty. */
  const DecryptFailedMessage := "Failed to decrypt backup: "
  const RestoredMessage := "Restore completed. Please restart the app."
  const BackupName := "sms_backup.enc"
  const StudentCreatedMessage := "Student created."
  const StudentUpdatedMessage := "Student updated."

  // ---------------------------------------------------------------- backup and restore

  /** The database file `sms.db`: its bytes, or None while it does not exist. */
  class DatabaseFile {
    var content: Option<Bytes>

    constructor (content: Option<Bytes>)
      ensures this.content == content
    {
      this.content := content;
    }
  }

  /** `request.files.get("file")`: an uploaded part, which counts as no file when its file name is empty. */
  datatype Upload = Upload(filename: string, content: Bytes)

  predicate Uploaded(upload: Option<Upload>) {
    upload.Some? && upload.value.filename != ""
  }

  /**
   * `backup_download` once the file has been looked at (`db`) and, for an existing file, `get_fernet()`
   * has resolved to `res`.
   */
  function DownloadResponse(db: Option<Bytes>, res: Resolution, n: Nonce): (r: Response)
    ensures db.None? ==> r == Redirect(BackupPageView, Some(DbMissingMessage))
    ensures db.Some? && res.outcome.Raised? ==> r == ServerError(res.outcome.error)
    ensures db.Some? && res.outcome == Returned(None) ==> r == Redirect(BackupPageView, Some(NoKeyDownloadMessage))
    ensures r.Attachment? <==> db.Some? && res.outcome.Returned? && res.outcome.value.Some?
    ensures r.Attachment? ==> r == Attachment(BackupName, res.outcome.value.value.encrypt(db.value, n))
  {
    if db.None? then Redirect(BackupPageView, Some(DbMissingMessage))
    else match res.outcome
      case Raised(e) => ServerError(e)
      case Returned(f) =>
        if f.None? then Redirect(BackupPageView, Some(NoKeyDownloadMessage))
        else Attachment(BackupName, f.value.encrypt(db.value, n))
  }

  /** The database file after a restore request, with the answer. */
  datatype Restored = Restored(db: Option<Bytes>, response: Response)

  /** `backup_restore` given the file's bytes, the upload, and what `get_fernet()` resolves to. */
  function RestoreOutcome(db: Option<Bytes>, upload: Option<Upload>, res: Resolution): (r: Restored)
    ensures r.db != db ==>
              && Uploaded(upload) && res.outcome.Returned? && res.outcome.value.Some?
              && r.db.Some? && res.outcome.value.value.decrypt(upload.value.content) == r.db
    ensures r.response.Redirect? || (res.outcome.Raised? && r.response == ServerError(res.outcome.error))
  {
    if !Uploaded(upload) then Restored(db, Redirect(BackupPageView, Some(NoFileMessage)))
    else match res.outcome
      case Raised(e) => Restored(db, ServerError(e))
      case Returned(f) =>
        if f.None? then Restored(db, Redirect(BackupPageView, Some(NoKeyRestoreMessage)))
        else match f.value.decrypt(upload.value.content)
          case None => Restored(db, Redirect(BackupPageView, Some(DecryptFailedMessage)))
          case Some(plain) => Restored(Some(plain), Redirect(BackupPageView, Some(RestoredMessage)))
  }

  /**
   * The database file is overwritten only when a file was uploaded, a cipher is configured and the upload
   * decrypts; it then holds exactly the decrypted bytes, and the success message is shown exactly then.
   * In every other case the file is left as it was.
   */
  lemma RestoreWritesOnlyDecryptedBackups(db: Option<Bytes>, upload: Option<Upload>, res: Resolution)
    ensures var r := RestoreOutcome(db, upload, res);
            var ok := Uploaded(upload) && res.outcome.Returned? && res.outcome.value.Some?
                      && res.outcome.value.value.decrypt(upload.value.content).Some?;
            && (ok ==> r.db == res.outcome.value.value.decrypt(upload.value.content))
            && (!ok ==> r.db == db)
            && (r.response == Redirect(BackupPageView, Some(RestoredMessage)) <==> ok)
            && (!Uploaded(upload) ==> r == Restored(db, Redirect(BackupPageView, Some(NoFileMessage))))
            && (Uploaded(upload) && res.outcome == Returned(None) ==>
                  r == Restored(db, Redirect(BackupPageView, Some(NoKeyRestoreMessage))))
  {
  }

  /**
   * A downloaded backup, uploaded again under any non-empty file name with the same cipher configured,
   * restores the database file to the bytes it held at download time.
   */
  lemma BackupRoundTrip(f: Fernet, snapshot: Bytes, current: Option<Bytes>, name: string, n: Nonce)
    requires Authenticated(f) && name != ""
    ensures var res := Resolution(Returned(Some(f)), Some(f));
            var backup := DownloadResponse(Some(snapshot), res, n);
            && backup.Attachment? && backup.filename == BackupName
            && RestoreOutcome(current, Some(Upload(name, backup.body)), res)
               == Restored(Some(snapshot), Redirect(BackupPageView, Some(RestoredMessage)))
  {
  }

  /** `backup_download`: the file is read first, and only an existing file makes the view call `get_fernet()`. */
  method BackupDownload(file: DatabaseFile, keys: KeyCache, envKey: Bytes, n: Nonce) returns (resp: Response)
    requires keys.Valid()
    modifies keys
    ensures keys.Valid()
    ensures var res := Resolve(old(keys.fernet), keys.load, envKey);
            && resp == DownloadResponse(file.content, res, n)
            && keys.fernet == (if file.content.Some? then res.cache else old(keys.fernet))
  {
    if file.content.None? {
      return Redirect(BackupPageView, Some(DbMissingMessage));
    }
    var dbBytes := file.content.value;
    var f := keys.GetFernet(envKey);
    if f.Raised? {
      return ServerError(f.error);
    }
    if f.value.None? {
      return Redirect(BackupPageView, Some(NoKeyDownloadMessage));
    }
    var enc := f.value.value.encrypt(dbBytes, n);
    resp := Attachment(BackupName, enc);
  }

  /** `backup_restore`: the file is overwritten with the decrypted upload, or left alone. */
  method BackupRestore(file: DatabaseFile, keys: KeyCache, envKey: Bytes, upload: Option<Upload>) returns (resp: Response)
    requires keys.Valid()
    modifies file, keys
    ensures keys.Valid()
    ensures var res := Resolve(old(keys.fernet), keys.load, envKey);
            var r := RestoreOutcome(old(file.content), upload, res);
            && file.content == r.db && resp == r.response
            && keys.fernet == (if Uploaded(upload) then res.cache else old(keys.fernet))
  {
    if !Uploaded(upload) {
      return Redirect(BackupPageView, Some(NoFileMessage));
    }
    var data := upload.value.content;
    var f := keys.GetFernet(envKey);
    if f.Raised? {
      return ServerError(f.error);
    }
    if f.value.None? {
      return Redirect(BackupPageView, Some(NoKeyRestoreMessage));
    }
    var dec := f.value.value.decrypt(data);
    if dec.None? {
      return Redirect(BackupPageView, Some(DecryptFailedMessage));
    }
    file.content := Some(dec.value);
    resp := Redirect(BackupPageView, Some(RestoredMessage));
  }

  // ---------------------------------------------------------------- the student views

  /** `form.address.data.strip() if form.address.data else ""`: the text the create and edit views encrypt. */
  function AddressText(address: Option<string>): (t: string)
    ensures Trimmed(t)
    ensures t == Strip(address.GetOr(""))
  {
    if address.None? || address.value == "" then "" else Strip(address.value)
  }

  /**
   * The address the create and edit views store reads back, through `decrypt_text`, as the submitted
   * address stripped ("" for none); a token is stored even for an empty address.
   */
  lemma StoredAddressRoundTrip(f: Fernet, address: Option<string>, n: Nonce)
    requires Authenticated(f)
    ensures var token := EncryptWith(Some(f), Some(AddressText(address)), n);
            && token.Some? && token.value != []
            && DecryptWith(Some(f), token) == Returned(Strip(address.GetOr("")))
  {
    TextRoundTrip(f, AddressText(address), n);
  }

  /** `Student.query.get_or_404(sid)`, as the position of the row in the table. */
  function FindStudent(rows: seq<Student>, sid: nat): (k: Option<nat>)
    ensures k.Some? ==> k.value < |rows| && rows[k.value].id == sid
    ensures k.None? ==> forall i :: 0 <= i < |rows| ==> rows[i].id != sid
  {
    if rows == [] then None
    else if rows[0].id == sid then Some(0)
    else match FindStudent(rows[1..], sid)
      case None => None
      case Some(k) => Some(k + 1)
  }

  /** The GET of `students_edit`: the form is prefilled with the decrypted address. */
  function EditForm(res: Resolution, token: Option<Bytes>): (r: Response)
    ensures res.outcome.Raised? ==> r == ServerError(res.outcome.error)
    ensures r.Render? <==> res.outcome.Returned? && DecryptWith(res.outcome.value, token).Returned?
    ensures r.Render? ==> r == Render(StudentFormPage(Some(DecryptWith(res.outcome.value, token).value)), None)
    ensures res.outcome.Returned? && DecryptWith(res.outcome.value, token).Raised? ==>
              r == ServerError(DecryptWith(res.outcome.value, token).error)
  {
    match res.outcome
    case Raised(e) => ServerError(e)
    case Returned(f) =>
      match DecryptWith(f, token)
      case Raised(e) => ServerError(e)
      case Returned(t) => Render(StudentFormPage(Some(t)), None)
  }

  /** The edit form shows the address a create or edit stored, stripped. */
  lemma EditShowsStoredAddress(f: Fernet, address: Option<string>, n: Nonce)
    requires Authenticated(f)
    ensures EditForm(Resolution(Returned(Some(f)), Some(f)), EncryptWith(Some(f), Some(AddressText(address)), n))
            == Render(StudentFormPage(Some(Strip(address.GetOr("")))), None)
  {
    StoredAddressRoundTrip(f, address, n);
  }

  /**
   * `students_new`: a valid submission stores the stripped name and e-mail, the encrypted address text and
   * the grade under the next id; the commit raises IntegrityError when the e-mail is taken.
   */
  method StudentsNew(table: StudentTable, keys: KeyCache, envKey: Bytes, req: Request<StudentForm>,
                     emailOk: string -> bool, n: Nonce) returns (resp: Response)
    requires table.Valid() && keys.Valid()
    modifies table, keys
    ensures table.Valid() && keys.Valid()
    ensures !(Submitted(req) && StudentFormValid(req.form, emailOk)) ==>
              resp == Render(StudentFormPage(None), None) && unchanged(table) && unchanged(keys)
    ensures Submitted(req) && StudentFormValid(req.form, emailOk) ==>
              var res := Resolve(old(keys.fernet), keys.load, envKey);
              && keys.fernet == res.cache
              && (res.outcome.Raised? ==> resp == ServerError(res.outcome.error) && unchanged(table))
              && (res.outcome.Returned? ==>
                    var f := req.form;
                    var token := EncryptWith(res.outcome.value, Some(AddressText(f.address)), n);
                    if EmailUsed(old(table.rows), Strip(f.email)) then
                      resp == ServerError(IntegrityError) && table.rows == old(table.rows)
                    else
                      && resp == Redirect(StudentsListView, Some(StudentCreatedMessage))
                      && table.rows == old(table.rows) +
                           [Student(MaxStudentId(old(table.rows)) + 1, Strip(f.name), Strip(f.email), token, Some(f.grade))])
  {
    if !(Submitted(req) && StudentFormValid(req.form, emailOk)) {
      return Render(StudentFormPage(None), None);
    }
    var f := req.form;
    var token := keys.EncryptText(envKey, Some(AddressText(f.address)), n);
    if token.Raised? {
      return ServerError(token.error);
    }
    var added := table.Add(Strip(f.name), Strip(f.email), token.value, Some(f.grade));
    if added.Raised? {
      return ServerError(added.error);
    }
    resp := Redirect(StudentsListView, Some(StudentCreatedMessage));
  }

  /**
   * `students_edit`: an unknown id is a 404; a GET shows the form with the decrypted address; a valid POST
   * overwrites the row's columns the way `students_new` fills them and keeps its id.
   */
  method StudentsEdit(table: StudentTable, keys: KeyCache, envKey: Bytes, sid: nat, req: Request<StudentForm>,
                      emailOk: string -> bool, n: Nonce) returns (resp: Response)
    requires table.Valid() && keys.Valid()
    modifies table, keys
    ensures table.Valid() && keys.Valid()
    ensures FindStudent(old(table.rows), sid).None? ==> resp == NotFound && unchanged(table) && unchanged(keys)
    ensures FindStudent(old(table.rows), sid).Some? && req.Get? ==>
              var res := Resolve(old(keys.fernet), keys.load, envKey);
              var k := FindStudent(old(table.rows), sid).value;
              && resp == EditForm(res, old(table.rows)[k].addressEncrypted)
              && keys.fernet == res.cache && unchanged(table)
    ensures FindStudent(old(table.rows), sid).Some? && req.Post? && !(Submitted(req) && StudentFormValid(req.form, emailOk)) ==>
              resp == Render(StudentFormPage(None), None) && unchanged(table) && unchanged(keys)
    ensures FindStudent(old(table.rows), sid).Some? && Submitted(req) && StudentFormValid(req.form, emailOk) ==>
              var res := Resolve(old(keys.fernet), keys.load, envKey);
              var k := FindStudent(old(table.rows), sid).value;
              && keys.fernet == res.cache
              && (res.outcome.Raised? ==> resp == ServerError(res.outcome.error) && unchanged(table))
              && (res.outcome.Returned? ==>
                    var f := req.form;
                    var token := EncryptWith(res.outcome.value, Some(AddressText(f.address)), n);
                    if exists i :: 0 <= i < |old(table.rows)| && i != k && old(table.rows)[i].email == Strip(f.email) then
                      resp == ServerError(IntegrityError) && table.rows == old(table.rows)
                    else
                      && resp == Redirect(StudentsListView, Some(StudentUpdatedMessage))
                      && table.rows == old(table.rows)[k := Student(sid, Strip(f.name), Strip(f.email), token, Some(f.grade))])
  {
    var k := FindStudent(table.rows, sid);
    if k.None? {
      return NotFound;
    }
    if req.Get? {
      var address := keys.DecryptText(envKey, table.rows[k.value].addressEncrypted);
      if address.Raised? {
        return ServerError(address.error);
      }
      return Render(StudentFormPage(Some(address.value)), None);
    }
    if !(Submitted(req) && StudentFormValid(req.form, emailOk)) {
      return Render(StudentFormPage(None), None);
    }
    var f := req.form;
    var token := keys.EncryptText(envKey, Some(AddressText(f.address)), n);
    if token.Raised? {
      return ServerError(token.error);
    }
    var updated := table.Update(k.value, Strip(f.name), Strip(f.email), token.value, Some(f.grade));
    if updated.Raised? {
      return ServerError(updated.error);
    }
    resp := Redirect(StudentsListView, Some(StudentUpdatedMessage));
  }

  /** A student object as the list template receives it: the row and the `address_plain` the view sets. */
  datatype Listed = Listed(row: Student, addressPlain: Option<string>)

  /**
   * The loop of `students_list`, over the objects the query returned (newest first) and with `f` the
   * cipher `get_fernet()` returns: each object gets its decrypted address; a `decrypt_text` that raises
   * ends the request, leaving the objects before it updated.
   */
  method StudentsList(f: Option<Fernet>, students: array<Listed>) returns (resp: Response)
    modifies students
    ensures forall i :: 0 <= i < students.Length ==> students[i].row == old(students[i].row)
    ensures resp != Render(StudentsListPage, None) <==>
              exists i :: 0 <= i < students.Length && DecryptWith(f, students[i].row.addressEncrypted).Raised?
    ensures resp != Render(StudentsListPage, None) ==> resp == ServerError(UnicodeDecodeError)
    ensures resp == Render(StudentsListPage, None) ==>
              forall i :: 0 <= i < students.Length ==>
                students[i].addressPlain == Some(DecryptWith(f, students[i].row.addressEncrypted).value)
  {
    var i := 0;
    while i < students.Length
      invariant 0 <= i <= students.Length
      invariant forall k :: 0 <= k < students.Length ==> students[k].row == old(students[k].row)
      invariant forall k :: 0 <= k < i ==> DecryptWith(f, students[k].row.addressEncrypted).Returned?
      invariant forall k :: 0 <= k < i ==>
                  students[k].addressPlain == Some(DecryptWith(f, students[k].row.addressEncrypted).value)
    {
      var address := DecryptWith(f, students[i].row.addressEncrypted);
      if address.Raised? {
        return ServerError(address.error);
      }
      students[i] := students[i].(addressPlain := Some(address.value));
      i := i + 1;
    }
    resp := Render(StudentsListPage, None);
  }
}
