/** The admin blueprint's state changes: the document table update of
    `upload_document`, and the `admin_logged_in` session flag that `login`,
    `logout` and `admin_required` set, clear and test. Rendering, flashing
    and form parsing are reduced to the outcome each handler returns. */
module AdminRoutes {
  import opened Text
  import opened SessionStore
  import opened Models
  import Storage

  // ---------------------------------------------------------------------
  // The document table
  // ---------------------------------------------------------------------

  /** A row after `update({'is_active': False})` filtered on `variantId`. */
  function Off(d: Document, variantId: int): Document
  {
    if d.variantId == variantId then d.(isActive := false) else d
  }

  /** The table after the bulk deactivation of one variant's documents. */
  function Deactivated(rows: seq<Document>, variantId: int): (r: seq<Document>)
    ensures |r| == |rows|
  {
    if rows == [] then []
    else Deactivated(rows[..|rows| - 1], variantId) + [Off(rows[|rows| - 1], variantId)]
  }

  /** The number of active documents of a variant. */
  function CountActive(rows: seq<Document>, variantId: int): nat
  {
    if rows == [] then 0
    else
      var d := rows[|rows| - 1];
      CountActive(rows[..|rows| - 1], variantId) + (if d.variantId == variantId && d.isActive then 1 else 0)
  }

  /** The deactivation touches rows one by one: a row of the variant only
      loses its active flag, every other row stays as it was. */
  lemma {:induction false} DeactivatedPointwise(rows: seq<Document>, variantId: int)
    ensures forall i :: 0 <= i < |rows| ==> Deactivated(rows, variantId)[i] == Off(rows[i], variantId)
  {
    if rows != [] {
      var init := rows[..|rows| - 1];
      DeactivatedPointwise(init, variantId);
      assert forall i :: 0 <= i < |init| ==> init[i] == rows[i];
    }
  }

  /** After the deactivation the variant has no active document. */
  lemma {:induction false} DeactivatedHasNoActive(rows: seq<Document>, variantId: int)
    ensures CountActive(Deactivated(rows, variantId), variantId) == 0
  {
    if rows != [] {
      var init := rows[..|rows| - 1];
      var r := Deactivated(rows, variantId);
      DeactivatedHasNoActive(init, variantId);
      assert r[..|r| - 1] == Deactivated(init, variantId);
    }
  }

  /** Appending one row adds one to the count exactly when that row is an
      active document of the variant. */
  lemma CountActiveAppend(rows: seq<Document>, d: Document, variantId: int)
    ensures CountActive(rows + [d], variantId)
            == CountActive(rows, variantId) + (if d.variantId == variantId && d.isActive then 1 else 0)
  {
    assert (rows + [d])[..|rows|] == rows;
  }

  /** A count of zero means no row is an active document of the variant. */
  lemma {:induction false} NoActiveRow(rows: seq<Document>, variantId: int)
    requires CountActive(rows, variantId) == 0
    ensures forall i :: 0 <= i < |rows| ==> !(rows[i].variantId == variantId && rows[i].isActive)
  {
    if rows != [] {
      var init := rows[..|rows| - 1];
      NoActiveRow(init, variantId);
      assert forall i :: 0 <= i < |init| ==> init[i] == rows[i];
    }
  }

  /** The table after a successful upload: the variant's old documents are
      inactive, documents of other variants are as they were, every id stays
      below the next one, and the new row is the variant's only active
      document. */
  lemma UploadedTable(before: seq<Document>, variantId: int, doc: Document, nextId: int)
    requires doc.variantId == variantId && doc.isActive && doc.id == nextId
    requires forall i :: 0 <= i < |before| ==> before[i].id < nextId
    ensures var rows := Deactivated(before, variantId) + [doc];
            && CountActive(rows, variantId) == 1
            && (forall i :: 0 <= i < |rows| && rows[i].variantId == variantId && rows[i].isActive
                            ==> i == |rows| - 1)
            && (forall i :: 0 <= i < |before| && before[i].variantId != variantId
                            ==> rows[i] == before[i])
            && (forall i :: 0 <= i < |rows| ==> rows[i].id < nextId + 1)
  {
    var d := Deactivated(before, variantId);
    DeactivatedPointwise(before, variantId);
    DeactivatedHasNoActive(before, variantId);
    CountActiveAppend(d, doc, variantId);
    NoActiveRow(d, variantId);
  }

  /** The outcome of `upload_document`, in place of the rendered page or the
      redirect. */
  datatype UploadOutcome =
    | NotFound          // no variant with that id: 404
    | FormShown         // a GET, or a form that does not validate
    | InvalidFileType   // `allowed_file` refused the name
    | UploadFailed      // the storage call returned nothing
    | Uploaded(doc: Document)

  /** The table `after` a request that passed the file type check, from the
      table `before`: the variant's documents are deactivated and the rows
      of other variants are as they were. An upload that returned a URL
      appends exactly one row (the variant, the URL, the PDF info, the
      version, active), which is then the variant's only active document.
      A failed upload appends nothing. */
  ghost predicate StoredUpload(before: seq<Document>, nextId: int, after: seq<Document>, variantId: int,
                               outcome: UploadOutcome, info: Storage.PdfInfo, version: string,
                               url: Option<string>)
  {
    && |before| <= |after|
    && (forall i :: 0 <= i < |before| && before[i].variantId != variantId ==> after[i] == before[i])
    && (outcome.UploadFailed? ==> !Storage.Truthy(url) && after == Deactivated(before, variantId))
    && (outcome.Uploaded? ==>
          && Storage.Truthy(url)
          && after == Deactivated(before, variantId) + [outcome.doc]
          && outcome.doc == Document(nextId, variantId, url.value, Some(info.pageCount),
                                     version, info.fileSize, true)
          && CountActive(after, variantId) == 1
          && forall i :: 0 <= i < |after| && after[i].variantId == variantId && after[i].isActive
                         ==> i == |after| - 1)
  }

  /** The `tower_documents` table, with the id the database will hand out
      next. */
  class DocumentTable {
    var rows: seq<Document>
    var nextId: int

    /** Every stored id is below the next one, so a new row's id is fresh. */
    predicate Valid()
      reads this
    {
      forall i :: 0 <= i < |rows| ==> rows[i].id < nextId
    }

    constructor ()
      ensures rows == [] && Valid()
    {
      rows := [];
      nextId := 1;
    }

    /** `TowerDocument.query.filter_by(variant_id=v).update({'is_active': False})`. */
    method DeactivateVariant(variantId: int)
      modifies this
      ensures rows == Deactivated(old(rows), variantId)
      ensures nextId == old(nextId)
    {
      ghost var before := rows;
      DeactivatedPointwise(before, variantId);
      var i := 0;
      while i < |rows|
        invariant 0 <= i <= |rows| == |before|
        invariant forall k :: 0 <= k < i ==> rows[k] == Off(before[k], variantId)
        invariant forall k :: i <= k < |rows| ==> rows[k] == before[k]
        invariant nextId == old(nextId)
      {
        if rows[i].variantId == variantId {
          rows := rows[i := rows[i].(isActive := false)];
        }
        i := i + 1;
      }
      assert rows == Deactivated(before, variantId);
    }

    /** `db.session.add(document)`: the new row gets the next id. */
    method Insert(d: Document) returns (stored: Document)
      modifies this
      ensures stored == d.(id := old(nextId))
      ensures rows == old(rows) + [stored] && nextId == old(nextId) + 1
    {
      stored := d.(id := nextId);
      rows := rows + [stored];
      nextId := nextId + 1;
    }

    /** `upload_document(variant_id)` on a request whose form validated
        (`submitted`) or not. */
    method UploadDocument(
      variantId: int, variant: Option<Variant>, submitted: bool,
      fileName: string, version: string, reading: Storage.PdfReading,
      secureFilename: string -> string,
      store: Storage.CloudStorage, sdk: Storage.CloudinarySdk,
      cloudReply: Storage.CloudinaryReply, s3Reply: Storage.S3Reply)
      returns (outcome: UploadOutcome)
      requires Valid() && store.app.Some?
      modifies this
      ensures Valid()
      ensures outcome == NotFound <==> variant.None?
      ensures outcome == FormShown <==> variant.Some? && !submitted
      ensures outcome == InvalidFileType
              <==> variant.Some? && submitted && !(fileName != "" && AllowedFile(fileName))
      ensures outcome == NotFound || outcome == FormShown || outcome == InvalidFileType
              ==> rows == old(rows) && nextId == old(nextId)
      ensures outcome.Uploaded? || outcome.UploadFailed? ==>
                StoredUpload(old(rows), old(nextId), rows, variantId, outcome,
                             Storage.GetPdfInfo(reading), version,
                             store.UploadFile(sdk, cloudReply, s3Reply,
                                              secureFilename(variant.value.towerCode + "_" + version + ".pdf")))
    {
      if variant.None? {
        return NotFound;
      }
      if !submitted {
        return FormShown;
      }
      if !(fileName != "" && AllowedFile(fileName)) {
        return InvalidFileType;
      }
      outcome := StoreValidUpload(variantId, variant.value.towerCode, version, reading, secureFilename,
                                  store, sdk, cloudReply, s3Reply);
    }

    /** `upload_document` past the file type check: the variant's documents
        are deactivated before the upload, and a new active row is added
        only when the upload returns a URL. */
    method StoreValidUpload(
      variantId: int, towerCode: string, version: string, reading: Storage.PdfReading,
      secureFilename: string -> string,
      store: Storage.CloudStorage, sdk: Storage.CloudinarySdk,
      cloudReply: Storage.CloudinaryReply, s3Reply: Storage.S3Reply)
      returns (outcome: UploadOutcome)
      requires Valid() && store.app.Some?
      modifies this
      ensures Valid()
      ensures outcome.Uploaded? || outcome.UploadFailed?
      ensures StoredUpload(old(rows), old(nextId), rows, variantId, outcome,
                           Storage.GetPdfInfo(reading), version,
                           store.UploadFile(sdk, cloudReply, s3Reply,
                                            secureFilename(towerCode + "_" + version + ".pdf")))
    {
      DeactivateVariant(variantId);
      DeactivatedPointwise(old(rows), variantId);
      var info := Storage.GetPdfInfo(reading);
      var objectName := secureFilename(towerCode + "_" + version + ".pdf");
      var url := store.UploadFile(sdk, cloudReply, s3Reply, objectName);
      outcome := AddDocument(variantId, version, info, url);
      if outcome.Uploaded? {
        UploadedTable(old(rows), variantId, outcome.doc, old(nextId));
      }
    }

    /** The end of `upload_document` once the file is stored: a new active
        row when the storage call returned a URL, nothing otherwise. */
    method AddDocument(variantId: int, version: string, info: Storage.PdfInfo, url: Option<string>)
      returns (outcome: UploadOutcome)
      modifies this
      ensures outcome.Uploaded? <==> Storage.Truthy(url)
      ensures outcome.Uploaded? || outcome.UploadFailed?
      ensures outcome.UploadFailed? ==> rows == old(rows) && nextId == old(nextId)
      ensures outcome.Uploaded? ==>
                && rows == old(rows) + [outcome.doc] && nextId == old(nextId) + 1
                && outcome.doc == Document(old(nextId), variantId, url.value, Some(info.pageCount),
                                           version, info.fileSize, true)
    {
      if Storage.Truthy(url) {
        var doc := Insert(Document(0, variantId, url.value, Some(info.pageCount),
                                   version, info.fileSize, true));
        outcome := Uploaded(doc);
      } else {
        outcome := UploadFailed;
      }
    }
  }

  // ---------------------------------------------------------------------
  // Login, logout and the guard
  // ---------------------------------------------------------------------

  /** `ADMIN_USERNAME` and `ADMIN_PASSWORD`. */
  datatype Credentials = Credentials(username: string, password: string)

  /** Where a handler sends the browser. */
  datatype Target = Dashboard | LoginPage(next: Option<string>) | Path(url: string)

  datatype LoginOutcome = LoginFormShown(nextUrl: Option<string>) | Redirect(target: Target)

  /** `request.args.get('next') or request.form.get('next')`. */
  function NextUrl(queryNext: Option<string>, formNext: Option<string>): (r: Option<string>)
    ensures Storage.Truthy(queryNext) ==> r == queryNext
    ensures !Storage.Truthy(queryNext) ==> r == formNext
    ensures Storage.Truthy(r) <==> Storage.Truthy(queryNext) || Storage.Truthy(formNext)
  {
    if Storage.Truthy(queryNext) then queryNext else formNext
  }

  /** The redirect rule after a successful login: a non-empty `next` that
      does not start with `http://` or `https://`, else the dashboard. */
  function AfterLogin(next: Option<string>): (t: Target)
    ensures t == Dashboard || t.Path?
    ensures t.Path? <==> && Storage.Truthy(next)
                         && !StartsWith(next.value, "http://") && !StartsWith(next.value, "https://")
    ensures t.Path? ==> next == Some(t.url)
  {
    if Storage.Truthy(next)
       && !StartsWith(next.value, "http://") && !StartsWith(next.value, "https://")
    then Path(next.value)
    else Dashboard
  }

  /** An absolute `http` or `https` URL is never followed. */
  lemma AfterLoginRejectsAbsolute(scheme: string, rest: string)
    requires scheme == "http://" || scheme == "https://"
    ensures AfterLogin(Some(scheme + rest)) == Dashboard
  {
    assert (scheme + rest)[..|scheme|] == scheme;
  }

  /** A local path such as `/admin/documents` is followed. */
  lemma AfterLoginFollowsLocalPath(path: string)
    requires path != [] && path[0] == '/'
    ensures AfterLogin(Some(path)) == Path(path)
  {
  }

  /** The rule looks at the scheme only: a protocol-relative `//host/...`,
      which a browser resolves to another site, is followed as well. */
  lemma AfterLoginFollowsProtocolRelative(host: string)
    ensures AfterLogin(Some("//" + host)) == Path("//" + host)
  {
    var u := "//" + host;
    assert u[0] == '/';
  }

  /** `login`: with a validated form whose fields equal the configured
      credentials, sets the session flag and redirects; otherwise shows the
      form again and leaves the flag alone. */
  method Login(s: Session, submitted: bool, username: string, password: string,
               admin: Credentials, queryNext: Option<string>, formNext: Option<string>)
    returns (outcome: LoginOutcome)
    modifies s`adminLoggedIn
    ensures outcome.Redirect? <==> submitted && username == admin.username && password == admin.password
    ensures outcome.Redirect? ==> s.adminLoggedIn && outcome.target == AfterLogin(NextUrl(queryNext, formNext))
    ensures outcome.LoginFormShown? ==> s.adminLoggedIn == old(s.adminLoggedIn)
                                        && outcome.nextUrl == NextUrl(queryNext, formNext)
  {
    var next := NextUrl(queryNext, formNext);
    if submitted && username == admin.username && password == admin.password {
      s.adminLoggedIn := true;
      return Redirect(AfterLogin(next));
    }
    return LoginFormShown(next);
  }

  /** `logout`: drops the flag and sends the browser to the login page. */
  method Logout(s: Session) returns (target: Target)
    modifies s`adminLoggedIn
    ensures !s.adminLoggedIn && target == LoginPage(None)
  {
    s.adminLoggedIn := false;
    target := LoginPage(None);
  }

  /** `admin_required`: `None` lets the view run; without the flag the
      browser is sent to the login page with the requested path as `next`. */
  function Guard(s: Session, fullPath: string): (r: Option<Target>)
    reads s
    ensures r.None? <==> s.adminLoggedIn
    ensures r.Some? ==> r.value == LoginPage(Some(fullPath))
  {
    if s.adminLoggedIn then None else Some(LoginPage(Some(fullPath)))
  }

  /** A successful login opens every guarded page; a logout closes them
      again, and the guard's redirect carries the page back to login. */
  method LoginThenLogout(s: Session, admin: Credentials, fullPath: string)
    modifies s`adminLoggedIn
    ensures !s.adminLoggedIn
  {
    var outcome := Login(s, true, admin.username, admin.password, admin, Some(fullPath), None);
    assert Guard(s, fullPath).None?;
    assert outcome.target == AfterLogin(Some(fullPath));
    var target := Logout(s);
    assert Guard(s, fullPath) == Some(LoginPage(Some(fullPath)));
  }
}
