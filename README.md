# Junate Towers: security helpers, storage selection and document upload

This project models the core of the Junate Towers tower-documentation site in
Dafny. The site is a Flask catalogue with an admin area where PDF documents
are uploaded for tower variants. The model covers:

- **security helpers** (`app/security.py`):
  - password strength;
  - file name sanitising;
  - the PDF upload check;
  - the session-backed windowed rate limiter;
  - the CSRF token;
  - the rule-driven form validator;
- **the extension rule `allowed_file`** and the table rows as plain records
  (`app/models.py`);
- **`CloudStorage`** (`app/storage.py`): which S3 client exists after
  `init_app`, and which backend `upload_file` ends in. Cloudinary is tried
  first, then S3, then the local `uploads` directory. Every SDK call is
  replaced by its possible outcomes;
- **the admin handlers** (`app/admin/routes.py`):
  - the document table update of `upload_document`;
  - the `admin_logged_in` session flag that `login`, `logout` and
    `admin_required` set, clear and test.

Layout, one module per source file:

| file | module | models |
|---|---|---|
| `text.dfy` | `Text` | the parts of Python's `str` the code relies on: `rsplit('.', 1)`, `lower()`, `strip()`, `title()`, `replace`, `str(int)` |
| `session_store.dfy` | `SessionStore` | the Flask session as a class with one field per key the core touches |
| `security.dfy` | `Security` | `app/security.py` |
| `models.dfy` | `Models` | `app/models.py` |
| `storage.dfy` | `Storage` | `app/storage.py` |
| `admin_routes.dfy` | `AdminRoutes` | `app/admin/routes.py` |

The model keeps the source's form:

- Straight-line checks and string transforms are functions with lemmas.
- `rate_limit_check` is a method that takes the session object and
  changes only its counters. It increments a
  counter, then runs a deletion loop. It is proved equal to the function
  `RateLimitStep`, whose properties are stated in its contract.
- `validate_input` is a loop over the rules that overwrites entries of an
  error map. It is proved equal to `ExpectedErrors`.
- `CloudStorage` and the document table are classes whose methods update
  their fields in place.
- The SQL bulk update that deactivates a variant's documents is a loop over
  the table rows.

Python semantics are written out where they matter:

- `//` rounds toward negative infinity (`FloorDiv`).
- `re.sub(r'\.\.', '', s)` is one left-to-right pass that removes
  non-overlapping pairs (`RemoveDotPairs`).
- `strip()` with no argument removes exactly the characters for which
  `str.isspace` holds (`PyWhitespace`).
- A missing configuration key differs from a key set to `None`, because
  `config.get(k, default)` tells them apart (`Setting`).
- `None` prints as `None` inside an f-string (`Show`).

## Model

| member | source | states |
|---|---|---|
| Security.ValidatePassword | app/security.py:20-34 | The password is accepted iff it has at least 8 characters and contains an A–Z, an a–z and a 0–9. The checks run in the order length, upper, lower, digit, and the message is the first failing check's. |
| Security.SearchRange | app/security.py:25-31 | `re.search(r'[lo-hi]', s)` succeeds iff some character of `s` lies in the range. |
| Security.RemoveForbidden | app/security.py:50 | The result contains none of `< > : " / \ \| ? *`. |
| Security.RemoveDotPairs | app/security.py:51 | Removing `..` pairs never lengthens the name and introduces no character. Its effect on runs of dots is in `RunOfDotsHalved`. |
| Security.Cleaned | app/security.py:50-52 | After the three cleaning steps the name neither starts nor ends with a dot or a space. |
| Security.LimitLength | app/security.py:54-57 | The length limit introduces no character. Its exact cut is in `SanitizeLongNameWithExtension` and `SanitizeLongNameWithoutDot`. |
| Security.SanitizeFilename | app/security.py:47-59 | The sanitised name never contains a forbidden character, whatever its length. |
| Security.CleanedIsWellFormed | app/security.py:50-52 | After the three cleaning steps, the name has no forbidden character, no `..`, and no dot or space at either end. |
| Security.RunOfDotsHalved | app/security.py:51 | The single-pass `..` removal turns a run of k dots into k mod 2 dots. |
| Security.RemoveDotPairsNoDoubleDot | app/security.py:51 | No two adjacent dots remain after the pass. |
| Security.RemoveDotPairsIdentity | app/security.py:51 | A name without `..` passes through the pass unchanged. |
| Security.RemoveForbiddenAppend | app/security.py:50 | Removing forbidden characters works character by character: it distributes over concatenation. |
| Security.SanitizeShortName | app/security.py:52-59 | A cleaned name of at most 255 characters is returned as it is. It has no `..` and no dot or space at either end, and sanitising it again changes nothing. |
| Security.SanitizeLongNameWithExtension | app/security.py:55-57 | A cleaned name over 255 characters with a dot becomes at most 250 characters of the text before the last dot, then the dot and the whole (non-empty) extension. |
| Security.SanitizeLongNameWithoutDot | app/security.py:55-57 | A cleaned name over 255 characters without a dot becomes exactly its first 250 characters. |
| Security.TraversalPrefixLeavesDots | app/security.py:50 | `../../` loses its slashes and leaves four dots. |
| Security.CleanedTraversal | app/security.py:50-52 | For a plain `dir` and `name`, cleaning `../../dir/name` leaves `dir` followed by `name`. |
| Security.SanitizeDropsTraversal | app/security.py:47-59 | A `../../dir/name` path sanitises to `dir` followed by `name`. |
| Security.SanitizeTraversalExample | app/security.py:50-52 | `../../etc/passwd.pdf` sanitises to `etcpasswd.pdf`. |
| Security.SanitizeCanExceedLimit | app/security.py:55-57 | As written: a stem of 250 or more characters with an extension of e > 4 characters comes out with 251 + e > 255 characters. |
| Security.SanitizeExceedsLimitExample | app/security.py:55-57 | As written: 250 letters followed by `.markdown` give a 259-character name. |
| Security.SanitizeFilenameCapped | app/security.py:55-57 | Corrected length limit: the result never has a forbidden character and never exceeds 255 characters. |
| Security.SanitizeCappedAgrees | app/security.py:55-57 | The corrected limit gives the same result as the code as written exactly when the code's result is within 255 characters. |
| Security.SanitizeCappedKeepsExtension | app/security.py:55-57 | With an extension of at most 253 characters, the corrected result is a prefix of the stem, then the dot and the whole extension. |
| Security.ValidateFileUpload | app/security.py:62-82 | The upload is accepted iff all four checks pass: the name has a dot, the lower-cased text after the last dot is `pdf`, `content_length` (when present) is at most 50·1024·1024, and the MIME type is `application/pdf`. The checks run in that order, and the first failing one decides the message: no extension, only PDF, too large, or not a PDF. |
| Security.UploadSizeBoundary | app/security.py:74-76 | A `content_length` of exactly 52428800 passes; 52428801 is refused as too large. |
| Security.FloorDiv | app/security.py:125 | `a // b` is the floor of the quotient for either sign of `b`. |
| Security.RateLimitStep | app/security.py:118-138 | One call increments exactly the counter of `identifier:(now // window)` by one. It answers true iff that counter is within `limit`. Afterwards no entry of a bucket older than the previous one remains, for any identifier. Other entries are kept unchanged or evicted, and no other entry appears. |
| Security.RateLimitCheck | app/security.py:118-138 | The in-place update of the session's counters (increment, then the deletion loop over old keys) leaves the state and gives the answer that `RateLimitStep` describes. |
| Security.RateLimitAllowsFirstCalls | app/security.py:127-138 | In a bucket with no calls yet, the first `limit` calls pass and every later call in that bucket fails. |
| Security.CsrfProtect | app/security.py:108-112 | A token is stored only when the session has none. The stored token is returned, and an existing one is never replaced. |
| Security.VerifyCsrfToken | app/security.py:114-116 | With a session token, a submitted token passes iff it equals it. With no session token, only a missing token passes. |
| Security.LastFailure | app/security.py:155-183 | The reported message is the last failing check, and `None` means no check failed. |
| Security.LastFailureOfFour | app/security.py:155-183 | With the four checks type, min_length, max_length and pattern, the one reported is the last that fails. |
| Security.FieldError | app/security.py:145-183 | A required field that is blank after `strip()` gets only the "is required" message. An empty value with no `required` gets no error. Otherwise the error is the last failing check of type, min_length, max_length and pattern. |
| Security.CheckField | app/security.py:145-183 | The loop body's successive overwrites of `errors[field]` leave exactly the entry `FieldError` gives, and touch no other field. |
| Security.ValidateInput | app/security.py:140-185 | The error map is the expected one, field by field, and its keys are a subset of the rule keys. |
| Text.RSplitOnceUnique | app/security.py:56 | Any split of a name at a dot with no dot after it is the split `rsplit('.', 1)` makes: the extension is the text after the last dot. |
| Text.TrimEmptyIff | app/security.py:148 | `value.strip()` is empty iff every character of `value` is whitespace. |
| Models.AllowedFile | app/models.py:117-120 | `allowed_file` is false for any name without a dot. |
| Models.AllowedFileByExtension | app/models.py:119-120 | For a name split at its last dot, the verdict depends only on whether the text after the dot lower-cases to `pdf`. |
| Models.LowerIsPdf | app/models.py:120 | The comparison ignores case: an extension lower-cases to `pdf` iff it is `p`, `d`, `f` in either case. |
| Models.AllowedFileInnerExeIgnored | app/models.py:120 | `a.exe.pdf` is accepted. |
| Models.AllowedFileInnerPdfIgnored | app/models.py:120 | `a.pdf.exe` is rejected. |
| Models.AllowedFileUpperCase | app/models.py:120 | `REPORT.PDF` is accepted. |
| Models.AllowedFileEmptyExtension | app/models.py:119-120 | `report.` is rejected, because its extension is empty. |
| Models.AllowedFileEmptyStem | app/models.py:119-120 | `.pdf` is accepted. |
| Models.AllowedFileAgreesWithUpload | app/models.py:117-120 | `allowed_file(n)` holds iff the first two checks of `validate_file_upload` (a dot, then the `pdf` extension) pass for `n`. |
| Storage.UploadLocal | app/storage.py:85-97 | The local fallback's URL is `/uploads/` followed by the object name. |
| Storage.S3Url | app/storage.py:70-74 | The reported URL always ends with `/` followed by the object name. |
| Storage.UploadCloudinary | app/storage.py:99-126 | Without the SDK, or when the upload raises, the result is `None`. Otherwise a truthy `secure_url` is returned, and when `secure_url` is falsy the response's `url` is returned, whatever it is. |
| Storage.CloudStorage.constructor | app/storage.py:15-18 | A fresh storage object has no application, no bucket and no client. |
| Storage.CloudStorage.InitApp | app/storage.py:22-44 | The configuration and the bucket name are recorded. An S3 client, with the region defaulting to `us-east-1` and the configured endpoint, is built iff both the access key id and the secret are non-empty; otherwise the client field is unchanged. |
| Storage.CloudStorage.UploadFile | app/storage.py:46-83 | Without an S3 client the upload always yields a URL. It yields `None` only when an S3 client exists and S3 raised a client error. |
| Storage.ConfiguredClientExists | app/storage.py:15-44 | After configuring a fresh storage object, an S3 client exists iff both credentials are non-empty. |
| Storage.CloudinaryPreferred | app/storage.py:49-52 | When Cloudinary is configured and its upload yields a truthy URL, `upload_file` returns that URL whatever S3 would do. |
| Storage.CloudinaryFallsThrough | app/storage.py:49-56 | When Cloudinary is not configured, or its upload yields no URL, `upload_file` ends exactly as it would without the SDK. |
| Storage.UploadFileFailsOnlyOnClientError | app/storage.py:46-83 | `upload_file` returns `None` iff Cloudinary gave no URL, an S3 client exists and S3 raised a client error. A Cloudinary failure alone never does, and any URL returned is non-empty. |
| Storage.UploadFileLocalFallback | app/storage.py:54-56 | With no S3 client, or when S3 reports missing credentials, the upload lands at `/uploads/` + object name. |
| Storage.S3UrlForms | app/storage.py:70-74 | The S3 URL is `endpoint/bucket/object` when an endpoint is configured. Otherwise it is `https://bucket.s3.<region>.amazonaws.com/object` with the configured region; an unset region reads as `us-east-1` and a region set to `None` prints as `None`. |
| Storage.UploadFileS3Stored | app/storage.py:58-76 | When Cloudinary gives no URL and an S3 client exists, a stored object is reported at `S3Url` of the recorded configuration, bucket and object name. |
| Storage.GetPdfInfo | app/storage.py:128-144 | It never fails. An unreadable file reports 0 pages and 0 bytes. Otherwise the page count is PyPDF2's, and the size is the buffer length, or `content_length` when the file has no buffer. |
| AdminRoutes.Deactivated | app/admin/routes.py:246 | The bulk deactivation keeps the table's length. |
| AdminRoutes.DeactivatedPointwise | app/admin/routes.py:246 | Each document of the variant only loses its active flag, and documents of other variants are untouched. |
| AdminRoutes.DeactivatedHasNoActive | app/admin/routes.py:246 | After the deactivation the variant has no active document. |
| AdminRoutes.UploadedTable | app/admin/routes.py:246-265 | After deactivating and appending the new active row: the variant has exactly one active document, the new one. Other variants' rows are unchanged, and every id stays below the next one. |
| AdminRoutes.DocumentTable.DeactivateVariant | app/admin/routes.py:246 | The in-place update loop leaves the table `Deactivated` describes. |
| AdminRoutes.DocumentTable.Insert | app/admin/routes.py:264-265 | The new row is appended with the next id. |
| AdminRoutes.DocumentTable.AddDocument | app/admin/routes.py:255-269 | A truthy URL appends exactly one active row, with the variant, URL, PDF info and version. A falsy URL adds nothing. |
| AdminRoutes.DocumentTable.UploadDocument | app/admin/routes.py:235-273 | An unknown variant, a form that is not submitted, or a name `allowed_file` refuses leaves the table unchanged. Otherwise the variant's documents are deactivated and documents of other variants are untouched. On success exactly one row is appended (the variant, the returned URL, the `get_pdf_info` values, the form version, active), and it is the variant's only active document. On an upload failure no row is added. |
| AdminRoutes.DocumentTable.StoreValidUpload | app/admin/routes.py:246-269 | Past the file type check: the variant's documents are deactivated before storing, and a row is added only when the upload returns a URL. The new table is related to the old one by `StoredUpload`. |
| AdminRoutes.NextUrl | app/admin/routes.py:66 | `next` is the query value when that is non-empty, else the form value. It is non-empty iff one of them is. |
| AdminRoutes.AfterLogin | app/admin/routes.py:78-80 | The target is the dashboard or a path. It is a path iff `next` is non-empty and starts with neither `http://` nor `https://`, and the path is then `next` itself. |
| AdminRoutes.AfterLoginRejectsAbsolute | app/admin/routes.py:78 | A `next` starting with `http://` or `https://` is never followed. |
| AdminRoutes.AfterLoginFollowsLocalPath | app/admin/routes.py:78-79 | A local path starting with `/` is followed. |
| AdminRoutes.AfterLoginFollowsProtocolRelative | app/admin/routes.py:78-79 | A protocol-relative `//host...` passes the check and is followed. |
| AdminRoutes.Login | app/admin/routes.py:62-84 | Login succeeds iff the form validates and both username and password equal the configured ones. On success the session flag is set and the redirect follows the `next` rule. Otherwise the form is shown again and the flag is unchanged. |
| AdminRoutes.Logout | app/admin/routes.py:86-91 | The session flag is cleared and the browser goes to the login page. |
| AdminRoutes.Guard | app/admin/routes.py:51-60 | A guarded view runs iff the session flag is set. Otherwise the browser is sent to login with the requested full path as `next`. |
| AdminRoutes.LoginThenLogout | app/admin/routes.py:51-91 | After a successful login the guard lets requests through. After logout it sends them back to login. |
| SessionStore.Session.constructor | app/security.py:121-122 | A fresh session holds no counters, no CSRF token and no login flag. |

## Findings

| source | as written | input that shows it | evidently intended | confidence | as-written member | corrected member |
|---|---|---|---|---|---|---|
| app/security.py:55-57 | A name over 255 characters keeps 250 characters of its stem and then the whole extension. An extension longer than 4 characters therefore leaves the result over 255 characters. | 250 letters followed by `.markdown`: the result has 259 characters | the length limit holds: the stem is cut short enough that the dot and the extension fit in 255 characters | medium, not executed | Security.SanitizeExceedsLimitExample | Security.SanitizeFilenameCapped |

`Security.SanitizeCanExceedLimit` states the general form of the
discrepancy. `Security.SanitizeCappedAgrees` shows that the corrected cut
differs from the code only on those inputs. `Security.SanitizeCappedKeepsExtension`
shows that it still keeps the extension. Nothing else in the site calls
`sanitize_filename`: the upload handler names files with werkzeug's
`secure_filename`. So the corrected definition is used only by its own
lemmas.

## Notes where the code, not the documentation, is followed

- **Failed Cloudinary upload.** A failed Cloudinary upload does not end
  `upload_file`. The code falls through to S3 or local storage, so
  `Storage.CloudinaryFallsThrough` states that.
- **Upload size limit.** `validate_file_upload` allows 50 MiB, but
  `MAX_CONTENT_LENGTH` in `config.py` is 10 MiB. Flask enforces the latter
  before any handler runs, so larger files never reach the validator. The
  model states the validator's own constant.
- **`datetime` is not imported.** `rate_limit_check` uses `datetime` without
  importing it, so as written every call raises `NameError`. The model takes
  the current Unix time `now` as a parameter and describes the evidently
  intended behaviour.
- **`window` of zero.** A `window` of zero raises `ZeroDivisionError`. It is
  a precondition of the rate-limit members.
- **Truncation can re-create `..`.** Truncating a long name can end it in a
  space or re-create `..` at the cut, so `SanitizeShortName`'s
  well-formedness is stated for names within the limit only.

## Left out

- Flask routing, templates, `flash`, the rendered pages and the WTForms field validators. Each handler returns an outcome value instead, and form validation is a boolean parameter.
- SQLAlchemy persistence: commit, rollback, cascade deletes, session teardown and the timestamp columns. The table is one in-memory sequence with an id counter.
- AdminRoutes.DocumentTable.UploadDocument: on a failed upload, the model keeps the in-memory deactivation and makes no claim about whether the database keeps it, which depends on ORM session handling.
- The concurrent-upload race between the deactivation and the insert. The model runs one request at a time.
- The Cloudinary, boto3 and PyPDF2 calls. Each is a parameter listing its outcomes: a response, an exception, a missing-credentials error or a client error. S3 exceptions other than those two are not modelled.
- The Cloudinary SDK's global configuration that `init_app` writes. `upload_file` receives the cloud name that configuration reports.
- `file.save`, `os.makedirs` and the `print` diagnostics.
- The `object_name=None` default of `upload_file`. The caller always passes a name.
- werkzeug's `secure_filename`, `generate_password_hash`, `check_password_hash` and `secrets.token_urlsafe` are library functions. The first is a function parameter, the token is a parameter, and the hashes are left out.
- The regular expressions of `validate_input`: the e-mail and URL patterns, a rule's own `pattern` and `float()` parsing. They are predicates given as parameters (`Security.Matchers`).
- Security.ValidatePassword: `\d` is ASCII `0-9` only, while Python's also matches other Unicode decimal digits. Likewise, `lower()` and `title()` map ASCII letters only.
- The `admin_required` of `app/security.py`, with its HTTP Basic fallback. The admin blueprint uses its own decorator, which is modelled. `add_security_headers` sets constant headers, and there is nothing to prove about it.
- `session.permanent` and the cookie lifetime.
- `app/main/routes.py` (read-only queries), `init_data.py` (seeding) and the bootstrap files `config.py`, `run.py`, `app.py`, `app/__init__.py` and `api/index.py`.
- The floating-point `height` column of a variant, and the `Slider` table, which the modelled operations do not use.
- Security.ValidateInput: data values are strings. A value of another type, such as `None`, which makes `strip()` raise, is not modelled.
