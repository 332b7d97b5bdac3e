/** The security helpers of the site: password strength, file name
    sanitising, upload validation, the session-backed rate limiter and CSRF
    token, and the rule-driven form validator. */
module Security {
  import opened Text
  import opened SessionStore

  /** The `(is_valid, message)` pair the validators return. */
  datatype Verdict = Verdict(ok: bool, message: string)

  // ---------------------------------------------------------------------
  // Password strength
  // ---------------------------------------------------------------------

  const MinPasswordLength := 8
  const PasswordTooShort := "Password must be at least 8 characters long"
  const PasswordNoUpper := "Password must contain at least one uppercase letter"
  const PasswordNoLower := "Password must contain at least one lowercase letter"
  const PasswordNoDigit := "Password must contain at least one digit"
  const PasswordValid := "Password is valid"

  ghost predicate HasUpper(p: string) { exists k :: 0 <= k < |p| && 'A' <= p[k] <= 'Z' }
  ghost predicate HasLower(p: string) { exists k :: 0 <= k < |p| && 'a' <= p[k] <= 'z' }
  ghost predicate HasDigit(p: string) { exists k :: 0 <= k < |p| && '0' <= p[k] <= '9' }

  /** `re.search(r'[lo-hi]', s)`: a left-to-right scan for a character in the
      range. */
  function SearchRange(s: string, lo: char, hi: char): (found: bool)
    ensures found <==> exists k :: 0 <= k < |s| && lo <= s[k] <= hi
  {
    if s == [] then false
    else if lo <= s[0] <= hi then true
    else
      var found := SearchRange(s[1..], lo, hi);
      assert forall k :: 1 <= k < |s| ==> s[k] == s[1..][k - 1];
      found
  }

  /** `SecurityManager.validate_password`: the checks run in the order
      length, upper case, lower case, digit, and the first one that fails
      names the verdict. */
  function ValidatePassword(password: string): (r: Verdict)
    ensures r.ok <==> |password| >= MinPasswordLength && HasUpper(password)
                      && HasLower(password) && HasDigit(password)
    ensures r.ok ==> r.message == PasswordValid
    ensures |password| < MinPasswordLength ==> r.message == PasswordTooShort
    ensures |password| >= MinPasswordLength && !HasUpper(password) ==> r.message == PasswordNoUpper
    ensures |password| >= MinPasswordLength && HasUpper(password) && !HasLower(password)
            ==> r.message == PasswordNoLower
    ensures (|password| >= MinPasswordLength && HasUpper(password) && HasLower(password)
             && !HasDigit(password)) ==> r.message == PasswordNoDigit
  {
    if |password| < MinPasswordLength then Verdict(false, PasswordTooShort)
    else if !SearchRange(password, 'A', 'Z') then Verdict(false, PasswordNoUpper)
    else if !SearchRange(password, 'a', 'z') then Verdict(false, PasswordNoLower)
    else if !SearchRange(password, '0', '9') then Verdict(false, PasswordNoDigit)
    else Verdict(true, PasswordValid)
  }

  // ---------------------------------------------------------------------
  // File name sanitising
  // ---------------------------------------------------------------------

  /** The character class `[<>:"/\\|?*]`. */
  const ForbiddenChars: set<char> := {'<', '>', ':', '"', '/', '\\', '|', '?', '*'}
  /** The characters `strip('. ')` removes from both ends. */
  const EdgeChars: set<char> := {'.', ' '}
  const MaxFilenameLength := 255
  const KeptStemLength := 250

  predicate NoForbidden(s: string)
  {
    forall k :: 0 <= k < |s| ==> s[k] !in ForbiddenChars
  }

  predicate NoDoubleDot(s: string)
  {
    forall k :: 0 <= k < |s| - 1 ==> !(s[k] == '.' && s[k + 1] == '.')
  }

  function Min(a: int, b: int): int { if a <= b then a else b }

  /** `re.sub(r'[<>:"/\\|?*]', '', s)`. */
  function RemoveForbidden(s: string): (r: string)
    ensures NoForbidden(r)
  {
    if s == [] then []
    else
      var rest := RemoveForbidden(s[1..]);
      var r := (if s[0] in ForbiddenChars then [] else [s[0]]) + rest;
      assert forall k :: 0 <= k < |r| ==> r[k] in rest || r[k] == s[0];
      r
  }

  /** `re.sub(r'\.\.', '', s)`: the leftmost pair of dots is removed, and
      the scan resumes after it. */
  function RemoveDotPairs(s: string): (r: string)
    ensures |r| <= |s|
    ensures forall c :: c in r ==> c in s
  {
    if |s| >= 2 && s[0] == '.' && s[1] == '.' then RemoveDotPairs(s[2..])
    else if s == [] then []
    else [s[0]] + RemoveDotPairs(s[1..])
  }

  /** The name after the three cleaning steps, before the length limit. */
  function Cleaned(filename: string): (r: string)
    ensures r == [] || (r[0] !in EdgeChars && r[|r| - 1] !in EdgeChars)
  {
    Trim(RemoveDotPairs(RemoveForbidden(filename)), EdgeChars)
  }

  /** The length limit of `sanitize_filename`: a name over 255 characters
      keeps at most 250 characters of the text before its last dot, then
      that dot and the text after it; a name without a dot keeps its first
      250. No character is introduced. */
  function LimitLength(t: string): (r: string)
    ensures forall c :: c in r ==> c in t
  {
    if |t| > MaxFilenameLength then
      if '.' in t then
        var p := RSplitOnce(t, '.');
        p.0[..Min(KeptStemLength, |p.0|)] + (if p.1 != "" then "." + p.1 else "")
      else
        t[..KeptStemLength]
    else
      t
  }

  /** A string made of characters of a string without forbidden characters
      has none either. */
  lemma NoForbiddenByChars(r: string, t: string)
    requires NoForbidden(t) && forall c :: c in r ==> c in t
    ensures NoForbidden(r)
  {
    forall k | 0 <= k < |r| ensures r[k] !in ForbiddenChars {
      assert r[k] in r;
    }
  }

  /** `SecurityManager.sanitize_filename`. */
  function SanitizeFilename(filename: string): (r: string)
    ensures NoForbidden(r)
  {
    var t := Cleaned(filename);
    CleanedHasNoForbidden(filename);
    NoForbiddenByChars(LimitLength(t), t);
    LimitLength(t)
  }

  lemma CleanedHasNoForbidden(filename: string)
    ensures NoForbidden(Cleaned(filename))
  {
    var d := RemoveDotPairs(RemoveForbidden(filename));
    assert NoForbidden(d) by {
      forall k | 0 <= k < |d| ensures d[k] !in ForbiddenChars {
        assert d[k] in d;
      }
    }
    var l := TrimLeft(d, EdgeChars);
    var t := TrimRight(l, EdgeChars);
    assert t == Cleaned(filename);
    forall k | 0 <= k < |t| ensures t[k] !in ForbiddenChars {
      assert t[k] == l[k] == d[|d| - |l| + k];
    }
  }

  /** A run of `n` dots. */
  function Dots(n: nat): (r: string)
  {
    if n == 0 then [] else "." + Dots(n - 1)
  }

  /** Removing pairs turns every run of `n` dots into `n % 2` dots: the
      pass removes dots two at a time and never joins two runs. */
  lemma {:induction false} RunOfDotsHalved(n: nat, rest: string)
    requires rest == [] || rest[0] != '.'
    ensures RemoveDotPairs(Dots(n) + rest) == Dots(n % 2) + RemoveDotPairs(rest)
  {
    if n >= 2 {
      var x := Dots(n - 2) + rest;
      calc {
        RemoveDotPairs(Dots(n) + rest);
        { assert Dots(n) == ['.', '.'] + Dots(n - 2); assert Dots(n) + rest == ['.', '.'] + x; }
        RemoveDotPairs(['.', '.'] + x);
        { assert (['.', '.'] + x)[2..] == x; }
        RemoveDotPairs(x);
        { RunOfDotsHalved(n - 2, rest); }
        Dots((n - 2) % 2) + RemoveDotPairs(rest);
      }
      assert (n - 2) % 2 == n % 2;
    } else if n == 1 {
      assert Dots(1) + rest == [ '.' ] + rest;
      if rest != [] {
        assert (Dots(1) + rest)[1] == rest[0];
      }
    } else {
      assert Dots(0) + rest == rest;
    }
  }

  /** A character that is not a dot passes through the pass unchanged. */
  lemma RemoveDotPairsKeepsHead(s: string)
    requires s != [] && s[0] != '.'
    ensures RemoveDotPairs(s) == [s[0]] + RemoveDotPairs(s[1..])
  {
  }

  /** After the pass no two dots are adjacent. */
  lemma {:induction false} RemoveDotPairsNoDoubleDot(s: string)
    ensures NoDoubleDot(RemoveDotPairs(s))
  {
    if |s| >= 2 && s[0] == '.' && s[1] == '.' {
      RemoveDotPairsNoDoubleDot(s[2..]);
    } else if s != [] {
      var tail := RemoveDotPairs(s[1..]);
      RemoveDotPairsNoDoubleDot(s[1..]);
      if s[0] == '.' && |s| >= 2 {
        RemoveDotPairsKeepsHead(s[1..]);
      }
      assert s[0] == '.' && |s| == 1 ==> tail == [];
      var r := [s[0]] + tail;
      assert r == RemoveDotPairs(s);
      assert forall k :: 1 <= k < |r| ==> r[k] == tail[k - 1];
    }
  }

  /** A string with no pair of dots is left as it is. */
  lemma {:induction false} RemoveDotPairsIdentity(s: string)
    requires NoDoubleDot(s)
    ensures RemoveDotPairs(s) == s
  {
    if s != [] {
      assert NoDoubleDot(s[1..]) by {
        forall k | 0 <= k < |s| - 2 ensures !(s[1..][k] == '.' && s[1..][k + 1] == '.') {
          assert s[1..][k] == s[k + 1] && s[1..][k + 1] == s[k + 2];
        }
      }
      RemoveDotPairsIdentity(s[1..]);
      if |s| >= 2 {
        assert !(s[0] == '.' && s[1] == '.');
      }
    }
  }

  /** The removal works character by character. */
  lemma {:induction false} RemoveForbiddenAppend(a: string, b: string)
    ensures RemoveForbidden(a + b) == RemoveForbidden(a) + RemoveForbidden(b)
  {
    if a != [] {
      assert (a + b)[1..] == a[1..] + b;
      RemoveForbiddenAppend(a[1..], b);
    } else {
      assert a + b == b;
    }
  }

  /** A string with no forbidden character is left as it is. */
  lemma {:induction false} RemoveForbiddenIdentity(s: string)
    requires NoForbidden(s)
    ensures RemoveForbidden(s) == s
  {
    if s != [] {
      assert s[0] !in ForbiddenChars;
      RemoveForbiddenIdentity(s[1..]);
    }
  }

  /** The cleaned name is a slice of the text after the first two steps. */
  lemma CleanedIsSlice(filename: string) returns (i: nat, j: nat)
    ensures var d := RemoveDotPairs(RemoveForbidden(filename));
            i <= j <= |d| && Cleaned(filename) == d[i..j]
  {
    i, j := TrimIsSlice(RemoveDotPairs(RemoveForbidden(filename)), EdgeChars);
  }

  lemma SliceKeepsNoDoubleDot(s: string, i: nat, j: nat)
    requires i <= j <= |s| && NoDoubleDot(s)
    ensures NoDoubleDot(s[i..j])
  {
    forall k | 0 <= k < j - i - 1 ensures !(s[i..j][k] == '.' && s[i..j][k + 1] == '.') {
      assert s[i..j][k] == s[i + k] && s[i..j][k + 1] == s[i + k + 1];
    }
  }

  /** The cleaned name is well formed: no forbidden character, no `..`,
      and no dot or space at either end. */
  lemma CleanedIsWellFormed(filename: string)
    ensures var t := Cleaned(filename);
            NoForbidden(t) && NoDoubleDot(t) && (t == [] || (t[0] !in EdgeChars && t[|t| - 1] !in EdgeChars))
  {
    CleanedHasNoForbidden(filename);
    RemoveDotPairsNoDoubleDot(RemoveForbidden(filename));
    var i, j := CleanedIsSlice(filename);
    SliceKeepsNoDoubleDot(RemoveDotPairs(RemoveForbidden(filename)), i, j);
    var d := RemoveDotPairs(RemoveForbidden(filename));
    var l := TrimLeft(d, EdgeChars);
    var t := TrimRight(l, EdgeChars);
    assert t == [] || t[0] == l[0];
  }

  /** A cleaned name within the length limit is returned as it is, has no
      `..`, no dot or space at either end, and sanitising it again changes
      nothing. */
  lemma SanitizeShortName(filename: string)
    requires |Cleaned(filename)| <= MaxFilenameLength
    ensures var r := SanitizeFilename(filename);
            && r == Cleaned(filename)
            && NoDoubleDot(r)
            && (r == [] || (r[0] !in EdgeChars && r[|r| - 1] !in EdgeChars))
            && SanitizeFilename(r) == r
  {
    var t := Cleaned(filename);
    assert LimitLength(t) == t;
    CleanedIsWellFormed(filename);
    RemoveForbiddenIdentity(t);
    RemoveDotPairsIdentity(t);
    TrimIdentity(t, EdgeChars);
    assert Cleaned(t) == t;
    assert SanitizeFilename(t) == LimitLength(t);
  }

  /** A long name with a dot that does not end in one is cut before its
      last dot. */
  lemma LimitLengthWithExtension(t: string, stem: string, ext: string)
    requires t == stem + "." + ext && '.' !in ext && t[|t| - 1] != '.'
    requires |t| > MaxFilenameLength
    ensures ext != ""
    ensures LimitLength(t) == stem[..Min(KeptStemLength, |stem|)] + "." + ext
  {
    RSplitOnceUnique(t, '.', stem, ext);
  }

  /** A long cleaned name with a dot keeps at most 250 characters of the part
      before its last dot, then the dot and the whole extension. */
  lemma SanitizeLongNameWithExtension(filename: string, stem: string, ext: string)
    requires Cleaned(filename) == stem + "." + ext && '.' !in ext
    requires |Cleaned(filename)| > MaxFilenameLength
    ensures ext != ""
    ensures SanitizeFilename(filename) == stem[..Min(KeptStemLength, |stem|)] + "." + ext
  {
    CleanedIsWellFormed(filename);
    LimitLengthWithExtension(Cleaned(filename), stem, ext);
  }

  /** A long cleaned name without a dot is cut to exactly 250 characters. */
  lemma SanitizeLongNameWithoutDot(filename: string)
    requires |Cleaned(filename)| > MaxFilenameLength && '.' !in Cleaned(filename)
    ensures SanitizeFilename(filename) == Cleaned(filename)[..KeptStemLength]
    ensures |SanitizeFilename(filename)| == KeptStemLength
  {
  }

  /** A `/` between two parts disappears. */
  lemma RemoveForbiddenDropsSlash(a: string, sep: string, b: string)
    requires sep == "/"
    ensures RemoveForbidden(a + sep + b) == RemoveForbidden(a) + RemoveForbidden(b)
  {
    RemoveForbiddenAppend(a + sep, b);
    RemoveForbiddenAppend(a, sep);
    assert RemoveForbidden(sep) == [];
  }

  /** A traversal prefix such as `../../` leaves a run of four dots once its
      slashes are gone. */
  lemma TraversalPrefixLeavesDots(up: string, sep: string)
    requires up == ".." && sep == "/"
    ensures RemoveForbidden(up + sep + up + sep) == Dots(4)
  {
    RemoveForbiddenAppend(up + sep + up, sep);
    RemoveForbiddenDropsSlash(up, sep, up);
    RemoveForbiddenIdentity(up);
    assert RemoveForbidden(sep) == [];
    assert Dots(4) == up + up;
  }

  /** Removing forbidden characters from `prefix + dir/name`, when the
      prefix reduces to four dots. */
  lemma RemoveForbiddenTraversal(prefix: string, dir: string, sep: string, name: string)
    requires RemoveForbidden(prefix) == Dots(4) && sep == "/"
    requires NoForbidden(dir) && NoForbidden(name)
    ensures RemoveForbidden(prefix + (dir + sep + name)) == Dots(4) + (dir + name)
  {
    RemoveForbiddenAppend(prefix, dir + sep + name);
    RemoveForbiddenDropsSlash(dir, sep, name);
    RemoveForbiddenIdentity(dir);
    RemoveForbiddenIdentity(name);
  }

  /** The first three cleaning steps turn a `../../dir/name` path into
      `dir` followed by `name`. */
  lemma CleanedTraversal(prefix: string, dir: string, sep: string, name: string)
    requires RemoveForbidden(prefix) == Dots(4) && sep == "/"
    requires NoForbidden(dir) && NoForbidden(name)
    requires var t := dir + name;
             t != [] && t[0] !in EdgeChars && t[|t| - 1] !in EdgeChars && NoDoubleDot(t)
    ensures Cleaned(prefix + (dir + sep + name)) == dir + name
  {
    var t := dir + name;
    var path := prefix + (dir + sep + name);
    assert RemoveDotPairs(RemoveForbidden(path)) == t by {
      RemoveForbiddenTraversal(prefix, dir, sep, name);
      assert t[0] != '.';
      RunOfDotsHalved(4, t);
      assert Dots(4 % 2) == [];
      RemoveDotPairsIdentity(t);
    }
    TrimIdentity(t, EdgeChars);
  }

  /** A `../../dir/name` path loses its traversal prefix and its separators:
      what is left is `dir` followed by `name`. */
  lemma SanitizeDropsTraversal(prefix: string, dir: string, sep: string, name: string)
    requires RemoveForbidden(prefix) == Dots(4) && sep == "/"
    requires NoForbidden(dir) && NoForbidden(name)
    requires var t := dir + name;
             t != [] && t[0] !in EdgeChars && t[|t| - 1] !in EdgeChars && NoDoubleDot(t)
             && |t| <= MaxFilenameLength
    ensures SanitizeFilename(prefix + (dir + sep + name)) == dir + name
  {
    CleanedTraversal(prefix, dir, sep, name);
  }

  /** The traversal example: `../../etc/passwd.pdf` becomes `etcpasswd.pdf`. */
  lemma SanitizeTraversalExample(up: string, sep: string, dir: string, name: string)
    requires up == ".." && sep == "/" && dir == "etc" && name == "passwd.pdf"
    ensures SanitizeFilename(up + sep + up + sep + (dir + sep + name)) == dir + name
  {
    TraversalPrefixLeavesDots(up, sep);
    PlainName(dir, name);
    SanitizeDropsTraversal(up + sep + up + sep, dir, sep, name);
  }

  lemma PlainName(dir: string, name: string)
    requires dir == "etc" && name == "passwd.pdf"
    ensures NoForbidden(dir) && NoForbidden(name)
    ensures var t := dir + name;
            t != [] && t[0] !in EdgeChars && t[|t| - 1] !in EdgeChars && NoDoubleDot(t)
            && |t| <= MaxFilenameLength
  {
    var t := dir + name;
    assert t == "etcpasswd.pdf";
  }

  // The length limit. When the extension has more than four characters, the
  // cut keeps 250 characters of the stem and then the whole extension, so
  // the result is longer than the 255 characters the cut is meant to
  // enforce. `SanitizeFilename` models the code as written;
  // `SanitizeFilenameCapped` is the cut with the limit kept.

  /** As written: a long stem with an extension of `e > 4` characters comes
      out with `250 + 1 + e` characters. */
  lemma SanitizeCanExceedLimit(filename: string, stem: string, ext: string)
    requires Cleaned(filename) == stem + "." + ext && '.' !in ext
    requires |stem| >= KeptStemLength && |ext| > 4
    ensures |SanitizeFilename(filename)| == KeptStemLength + 1 + |ext| > MaxFilenameLength
  {
    SanitizeLongNameWithExtension(filename, stem, ext);
  }

  /** A run of `n` copies of `c`. */
  function Repeat(c: char, n: nat): (r: string)
    ensures |r| == n && forall k :: 0 <= k < n ==> r[k] == c
  {
    if n == 0 then [] else Repeat(c, n - 1) + [c]
  }

  /** The input that shows it: 250 letters and a `.markdown` extension give
      a 259-character name. */
  lemma SanitizeExceedsLimitExample(filename: string)
    requires filename == Repeat('a', KeptStemLength) + ".markdown"
    ensures |SanitizeFilename(filename)| == 259
  {
    var stem, ext := Repeat('a', KeptStemLength), "markdown";
    assert filename == stem + "." + ext;
    assert NoForbidden(filename) && NoDoubleDot(filename) by {
      forall k | KeptStemLength <= k < |filename|
        ensures filename[k] == ".markdown"[k - KeptStemLength]
      {
      }
    }
    RemoveForbiddenIdentity(filename);
    RemoveDotPairsIdentity(filename);
    TrimIdentity(filename, EdgeChars);
    SanitizeCanExceedLimit(filename, stem, ext);
  }

  /** Corrected: the stem is cut further so that the dot and the extension
      still fit in 255 characters; an extension too long for that (or a
      name without one) is cut like a name without a dot. */
  function LimitLengthCapped(t: string): (r: string)
    ensures |r| <= MaxFilenameLength
    ensures forall c :: c in r ==> c in t
  {
    if |t| <= MaxFilenameLength then
      t
    else if '.' in t && AfterLast(t, '.') != "" && |AfterLast(t, '.')| <= MaxFilenameLength - 2 then
      var p := RSplitOnce(t, '.');
      p.0[..Min(Min(KeptStemLength, |p.0|), MaxFilenameLength - 1 - |p.1|)] + "." + p.1
    else
      t[..KeptStemLength]
  }

  /** `sanitize_filename` with the corrected length limit. */
  function SanitizeFilenameCapped(filename: string): (r: string)
    ensures NoForbidden(r)
    ensures |r| <= MaxFilenameLength
  {
    var t := Cleaned(filename);
    CleanedHasNoForbidden(filename);
    NoForbiddenByChars(LimitLengthCapped(t), t);
    LimitLengthCapped(t)
  }

  lemma LimitCappedAgrees(t: string)
    requires t == [] || t[|t| - 1] != '.'
    ensures |LimitLength(t)| <= MaxFilenameLength <==> LimitLengthCapped(t) == LimitLength(t)
  {
    if |t| > MaxFilenameLength && '.' in t && |LimitLength(t)| <= MaxFilenameLength {
      var p := RSplitOnce(t, '.');
      LimitLengthWithExtension(t, p.0, p.1);
      assert |p.0| >= KeptStemLength;
    }
  }

  /** The corrected cut changes nothing where the code as written already
      meets the limit, and only there. */
  lemma SanitizeCappedAgrees(filename: string)
    ensures |SanitizeFilename(filename)| <= MaxFilenameLength
            <==> SanitizeFilenameCapped(filename) == SanitizeFilename(filename)
  {
    CleanedIsWellFormed(filename);
    LimitCappedAgrees(Cleaned(filename));
  }

  lemma LimitCappedKeepsExtension(t: string, stem: string, ext: string)
    requires t == stem + "." + ext && '.' !in ext && t[|t| - 1] != '.'
    requires |ext| <= MaxFilenameLength - 2
    ensures var r := LimitLengthCapped(t);
            var n := |r| - |ext| - 1;
            0 <= n <= |stem| && r == stem[..n] + "." + ext
  {
    RSplitOnceUnique(t, '.', stem, ext);
  }

  /** With an extension of at most 253 characters, the corrected result is
      a prefix of the stem followed by the dot and the whole extension. */
  lemma SanitizeCappedKeepsExtension(filename: string, stem: string, ext: string)
    requires Cleaned(filename) == stem + "." + ext && '.' !in ext
    requires |ext| <= MaxFilenameLength - 2
    ensures var r := SanitizeFilenameCapped(filename);
            var n := |r| - |ext| - 1;
            0 <= n <= |stem| && r == stem[..n] + "." + ext
  {
    CleanedIsWellFormed(filename);
    LimitCappedKeepsExtension(Cleaned(filename), stem, ext);
  }

  // ---------------------------------------------------------------------
  // Upload validation
  // ---------------------------------------------------------------------

  /** What the validator reads of an uploaded file. `contentLength` is
      `None` when the object has no `content_length` attribute. */
  datatype Upload = Upload(filename: string, contentLength: Option<int>, mimetype: string)

  const MaxUploadBytes := 50 * 1024 * 1024
  const NoExtensionMessage := "File must have an extension"
  const OnlyPdfMessage := "Only pdf files are allowed"
  const TooLargeMessage := "File size must be less than 50MB"
  const NotPdfMessage := "File must be a PDF"
  const FileValidMessage := "File is valid"

  /** `SecurityManager.validate_file_upload`: the extension, size and MIME
      checks in that order; the first that fails names the verdict. */
  function ValidateFileUpload(file: Upload): (r: Verdict)
    ensures r.ok <==> && '.' in file.filename
                      && Lower(AfterLast(file.filename, '.')) == "pdf"
                      && (file.contentLength.None? || file.contentLength.value <= MaxUploadBytes)
                      && file.mimetype == "application/pdf"
    ensures r.ok ==> r.message == FileValidMessage
    ensures '.' !in file.filename ==> r.message == NoExtensionMessage
    ensures '.' in file.filename && Lower(AfterLast(file.filename, '.')) != "pdf"
            ==> r.message == OnlyPdfMessage
    ensures '.' in file.filename && Lower(AfterLast(file.filename, '.')) == "pdf"
            && file.contentLength.Some? && file.contentLength.value > MaxUploadBytes
            ==> r.message == TooLargeMessage
    ensures && '.' in file.filename && Lower(AfterLast(file.filename, '.')) == "pdf"
            && (file.contentLength.None? || file.contentLength.value <= MaxUploadBytes)
            && file.mimetype != "application/pdf"
            ==> r.message == NotPdfMessage
  {
    if '.' !in file.filename then Verdict(false, NoExtensionMessage)
    else if Lower(RSplitOnce(file.filename, '.').1) != "pdf" then Verdict(false, OnlyPdfMessage)
    else if file.contentLength.Some? && file.contentLength.value > MaxUploadBytes then
      Verdict(false, TooLargeMessage)
    else if file.mimetype != "application/pdf" then Verdict(false, NotPdfMessage)
    else Verdict(true, FileValidMessage)
  }

  /** Exactly 50 MiB passes the size check; one byte more does not. */
  lemma UploadSizeBoundary(filename: string)
    requires '.' in filename && Lower(AfterLast(filename, '.')) == "pdf"
    ensures ValidateFileUpload(Upload(filename, Some(52428800), "application/pdf")).ok
    ensures ValidateFileUpload(Upload(filename, Some(52428801), "application/pdf")).message
            == TooLargeMessage
  {
  }

  // ---------------------------------------------------------------------
  // Rate limiting
  // ---------------------------------------------------------------------

  /** Python's `a // b`, which rounds toward negative infinity. */
  function FloorDiv(a: int, b: int): (q: int)
    requires b != 0
    ensures b > 0 ==> q * b <= a < q * b + b
    ensures b < 0 ==> q * b + b < a <= q * b
  {
    if b > 0 then a / b else (-a) / (-b)
  }

  /** The counter map after one call in bucket `current` for key `key`,
      before stale entries go. */
  function Counted(m: map<BucketKey, nat>, key: BucketKey): map<BucketKey, nat>
  {
    m[key := (if key in m then m[key] else 0) + 1]
  }

  /** The entries whose bucket is not older than the previous one. */
  function Evicted(m: map<BucketKey, nat>, current: int): map<BucketKey, nat>
  {
    map k | k in m && k.bucket >= current - 1 :: m[k]
  }

  /** One call of `rate_limit_check`: the new counter map and the answer. */
  function RateLimitStep(m: map<BucketKey, nat>, identifier: string, limit: int, window: int, now: int)
    : (r: (map<BucketKey, nat>, bool))
    requires window != 0
    ensures var key := BucketKey(identifier, FloorDiv(now, window));
            && key in r.0
            && r.0[key] == (if key in m then m[key] else 0) + 1
            && (r.1 <==> r.0[key] <= limit)
    ensures forall k :: k in r.0 ==> k.bucket >= FloorDiv(now, window) - 1
    ensures forall k :: k in m && k != BucketKey(identifier, FloorDiv(now, window)) ==>
              (k in r.0 <==> k.bucket >= FloorDiv(now, window) - 1) && (k in r.0 ==> r.0[k] == m[k])
    ensures forall k :: k in r.0 ==> k in m || k == BucketKey(identifier, FloorDiv(now, window))
  {
    var current := FloorDiv(now, window);
    var key := BucketKey(identifier, current);
    var kept := Evicted(Counted(m, key), current);
    (kept, kept[key] <= limit)
  }

  /** `rate_limit_check(identifier, limit, window)` at time `now`: counts the
      call in the current bucket, drops the entries of older buckets, and
      allows the call while the bucket's count is within the limit. */
  method RateLimitCheck(s: Session, identifier: string, limit: int, window: int, now: int)
    returns (allowed: bool)
    requires window != 0
    modifies s`rateLimits
    ensures (s.rateLimits, allowed) == RateLimitStep(old(s.rateLimits), identifier, limit, window, now)
  {
    var current := FloorDiv(now, window);
    var key := BucketKey(identifier, current);
    if key !in s.rateLimits {
      s.rateLimits := s.rateLimits[key := 0];
    }
    s.rateLimits := s.rateLimits[key := s.rateLimits[key] + 1];
    ghost var counted := s.rateLimits;
    assert counted == Counted(old(s.rateLimits), key);
    var oldKeys := set k | k in s.rateLimits && k.bucket < current - 1;
    while oldKeys != {}
      invariant oldKeys <= counted.Keys
      invariant forall k :: k in oldKeys ==> k.bucket < current - 1
      invariant s.rateLimits == map k | k in counted && (k.bucket >= current - 1 || k in oldKeys) :: counted[k]
      decreases oldKeys
    {
      var oldKey :| oldKey in oldKeys;
      s.rateLimits := s.rateLimits - {oldKey};
      oldKeys := oldKeys - {oldKey};
    }
    assert s.rateLimits == Evicted(counted, current);
    allowed := s.rateLimits[key] <= limit;
  }

  /** `n` calls at the same moment: the final counters and each call's answer. */
  function RepeatedChecks(m: map<BucketKey, nat>, identifier: string, limit: int, window: int, now: int, n: nat)
    : (map<BucketKey, nat>, seq<bool>)
    requires window != 0
  {
    if n == 0 then (m, [])
    else
      var before := RepeatedChecks(m, identifier, limit, window, now, n - 1);
      var step := RateLimitStep(before.0, identifier, limit, window, now);
      (step.0, before.1 + [step.1])
  }

  /** In a bucket that has seen no call yet, the first `limit` calls pass and
      every later call in the same bucket fails. */
  lemma {:induction false} RateLimitAllowsFirstCalls(m: map<BucketKey, nat>, identifier: string, limit: int, window: int, now: int, n: nat)
    requires window != 0
    requires BucketKey(identifier, FloorDiv(now, window)) !in m
    ensures var r := RepeatedChecks(m, identifier, limit, window, now, n);
            && |r.1| == n
            && (n > 0 ==> BucketKey(identifier, FloorDiv(now, window)) in r.0
                          && r.0[BucketKey(identifier, FloorDiv(now, window))] == n)
            && forall j :: 0 <= j < n ==> (r.1[j] <==> j < limit)
  {
    if n > 0 {
      RateLimitAllowsFirstCalls(m, identifier, limit, window, now, n - 1);
    }
  }

  // ---------------------------------------------------------------------
  // CSRF token
  // ---------------------------------------------------------------------

  /** `csrf_protect()`: stores `generated` (the fresh token the generator
      produced) only when the session has no token yet, and returns the
      stored one. */
  method CsrfProtect(s: Session, generated: string) returns (token: string)
    modifies s`csrfToken
    ensures old(s.csrfToken).Some? ==> s.csrfToken == old(s.csrfToken)
    ensures old(s.csrfToken).None? ==> s.csrfToken == Some(generated)
    ensures s.csrfToken == Some(token)
  {
    if s.csrfToken.None? {
      s.csrfToken := Some(generated);
    }
    token := s.csrfToken.value;
  }

  /** `verify_csrf_token(token)`, where `token` is `None` when the form sent
      none. While the session holds no token, only a missing token passes. */
  function VerifyCsrfToken(s: Session, token: Option<string>): (ok: bool)
    reads s
    ensures s.csrfToken.Some? ==> (ok <==> token.Some? && token.value == s.csrfToken.value)
    ensures s.csrfToken.None? ==> (ok <==> token.None?)
  {
    token == s.csrfToken
  }

  // ---------------------------------------------------------------------
  // Rule-driven form validation
  // ---------------------------------------------------------------------

  datatype FieldType = Email | Url | Numeric | OtherType(name: string)

  /** One entry of the `rules` dictionary; `None` stands for a missing key. */
  datatype Rule = Rule(
    required: bool,
    fieldType: Option<FieldType>,
    minLength: Option<int>,
    maxLength: Option<int>,
    pattern: Option<string>,
    errorMessage: Option<string>)

  /** The regular expressions and the number parser, which the model takes
      as given: the e-mail and URL patterns, `float(value)` succeeding, and
      `re.match(pattern, value)`. */
  datatype Matchers = Matchers(
    isEmail: string -> bool,
    isUrl: string -> bool,
    parsesAsFloat: string -> bool,
    matches: (string, string) -> bool)

  function RequiredMessage(field: string): string
  {
    Title(ReplaceChar(field, '_', ' ')) + " is required"
  }

  function TypeFailure(value: string, rule: Rule, m: Matchers): Option<string>
  {
    match rule.fieldType
    case Some(Email) => if m.isEmail(value) then None else Some("Invalid email format")
    case Some(Url) => if m.isUrl(value) then None else Some("Invalid URL format")
    case Some(Numeric) => if m.parsesAsFloat(value) then None else Some("Must be a number")
    case _ => None
  }

  function MinLengthFailure(value: string, rule: Rule): Option<string>
  {
    if rule.minLength.Some? && |value| < rule.minLength.value
    then Some("Must be at least " + IntToString(rule.minLength.value) + " characters")
    else None
  }

  function MaxLengthFailure(value: string, rule: Rule): Option<string>
  {
    if rule.maxLength.Some? && |value| > rule.maxLength.value
    then Some("Must be no more than " + IntToString(rule.maxLength.value) + " characters")
    else None
  }

  function PatternFailure(value: string, rule: Rule, m: Matchers): Option<string>
  {
    if rule.pattern.Some? && !m.matches(rule.pattern.value, value)
    then Some(if rule.errorMessage.Some? then rule.errorMessage.value else "Invalid format")
    else None
  }

  /** The position of the last failing check in `checks`, if any fails. */
  function LastFailingIndex(checks: seq<Option<string>>): (r: Option<nat>)
    ensures r.None? <==> forall i :: 0 <= i < |checks| ==> checks[i].None?
    ensures r.Some? ==> r.value < |checks| && checks[r.value].Some?
                        && forall j :: r.value < j < |checks| ==> checks[j].None?
  {
    if checks == [] then None
    else if checks[|checks| - 1].Some? then Some(|checks| - 1)
    else
      var init := checks[..|checks| - 1];
      assert forall i :: 0 <= i < |init| ==> init[i] == checks[i];
      LastFailingIndex(init)
  }

  /** The message of the last failing check in `checks`, if any fails. */
  function LastFailure(checks: seq<Option<string>>): (r: Option<string>)
    ensures r.None? <==> forall i :: 0 <= i < |checks| ==> checks[i].None?
    ensures r.Some? ==> exists i :: 0 <= i < |checks| && checks[i] == r
                                    && forall j :: i < j < |checks| ==> checks[j].None?
  {
    var i := LastFailingIndex(checks);
    if i.Some? then checks[i.value] else None
  }

  /** With four checks, the last failing one is found from the end. */
  lemma LastFailureOfFour(a: Option<string>, b: Option<string>, c: Option<string>, d: Option<string>)
    ensures LastFailure([a, b, c, d]) ==
            if d.Some? then d else if c.Some? then c else if b.Some? then b else a
  {
    assert [a, b, c, d][..3] == [a, b, c];
    assert [a, b, c][..2] == [a, b];
    assert [a, b][..1] == [a];
    assert [a][..0] == [];
    if d.None? {
      assert LastFailure([a, b, c, d]) == LastFailure([a, b, c]);
      if c.None? {
        assert LastFailure([a, b, c]) == LastFailure([a, b]);
        if b.None? {
          assert LastFailure([a, b]) == LastFailure([a]);
          if a.None? {
            assert LastFailure([a]) == LastFailure([]);
          }
        }
      }
    }
  }

  predicate Blank(value: string)
  {
    forall k :: 0 <= k < |value| ==> value[k] in PyWhitespace
  }

  /** The error `validate_input` reports for one field, if any. */
  function FieldError(field: string, value: string, rule: Rule, m: Matchers): (r: Option<string>)
    ensures rule.required && Blank(value) ==> r == Some(RequiredMessage(field))
    ensures !rule.required && value == [] ==> r.None?
    ensures !(rule.required && Blank(value)) && value != [] ==>
              r == LastFailure([TypeFailure(value, rule, m), MinLengthFailure(value, rule),
                                MaxLengthFailure(value, rule), PatternFailure(value, rule, m)])
  {
    if rule.required && Blank(value) then Some(RequiredMessage(field))
    else if value == [] then None
    else LastFailure([TypeFailure(value, rule, m), MinLengthFailure(value, rule),
                      MaxLengthFailure(value, rule), PatternFailure(value, rule, m)])
  }

  /** `data.get(field, '')`. */
  function ValueOf(data: map<string, string>, field: string): string
  {
    if field in data then data[field] else ""
  }

  /** The error dictionary `validate_input` is meant to build. */
  function ExpectedErrors(data: map<string, string>, rules: map<string, Rule>, m: Matchers): map<string, string>
  {
    ErrorsOf(data, rules, m, rules.Keys)
  }

  /** The entries for the fields in `done`. */
  function ErrorsOf(data: map<string, string>, rules: map<string, Rule>, m: Matchers, done: set<string>)
    : map<string, string>
  {
    map f | f in rules && f in done && FieldError(f, ValueOf(data, f), rules[f], m).Some? ::
      FieldError(f, ValueOf(data, f), rules[f], m).value
  }

  /** Checking one more field puts exactly that field's entry. */
  lemma ErrorsOfStep(data: map<string, string>, rules: map<string, Rule>, m: Matchers,
                     done: set<string>, field: string)
    requires field in rules
    ensures Put(ErrorsOf(data, rules, m, done), field, FieldError(field, ValueOf(data, field), rules[field], m))
            == ErrorsOf(data, rules, m, done + {field})
  {
  }

  /** `errors` with the entry for `field` set when `e` holds a message. */
  function Put(errors: map<string, string>, field: string, e: Option<string>): map<string, string>
  {
    if e.Some? then errors[field := e.value] else errors
  }

  /** The body of `validate_input`'s loop for one field: the required check,
      then the type, length and pattern checks, each failure overwriting the
      field's entry. */
  method CheckField(errors: map<string, string>, field: string, value: string, rule: Rule, m: Matchers)
    returns (updated: map<string, string>)
    ensures updated == Put(errors, field, FieldError(field, value, rule, m))
  {
    updated := errors;
    TrimEmptyIff(value, PyWhitespace);
    if rule.required && Trim(value, PyWhitespace) == "" {
      updated := updated[field := RequiredMessage(field)];
      return;
    }
    if value == "" {
      return;
    }
    var typeCheck := TypeFailure(value, rule, m);
    if typeCheck.Some? {
      updated := updated[field := typeCheck.value];
    }
    var minCheck := MinLengthFailure(value, rule);
    if minCheck.Some? {
      updated := updated[field := minCheck.value];
    }
    PutTwice(errors, field, typeCheck, minCheck);
    ghost var last := Later(typeCheck, minCheck);
    var maxCheck := MaxLengthFailure(value, rule);
    if maxCheck.Some? {
      updated := updated[field := maxCheck.value];
    }
    PutTwice(errors, field, last, maxCheck);
    last := Later(last, maxCheck);
    var patternCheck := PatternFailure(value, rule, m);
    if patternCheck.Some? {
      updated := updated[field := patternCheck.value];
    }
    PutTwice(errors, field, last, patternCheck);
    last := Later(last, patternCheck);
    LastFailureOfFour(typeCheck, minCheck, maxCheck, patternCheck);
  }

  function Later(a: Option<string>, b: Option<string>): Option<string>
  {
    if b.Some? then b else a
  }

  lemma PutTwice(errors: map<string, string>, field: string, a: Option<string>, b: Option<string>)
    ensures Put(Put(errors, field, a), field, b) == Put(errors, field, Later(a, b))
  {
  }

  /** `validate_input(data, rules)`: every field with a rule is checked on
      its own and each failing check overwrites the field's entry, so the
      last failure is the one reported. */
  method ValidateInput(data: map<string, string>, rules: map<string, Rule>, m: Matchers)
    returns (errors: map<string, string>)
    ensures errors == ExpectedErrors(data, rules, m)
    ensures errors.Keys <= rules.Keys
  {
    errors := map[];
    var pending := rules.Keys;
    while pending != {}
      invariant pending <= rules.Keys
      invariant errors == ErrorsOf(data, rules, m, rules.Keys - pending)
      decreases pending
    {
      var field :| field in pending;
      var value := if field in data then data[field] else "";
      errors := CheckField(errors, field, value, rules[field], m);
      ErrorsOfStep(data, rules, m, rules.Keys - pending, field);
      assert rules.Keys - (pending - {field}) == (rules.Keys - pending) + {field};
      pending := pending - {field};
    }
    assert rules.Keys - pending == rules.Keys;
  }
}
