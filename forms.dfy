/** The form validation of app/forms.py: the login form, and the tag registration
    form whose inline validators query the tag table for duplicates. */
module Forms {
  import opened Text
  import opened Models

  /** The reasons a field can be rejected for. */
  datatype FieldError =
    | Required        // DataRequired: the field is empty or whitespace only
    | UidInUse        // validate_tag_uid: a tag with this uid is registered
    | UsernameInUse   // validate_username: a tag with this username is registered
    | FileNotAllowed  // FileAllowed: the upload's extension is not in the allowed list

  /** The extensions FileAllowed accepts for the profile picture. */
  const ALLOWED_EXTENSIONS: seq<string> := ["jpg", "png", "jpeg"]

  /** WTForms' `DataRequired`: a value passes when it is non-empty and has a
      non-whitespace character, exactly Python's `data and data.strip()`. */
  function DataRequired(data: string): (r: Option<FieldError>)
    ensures r.Some? <==> (data == "" || Strip(data) == "")
    ensures r.Some? ==> r.value == Required
  {
    StripEmptyIffBlank(data);
    if Blank(data) then Some(Required) else None
  }

  /** `validate_tag_uid`: rejects a uid that some registered tag already has. */
  function ValidateTagUid(t: TagTable, uid: string): (r: Option<FieldError>)
    ensures r.Some? ==> r.value == UidInUse
  {
    if UidTaken(t, uid) then Some(UidInUse) else None
  }

  /** `validate_username`: rejects a username that some registered tag already has. */
  function ValidateUsername(t: TagTable, name: string): (r: Option<FieldError>)
    ensures r.Some? ==> r.value == UsernameInUse
  {
    if UsernameTaken(t, name) then Some(UsernameInUse) else None
  }

  /** The errors a field collects: its declared validators run first, and a
      DataRequired failure stops the chain before the inline `validate_<field>`. */
  function Chain(required: Option<FieldError>, inline: Option<FieldError>): (errs: seq<FieldError>)
    ensures errs == [] <==> required.None? && inline.None?
    ensures required.Some? ==> errs == [required.value]
    ensures required.None? && inline.Some? ==> errs == [inline.value]
  {
    match required
    case Some(e) => [e]
    case None => match inline case Some(e) => [e] case None => []
  }

  /** The part of `s` after its last '.', or None when `s` has no '.'. */
  function AfterLastDot(s: string): Option<string> {
    if s == [] then None
    else if s[|s| - 1] == '.' then Some([])
    else match AfterLastDot(s[..|s| - 1])
      case None => None
      case Some(e) => Some(e + [s[|s| - 1]])
  }

  /** For an extension without a dot, `s.endswith("." + ext)` says exactly that
      `ext` is what follows the last dot of `s`. */
  lemma {:induction false} EndsWithDotIffAfterLastDot(s: string, ext: string)
    requires '.' !in ext
    ensures EndsWith(s, "." + ext) <==> AfterLastDot(s) == Some(ext)
    decreases |s|
  {
    if s == [] {
    } else if s[|s| - 1] == '.' {
      if ext != [] {
        assert !EndsWith(s, "." + ext);
      } else {
        assert s[|s| - 1..] == "." + ext;
      }
    } else {
      var s' := s[..|s| - 1];
      if ext == [] {
        assert !EndsWith(s, "." + ext);
        assert AfterLastDot(s) != Some(ext);
      } else {
        var e' := ext[..|ext| - 1];
        assert ext == e' + [ext[|ext| - 1]];
        assert '.' !in e' by {
          forall i | 0 <= i < |e'| ensures e'[i] != '.' { assert e'[i] == ext[i]; }
        }
        EndsWithDotIffAfterLastDot(s', e');
        if EndsWith(s, "." + ext) {
          assert s[|s| - 1] == ext[|ext| - 1] by {
            assert s[|s| - |"." + ext|..][|"." + ext| - 1] == ("." + ext)[|"." + ext| - 1];
          }
          assert s'[|s'| - |"." + e'|..] == s[|s| - |"." + ext|..|s| - 1];
          assert s[|s| - |"." + ext|..|s| - 1] == ("." + ext)[..|"." + ext| - 1];
          assert ("." + ext)[..|"." + ext| - 1] == "." + e';
        }
        if AfterLastDot(s) == Some(ext) {
          assert AfterLastDot(s') == Some(e');
          assert s[|s| - |"." + ext|..] == s'[|s'| - |"." + e'|..] + [s[|s| - 1]];
          assert "." + ext == ("." + e') + [ext[|ext| - 1]];
        }
      }
    }
  }

  /** `any(name.endswith("." + x) for x in exts)`. */
  predicate EndsWithAnyExtension(name: string, exts: seq<string>) {
    exists k | 0 <= k < |exts| :: EndsWith(name, "." + exts[k])
  }

  /** For extensions without a dot, some extension of `exts` ends `s` exactly when
      the text after the last dot of `s` is one of them. */
  lemma {:induction false} EndsWithAnyIffAfterLastDot(s: string, exts: seq<string>)
    requires forall k | 0 <= k < |exts| :: '.' !in exts[k]
    ensures EndsWithAnyExtension(s, exts) <==> (AfterLastDot(s).Some? && AfterLastDot(s).value in exts)
  {
    forall k | 0 <= k < |exts| ensures EndsWith(s, "." + exts[k]) <==> AfterLastDot(s) == Some(exts[k]) {
      EndsWithDotIffAfterLastDot(s, exts[k]);
    }
  }

  /** Flask-WTF's `FileAllowed(["jpg", "png", "jpeg"])`: no upload (or an upload
      without a file name) passes; otherwise the lower-cased file name must end
      in "." followed by an allowed extension. */
  function FileAllowed(upload: Option<string>): (errs: seq<FieldError>)
    ensures errs == [] || errs == [FileNotAllowed]
    ensures upload.None? || upload == Some("") ==> errs == []
  {
    match upload
    case None => []
    case Some(name) =>
      if name == "" || EndsWithAnyExtension(Lower(name), ALLOWED_EXTENSIONS) then []
      else [FileNotAllowed]
  }

  /** A file name is accepted exactly when the text after its last dot, lower-cased,
      is one of jpg, png and jpeg (so "photo.JPG" passes, "jpg" and "a.jpg.gif" fail). */
  lemma FileAllowedIffExtension(name: string)
    requires name != ""
    ensures FileAllowed(Some(name)) == [] <==>
            (AfterLastDot(Lower(name)).Some? && AfterLastDot(Lower(name)).value in ALLOWED_EXTENSIONS)
  {
    assert forall k | 0 <= k < |ALLOWED_EXTENSIONS| :: '.' !in ALLOWED_EXTENSIONS[k];
    EndsWithAnyIffAfterLastDot(Lower(name), ALLOWED_EXTENSIONS);
  }

  /** The data submitted to `TagRegistrationForm`; `picture` is the uploaded file's name. */
  datatype TagForm = TagForm(tagUid: string, username: string, picture: Option<string>)

  /** The `errors` of each field of `TagRegistrationForm`. */
  datatype TagFormErrors = TagFormErrors(tagUid: seq<FieldError>, username: seq<FieldError>, picture: seq<FieldError>)

  /** `TagRegistrationForm.validate()` against the tag table `t`: every field
      reports at most one error, and only one its own validators can raise. */
  function ValidateTagForm(t: TagTable, f: TagForm): (e: TagFormErrors)
    ensures e.tagUid == [] || e.tagUid == [Required] || e.tagUid == [UidInUse]
    ensures e.username == [] || e.username == [Required] || e.username == [UsernameInUse]
    ensures e.picture == [] || e.picture == [FileNotAllowed]
  {
    TagFormErrors(
      Chain(DataRequired(f.tagUid), ValidateTagUid(t, f.tagUid)),
      Chain(DataRequired(f.username), ValidateUsername(t, f.username)),
      FileAllowed(f.picture))
  }

  predicate NoTagFormErrors(e: TagFormErrors) {
    e.tagUid == [] && e.username == [] && e.picture == []
  }

  /** The registration form passes exactly when uid and username are both present,
      neither is used by a registered tag, and the picture (if any) is allowed;
      and each duplicate is reported on its own field. */
  lemma TagFormPassesIff(t: TagTable, f: TagForm)
    ensures NoTagFormErrors(ValidateTagForm(t, f)) <==>
            Strip(f.tagUid) != "" && Strip(f.username) != "" &&
            !UidTaken(t, f.tagUid) && !UsernameTaken(t, f.username) &&
            FileAllowed(f.picture) == []
    ensures ValidateTagForm(t, f).tagUid == [UidInUse] <==> !Blank(f.tagUid) && UidTaken(t, f.tagUid)
    ensures ValidateTagForm(t, f).username == [UsernameInUse] <==> !Blank(f.username) && UsernameTaken(t, f.username)
  {
    StripEmptyIffBlank(f.tagUid);
    StripEmptyIffBlank(f.username);
  }

  /** In a well-formed table `validate_tag_uid` fails exactly for a registered uid,
      and `validate_username` exactly for the username of some registered tag. */
  lemma ValidatorsIffRegistered(t: TagTable, uid: string, name: string)
    requires TableWellFormed(t)
    ensures ValidateTagUid(t, uid).Some? <==> uid in t
    ensures ValidateUsername(t, name).Some? <==> name in (set u | u in t :: t[u].username)
  {
    UidTakenIffKey(t, uid);
  }

  /** A passing registration form yields a row the table's unique constraints admit,
      with a uid and a username that are not blank. */
  lemma PassingFormAdmitted(t: TagTable, f: TagForm)
    requires NoTagFormErrors(ValidateTagForm(t, f))
    ensures SchemaAdmits(t, NewRfidTag(f.tagUid, f.username, None))
    ensures !Blank(f.tagUid) && !Blank(f.username)
  {
    TagFormPassesIff(t, f);
    StripEmptyIffBlank(f.tagUid);
    StripEmptyIffBlank(f.username);
  }

  /** The data submitted to `LoginForm`. */
  datatype LoginForm = LoginForm(username: string, password: string, rememberMe: bool)

  datatype LoginFormErrors = LoginFormErrors(username: seq<FieldError>, password: seq<FieldError>)

  /** `LoginForm.validate()`: both fields carry only DataRequired, so each reports
      nothing or the one Required error. */
  function ValidateLoginForm(f: LoginForm): (e: LoginFormErrors)
    ensures e.username == [] || e.username == [Required]
    ensures e.password == [] || e.password == [Required]
  {
    LoginFormErrors(Chain(DataRequired(f.username), None), Chain(DataRequired(f.password), None))
  }

  /** The login form passes exactly when username and password are both present;
      `remember_me` plays no part. */
  lemma LoginFormPassesIff(f: LoginForm)
    ensures ValidateLoginForm(f) == LoginFormErrors([], []) <==> Strip(f.username) != "" && Strip(f.password) != ""
    ensures ValidateLoginForm(f) == ValidateLoginForm(f.(rememberMe := !f.rememberMe))
  {
  }
}
