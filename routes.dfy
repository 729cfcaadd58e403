/** The state-changing endpoints of app/routes.py over the application's database:
    `rfid_log` (decide, append one log row, notify) and `register_tag` (validate,
    then insert one tag row). The database is the `Store` object; a
    `db.session.add` followed by `commit` is an append to `log` or an insert
    into `tags`. */
module Routes {
  import opened Text
  import opened Models
  import opened Forms
  import opened Webhook
  import opened LogQuery

  const STATUS_GRANTED: string := "Acesso Garantido"
  const UNKNOWN_USERNAME: string := "Desconhecido"

  /** The username and status `rfid_log` records for a scan. */
  datatype Decision = Decision(username: string, status: string)

  /** The decision for a scanned `uid`: the exact-match lookup on the unique
      `tag_uid` column either finds a tag (access granted under its username)
      or does not (access denied, username "Desconhecido"). */
  function Decide(t: TagTable, uid: string): (d: Decision)
    ensures d.status == STATUS_GRANTED <==> uid in t
    ensures uid in t ==> d.username == t[uid].username
    ensures uid !in t ==> d.username == UNKNOWN_USERNAME && d.status == STATUS_DENIED
  {
    if uid in t then Decision(t[uid].username, STATUS_GRANTED)
    else Decision(UNKNOWN_USERNAME, STATUS_DENIED)
  }

  /** A scan is granted exactly when the registration form would reject its uid as
      already registered: both ask the same question of the tag table. */
  lemma GrantedIffUidValidatorRejects(t: TagTable, uid: string)
    requires TableWellFormed(t)
    ensures Decide(t, uid).status == STATUS_GRANTED <==> ValidateTagUid(t, uid) == Some(UidInUse)
  {
    UidTakenIffKey(t, uid);
  }

  /** A JSON object body; the uid is modelled as a JSON string. */
  type JsonObject = map<string, string>

  /** The uid of the `rfid_log` body: none when `request.get_json()` gave no object,
      the object is empty, or it has no "uid" key. The value is taken as it is: it
      is not trimmed, and the empty string is a uid like any other. */
  function ScanUid(body: Option<JsonObject>): (uid: Option<string>)
    ensures uid.None? <==> body.None? || "uid" !in body.value
    ensures uid.Some? ==> uid.value == body.value["uid"]
  {
    match body
    case None => None
    case Some(data) => if |data| == 0 || "uid" !in data then None else Some(data["uid"])
  }

  /** An HTTP response with a JSON body `{"status": ..., "message": ...}`. */
  datatype ApiResponse = ApiResponse(code: nat, status: string, message: string)

  const UID_MISSING: ApiResponse := ApiResponse(400, "error", "UID n\U{E3}o fornecido")
  const LOG_RECEIVED: ApiResponse := ApiResponse(201, "success", "Log recebido")

  /** What `register_tag` answers: the form page with the fields' errors, or a
      redirect to the index carrying a success message. */
  datatype RegisterOutcome =
    | ShowForm(errors: TagFormErrors)
    | RedirectToIndex(flash: string)

  const NO_FORM_ERRORS: TagFormErrors := TagFormErrors([], [], [])
  const TAG_REGISTERED: string := "Nova tag RFID registrada com sucesso!"

  /** The tag table after a submitted registration form: the new tag is inserted
      only when every validator passes; `register_tag` never sets `image_file`. */
  function Registered(t: TagTable, f: TagForm): (r: TagTable)
    ensures t.Keys <= r.Keys && r.Keys <= t.Keys + {f.tagUid}
    ensures forall u | u in t && u != f.tagUid :: r[u] == t[u]
    ensures r != t ==> r[f.tagUid] == RfidTag(f.tagUid, f.username, DEFAULT_IMAGE)
  {
    var row := NewRfidTag(f.tagUid, f.username, None);
    var passes := NoTagFormErrors(ValidateTagForm(t, f));
    if passes then t[f.tagUid := row] else t
  }

  /** The constraints the tag table keeps: its unique columns, and no blank uid or
      username (a blank one never passes DataRequired). */
  ghost predicate TagsValid(t: TagTable) {
    TableWellFormed(t) && forall u | u in t :: !Blank(u) && !Blank(t[u].username)
  }

  /** A log row is one `rfid_log` can have written against table `t`: a grant names
      the tag registered under its uid, a denial names "Desconhecido". */
  ghost predicate EntryExplained(t: TagTable, e: AccessLog) {
    (e.status == STATUS_GRANTED && e.tagUid in t && t[e.tagUid].username == e.username) ||
    (e.status == STATUS_DENIED && e.username == UNKNOWN_USERNAME)
  }

  ghost predicate LogExplained(t: TagTable, log: seq<AccessLog>) {
    forall i | 0 <= i < |log| :: EntryExplained(t, log[i])
  }

  /** Registration keeps both unique columns unique and every uid and username
      non-blank; a passing form adds exactly the one new tag, with the default
      image, and every other tag keeps its row. */
  lemma {:induction false} RegisteredKeepsTagsValid(t: TagTable, f: TagForm)
    requires TagsValid(t)
    ensures TagsValid(Registered(t, f))
    ensures NoTagFormErrors(ValidateTagForm(t, f)) ==>
              f.tagUid !in t && |Registered(t, f)| == |t| + 1 &&
              Registered(t, f)[f.tagUid] == RfidTag(f.tagUid, f.username, DEFAULT_IMAGE)
    ensures forall u | u in t :: u in Registered(t, f) && Registered(t, f)[u] == t[u]
  {
    if NoTagFormErrors(ValidateTagForm(t, f)) {
      var row := NewRfidTag(f.tagUid, f.username, None);
      var t' := t[f.tagUid := row];
      assert Registered(t, f) == t';
      PassingFormAdmitted(t, f);
      InsertKeepsWellFormed(t, row);
      forall u | u in t' ensures !Blank(u) && !Blank(t'[u].username) {
        if u != f.tagUid { assert t'[u] == t[u]; }
      }
    }
  }

  /** A uid or username that is already registered makes registration a no-op. */
  lemma RegisterRejectsDuplicates(t: TagTable, f: TagForm)
    requires UidTaken(t, f.tagUid) || UsernameTaken(t, f.username)
    ensures Registered(t, f) == t
  {
    TagFormPassesIff(t, f);
  }

  /** After a successful registration a scan of the new uid is granted under the
      new username, and the decision for every other uid is what it was. */
  lemma ScanAfterRegistration(t: TagTable, f: TagForm, uid: string)
    requires TagsValid(t)
    requires NoTagFormErrors(ValidateTagForm(t, f))
    ensures Decide(Registered(t, f), f.tagUid) == Decision(f.username, STATUS_GRANTED)
    ensures uid != f.tagUid ==> Decide(Registered(t, f), uid) == Decide(t, uid)
  {
  }

  /** A blank uid (the empty string among them) passes `rfid_log`'s check but can
      never be granted: no registered tag has a blank uid. */
  lemma BlankUidDenied(t: TagTable, uid: string)
    requires TagsValid(t)
    requires Blank(uid)
    ensures Decide(t, uid) == Decision(UNKNOWN_USERNAME, STATUS_DENIED)
  {
  }

  /** Adding tags never turns an explained log row into an unexplained one, since
      registered tags are never changed or removed. */
  lemma {:induction false} LogExplainedGrows(t: TagTable, t': TagTable, log: seq<AccessLog>)
    requires LogExplained(t, log)
    requires forall u | u in t :: u in t' && t'[u] == t[u]
    ensures LogExplained(t', log)
  {
    forall i | 0 <= i < |log| ensures EntryExplained(t', log[i]) {
      assert EntryExplained(t, log[i]);
    }
  }

  /** Every row `rfid_log` writes carries an explicit status, so the column
      default "Negado" never reaches the log. */
  lemma DefaultStatusNeverLogged(t: TagTable, log: seq<AccessLog>)
    requires LogExplained(t, log)
    ensures forall i | 0 <= i < |log| :: log[i].status != DEFAULT_STATUS
  {
    forall i | 0 <= i < |log| ensures log[i].status != DEFAULT_STATUS {
      assert EntryExplained(t, log[i]);
    }
  }

  /** The notification for a decision: green and naming the tag's user exactly when
      the uid is registered, red with the fixed unknown-tag text otherwise; the uid
      is always recoverable from it. */
  lemma NotificationMatchesDecision(t: TagTable, uid: string)
    ensures var d := Decide(t, uid);
            var p := BuildPayload(uid, d.username, d.status);
            (p.embeds[0].color == COLOR_GRANTED <==> uid in t) &&
            (uid in t ==> Contains(p.embeds[0].title, t[uid].username)) &&
            (uid !in t ==> p.embeds[0].title == DENIED_TITLE) &&
            UidFromFieldValue(p.embeds[0].fields[0].value) == Some(uid)
  {
    assert STATUS_GRANTED != STATUS_DENIED;
  }

  /** The application's database: the registered tags and the access log. */
  class Store {
    var tags: TagTable
    var log: seq<AccessLog>

    ghost predicate Valid()
      reads this
    {
      TagsValid(tags) && LogExplained(tags, log)
    }

    /** `db.create_all()` on a fresh database: both tables empty. */
    constructor ()
      ensures Valid() && tags == map[] && log == []
    {
      tags := map[];
      log := [];
    }

    /** POST /api/rfid_log at clock reading `now`; `webhookConfigured` says whether
        DISCORD_WEBHOOK_URL is set. A body without "uid" is answered 400 and changes
        nothing. Otherwise exactly one row is appended, carrying the decision for the
        uid, then the notification for that row is built (posted only when a webhook
        is configured), and the answer is 201 whatever the decision. Tags never change. */
    method RfidLog(body: Option<JsonObject>, now: nat, webhookConfigured: bool)
      returns (resp: ApiResponse, notice: Option<Payload>)
      requires Valid()
      modifies this
      ensures Valid()
      ensures tags == old(tags)
      ensures ScanUid(body).None? ==> resp == UID_MISSING && log == old(log) && notice == None
      ensures ScanUid(body).Some? ==>
                var uid := ScanUid(body).value;
                var d := Decide(tags, uid);
                resp == LOG_RECEIVED &&
                log == old(log) + [AccessLog(uid, d.username, now, d.status)] &&
                notice == Notification(webhookConfigured, uid, d.username, d.status)
      ensures ScanUid(body).Some? ==>
                |log| == |old(log)| + 1 && log[..|old(log)|] == old(log) &&
                notice == Notification(webhookConfigured, log[|log| - 1].tagUid,
                                       log[|log| - 1].username, log[|log| - 1].status)
    {
      var uid := ScanUid(body);
      if uid.None? {
        resp := UID_MISSING;
        notice := None;
        return;
      }
      var d := Decide(tags, uid.value);
      var entry := NewAccessLog(uid.value, d.username, Some(d.status), now);
      log := log + [entry];
      notice := Notification(webhookConfigured, entry.tagUid, entry.username, entry.status);
      resp := LOG_RECEIVED;
      assert EntryExplained(tags, entry);
      assert log[..|log| - 1] == old(log);
    }

    /** GET or POST /register_tag. Only a submitted form that passes every validator
        inserts a tag; the table keeps both unique columns unique; the log never changes. */
    method RegisterTag(submitted: bool, f: TagForm) returns (outcome: RegisterOutcome)
      requires Valid()
      modifies this
      ensures Valid()
      ensures log == old(log)
      ensures !submitted ==> tags == old(tags) && outcome == ShowForm(NO_FORM_ERRORS)
      ensures submitted ==> tags == Registered(old(tags), f)
      ensures submitted && NoTagFormErrors(ValidateTagForm(old(tags), f)) ==>
                outcome == RedirectToIndex(TAG_REGISTERED) && |tags| == |old(tags)| + 1
      ensures submitted && !NoTagFormErrors(ValidateTagForm(old(tags), f)) ==>
                outcome == ShowForm(ValidateTagForm(old(tags), f)) && tags == old(tags)
    {
      if !submitted {
        outcome := ShowForm(NO_FORM_ERRORS);
        return;
      }
      var errors := ValidateTagForm(tags, f);
      RegisteredKeepsTagsValid(tags, f);
      LogExplainedGrows(tags, Registered(tags, f), log);
      if NoTagFormErrors(errors) {
        tags := tags[f.tagUid := NewRfidTag(f.tagUid, f.username, None)];
        outcome := RedirectToIndex(TAG_REGISTERED);
      } else {
        outcome := ShowForm(errors);
      }
    }
  }

  /** A walk through `rfid_log`: an unknown uid is logged as denied and notified,
      the empty uid is accepted and logged as well, and a body without "uid" is
      refused without touching the log. */
  method ScanUnknownAndEmpty()
  {
    var store := new Store();
    var resp, notice := store.RfidLog(Some(map["uid" := "AA11"]), 10, true);
    assert resp.code == 201;
    assert store.log == [AccessLog("AA11", UNKNOWN_USERNAME, 10, STATUS_DENIED)];
    assert notice == Some(BuildPayload("AA11", UNKNOWN_USERNAME, STATUS_DENIED));

    resp, notice := store.RfidLog(Some(map["uid" := ""]), 11, false);
    assert resp.code == 201 && notice == None && |store.log| == 2;

    resp, notice := store.RfidLog(Some(map["id" := "AA11"]), 12, true);
    assert resp == UID_MISSING && |store.log| == 2;
  }

  /** A walk through `register_tag` and `rfid_log` on a fresh database: a tag with a
      non-blank uid and username is registered, and the next scan of that uid is
      granted under the registered username; a second tag with that username is
      refused with the error on the username field. */
  method RegisterThenScan(uid: string, name: string, other: string, now: nat)
    requires !Blank(uid) && !Blank(name)
  {
    var form := TagForm(uid, name, None);
    var store := new Store();
    var outcome := store.RegisterTag(true, form);
    assert outcome == RedirectToIndex(TAG_REGISTERED);
    assert store.tags[uid] == RfidTag(uid, name, DEFAULT_IMAGE);

    var resp, notice := store.RfidLog(Some(map["uid" := uid]), now, true);
    assert store.log == [AccessLog(uid, name, now, STATUS_GRANTED)];

    var before := store.tags;
    outcome := store.RegisterTag(true, TagForm(other, name, None));
    assert UsernameTaken(before, name);
    assert outcome.ShowForm? && outcome.errors.username == [UsernameInUse];
    assert store.tags == before;
  }
}
