/** The database records of app/models.py: registered RFID tags and the access log,
    with their column defaults and the uniqueness constraints of the tag table. */
module Models {

  datatype Option<T> = None | Some(value: T)

  /** Column default of `RfidTag.image_file`. */
  const DEFAULT_IMAGE: string := "default.jpg"
  /** Column default of `AccessLog.status`. */
  const DEFAULT_STATUS: string := "Negado"

  /** A row of the `rfid_tag` table. All three columns are NOT NULL. */
  datatype RfidTag = RfidTag(tagUid: string, username: string, imageFile: string)

  /** A row of the `access_log` table; `timestamp` is the insert-time clock reading. */
  datatype AccessLog = AccessLog(tagUid: string, username: string, timestamp: nat, status: string)

  /** The tag table, indexed by its unique `tag_uid` column. */
  type TagTable = map<string, RfidTag>

  /** `RfidTag(tag_uid=..., username=..., image_file=...)`: a column that is not
      given takes its default. */
  function NewRfidTag(tagUid: string, username: string, imageFile: Option<string>): (t: RfidTag)
    ensures t.tagUid == tagUid && t.username == username
    ensures imageFile.None? ==> t.imageFile == DEFAULT_IMAGE
    ensures imageFile.Some? ==> t.imageFile == imageFile.value
  {
    RfidTag(tagUid, username, match imageFile case Some(f) => f case None => DEFAULT_IMAGE)
  }

  /** `AccessLog(tag_uid=..., username=..., status=...)` added at clock reading `now`:
      the timestamp is always the insert time, the status defaults to "Negado". */
  function NewAccessLog(tagUid: string, username: string, status: Option<string>, now: nat): (e: AccessLog)
    ensures e.tagUid == tagUid && e.username == username && e.timestamp == now
    ensures status.None? ==> e.status == DEFAULT_STATUS
    ensures status.Some? ==> e.status == status.value
  {
    AccessLog(tagUid, username, now, match status case Some(s) => s case None => DEFAULT_STATUS)
  }

  /** `RfidTag.query.filter_by(tag_uid=uid).first() is not None`. */
  predicate UidTaken(t: TagTable, uid: string) {
    exists u | u in t :: t[u].tagUid == uid
  }

  /** `RfidTag.query.filter_by(username=name).first() is not None`. */
  predicate UsernameTaken(t: TagTable, name: string) {
    exists u | u in t :: t[u].username == name
  }

  /** The schema of the tag table: every row is filed under its own `tag_uid`
      (so `tag_uid` is unique) and no two rows share a `username`. */
  ghost predicate TableWellFormed(t: TagTable) {
    (forall u | u in t :: t[u].tagUid == u) &&
    (forall u, v | u in t && v in t && t[u].username == t[v].username :: u == v)
  }

  /** The unique constraints admit a new row exactly when neither its uid nor its
      username is already in use. */
  predicate SchemaAdmits(t: TagTable, row: RfidTag) {
    !UidTaken(t, row.tagUid) && !UsernameTaken(t, row.username)
  }

  /** In a well-formed table the uid query hits exactly the row filed under that uid. */
  lemma UidTakenIffKey(t: TagTable, uid: string)
    requires TableWellFormed(t)
    ensures UidTaken(t, uid) <==> uid in t
  {
    if uid in t {
      assert t[uid].tagUid == uid;
    }
  }

  /** Inserting a row the constraints admit keeps both uniqueness constraints,
      adds exactly that row and changes no other row. */
  lemma {:induction false} InsertKeepsWellFormed(t: TagTable, row: RfidTag)
    requires TableWellFormed(t)
    requires SchemaAdmits(t, row)
    ensures row.tagUid !in t
    ensures TableWellFormed(t[row.tagUid := row])
    ensures |t[row.tagUid := row]| == |t| + 1
    ensures forall u | u in t :: u in t[row.tagUid := row] && t[row.tagUid := row][u] == t[u]
  {
    var t' := t[row.tagUid := row];
    UidTakenIffKey(t, row.tagUid);
    forall u, v | u in t' && v in t' && t'[u].username == t'[v].username
      ensures u == v
    {
      if u == row.tagUid || v == row.tagUid {
        assert u == v;
      }
    }
  }

  /** A row that violates a constraint would duplicate a uid or a username of
      an existing row: the constraints are exactly what `SchemaAdmits` checks. */
  lemma RejectedRowDuplicates(t: TagTable, row: RfidTag)
    requires TableWellFormed(t)
    requires !SchemaAdmits(t, row)
    ensures row.tagUid in t || exists u | u in t :: t[u].username == row.username
  {
    UidTakenIffKey(t, row.tagUid);
  }
}
