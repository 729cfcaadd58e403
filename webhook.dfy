/** The Discord notification of `send_discord_webhook` (app/routes.py): which embed is
    built for a scan, and whether anything is sent at all. The HTTP POST itself is
    not modelled; the payload it would carry is the result. */
module Webhook {
  import opened Text
  import opened Models

  /** The status string the webhook singles out as a denial. */
  const STATUS_DENIED: string := "Acesso Negado"

  const COLOR_DENIED: nat := 15158332   // red
  const COLOR_GRANTED: nat := 3066993   // green

  const BOT_NAME: string := "Controle de Acesso"
  const AVATAR_URL: string := "https://i.imgur.com/R6yYwko.png"
  const UID_FIELD_NAME: string := "UID da Tag"
  const FOOTER: string := "Sistema de Monitoramento Automatizado (via Flask & ESP32)"

  /** The fixed part of the denial title. */
  const UNKNOWN_TAG: string := "Tag Desconhecida"
  const DENIED_TITLE: string := "\U{274C} Acesso Negado: " + UNKNOWN_TAG
  const DENIED_DESCRIPTION: string := "Uma tag RFID n\U{E3}o registrada tentou acessar o sistema."
  const GRANTED_TITLE_PREFIX: string := "\U{2705} Acesso Garantido: "
  const GRANTED_DESCRIPTION_PREFIX: string := "O usu\U{E1}rio **"
  const GRANTED_DESCRIPTION_SUFFIX: string := "** acessou as instala\U{E7}\U{F5}es."

  datatype EmbedField = EmbedField(name: string, value: string, inline: bool)
  datatype Embed = Embed(title: string, description: string, color: nat, fields: seq<EmbedField>, footer: string)
  /** The JSON body posted to the webhook. */
  datatype Payload = Payload(username: string, avatarUrl: string, embeds: seq<Embed>)

  /** The uid as the single embed field shows it: wrapped in backticks. */
  function UidFieldValue(uid: string): (v: string)
    ensures |v| == |uid| + 2 && v[0] == '`' && v[|v| - 1] == '`'
    ensures v[1..|v| - 1] == uid
  {
    "`" + uid + "`"
  }

  /** Reads the uid back out of a backtick-wrapped field value. */
  function UidFromFieldValue(v: string): Option<string> {
    if |v| >= 2 && v[0] == '`' && v[|v| - 1] == '`' then Some(v[1..|v| - 1]) else None
  }

  /** The payload for a scan of `uid` recorded with `username` and `status`. */
  function BuildPayload(uid: string, username: string, status: string): (p: Payload)
    ensures |p.embeds| == 1 && |p.embeds[0].fields| == 1
    ensures p.username == BOT_NAME && p.avatarUrl == AVATAR_URL && p.embeds[0].footer == FOOTER
    ensures p.embeds[0].color == COLOR_DENIED <==> status == STATUS_DENIED
    ensures status == STATUS_DENIED ==>
              p.embeds[0].title == DENIED_TITLE && Contains(p.embeds[0].title, UNKNOWN_TAG) &&
              p.embeds[0].description == DENIED_DESCRIPTION
    ensures status != STATUS_DENIED ==>
              p.embeds[0].color == COLOR_GRANTED &&
              Contains(p.embeds[0].title, username) && Contains(p.embeds[0].description, username)
    ensures p.embeds[0].fields[0].name == UID_FIELD_NAME && !p.embeds[0].fields[0].inline
    ensures UidFromFieldValue(p.embeds[0].fields[0].value) == Some(uid)
  {
    var granted := status != STATUS_DENIED;
    var title := if granted then GRANTED_TITLE_PREFIX + username else DENIED_TITLE;
    var description :=
      if granted then GRANTED_DESCRIPTION_PREFIX + username + GRANTED_DESCRIPTION_SUFFIX
      else DENIED_DESCRIPTION;
    ContainsMiddle("\U{274C} Acesso Negado: ", UNKNOWN_TAG, "");
    assert "\U{274C} Acesso Negado: " + UNKNOWN_TAG + "" == DENIED_TITLE;
    ContainsMiddle(GRANTED_TITLE_PREFIX, username, "");
    assert GRANTED_TITLE_PREFIX + username + "" == GRANTED_TITLE_PREFIX + username;
    ContainsMiddle(GRANTED_DESCRIPTION_PREFIX, username, GRANTED_DESCRIPTION_SUFFIX);
    var value := UidFieldValue(uid);
    assert value[1..|value| - 1] == uid;
    Payload(BOT_NAME, AVATAR_URL,
      [Embed(title, description, if granted then COLOR_GRANTED else COLOR_DENIED,
             [EmbedField(UID_FIELD_NAME, value, false)], FOOTER)])
  }

  /** `send_discord_webhook(uid, username, status)`: nothing is sent when no webhook
      URL is configured; otherwise the payload of `BuildPayload` is posted. */
  function Notification(configured: bool, uid: string, username: string, status: string): (r: Option<Payload>)
    ensures r.None? <==> !configured
    ensures r.Some? ==> r.value == BuildPayload(uid, username, status)
  {
    if configured then Some(BuildPayload(uid, username, status)) else None
  }

  /** A denial notice names no one: it is the same whatever username is passed. */
  lemma DeniedPayloadIgnoresUsername(uid: string, name1: string, name2: string)
    ensures BuildPayload(uid, name1, STATUS_DENIED) == BuildPayload(uid, name2, STATUS_DENIED)
  {
  }

  /** Two equal notices came from the same uid, whatever usernames and statuses
      they were built with. */
  lemma {:induction false} PayloadDeterminesUid(uid1: string, name1: string, status1: string,
                                                uid2: string, name2: string, status2: string)
    requires BuildPayload(uid1, name1, status1) == BuildPayload(uid2, name2, status2)
    ensures uid1 == uid2
  {
    var p1 := BuildPayload(uid1, name1, status1);
    assert UidFromFieldValue(p1.embeds[0].fields[0].value) == Some(uid1);
    assert UidFromFieldValue(p1.embeds[0].fields[0].value) == Some(uid2);
  }
}
