/** The Matrix side of the bridge (src/MatrixBot.ts): how one stored or freshly built
    record becomes a text event for a room, and how one attachment becomes a file
    event. The HTML sanitizer, the tag stripper, media encryption and the upload are
    external and appear as functions the model is given. */
module MatrixBot {
  import opened Results
  import opened Text
  import opened Config
  import opened ConfigUtils
  import opened Email
  import opened DataStore

  /** The message kind: the first segment of an email in a room is primary, the
      segments after it are fragments. */
  datatype MessageKind = Primary | Fragment

  /** The kind's name, from which the template keys `<name>Format` and
      `<name>PlainFormat` are built. */
  function KindName(k: MessageKind): string {
    match k
    case Primary => "primary"
    case Fragment => "fragment"
  }

  /** `roomConfig[key]` for a string key: the template under that key, `""` (absent)
      for a key that names no template. */
  function TemplateProperty(s: RoomSettings, key: string): string {
    if key == "messageFormat" then s.messageFormat
    else if key == "fragmentFormat" then s.fragmentFormat
    else if key == "messagePlainFormat" then s.messagePlainFormat
    else if key == "fragmentPlainFormat" then s.fragmentPlainFormat
    else ""
  }

  /** The rich and plain templates chosen for a kind: `messageFormat` and
      `messagePlainFormat` for the primary kind; for any other kind the templates
      under its own keys, falling back to the fragment templates when those are
      empty. */
  function Templates(s: RoomSettings, k: MessageKind): (r: (string, string))
    ensures k == Primary ==> r == (s.messageFormat, s.messagePlainFormat)
    ensures k == Fragment ==> r == (s.fragmentFormat, s.fragmentPlainFormat)
  {
    if k == Primary then (s.messageFormat, s.messagePlainFormat)
    else
      var rich := TemplateProperty(s, KindName(k) + "Format");
      var plain := TemplateProperty(s, KindName(k) + "PlainFormat");
      (if rich != "" then rich else s.fragmentFormat,
       if plain != "" then plain else s.fragmentPlainFormat)
  }

  /** A property value of a record, before it is turned into text. */
  datatype Value = Str(s: string) | Flag(b: bool) | Num(n: nat) | Undefined

  /** One `[key, value]` pair of `Object.entries`. */
  datatype Field = Field(key: string, value: Value)

  /** The record `sendMessage` is given: one built by `processMessage` (for rooms that
      skip the database) or one read back from the store. */
  datatype Message = Built(record: EmailRecord) | Loaded(row: LoadedMessage)

  /** `Object.entries(message)`: the keys in the order the object was built. */
  function Entries(m: Message): (fs: seq<Field>)
    ensures m.Built? ==> |fs| == 11
    ensures m.Loaded? ==> |fs| == 13
  {
    match m
    case Built(e) =>
      [Field("email_id", Str(e.emailId)), Field("from_name", Str(e.fromName)),
       Field("from_email", Str(e.fromEmail)), Field("to_name", Str(e.toName)),
       Field("to_email", Str(e.toEmail)), Field("subject", Str(e.subject)),
       Field("text_body", Str(e.textBody)),
       Field("html_body", match e.htmlBody case Some(h) => Str(h) case None => Undefined),
       Field("full_text_body", Str(e.fullTextBody)), Field("is_html", Flag(e.isHtml)),
       Field("target_room", Str(e.targetRoom))]
    case Loaded(r) =>
      [Field("id", Str(r.id)), Field("email_id", Str(r.emailId)),
       Field("from_email", Str(r.fromEmail)), Field("from_name", Str(r.fromName)),
       Field("to_email", Str(r.toEmail)), Field("to_name", Str(r.toName)),
       Field("subject", Str(r.subject)), Field("text_body", Str(r.textBody)),
       Field("html_body", Str(r.htmlBody)), Field("is_html", Flag(r.isHtml)),
       Field("received_timestamp", Num(r.receivedTimestamp)),
       Field("target_room", Str(r.targetRoom)), Field("full_text_body", Str(r.fullTextBody))]
  }

  /** `message.html_body`, which `formatted_body` is built from. */
  function HtmlBodyOf(m: Message): Option<string> {
    match m
    case Built(e) => e.htmlBody
    case Loaded(r) => Some(r.htmlBody)
  }

  /** JavaScript's conversion of a value to a string. */
  function ValueText(v: Value): string {
    match v
    case Str(s) => s
    case Flag(b) => if b then "true" else "false"
    case Num(n) => Decimal(n)
    case Undefined => "undefined"
  }

  /** The external HTML tools: `sanitize` is sanitize-html with the bridge's
      allow-list, `stripTags` is striptags. */
  datatype HtmlTools = HtmlTools(sanitize: string -> string, stripTags: string -> string)

  /** The text a field's placeholder is replaced by: `html_body` goes through the
      sanitizer (a missing body reaches it as the empty string), every other value is
      converted as it is. */
  function FieldText(f: Field, tools: HtmlTools): string {
    if f.key == "html_body" then
      tools.sanitize(match f.value case Undefined => "" case _ => ValueText(f.value))
    else ValueText(f.value)
  }

  /** The placeholder of a key. */
  function Token(key: string): (t: string)
    ensures |t| > 0 && t[0] == '$'
  {
    "$" + key
  }

  /** The substitution loop: each field in turn replaces every occurrence of its
      placeholder in what the earlier fields left. */
  function Render(t: string, fields: seq<Field>, tools: HtmlTools): string
    decreases |fields|
  {
    if |fields| == 0 then t
    else Render(ReplaceAll(t, Token(fields[0].key), FieldText(fields[0], tools)), fields[1..], tools)
  }

  /** A template without `$` renders to itself. */
  lemma {:induction false} RenderWithoutPlaceholders(t: string, fields: seq<Field>, tools: HtmlTools)
    requires '$' !in t
    ensures Render(t, fields, tools) == t
    decreases |fields|
  {
    if |fields| > 0 {
      ReplaceLeavesPlainText(t, Token(fields[0].key), FieldText(fields[0], tools));
      RenderWithoutPlaceholders(t, fields[1..], tools);
    }
  }

  /** An empty plain template stays empty, so the `if (plainFormat)` guard around
      its replacement changes nothing. */
  lemma RenderEmpty(fields: seq<Field>, tools: HtmlTools)
    ensures Render("", fields, tools) == ""
  {
    RenderWithoutPlaceholders("", fields, tools);
  }

  /** Fields whose placeholders occur nowhere in `t` leave it as it is. */
  lemma {:induction false} RenderSkipsAbsent(t: string, fields: seq<Field>, i: nat, tools: HtmlTools)
    requires i <= |fields|
    requires forall j, p: nat :: 0 <= j < i ==> !OccursAt(t, p, Token(fields[j].key))
    ensures Render(t, fields, tools) == Render(t, fields[i..], tools)
    decreases i
  {
    if i > 0 {
      ReplaceWithoutOccurrence(t, Token(fields[0].key), FieldText(fields[0], tools));
      assert fields[1..][i - 1..] == fields[i..];
      RenderSkipsAbsent(t, fields[1..], i - 1, tools);
    }
  }

  /** A template whose only placeholder is that of field `i` (plain text around it)
      renders to that text with every placeholder replaced by the field's value, as
      long as the value holds no `$` and no earlier field's placeholder occurs in the
      template. */
  lemma RenderSingleField(parts: seq<string>, fields: seq<Field>, i: nat, tools: HtmlTools)
    requires i < |fields|
    requires forall k :: 0 <= k < |parts| ==> '$' !in parts[k]
    requires '$' !in FieldText(fields[i], tools)
    requires forall j, p: nat :: 0 <= j < i ==> !OccursAt(Join(parts, Token(fields[i].key)), p, Token(fields[j].key))
    ensures Render(Join(parts, Token(fields[i].key)), fields, tools) == Join(parts, FieldText(fields[i], tools))
  {
    var tok := Token(fields[i].key);
    var v := FieldText(fields[i], tools);
    RenderSkipsAbsent(Join(parts, tok), fields, i, tools);
    ReplaceInTemplate(parts, tok, v);
    assert fields[i..][1..] == fields[i + 1..];
    JoinAvoids(parts, v, '$');
    RenderWithoutPlaceholders(Join(parts, v), fields[i + 1..], tools);
  }

  /** The HTML part of a text event. */
  datatype HtmlPart = HtmlPart(format: string, formattedBody: string)

  /** A text event: `body`, `msgtype`, and `format`/`formatted_body` unless the room
      is plain-text only. */
  datatype TextContent = TextContent(body: string, msgtype: string, html: Option<HtmlPart>)

  /** Where the bridge throws a `TypeError`: a room without a policy, a missing HTML
      body, a record that cannot be read back, an email without a sender. The Matrix
      client, sqlite and the file system are taken never to reject. */
  datatype Crash = NoRoomPolicy | MissingHtmlBody | MissingRecord | NoSender

  /** `html_body.replace(/\n/g, '<br/>')`. */
  function FormattedBody(html: string): string {
    ReplaceAll(html, "\n", "<br/>")
  }

  /** The formatted body is the HTML body's lines joined with `<br/>`, and holds no
      newline. */
  lemma FormattedBodyLines(html: string)
    ensures FormattedBody(html) == Join(Split(html, '\n'), "<br/>")
    ensures '\n' !in FormattedBody(html)
  {
    ReplaceCharIsSplitJoin(html, '\n', "<br/>");
    JoinAvoids(Split(html, '\n'), "<br/>", '\n');
  }

  /** `sendMessage`: the text event for `msg` in `roomId`. It fails when the room has
      no policy, and when the room wants HTML but the record has no HTML body. */
  function SendMessage(cfg: BridgeConfig, tools: HtmlTools, msg: Message, roomId: string, kind: MessageKind): (r: Result<TextContent, Crash>)
    ensures r == Failure(NoRoomPolicy) <==> roomId !in cfg.roomConfigs
    ensures r == Failure(MissingHtmlBody) <==>
              roomId in cfg.roomConfigs && !GetRoomConfig(cfg, roomId).value.settings.plaintextOnly
              && HtmlBodyOf(msg).None?
    ensures r.Failure? ==> r.error == NoRoomPolicy || r.error == MissingHtmlBody
    ensures r.Success? ==> r.value.msgtype == "m.text"
    ensures r.Success? ==>
              (r.value.html.None? <==> GetRoomConfig(cfg, roomId).value.settings.plaintextOnly)
    ensures r.Success? && r.value.html.Some? ==>
              r.value.html.value == HtmlPart("org.matrix.custom.html", FormattedBody(HtmlBodyOf(msg).value))
  {
    match GetRoomConfig(cfg, roomId)
    case None => Failure(NoRoomPolicy)
    case Some(rc) =>
      var (richTemplate, plainTemplate) := Templates(rc.settings, kind);
      var rich := Render(richTemplate, Entries(msg), tools);
      var plain := Render(plainTemplate, Entries(msg), tools);
      if rc.settings.plaintextOnly then
        Success(TextContent(if plain != "" then plain else rich, "m.text", None))
      else
        match HtmlBodyOf(msg)
        case None => Failure(MissingHtmlBody)
        case Some(h) =>
          Success(TextContent(if plain != "" then plain else tools.stripTags(rich), "m.text",
                              Some(HtmlPart("org.matrix.custom.html", FormattedBody(h)))))
  }

  /** `sendMessage` throws exactly when the room has no policy, or wants HTML and the
      record has no HTML body; the exception says which. */
  lemma SendMessageFails(cfg: BridgeConfig, tools: HtmlTools, msg: Message, roomId: string, kind: MessageKind)
    ensures var r := SendMessage(cfg, tools, msg, roomId, kind);
            && (r.Failure? <==> roomId !in cfg.roomConfigs
                                || (!GetRoomConfig(cfg, roomId).value.settings.plaintextOnly && HtmlBodyOf(msg).None?))
            && (r.Failure? ==> r.error == if roomId !in cfg.roomConfigs then NoRoomPolicy else MissingHtmlBody)
  {
  }

  /** The body of the text event: the rendered plain template when it is not empty,
      otherwise the rendered rich template, tag-stripped unless the room is plain-text
      only. The templates are those of the message kind. */
  lemma SendMessageBody(cfg: BridgeConfig, tools: HtmlTools, msg: Message, roomId: string, kind: MessageKind)
    requires SendMessage(cfg, tools, msg, roomId, kind).Success?
    ensures var s := GetRoomConfig(cfg, roomId).value.settings;
            var rich := Render(if kind == Primary then s.messageFormat else s.fragmentFormat, Entries(msg), tools);
            var plain := Render(if kind == Primary then s.messagePlainFormat else s.fragmentPlainFormat, Entries(msg), tools);
            SendMessage(cfg, tools, msg, roomId, kind).value.body ==
              if plain != "" then plain
              else if s.plaintextOnly then rich
              else tools.stripTags(rich)
  {
  }

  /** A record read back from the store always has an HTML body, so sending it never
      fails once the room has a policy. */
  lemma LoadedNeverMissesHtml(cfg: BridgeConfig, tools: HtmlTools, row: LoadedMessage, roomId: string, kind: MessageKind)
    requires roomId in cfg.roomConfigs
    ensures SendMessage(cfg, tools, Loaded(row), roomId, kind).Success?
  {
  }

  /** The file event's reference to the uploaded content: a plain URL, or the
      encryption metadata together with the URL. */
  datatype EncryptionInfo = EncryptionInfo(key: string, iv: string, hash: string)
  datatype Location = Url(url: string) | EncryptedFile(info: EncryptionInfo, url: string)

  /** A file event: `msgtype`, `body` (the file name), `info.mimetype`, and where the
      content lives. */
  datatype FileContent = FileContent(msgtype: string, body: string, mimetype: string, location: Location)

  /** The bytes, content type and name handed to the upload. */
  datatype Upload = Upload(data: Bytes, contentType: string, name: string)

  /** The external media operations. `encrypted` says whether the client has crypto
      enabled; `upload` returns the content URI. */
  datatype MediaTools = MediaTools(
    encrypted: bool,
    encryptMedia: Bytes -> (Bytes, EncryptionInfo),
    upload: Upload -> string)

  /** The message type of an attachment: the room's mapping for its content type
      when that is set and non-empty, `m.file` otherwise. */
  function AttachmentMsgType(p: AttachmentPolicy, contentType: string): (t: string)
    ensures t != ""
    ensures t != "m.file" ==> contentType in p.contentMapping && t == p.contentMapping[contentType]
    ensures contentType in p.contentMapping && p.contentMapping[contentType] != "" ==>
              t == p.contentMapping[contentType]
  {
    if contentType in p.contentMapping && p.contentMapping[contentType] != "" then p.contentMapping[contentType]
    else "m.file"
  }

  /** `sendAttachment`: what is uploaded and the file event sent for it. */
  datatype AttachmentEvent = AttachmentEvent(upload: Upload, content: FileContent)

  function SendAttachment(cfg: BridgeConfig, media: MediaTools, a: DbAttachment, roomId: string): (r: Result<AttachmentEvent, Crash>)
    ensures r.Failure? <==> roomId !in cfg.roomConfigs
    ensures r.Failure? ==> r.error == NoRoomPolicy
    ensures r.Success? ==>
              && r.value.content.msgtype == AttachmentMsgType(GetRoomConfig(cfg, roomId).value.settings.attachments, a.contentType)
              && r.value.content.body == a.name
              && r.value.content.mimetype == a.contentType
              && r.value.upload.contentType == a.contentType
              && r.value.upload.name == a.name
              && r.value.content.location.url == media.upload(r.value.upload)
    ensures r.Success? ==> (r.value.content.location.EncryptedFile? <==> media.encrypted)
    ensures r.Success? && !media.encrypted ==> r.value.upload.data == a.content
    ensures r.Success? && media.encrypted ==>
              r.value.upload.data == media.encryptMedia(a.content).0
              && r.value.content.location.info == media.encryptMedia(a.content).1
  {
    match GetRoomConfig(cfg, roomId)
    case None => Failure(NoRoomPolicy)
    case Some(rc) =>
      var msgtype := AttachmentMsgType(rc.settings.attachments, a.contentType);
      if media.encrypted then
        var (data, info) := media.encryptMedia(a.content);
        var up := Upload(data, a.contentType, a.name);
        Success(AttachmentEvent(up, FileContent(msgtype, a.name, a.contentType, EncryptedFile(info, media.upload(up)))))
      else
        var up := Upload(a.content, a.contentType, a.name);
        Success(AttachmentEvent(up, FileContent(msgtype, a.name, a.contentType, Url(media.upload(up)))))
  }
}
