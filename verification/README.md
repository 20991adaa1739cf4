# matrix-email-bot: routing and delivery core, in Dafny

matrix-email-bot bridges email into Matrix rooms. When an email arrives, the
bridge works in this order:

1. It skips the email if a record with the same message id is already stored.
2. It turns the email's `to`, `cc` and `bcc` recipients, and the `for <...>`
   addresses of its `Received` headers, into *targets*.
3. It resolves every target to room policies. Resolution goes through the
   address-to-room mapping, or through the `<left>_<right>@<domain>` naming
   scheme, and keeps only rooms whose policy admits the field the address came
   from.
4. It keeps each room once, and only if the room accepts the email. A room
   accepts the email when the email passes its antispam gates and its sender
   allow and block lists.
5. It delivers to each kept room:
   - one text event per non-blank body segment (the first segment is the primary
     message, the others are fragments), optionally storing each record and
     reading it back;
   - then one file event per attachment that the room's attachment policy keeps
     and posts.

This project models that core as pure Dafny functions over immutable data:

- `Config`: the configuration tree and the key-by-key merge of a room's overrides
  onto the default policy.
- `ConfigUtils`: `getRoomConfig` and `getRoomConfigsForTarget`.
- `Email`: the parsed email and its expansion into targets, including the exact
  semantics of the `/for <(.*)>/` match.
- `DataStore`: the message store, as three abstract tables. They are `emails`,
  `attachments`, and the attachment files.
- `Policy`: the per-room decisions. These are the antispam gates, the sender
  lists, the attachment filter, the `is_html` flag and the body segments.
- `MatrixBot`: `sendMessage`, which chooses the templates, substitutes the
  placeholders and builds the HTML part, and `sendAttachment`.
- `EmailProcessor`: `processMessage` as a plan (the rooms, in order) followed by a
  delivery run. A run threads the store and the list of events sent. An exception
  ends the run and keeps what had happened by then.
- `Text`, `Seqs`, `Results`: the JavaScript string operations the bridge uses, plus
  sequence and option helpers.

Some libraries are external to the bridge and their behaviour is not visible. They
are the inputs of the model as function-valued fields:

- the reply parser;
- sanitize-html and striptags;
- the client's media encryption and upload.

The clock reading, `Date.now()`, is also an input (`Env.now`). `uuid.v4()` is
modelled as a choice of an id that is not yet used in the table.

## Model

| member | source | states |
|---|---|---|
| ConfigUtils.GetRoomConfig | src/configUtils.ts:7-14 | A room has no policy exactly when it has no entry. Otherwise its policy carries its id, and each key takes the entry's value when the entry sets it and the default otherwise; the `attachments` and `antispam` blocks are replaced whole. So an empty entry gives the defaults, and an entry that sets every key gives exactly that entry's values. |
| ConfigUtils.DerivedRoomId | src/configUtils.ts:22-25 | A local part derives no room exactly when it has no `_`. Otherwise the room is `!` + the text before the first `_` + `:` + the text after it. |
| ConfigUtils.KeepForSource | src/configUtils.ts:38-46 | A policy is kept exactly when it is present among the candidates and its flag for the source is set. |
| ConfigUtils.KeepForSourceInOrder | src/configUtils.ts:39-45 | The kept policies appear in candidate order. |
| ConfigUtils.GetRoomConfigsForTarget | src/configUtils.ts:16-49 | Every returned policy admits the source, and it is the policy `getRoomConfig` gives for its own room id. |
| ConfigUtils.MappedConfigs | src/configUtils.ts:29-31 | The k-th candidate is the policy of the k-th mapped room. |
| ConfigUtils.MappedAddress | src/configUtils.ts:28-48 | A mapped address is `null` only for an empty mapping. Otherwise it gives exactly the mapped rooms that have a policy admitting the source, in mapping order. |
| ConfigUtils.MappedWithoutPolicies | src/configUtils.ts:29-48 | A non-empty mapping whose rooms all lack an entry gives the empty list, not `null`. |
| ConfigUtils.DomainAddress | src/configUtils.ts:19-48 | An unmapped `<local>@<domain>` whose local part has `_` gives the derived room's policy if that policy admits the source, and the empty list otherwise. |
| ConfigUtils.DomainAddressWithoutUnderscore | src/configUtils.ts:21-23 | An unmapped address in the domain without `_` in its local part gives `null`. |
| ConfigUtils.ForeignAddress | src/configUtils.ts:19-36 | An unmapped address outside the domain gives `null`. |
| Text.SplitAtFirst | src/configUtils.ts:22-25 | After a split on `_`, the first part is the text before the first `_`, and re-joining the remaining parts gives the text after it. |
| Text.TrimmedNonEmpty | src/EmailProcessor.ts:138 | The trimmed segment is non-empty exactly when the segment holds a character that is not white space. |
| Text.ReplaceCharIsSplitJoin | src/MatrixBot.ts:77 | Replacing every newline is the same as splitting on newlines and joining with the replacement. |
| DataStore.FreshId | src/DataStore.ts:62 | The id chosen for a new row is not a key of the table. |
| DataStore.FreshIds | src/DataStore.ts:74-75 | One id per attachment: all different, and none already in use. |
| DataStore.DoesMessageExist | src/DataStore.ts:46-48 | True exactly when some stored row carries the email id. |
| DataStore.WriteMessage | src/DataStore.ts:61-71 | The new row goes under an id not used before. Every other row is unchanged and the attachment tables are untouched. The store stays consistent, and afterwards the email counts as existing. |
| DataStore.GetMessage | src/DataStore.ts:50-59 | `null` exactly for an id without a row. |
| DataStore.WriteThenGet | src/DataStore.ts:50-71 | A record reads back under the id its write returned. All fields are the same, `is_html` survives its trip through 1/0, and a missing HTML body becomes `""`. |
| DataStore.WriteKeepsOthers | src/DataStore.ts:61-71 | Every other id reads back as it did before the write. |
| DataStore.NewRows | src/DataStore.ts:78-82 | One row per id: the k-th holds the k-th attachment's name and type, linked to the message. |
| DataStore.NewFiles | src/DataStore.ts:76-77 | One file per id, holding the k-th attachment's contents. |
| DataStore.WriteAttachments | src/DataStore.ts:73-84 | One new row and one new file per attachment, under distinct new ids. Nothing else is added and the `emails` table is untouched. |
| DataStore.WriteAttachmentsRows | src/DataStore.ts:73-84 | Old rows and files are kept. The k-th new row and file describe the k-th attachment. |
| DataStore.WriteAttachmentsValid | src/DataStore.ts:73-84 | Writing attachments keeps every row under its own id and a file for every row. |
| Email.MatchFor | src/EmailProcessor.ts:41-42 | A match means the line holds `for <` + capture + `>`, and the capture has no line break. |
| Email.MatchForFinds | src/EmailProcessor.ts:41-44 | A line with `for <c>` followed by no `>` before the line break, and no earlier `for <`, yields exactly `c`. |
| Email.ListTargets | src/EmailProcessor.ts:36-38 | One target per recipient, in order, with its address, name and field. |
| Email.EnvelopeTargets | src/EmailProcessor.ts:39-47 | Envelope targets have an empty name and the `envelope` source, and there are at most as many as header lines. |
| Email.EnvelopeTargetsOne | src/EmailProcessor.ts:40-45 | A single header yields one target, its `for <...>` address, exactly when its key is `received` and it matches; otherwise none. |
| Email.EnvelopeTargetsAppend | src/EmailProcessor.ts:39-47 | The targets of a list of headers are those of its parts, in header order; with the single-header case this fixes one target per matching header, in order. |
| Email.EnvelopeTargetsFromHeaders | src/EmailProcessor.ts:39-47 | An address is an envelope target exactly when some `received` header's match yields it. |
| Email.Targets | src/EmailProcessor.ts:34-47 | The targets are the `to` recipients, then `cc`, then `bcc`, then the envelope targets, each at its position. |
| Policy.RejectingGate | src/EmailProcessor.ts:63-75 | The gate that skips a room is the first failing gate in the order score, DKIM, SPF. There is none exactly when all three pass. |
| Policy.PassesAntispam | src/EmailProcessor.ts:63-75 | A room without antispam settings takes every email. Otherwise it takes the email exactly when no gate fails. |
| Policy.BlockListWins | src/EmailProcessor.ts:89-98 | A named sender on the block list is refused, even by a room that allows anyone. |
| Policy.CheckSenders | src/EmailProcessor.ts:77-98 | The two sender loops end with `allowed` set exactly when the senders are allowed: anyone or every named sender listed, and no named sender blocked. |
| Policy.FilterAttachments | src/EmailProcessor.ts:100-120 | The kept attachments are exactly those whose type is allowed (or all types are) and not blocked. Each carries the room's `post` flag. |
| Policy.FilterAttachmentsOne | src/EmailProcessor.ts:104-119 | A single attachment is kept, as its name, contents, type and the room's `post` flag, exactly when its type passes. |
| Policy.FilterAttachmentsAppend | src/EmailProcessor.ts:104-119 | The kept attachments of a list are those of its parts, in order; with the single-attachment case this fixes the order and number of kept attachments. |
| Policy.IsHtml | src/EmailProcessor.ts:124-125 | A missing or empty content type counts as plain text. Otherwise `is_html` holds exactly when the lower-cased header does not start with `text/plain`. |
| Policy.NonBlankKeeps | src/EmailProcessor.ts:138 | The filter keeps the segments that hold something besides white space, in their order (a subsequence of the input) and each exactly as often as it occurs; blank segments are dropped. |
| Policy.NonBlankOne | src/EmailProcessor.ts:138 | A single segment is kept exactly when it is not blank. |
| Policy.Segments | src/EmailProcessor.ts:130-138 | With replies, the segments are the non-blank reply fragments in their order, each as often as it occurs. Without replies they are the visible text alone if it is not blank, and nothing otherwise. |
| MatrixBot.Templates | src/MatrixBot.ts:40-54 | The primary kind uses the message templates and the fragment kind uses the fragment templates. |
| MatrixBot.RenderWithoutPlaceholders | src/MatrixBot.ts:56-68 | A template without `$` comes out unchanged, whatever the record holds. |
| MatrixBot.RenderEmpty | src/MatrixBot.ts:67 | An empty plain template stays empty, so its guard changes nothing. |
| MatrixBot.RenderSkipsAbsent | src/MatrixBot.ts:56-68 | Fields whose placeholders do not occur in the template have no effect. |
| MatrixBot.RenderSingleField | src/MatrixBot.ts:56-68 | A template whose only placeholder is that of one field renders to the template with that field's text in each place. |
| MatrixBot.FormattedBodyLines | src/MatrixBot.ts:77 | The formatted body is the HTML body's lines joined with `<br/>`, and it holds no newline. |
| MatrixBot.SendMessage | src/MatrixBot.ts:37-82 | The call throws exactly when the room has no policy, or the room wants HTML and the record has none. The event is `m.text`. It has an HTML part exactly when the room is not plain-text only, and that part is the formatted HTML body. |
| MatrixBot.SendMessageFails | src/MatrixBot.ts:37-82 | The call fails exactly in those two cases, and the failure names which one. |
| MatrixBot.SendMessageBody | src/MatrixBot.ts:70-79 | The body is the rendered plain template when that is not empty. Otherwise it is the rendered rich template, tag-stripped unless the room is plain-text only. |
| MatrixBot.LoadedNeverMissesHtml | src/MatrixBot.ts:75-79 | A record read back from the store is always sent once its room has a policy. |
| MatrixBot.AttachmentMsgType | src/MatrixBot.ts:87-90 | The type is the room's non-empty mapping for the content type if there is one, and `m.file` otherwise. |
| MatrixBot.SendAttachment | src/MatrixBot.ts:84-119 | The call throws exactly when the room has no policy. The event carries the mapped type, the name, the MIME type and the upload's URI. It carries the encryption data exactly when the client encrypts, and then the upload holds the encrypted bytes. |
| EmailProcessor.PlanRoomsFacts | src/EmailProcessor.ts:58-122 | The room loop takes only rooms not yet taken, each once, each accepting and among the target's rooms. Every accepting room it meets is taken. |
| EmailProcessor.PlanTargetsFresh | src/EmailProcessor.ts:51-122 | The target loop takes distinct rooms, none taken before. |
| EmailProcessor.PlanTargetsSound | src/EmailProcessor.ts:52-98 | Every room taken accepts the email and is a room that one of the targets resolves to. |
| EmailProcessor.PlanTargetsComplete | src/EmailProcessor.ts:52-122 | Every accepting room that some target resolves to is taken. |
| EmailProcessor.PlanRoomsDistinct | src/EmailProcessor.ts:59-61 | No room receives the email twice. |
| EmailProcessor.PlanSound | src/EmailProcessor.ts:52-98 | A planned room is reached through a target of the email and accepts the email. |
| EmailProcessor.PlanComplete | src/EmailProcessor.ts:52-122 | Every accepting room reached through a target is planned. |
| EmailProcessor.PlanFirstTargets | src/EmailProcessor.ts:51-61 | Each planned room carries the first target, in `to`, `cc`, `bcc`, envelope order, that resolves to an accepting policy of that room; no earlier target reaches it. The rooms are planned in the order of those targets. A room's records therefore take `to_email` and `to_name` from that first target. |
| EmailProcessor.ResolvedRooms | src/EmailProcessor.ts:55-56 | A resolved room is the policy of its id and admits the target's field. |
| EmailProcessor.Record | src/EmailProcessor.ts:140-155 | The record carries the email id, the segment, the target room, the first sender's address and name (`""` when it has none), the target's address and name (`""` when none), the subject, the whole text as `full_text_body`, the email's HTML part and its `is_html` flag. |
| EmailProcessor.RecordsDifferInText | src/EmailProcessor.ts:141-155 | The records built for one room's segments differ only in their text. |
| EmailProcessor.StoreSegment | src/EmailProcessor.ts:159-166 | A room that skips the database sends the record as built and leaves the store alone. Any other room writes the record under a new id and sends what reads back. The store stays consistent. |
| EmailProcessor.StoreSegmentLinks | src/EmailProcessor.ts:161-163 | Outside a room that skips the database, each kept attachment gets a new row linked to the new record's id, with its name and type, and a file with its contents; old rows and files are kept and nothing else is added. |
| EmailProcessor.StoreSegmentGrows | src/EmailProcessor.ts:159-166 | The store step keeps every old record, row and file, adds only records of this email, and links every added attachment row to an added record. |
| EmailProcessor.StoredHtml | src/EmailProcessor.ts:160-165 | There is always a message to send. It has the record's HTML part when the database is skipped, and an HTML body otherwise. |
| EmailProcessor.PostedKept | src/EmailProcessor.ts:170-173 | A room posts every attachment it keeps when its policy says `post`, and none otherwise. |
| EmailProcessor.SegmentStepStore | src/EmailProcessor.ts:159-166 | A round keeps every old record, attachment row and file, adds only records of this email and attachment rows linked to them, and keeps the store consistent. With `skipDatabase` it changes nothing. |
| EmailProcessor.RunSegmentsStore | src/EmailProcessor.ts:159-169 | A segment loop whose rounds keep old entries and only add records of the email, with attachment rows linked to them, does the same. |
| EmailProcessor.RunSegmentsKeepsStore | src/EmailProcessor.ts:159-169 | A segment loop whose rounds leave the store alone leaves it alone. |
| EmailProcessor.DeliverRoomStore | src/EmailProcessor.ts:157-173 | Delivery to a room keeps every old entry, only adds records of this email and attachment rows linked to them, and keeps the store consistent. With `skipDatabase` it writes nothing. |
| EmailProcessor.DeliverAllStore | src/EmailProcessor.ts:51-175 | The same holds for delivery to a list of rooms. |
| EmailProcessor.ProcessMessageStore | src/EmailProcessor.ts:29-176 | `processMessage` keeps every stored record, attachment row and file, adds only records of this email and attachment rows linked to those new records, and keeps the store consistent. It writes nothing when every planned room skips the database. |
| EmailProcessor.DuplicateIgnored | src/EmailProcessor.ts:30-32 | An email already stored leads to no write and no event. |
| EmailProcessor.SecondRunIgnored | src/EmailProcessor.ts:29-176 | After a run that stored the email, a second run on it does nothing, whatever the outside world does. |
| EmailProcessor.RunSegmentsActions | src/EmailProcessor.ts:159-169 | A segment loop sends one message per segment, in order: the first primary, the rest fragments. It stops early only on an exception. |
| EmailProcessor.RunFilesActions | src/EmailProcessor.ts:170-173 | An attachment loop sends one file event per attachment marked `post`, in order. It stops early only on an exception. |
| EmailProcessor.RunRoomActions | src/EmailProcessor.ts:157-173 | A room delivery adds at most one event per segment and posted attachment, the messages first. It adds all of them when it completes. |
| EmailProcessor.RunRoomFileActions | src/EmailProcessor.ts:170-173 | The events after a room's messages are the posted attachments' file events, in order. |
| EmailProcessor.SegmentStepSends | src/EmailProcessor.ts:159-168 | A successful round sends its segment's record to the room, as `sendMessage` renders it: the record as built, or the record as the store returns it. |
| EmailProcessor.DeliverRoomActions | src/EmailProcessor.ts:157-169 | Delivery to a room sends each segment in order, the first as primary and the rest as fragments. Completion means every segment and posted attachment produced an event. |
| EmailProcessor.DeliverRoomFiles | src/EmailProcessor.ts:170-173 | After its messages, a room receives one file event per attachment it keeps and posts, in order. |
| EmailProcessor.RunSegmentsCrash | src/EmailProcessor.ts:159-169 | A segment loop throws exactly when it has a segment and its rounds fail. |
| EmailProcessor.RunFilesCrash | src/EmailProcessor.ts:170-173 | An attachment loop throws exactly when it has an attachment to post and its rounds fail. |
| EmailProcessor.RunRoomCrash | src/EmailProcessor.ts:157-173 | A room delivery throws exactly when its segment loop or its attachment loop does, and the segment loop's exception comes first. |
| EmailProcessor.SegmentStepFails | src/EmailProcessor.ts:140-168 | A round throws exactly when the email has no sender, the room has no policy, or the room skips the database, wants HTML and the email has no HTML part. |
| EmailProcessor.FileSendFails | src/EmailProcessor.ts:170-173 | An attachment round throws exactly when the room has no policy. |
| EmailProcessor.DeliverRoomCrash | src/EmailProcessor.ts:140-173 | Delivery to a room throws exactly when it has segments whose rounds fail, or it has attachments to post and no policy. The exception says which. |
| EmailProcessor.RunAllCrash | src/EmailProcessor.ts:52-175 | A run over rooms throws exactly when some room's delivery breaks, with the exception of the first such room. |
| EmailProcessor.DeliverAllCrash | src/EmailProcessor.ts:52-175 | Delivery to the planned rooms throws exactly when one of them breaks, with the first one's exception. |
| EmailProcessor.PlannedBreaks | src/EmailProcessor.ts:55-98 | A planned room has a policy. It breaks only by having segments and either no sender, or skipping the database, wanting HTML and missing it. |
| EmailProcessor.ProcessMessageCrash | src/EmailProcessor.ts:29-176 | `processMessage` throws exactly when the email is new and some planned room has segments and either the email has no sender or the room skips the database, wants HTML and the email has none. The exception is the missing sender or the missing HTML body. |
| EmailProcessor.RunRoomTargets | src/EmailProcessor.ts:157-173 | A room delivery whose rounds send to its room sends to no other room. |
| EmailProcessor.DeliverRoomTargets | src/EmailProcessor.ts:157-173 | Delivery to a room sends only to that room. |
| EmailProcessor.RunAllTargets | src/EmailProcessor.ts:52-175 | A run over rooms sends only to those rooms. |
| EmailProcessor.DeliverAllTargets | src/EmailProcessor.ts:52-175 | Delivery to a list of rooms sends only to rooms of the list. |
| EmailProcessor.ProcessMessageTargets | src/EmailProcessor.ts:29-176 | Every event goes to a planned room: one that a target of the email resolves to and that accepts the email. |
| EmailProcessor.RunAllGrows | src/EmailProcessor.ts:52-175 | A run over rooms keeps the events it started with. |
| EmailProcessor.RunAllVisits | src/EmailProcessor.ts:52-175 | A completed run completed the delivery to every room, and kept its events. |
| EmailProcessor.RunRoomDone | src/EmailProcessor.ts:157-173 | A completed room delivery sent every segment and every posted attachment. |
| EmailProcessor.DeliverRoomDone | src/EmailProcessor.ts:157-173 | A completed delivery to a room sent it each of its segments and each attachment it keeps and posts. |
| EmailProcessor.ProcessMessageDelivers | src/EmailProcessor.ts:29-176 | When `processMessage` completes on a new email, every planned room was sent each of its segments (the first as primary) and each attachment it keeps and posts. |

## Left out

- I/O and lifecycle: receiving mail, logging in to Matrix, loading the configuration, the web server, and the older JavaScript revision of the bridge are outside this core.
- src/MessageType.ts is not part of this model. The two message kinds are taken to be named `primary` and `fragment`, so the dynamic `<kind>Format` lookup resolves to the fragment templates.
- Async ordering: every `await` is modelled as a step of a sequential run. An exception thrown by the bridge's own code is modelled as a crash that ends the run and keeps what had happened. What the caller does with the rejection is outside the model.
- Failing services: the Matrix client's `sendMessage` (src/MatrixBot.ts:81, 118), `crypto.encryptMedia` (src/MatrixBot.ts:95) and `uploadContent` (src/MatrixBot.ts:100), the sqlite inserts (src/DataStore.ts:63, 78) and `fs.promises.writeFile` (src/DataStore.ts:77) are taken never to reject. In the source, `processMessage` has no try/catch, so such a rejection ends it: earlier writes stay in the store, and the remaining segments, attachments and rooms are skipped. The model's crashes are only the bridge's own: no room policy, a missing HTML body, a missing stored record, and no sender.
- MatrixBot.SendMessage: fails exactly on a missing room policy or a missing HTML body, because a rejecting `client.sendMessage` (src/MatrixBot.ts:81) is not modelled.
- MatrixBot.SendMessageFails: the two failures it names are the only ones in the model; a rejecting `client.sendMessage` (src/MatrixBot.ts:81) is not modelled.
- MatrixBot.LoadedNeverMissesHtml: "always sent" holds under the assumption that `client.sendMessage` (src/MatrixBot.ts:81) does not reject.
- MatrixBot.SendAttachment: throws only when the room has no policy, because rejections of `encryptMedia`, `uploadContent` and `sendMessage` (src/MatrixBot.ts:95, 100, 118) are not modelled.
- EmailProcessor.SegmentStepFails: its failure condition leaves out rejections of the sqlite inserts, the file writes (src/DataStore.ts:63, 77-78) and `client.sendMessage` (src/MatrixBot.ts:81).
- EmailProcessor.FileSendFails: its failure condition leaves out rejections of `encryptMedia`, `uploadContent` and `sendMessage` (src/MatrixBot.ts:95, 100, 118).
- EmailProcessor.DeliverRoomCrash: its crash condition leaves out rejections from the Matrix client, sqlite and the file system.
- EmailProcessor.DeliverAllCrash: a planned room also breaks, in the source, on a rejection from the Matrix client, sqlite or the file system; the model's rooms break only for the four causes above.
- EmailProcessor.PlannedBreaks: the same; a rejecting service call is not a way for a room to break in the model.
- EmailProcessor.ProcessMessageCrash: in the source, `processMessage` also rejects whenever the Matrix client, sqlite or the file system rejects; the model's "exactly when" covers only the bridge's own exceptions.
- Planning and delivery are modelled as two phases. The source resolves each room just before delivering to it, but resolution reads only the configuration and the email. The rooms and their order are therefore the same, and an exception ends both equally.
- A `from` list that is absent altogether is treated as an empty list. The source throws on an absent list before any room is resolved. For an empty list it throws only when it builds the first record, and the model keeps that.
- Every key of the default policy is taken to be present, so the policy is total. An absent `messageFormat`, `allowedSenders`, `blockedSenders` or `attachments` block would make the source throw where it dereferences it (src/MatrixBot.ts:66, src/EmailProcessor.ts:82, 92, 102-103); the model has no such case. Absent templates and verdicts are modelled as `""`.
- A missing sender address or subject is modelled as `""`. The source would put `"undefined"` into a record built for a room that skips the database, and the store would give back `null` for it.
- A `roomId` key inside the defaults or a room's entry, which the source's `Object.assign` would let replace the room id, is not modelled.
- Spam scores and `maxScore` are exact reals, not floating point.
- `uuid.v4()` is a choice of an unused id, and the files are a map keyed by that id. Their `<id>.attachment` paths are not modelled.
- The reply parser, sanitize-html, striptags, media encryption and the upload are function inputs. Their behaviour is not modelled.
- The `content-type` header is modelled as a string.
- The in-place replacement of an attachment's contents by their encryption is not modelled, because the attachment is not read again afterwards.
- Text.ToLower: lower-cases ASCII letters only, because full Unicode case mapping is not modelled.
- MatrixBot.FieldText: a missing HTML body reaches the sanitizer as the empty string.
- Text.ReplaceAll: inserts the replacement value literally, because the special replacement patterns (`$$`, `$&` and the like) are not modelled.
- DataStore.WriteMessage: the timestamp is one clock reading per email (`Env.now`), not a fresh `Date.now()` for each write.
- Email.MatchFor: its own contract states only that the match is sound. That the match is the leftmost one is stated by Email.MatchForFinds, for lines without an earlier `for <` and without a `>` after the capture on the same line. The greedy case, where the capture runs on to the last `>` of the line, is computed by the model but stated by no contract.
- EmailProcessor.ProcessMessageDelivers: states only that every segment and posted attachment was sent. The order within the room is stated by EmailProcessor.DeliverRoomActions and EmailProcessor.DeliverRoomFiles.
- EmailProcessor.DeliverRoomDone: states membership like ProcessMessageDelivers, for the same reason.
- EmailProcessor.RunRoomDone: states membership, for the same reason.
