/** The message store (src/DataStore.ts) as an abstract state: the `emails` table
    keyed by record id, the `attachments` table keyed by attachment id, and the files
    holding attachment contents. Record ids come from `uuid.v4()`; the model picks an
    id that is not in the table yet, which is all the bridge relies on. */
module DataStore {
  import opened Results
  import opened Seqs
  import opened Email

  /** `IDbMessage`: one body segment of an email, addressed to one room. The HTML body
      is `None` when the parsed email had none. */
  datatype EmailRecord = EmailRecord(
    emailId: string,
    fromName: string,
    fromEmail: string,
    toName: string,
    toEmail: string,
    subject: string,
    textBody: string,
    htmlBody: Option<string>,
    fullTextBody: string,
    isHtml: bool,
    targetRoom: string)

  /** `IDbAttachment`: an attachment that passed a room's filter, with the room's
      `post` flag. */
  datatype DbAttachment = DbAttachment(name: string, content: Bytes, post: bool, contentType: string)

  /** A row of the `emails` table. `isHtml` is stored as 1 or 0. */
  datatype StoredRow = StoredRow(
    id: string,
    emailId: string,
    fromEmail: string,
    fromName: string,
    toEmail: string,
    toName: string,
    subject: string,
    textBody: string,
    htmlBody: string,
    isHtml: int,
    receivedTimestamp: nat,
    targetRoom: string,
    fullTextBody: string)

  /** What `getMessage` returns: the row with `is_html` turned back into a boolean. */
  datatype LoadedMessage = LoadedMessage(
    id: string,
    emailId: string,
    fromEmail: string,
    fromName: string,
    toEmail: string,
    toName: string,
    subject: string,
    textBody: string,
    htmlBody: string,
    isHtml: bool,
    receivedTimestamp: nat,
    targetRoom: string,
    fullTextBody: string)

  /** A row of the `attachments` table. */
  datatype AttachmentRow = AttachmentRow(id: string, emailId: string, fileName: string, contentType: string)

  datatype Store = Store(
    emails: map<string, StoredRow>,
    attachments: map<string, AttachmentRow>,
    files: map<string, Bytes>)

  /** Every row sits under its own id, and every attachment row has its file. */
  predicate Valid(s: Store) {
    && (forall k :: k in s.emails ==> s.emails[k].id == k)
    && (forall k :: k in s.attachments ==> s.attachments[k].id == k)
    && s.files.Keys == s.attachments.Keys
  }

  /** Candidate ids: the strings `""`, `"x"`, `"xx"`, ... */
  function Filler(n: nat): (r: string)
    ensures |r| == n
  {
    seq(n, _ => 'x')
  }

  /** The first `n` candidate ids are `n` different strings. */
  lemma {:induction false} FillersCount(n: nat)
    ensures |set k | 0 <= k < n :: Filler(k)| == n
  {
    if n > 0 {
      FillersCount(n - 1);
      var below := set k | 0 <= k < n - 1 :: Filler(k);
      assert (set k | 0 <= k < n :: Filler(k)) == below + {Filler(n - 1)};
      assert Filler(n - 1) !in below;
    }
  }

  /** A table holding the first `n` candidate ids has at least `n` keys. */
  lemma FillersBound(used: set<string>, n: nat)
    requires forall k :: 0 <= k < n ==> Filler(k) in used
    ensures n <= |used|
  {
    FillersCount(n);
    var fs := set k | 0 <= k < n :: Filler(k);
    SubsetSize(fs, used);
  }

  lemma {:induction false} SubsetSize<T>(a: set<T>, b: set<T>)
    requires a <= b
    ensures |a| <= |b|
    decreases |a|
  {
    if a != {} {
      var x :| x in a;
      SubsetSize(a - {x}, b - {x});
    }
  }

  function FreshFrom(used: set<string>, n: nat): (id: string)
    requires forall k :: 0 <= k < n ==> Filler(k) in used
    ensures id !in used
    decreases |used| - n
  {
    FillersBound(used, n);
    if Filler(n) !in used then Filler(n)
    else
      FillersBound(used, n + 1);
      FreshFrom(used, n + 1)
  }

  /** An id that no key of `used` has: the model of `uuid.v4()`. */
  function FreshId(used: set<string>): (id: string)
    ensures id !in used
  {
    FreshFrom(used, 0)
  }

  /** `doesMessageExist`: some stored record carries this email id. */
  function DoesMessageExist(s: Store, messageId: string): (r: bool)
    ensures r <==> exists k :: k in s.emails && s.emails[k].emailId == messageId
  {
    messageId in (set k | k in s.emails :: s.emails[k].emailId)
  }

  /** The row `writeMessage` inserts under `id`. */
  function RowFor(m: EmailRecord, id: string, now: nat): StoredRow {
    StoredRow(id, m.emailId, m.fromEmail, m.fromName, m.toEmail, m.toName, m.subject,
              m.textBody, HtmlOrEmpty(m.htmlBody), if m.isHtml then 1 else 0, now,
              m.targetRoom, m.fullTextBody)
  }

  /** `message.html_body ? message.html_body : ""`. */
  function HtmlOrEmpty(h: Option<string>): string {
    match h
    case Some(v) => v
    case None => ""
  }

  /** `writeMessage`: inserts the record under a new id and returns that id; no other
      row of either table changes. */
  function WriteMessage(s: Store, m: EmailRecord, now: nat): (r: (Store, string))
    ensures r.1 !in s.emails
    ensures r.0.emails.Keys == s.emails.Keys + {r.1}
    ensures forall k :: k in s.emails ==> r.0.emails[k] == s.emails[k]
    ensures r.0.attachments == s.attachments && r.0.files == s.files
    ensures Valid(s) ==> Valid(r.0)
    ensures DoesMessageExist(r.0, m.emailId)
  {
    var id := FreshId(s.emails.Keys);
    var s' := s.(emails := s.emails[id := RowFor(m, id, now)]);
    assert s'.emails[id].emailId == m.emailId;
    (s', id)
  }

  /** `getMessage`: the row under `id` with a boolean `is_html`, or `null`. */
  function GetMessage(s: Store, id: string): (r: Option<LoadedMessage>)
    ensures r.None? <==> id !in s.emails
  {
    if id in s.emails then
      var row := s.emails[id];
      Some(LoadedMessage(row.id, row.emailId, row.fromEmail, row.fromName, row.toEmail,
                         row.toName, row.subject, row.textBody, row.htmlBody, row.isHtml != 0,
                         row.receivedTimestamp, row.targetRoom, row.fullTextBody))
    else None
  }

  /** The record `m` as it reads back from the store under `id`: the same fields, a
      missing HTML body as `""`, and the id and timestamp of the write. */
  function Restored(m: EmailRecord, id: string, now: nat): LoadedMessage {
    LoadedMessage(id, m.emailId, m.fromEmail, m.fromName, m.toEmail, m.toName, m.subject,
                  m.textBody, HtmlOrEmpty(m.htmlBody), m.isHtml, now, m.targetRoom, m.fullTextBody)
  }

  /** Reading back a record just written gives the record restored: `is_html` survives
      its trip through 1/0. */
  lemma WriteThenGet(s: Store, m: EmailRecord, now: nat)
    ensures var (s', id) := WriteMessage(s, m, now);
            GetMessage(s', id) == Some(Restored(m, id, now))
  {
  }

  /** Writing a record leaves every other record readable as before. */
  lemma WriteKeepsOthers(s: Store, m: EmailRecord, now: nat, other: string)
    requires other != WriteMessage(s, m, now).1
    ensures GetMessage(WriteMessage(s, m, now).0, other) == GetMessage(s, other)
  {
  }

  /** `n` different ids, none of them in `used`: one `uuid.v4()` per loop round. */
  function FreshIds(used: set<string>, n: nat): (ids: seq<string>)
    ensures |ids| == n && Distinct(ids)
    ensures forall k :: 0 <= k < n ==> ids[k] !in used
    decreases n
  {
    if n == 0 then []
    else
      var id := FreshId(used);
      var rest := FreshIds(used + {id}, n - 1);
      [id] + rest
  }

  /** The rows for `atts` under the ids `ids`, linked to `messageId`. */
  function NewRows(ids: seq<string>, atts: seq<DbAttachment>, messageId: string): (r: map<string, AttachmentRow>)
    requires |ids| == |atts| && Distinct(ids)
    ensures forall x :: x in r <==> x in ids
    ensures forall k :: 0 <= k < |ids| ==>
              r[ids[k]] == AttachmentRow(ids[k], messageId, atts[k].name, atts[k].contentType)
  {
    if |ids| == 0 then map[]
    else NewRows(ids[1..], atts[1..], messageId)[ids[0] := AttachmentRow(ids[0], messageId, atts[0].name, atts[0].contentType)]
  }

  /** The files holding the contents of `atts` under the ids `ids`. */
  function NewFiles(ids: seq<string>, atts: seq<DbAttachment>): (r: map<string, Bytes>)
    requires |ids| == |atts| && Distinct(ids)
    ensures forall x :: x in r <==> x in ids
    ensures forall k :: 0 <= k < |ids| ==> r[ids[k]] == atts[k].content
  {
    if |ids| == 0 then map[]
    else NewFiles(ids[1..], atts[1..])[ids[0] := atts[0].content]
  }

  /** The ids `writeAttachments` draws for `n` attachments in the store `s`. */
  function AttachmentIds(s: Store, n: nat): (ids: seq<string>)
    ensures |ids| == n && Distinct(ids)
    ensures forall k :: 0 <= k < n ==> ids[k] !in s.attachments && ids[k] !in s.files
  {
    FreshIds(s.attachments.Keys + s.files.Keys, n)
  }

  /** `writeAttachments`: one new row and file per attachment, each under an id that
      was in neither table, and nothing else added; the `emails` table is untouched. */
  function WriteAttachments(s: Store, atts: seq<DbAttachment>, messageId: string): (r: (Store, seq<string>))
    ensures r.0.emails == s.emails
    ensures |r.1| == |atts| && Distinct(r.1)
    ensures forall k :: 0 <= k < |r.1| ==> r.1[k] !in s.attachments && r.1[k] !in s.files
    ensures forall x :: x in r.0.attachments <==> x in s.attachments || x in r.1
    ensures forall x :: x in r.0.files <==> x in s.files || x in r.1
    ensures r.1 == AttachmentIds(s, |atts|)
  {
    var ids := AttachmentIds(s, |atts|);
    (s.(attachments := s.attachments + NewRows(ids, atts, messageId),
        files := s.files + NewFiles(ids, atts)), ids)
  }

  /** The rows `writeAttachments` adds: the k-th attachment's row carries `messageId`,
      its name and its content type, and its file holds its content; old rows and
      files are kept. */
  lemma WriteAttachmentsRows(s: Store, atts: seq<DbAttachment>, messageId: string)
    ensures var (s', ids) := WriteAttachments(s, atts, messageId);
            && (forall x :: x in s.attachments ==> s'.attachments[x] == s.attachments[x])
            && (forall x :: x in s.files ==> s'.files[x] == s.files[x])
            && (forall k :: 0 <= k < |atts| ==>
                  s'.attachments[ids[k]] == AttachmentRow(ids[k], messageId, atts[k].name, atts[k].contentType)
                  && s'.files[ids[k]] == atts[k].content)
  {
    var ids := FreshIds(s.attachments.Keys + s.files.Keys, |atts|);
    var rows := NewRows(ids, atts, messageId);
    var files := NewFiles(ids, atts);
    var s' := WriteAttachments(s, atts, messageId).0;
    assert s'.attachments == s.attachments + rows && s'.files == s.files + files;
    forall x | x in s.attachments
      ensures s'.attachments[x] == s.attachments[x]
    {
      assert x !in rows;
    }
    forall x | x in s.files
      ensures s'.files[x] == s.files[x]
    {
      assert x !in files;
    }
  }

  /** Writing attachments keeps the store's ids consistent. */
  lemma WriteAttachmentsValid(s: Store, atts: seq<DbAttachment>, messageId: string)
    ensures Valid(s) ==> Valid(WriteAttachments(s, atts, messageId).0)
  {
    if Valid(s) {
      var r := WriteAttachments(s, atts, messageId);
      forall x | x in r.0.attachments
        ensures r.0.attachments[x].id == x
      {
        if x !in s.attachments {
          var k :| 0 <= k < |r.1| && r.1[k] == x;
        }
      }
    }
  }
}
