/** The per-room decisions of `processMessage` (src/EmailProcessor.ts): the antispam
    gates, the sender allow and block lists, the attachment filter, the `is_html`
    flag and the body segments. */
module Policy {
  import opened Results
  import opened Text
  import opened Seqs
  import opened Config
  import opened Email
  import opened DataStore

  /** The three antispam gates, in the order the source tries them. */
  datatype Gate = ScoreGate | DkimGate | SpfGate

  predicate ScoreFails(a: Antispam, e: InboundEmail) {
    a.maxScore > 0.0 && e.spamScore.Some? && a.maxScore <= e.spamScore.value
  }

  predicate DkimFails(a: Antispam, e: InboundEmail) {
    a.blockFailedDkim && e.dkim != "pass"
  }

  predicate SpfFails(a: Antispam, e: InboundEmail) {
    a.blockFailedSpf && e.spf != "pass"
  }

  /** The gate whose `continue` skips the room, if any: the first failing one. */
  function RejectingGate(a: Antispam, e: InboundEmail): (g: Option<Gate>)
    ensures g.None? <==> !ScoreFails(a, e) && !DkimFails(a, e) && !SpfFails(a, e)
    ensures g == Some(ScoreGate) <==> ScoreFails(a, e)
    ensures g == Some(DkimGate) <==> !ScoreFails(a, e) && DkimFails(a, e)
    ensures g == Some(SpfGate) <==> !ScoreFails(a, e) && !DkimFails(a, e) && SpfFails(a, e)
  {
    if ScoreFails(a, e) then Some(ScoreGate)
    else if DkimFails(a, e) then Some(DkimGate)
    else if SpfFails(a, e) then Some(SpfGate)
    else None
  }

  /** A room without an `antispam` block takes every email; one with it takes the
      email when no gate fails. */
  function PassesAntispam(s: RoomSettings, e: InboundEmail): (ok: bool)
    ensures s.antispam.None? ==> ok
    ensures s.antispam.Some? ==>
              (ok <==> !ScoreFails(s.antispam.value, e) && !DkimFails(s.antispam.value, e)
                       && !SpfFails(s.antispam.value, e))
  {
    match s.antispam
    case None => true
    case Some(a) => RejectingGate(a, e).None?
  }

  /** The sender entries the lists are checked against: those with a non-empty address. */
  predicate Named(f: Address) {
    f.address != ""
  }

  /** Every named sender, lower-cased, is on the allow list. */
  predicate AllSendersListed(s: RoomSettings, from: seq<Address>) {
    forall k :: 0 <= k < |from| && Named(from[k]) ==> ToLower(from[k].address) in s.allowedSenders
  }

  /** Some named sender, lower-cased, is on the block list. */
  predicate AnySenderBlocked(s: RoomSettings, from: seq<Address>) {
    exists k :: 0 <= k < |from| && Named(from[k]) && ToLower(from[k].address) in s.blockedSenders
  }

  /** The room takes email from these senders: anyone, or only listed senders, and in
      either case nobody blocked. */
  predicate SenderAllowed(s: RoomSettings, from: seq<Address>) {
    (s.allowFromAnyone || AllSendersListed(s, from)) && !AnySenderBlocked(s, from)
  }

  /** A blocked sender is refused even by a room that takes email from anyone. */
  lemma BlockListWins(s: RoomSettings, from: seq<Address>, k: nat)
    requires k < |from| && Named(from[k])
    requires ToLower(from[k].address) in s.blockedSenders
    ensures !SenderAllowed(s, from)
  {
  }

  /** The two sender loops of `processMessage`, as written: the first clears `allowed`
      at the first named sender missing from the allow list, the second at the first
      named sender on the block list. */
  method CheckSenders(s: RoomSettings, from: seq<Address>) returns (allowed: bool)
    ensures allowed <==> SenderAllowed(s, from)
  {
    allowed := true;
    if !s.allowFromAnyone {
      var i := 0;
      while i < |from|
        invariant 0 <= i <= |from|
        invariant allowed <==> forall k :: 0 <= k < i && Named(from[k]) ==> ToLower(from[k].address) in s.allowedSenders
      {
        if Named(from[i]) && ToLower(from[i].address) !in s.allowedSenders {
          allowed := false;
          break;
        }
        i := i + 1;
      }
    }
    ghost var listed := allowed;
    var j := 0;
    while j < |from|
      invariant 0 <= j <= |from|
      invariant allowed <==> listed && forall k :: 0 <= k < j && Named(from[k]) ==> ToLower(from[k].address) !in s.blockedSenders
    {
      if Named(from[j]) && ToLower(from[j].address) in s.blockedSenders {
        allowed := false;
        break;
      }
      j := j + 1;
    }
  }

  /** The room takes the email: it passes the antispam gates and the sender lists. */
  predicate Accepts(s: RoomSettings, e: InboundEmail) {
    PassesAntispam(s, e) && SenderAllowed(s, e.from)
  }

  /** An attachment survives the room's type policy: its type is allowed (or all are)
      and it is not blocked. */
  predicate KeepsType(p: AttachmentPolicy, contentType: string) {
    (p.allowAllTypes || contentType in p.allowedTypes) && contentType !in p.blockedTypes
  }

  /** The stored form of a kept attachment, carrying the room's `post` flag. */
  function Kept(p: AttachmentPolicy, a: Attachment): DbAttachment {
    DbAttachment(a.generatedFileName, a.content, p.post, a.contentType)
  }

  /** The attachment loop of `processMessage`: the kept attachments, in order. */
  function FilterAttachments(atts: seq<Attachment>, p: AttachmentPolicy): (r: seq<DbAttachment>)
    ensures |r| <= |atts|
    ensures forall d :: d in r <==> exists k :: 0 <= k < |atts| && KeepsType(p, atts[k].contentType) && d == Kept(p, atts[k])
    ensures forall d :: d in r ==> d.post == p.post && KeepsType(p, d.contentType)
  {
    if |atts| == 0 then []
    else
      var rest := FilterAttachments(atts[1..], p);
      assert forall k :: 1 <= k < |atts| ==> atts[k] == atts[1..][k - 1];
      if KeepsType(p, atts[0].contentType) then [Kept(p, atts[0])] + rest else rest
  }

  /** A single attachment is kept exactly when its type passes the room's policy. */
  lemma FilterAttachmentsOne(a: Attachment, p: AttachmentPolicy)
    ensures FilterAttachments([a], p) == if KeepsType(p, a.contentType) then [Kept(p, a)] else []
  {
    assert [a][1..] == [];
  }

  /** The filter works attachment by attachment: the kept attachments of a
      concatenation are those of each part, in order. */
  lemma {:induction false} FilterAttachmentsAppend(xs: seq<Attachment>, ys: seq<Attachment>, p: AttachmentPolicy)
    ensures FilterAttachments(xs + ys, p) == FilterAttachments(xs, p) + FilterAttachments(ys, p)
    decreases |xs|
  {
    if |xs| > 0 {
      assert (xs + ys)[0] == xs[0];
      assert (xs + ys)[1..] == xs[1..] + ys;
      FilterAttachmentsAppend(xs[1..], ys, p);
    } else {
      assert xs + ys == ys;
    }
  }

  /** `is_html`: false exactly when the lower-cased `content-type` header, taken as
      `text/plain` when missing or empty, starts with `text/plain`. */
  function IsHtml(headers: map<string, string>): (r: bool)
    ensures ("content-type" !in headers || headers["content-type"] == "") ==> !r
    ensures "content-type" in headers && headers["content-type"] != "" ==>
              (r <==> !StartsWith(ToLower(headers["content-type"]), "text/plain"))
  {
    var header := if "content-type" in headers && headers["content-type"] != "" then headers["content-type"] else "text/plain";
    !StartsWith(ToLower(header), "text/plain")
  }

  /** The reply parser, an external library: `fragments` splits a body into its reply
      fragments, `visibleText` keeps the text above quoted and signature material. */
  datatype ReplyParser = ReplyParser(fragments: string -> seq<string>, visibleText: string -> string)

  /** The segments whose trimmed text is not empty, in order. */
  function NonBlank(ss: seq<string>): (r: seq<string>)
    ensures |r| <= |ss|
  {
    if |ss| == 0 then []
    else if |Trim(ss[0])| > 0 then [ss[0]] + NonBlank(ss[1..])
    else NonBlank(ss[1..])
  }

  /** The kept segments are those that hold something besides white space, in their
      order and each as often as it occurs; blank segments are dropped. */
  lemma {:induction false} NonBlankKeeps(ss: seq<string>)
    ensures forall x :: x in NonBlank(ss) <==> x in ss && HasContent(x)
    ensures IsSubsequence(NonBlank(ss), ss)
    ensures forall x :: multiset(NonBlank(ss))[x] == if HasContent(x) then multiset(ss)[x] else 0
  {
    if |ss| > 0 {
      NonBlankKeeps(ss[1..]);
      TrimmedNonEmpty(ss[0]);
      var rest := NonBlank(ss[1..]);
      assert ss == [ss[0]] + ss[1..];
      assert multiset(ss) == multiset{ss[0]} + multiset(ss[1..]);
      if HasContent(ss[0]) {
        assert NonBlank(ss) == [ss[0]] + rest;
        assert multiset(NonBlank(ss)) == multiset{ss[0]} + multiset(rest);
        SubsequenceCons(ss[0], rest, ss[1..]);
      } else {
        assert NonBlank(ss) == rest;
        SubsequenceSkip(ss[0], rest, ss[1..]);
      }
      forall x
        ensures x in NonBlank(ss) <==> x in ss && HasContent(x)
      {
        assert x in ss <==> x == ss[0] || x in ss[1..];
      }
    }
  }

  /** A single segment is kept exactly when it is not blank. */
  lemma NonBlankOne(x: string)
    ensures NonBlank([x]) == if HasContent(x) then [x] else []
  {
    TrimmedNonEmpty(x);
    var one := [x];
    assert one[0] == x && one[1..] == [];
    assert NonBlank(one) == if |Trim(x)| > 0 then [x] + NonBlank([]) else NonBlank([]);
  }

  /** The body segments delivered to a room: all reply fragments with `postReplies`,
      otherwise the visible text alone; blank segments are dropped. */
  function Segments(parser: ReplyParser, text: string, postReplies: bool): (r: seq<string>)
    ensures !postReplies ==> |r| <= 1
    ensures forall x :: x in r ==> HasContent(x)
    ensures postReplies ==> forall x :: x in r <==> x in parser.fragments(text) && HasContent(x)
    ensures postReplies ==> IsSubsequence(r, parser.fragments(text))
    ensures postReplies ==>
              forall x :: multiset(r)[x] == if HasContent(x) then multiset(parser.fragments(text))[x] else 0
    ensures !postReplies ==>
              r == if HasContent(parser.visibleText(text)) then [parser.visibleText(text)] else []
  {
    var candidates := if postReplies then parser.fragments(text) else [parser.visibleText(text)];
    NonBlankKeeps(candidates);
    NonBlankOne(parser.visibleText(text));
    NonBlank(candidates)
  }
}
