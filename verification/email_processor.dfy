/** The per-email pipeline `processMessage` (src/EmailProcessor.ts): skip an email
    already stored, expand its recipients into targets, resolve each target to rooms,
    keep the rooms that accept the email (each room once), and deliver to each of them
    its body segments and attachments. */
module EmailProcessor {
  import opened Results
  import opened Text
  import opened Seqs
  import opened Config
  import opened ConfigUtils
  import opened Email
  import opened DataStore
  import opened Policy
  import opened MatrixBot

  /** The outside world the pipeline is given: the reply parser, the HTML tools, the
      media operations and the clock reading used as `received_timestamp`. */
  datatype Env = Env(parser: ReplyParser, tools: HtmlTools, media: MediaTools, now: nat)

  /** One event sent to a room. */
  datatype Action =
    | SentText(roomId: string, kind: MessageKind, message: Message, content: TextContent)
    | SentFile(roomId: string, event: AttachmentEvent)

  /** The store and the events sent so far. */
  datatype State = State(store: Store, actions: seq<Action>)

  /** How a run ends: normally, or with an exception that abandons the rest of the
      email; the state is what had happened by then. */
  datatype Outcome = Done(state: State) | Crashed(state: State, crash: Crash)

  /** A room the email goes to, and the target through which it was first reached. */
  datatype Delivery = Delivery(target: Target, room: RoomConfig)

  function RoomIds(ds: seq<Delivery>): (ids: seq<string>)
    ensures |ids| == |ds|
    ensures forall k :: 0 <= k < |ds| ==> ids[k] == ds[k].room.roomId
  {
    seq(|ds|, k requires 0 <= k < |ds| => ds[k].room.roomId)
  }

  /** The rooms a target resolves to; none for a target without an address or one
      that resolves to `null`. */
  function Resolve(cfg: BridgeConfig, t: Target): seq<RoomConfig> {
    if t.address == "" then []
    else match GetRoomConfigsForTarget(cfg, t.address, t.source)
      case None => []
      case Some(rcs) => rcs
  }

  /** The inner room loop for one target: a room already taken (`rooms.includes`) or
      one that refuses the email is skipped; any other is taken. The loops are written
      over the acceptance test `accepts` and the resolution `resolve`, which `Plan`
      fixes. */
  function PlanRooms(accepts: RoomConfig -> bool, t: Target, rcs: seq<RoomConfig>, rooms: seq<string>): (ds: seq<Delivery>)
    decreases |rcs|
  {
    if |rcs| == 0 then []
    else if rcs[0].roomId in rooms || !accepts(rcs[0]) then PlanRooms(accepts, t, rcs[1..], rooms)
    else [Delivery(t, rcs[0])] + PlanRooms(accepts, t, rcs[1..], rooms + [rcs[0].roomId])
  }

  /** The outer target loop: the deliveries of all targets, in order, with `rooms`
      the room ids taken before. */
  function PlanTargets(resolve: Target -> seq<RoomConfig>, accepts: RoomConfig -> bool,
                       ts: seq<Target>, rooms: seq<string>): (ds: seq<Delivery>)
    decreases |ts|
  {
    if |ts| == 0 then []
    else
      var here := PlanRooms(accepts, ts[0], resolve(ts[0]), rooms);
      here + PlanTargets(resolve, accepts, ts[1..], rooms + RoomIds(here))
  }

  /** The resolution the target loop uses. */
  function Resolver(cfg: BridgeConfig): Target -> seq<RoomConfig> {
    t => Resolve(cfg, t)
  }

  /** The acceptance test the room loop uses: antispam, senders and attachments. */
  function Acceptor(e: InboundEmail): RoomConfig -> bool {
    (rc: RoomConfig) => Accepts(rc.settings, e)
  }

  /** The rooms `processMessage` delivers the email to, in order. */
  function Plan(cfg: BridgeConfig, e: InboundEmail): seq<Delivery> {
    PlanTargets(Resolver(cfg), Acceptor(e), Targets(e), [])
  }

  /** The room loop takes only new rooms, each once, each accepted and among the
      target's rooms; and it takes every accepted room it meets. */
  lemma PlanRoomsFacts(accepts: RoomConfig -> bool, t: Target, rcs: seq<RoomConfig>, rooms: seq<string>)
    ensures var ds := PlanRooms(accepts, t, rcs, rooms);
            && Distinct(RoomIds(ds))
            && (forall k :: 0 <= k < |ds| ==> ds[k].room.roomId !in rooms)
            && (forall k :: 0 <= k < |ds| ==> ds[k].target == t && ds[k].room in rcs && accepts(ds[k].room))
            && (forall rc :: rc in rcs && accepts(rc) ==> rc.roomId in rooms || rc.roomId in RoomIds(ds))
  {
    PlanRoomsFresh(accepts, t, rcs, rooms);
    PlanRoomsSound(accepts, t, rcs, rooms);
    PlanRoomsComplete(accepts, t, rcs, rooms);
  }

  lemma {:induction false} PlanRoomsFresh(accepts: RoomConfig -> bool, t: Target, rcs: seq<RoomConfig>, rooms: seq<string>)
    ensures var ds := PlanRooms(accepts, t, rcs, rooms);
            && Distinct(RoomIds(ds))
            && (forall k :: 0 <= k < |ds| ==> ds[k].room.roomId !in rooms)
    decreases |rcs|
  {
    if |rcs| > 0 {
      var rc := rcs[0];
      if rc.roomId in rooms || !accepts(rc) {
        PlanRoomsFresh(accepts, t, rcs[1..], rooms);
      } else {
        var rest := PlanRooms(accepts, t, rcs[1..], rooms + [rc.roomId]);
        PlanRoomsFresh(accepts, t, rcs[1..], rooms + [rc.roomId]);
        var ds := [Delivery(t, rc)] + rest;
        assert RoomIds(ds) == [rc.roomId] + RoomIds(rest);
      }
    }
  }

  lemma {:induction false} PlanRoomsSound(accepts: RoomConfig -> bool, t: Target, rcs: seq<RoomConfig>, rooms: seq<string>)
    ensures forall d :: d in PlanRooms(accepts, t, rcs, rooms) ==> d.target == t && d.room in rcs && accepts(d.room)
    decreases |rcs|
  {
    if |rcs| > 0 {
      var rc := rcs[0];
      assert rcs == [rc] + rcs[1..];
      if rc.roomId in rooms || !accepts(rc) {
        PlanRoomsSound(accepts, t, rcs[1..], rooms);
      } else {
        PlanRoomsSound(accepts, t, rcs[1..], rooms + [rc.roomId]);
      }
    }
  }

  lemma {:induction false} PlanRoomsComplete(accepts: RoomConfig -> bool, t: Target, rcs: seq<RoomConfig>, rooms: seq<string>)
    ensures var ds := PlanRooms(accepts, t, rcs, rooms);
            forall rc :: rc in rcs && accepts(rc) ==> rc.roomId in rooms || rc.roomId in RoomIds(ds)
    decreases |rcs|
  {
    if |rcs| > 0 {
      var rc := rcs[0];
      assert rcs == [rc] + rcs[1..];
      if rc.roomId in rooms || !accepts(rc) {
        PlanRoomsComplete(accepts, t, rcs[1..], rooms);
      } else {
        var rest := PlanRooms(accepts, t, rcs[1..], rooms + [rc.roomId]);
        PlanRoomsComplete(accepts, t, rcs[1..], rooms + [rc.roomId]);
        assert RoomIds([Delivery(t, rc)] + rest) == [rc.roomId] + RoomIds(rest);
      }
    }
  }

  /** The target loop takes only new rooms, each once. */
  lemma {:induction false} PlanTargetsFresh(resolve: Target -> seq<RoomConfig>, accepts: RoomConfig -> bool,
                                            ts: seq<Target>, rooms: seq<string>)
    ensures var ds := PlanTargets(resolve, accepts, ts, rooms);
            && Distinct(RoomIds(ds))
            && (forall k :: 0 <= k < |ds| ==> ds[k].room.roomId !in rooms)
    decreases |ts|
  {
    if |ts| > 0 {
      var here := PlanRooms(accepts, ts[0], resolve(ts[0]), rooms);
      var rest := PlanTargets(resolve, accepts, ts[1..], rooms + RoomIds(here));
      PlanRoomsFacts(accepts, ts[0], resolve(ts[0]), rooms);
      PlanTargetsFresh(resolve, accepts, ts[1..], rooms + RoomIds(here));
      var ds := here + rest;
      assert RoomIds(ds) == RoomIds(here) + RoomIds(rest);
      DistinctAppend(RoomIds(here), RoomIds(rest));
      forall k | 0 <= k < |ds|
        ensures ds[k].room.roomId !in rooms
      {
        if k >= |here| {
          assert ds[k] == rest[k - |here|];
        }
      }
    }
  }

  /** Every room the target loop takes is accepted and is one that a target of the
      list resolves to. */
  lemma {:induction false} PlanTargetsSound(resolve: Target -> seq<RoomConfig>, accepts: RoomConfig -> bool,
                                            ts: seq<Target>, rooms: seq<string>)
    ensures forall d :: d in PlanTargets(resolve, accepts, ts, rooms) ==>
              d.target in ts && d.room in resolve(d.target) && accepts(d.room)
    decreases |ts|
  {
    if |ts| > 0 {
      var here := PlanRooms(accepts, ts[0], resolve(ts[0]), rooms);
      var rest := PlanTargets(resolve, accepts, ts[1..], rooms + RoomIds(here));
      PlanRoomsFacts(accepts, ts[0], resolve(ts[0]), rooms);
      PlanTargetsSound(resolve, accepts, ts[1..], rooms + RoomIds(here));
      forall d: Delivery | d in here + rest
        ensures d.target in ts && d.room in resolve(d.target) && accepts(d.room)
      {
        if d in rest {
          assert d.target in ts[1..];
        } else {
          var k :| 0 <= k < |here| && here[k] == d;
        }
      }
    }
  }

  /** Every accepted room that a target of the list resolves to is taken, by that
      target or an earlier one, unless it was taken before the loop. */
  lemma {:induction false} PlanTargetsComplete(resolve: Target -> seq<RoomConfig>, accepts: RoomConfig -> bool,
                                               ts: seq<Target>, rooms: seq<string>)
    ensures forall t, rc :: t in ts && rc in resolve(t) && accepts(rc) ==>
              rc.roomId in rooms || rc.roomId in RoomIds(PlanTargets(resolve, accepts, ts, rooms))
    decreases |ts|
  {
    if |ts| > 0 {
      var here := PlanRooms(accepts, ts[0], resolve(ts[0]), rooms);
      var rest := PlanTargets(resolve, accepts, ts[1..], rooms + RoomIds(here));
      PlanRoomsFacts(accepts, ts[0], resolve(ts[0]), rooms);
      PlanTargetsComplete(resolve, accepts, ts[1..], rooms + RoomIds(here));
      assert RoomIds(here + rest) == RoomIds(here) + RoomIds(rest);
      forall t, rc | t in ts && rc in resolve(t) && accepts(rc)
        ensures rc.roomId in rooms || rc.roomId in RoomIds(here + rest)
      {
        if t != ts[0] {
          assert t in ts[1..];
        }
      }
    }
  }

  /** The target `t` resolves to an accepting policy of the room `id`. */
  predicate Reaches(resolve: Target -> seq<RoomConfig>, accepts: RoomConfig -> bool, t: Target, id: string) {
    exists rc :: rc in resolve(t) && accepts(rc) && rc.roomId == id
  }

  /** `ts[i]` is the first target of `ts` that reaches the room `id`. */
  predicate FirstReach(resolve: Target -> seq<RoomConfig>, accepts: RoomConfig -> bool, ts: seq<Target>, i: nat, id: string) {
    && i < |ts|
    && Reaches(resolve, accepts, ts[i], id)
    && forall j :: 0 <= j < i ==> !Reaches(resolve, accepts, ts[j], id)
  }

  /** `idx[k]` is the position in `ts` of the target of `ds[k]`: the first target
      that reaches that room; and the positions never go back. */
  predicate Origins(resolve: Target -> seq<RoomConfig>, accepts: RoomConfig -> bool,
                    ts: seq<Target>, ds: seq<Delivery>, idx: seq<nat>) {
    && |idx| == |ds|
    && (forall k :: 0 <= k < |ds| ==>
          idx[k] < |ts| && ts[idx[k]] == ds[k].target && FirstReach(resolve, accepts, ts, idx[k], ds[k].room.roomId))
    && (forall a, b :: 0 <= a < b < |ds| ==> idx[a] <= idx[b])
  }

  /** A room the first target takes is first reached by that target. */
  lemma OriginHere(resolve: Target -> seq<RoomConfig>, accepts: RoomConfig -> bool, ts: seq<Target>,
                   rooms: seq<string>, d: Delivery)
    requires |ts| > 0 && d in PlanRooms(accepts, ts[0], resolve(ts[0]), rooms)
    ensures d.target == ts[0] && FirstReach(resolve, accepts, ts, 0, d.room.roomId)
  {
    PlanRoomsSound(accepts, ts[0], resolve(ts[0]), rooms);
    assert d.room in resolve(ts[0]) && accepts(d.room);
  }

  /** A room the later targets take, and that the first target did not take, is not
      reached by the first target either. */
  lemma OriginLater(resolve: Target -> seq<RoomConfig>, accepts: RoomConfig -> bool, ts: seq<Target>,
                    rooms: seq<string>, i: nat, id: string)
    requires |ts| > 0 && FirstReach(resolve, accepts, ts[1..], i, id)
    requires id !in rooms + RoomIds(PlanRooms(accepts, ts[0], resolve(ts[0]), rooms))
    ensures FirstReach(resolve, accepts, ts, i + 1, id)
  {
    var here := PlanRooms(accepts, ts[0], resolve(ts[0]), rooms);
    PlanRoomsComplete(accepts, ts[0], resolve(ts[0]), rooms);
    assert !Reaches(resolve, accepts, ts[0], id);
    forall j | 0 <= j < i + 1
      ensures !Reaches(resolve, accepts, ts[j], id)
    {
      if j > 0 {
        assert ts[j] == ts[1..][j - 1];
      }
    }
    assert ts[i + 1] == ts[1..][i];
  }

  /** The target loop gives every room the first target that reaches it, and takes
      rooms in the order of those targets; `idx` is the witness. */
  lemma {:induction false} PlanTargetsOrigins(resolve: Target -> seq<RoomConfig>, accepts: RoomConfig -> bool,
                                              ts: seq<Target>, rooms: seq<string>) returns (idx: seq<nat>)
    ensures Origins(resolve, accepts, ts, PlanTargets(resolve, accepts, ts, rooms), idx)
    decreases |ts|
  {
    if |ts| == 0 {
      idx := [];
    } else {
      var here := PlanRooms(accepts, ts[0], resolve(ts[0]), rooms);
      var taken := rooms + RoomIds(here);
      var rest := PlanTargets(resolve, accepts, ts[1..], taken);
      var later := PlanTargetsOrigins(resolve, accepts, ts[1..], taken);
      PlanTargetsFresh(resolve, accepts, ts[1..], taken);
      var ds := here + rest;
      assert PlanTargets(resolve, accepts, ts, rooms) == ds;
      idx := seq(|here|, _ => 0) + seq(|rest|, m requires 0 <= m < |rest| => later[m] + 1);
      forall k | 0 <= k < |ds|
        ensures idx[k] < |ts| && ts[idx[k]] == ds[k].target && FirstReach(resolve, accepts, ts, idx[k], ds[k].room.roomId)
      {
        if k < |here| {
          assert ds[k] == here[k];
          OriginHere(resolve, accepts, ts, rooms, ds[k]);
        } else {
          var m := k - |here|;
          assert ds[k] == rest[m] && idx[k] == later[m] + 1;
          assert ts[1..][later[m]] == rest[m].target;
          OriginLater(resolve, accepts, ts, rooms, later[m], rest[m].room.roomId);
        }
      }
    }
  }

  /** Each planned room carries the first target, in `to`, `cc`, `bcc`, envelope order,
      that reaches it, so its records are addressed to that target; and rooms are
      planned in the order of those targets. */
  lemma PlanFirstTargets(cfg: BridgeConfig, e: InboundEmail)
    ensures exists idx :: Origins(Resolver(cfg), Acceptor(e), Targets(e), Plan(cfg, e), idx)
  {
    var idx := PlanTargetsOrigins(Resolver(cfg), Acceptor(e), Targets(e), []);
    assert Plan(cfg, e) == PlanTargets(Resolver(cfg), Acceptor(e), Targets(e), []);
    assert Origins(Resolver(cfg), Acceptor(e), Targets(e), Plan(cfg, e), idx);
  }

  /** The delivery plan takes distinct rooms. */
  lemma PlanRoomsDistinct(cfg: BridgeConfig, e: InboundEmail)
    ensures Distinct(RoomIds(Plan(cfg, e)))
  {
    PlanTargetsFresh(Resolver(cfg), Acceptor(e), Targets(e), []);
  }

  /** Every planned room accepts the email and is reached through one of its targets. */
  lemma PlanSound(cfg: BridgeConfig, e: InboundEmail, d: Delivery)
    requires d in Plan(cfg, e)
    ensures d.target in Targets(e) && d.room in Resolve(cfg, d.target) && Accepts(d.room.settings, e)
  {
    var resolve := Resolver(cfg);
    var accepts := Acceptor(e);
    PlanTargetsSound(resolve, accepts, Targets(e), []);
    assert resolve(d.target) == Resolve(cfg, d.target);
    assert accepts(d.room) == Accepts(d.room.settings, e);
  }

  /** Every room that accepts the email and that some target resolves to is planned. */
  lemma PlanComplete(cfg: BridgeConfig, e: InboundEmail, t: Target, rc: RoomConfig)
    requires t in Targets(e) && rc in Resolve(cfg, t) && Accepts(rc.settings, e)
    ensures rc.roomId in RoomIds(Plan(cfg, e))
  {
    var resolve := Resolver(cfg);
    var accepts := Acceptor(e);
    assert resolve(t) == Resolve(cfg, t);
    assert accepts(rc);
    PlanTargetsComplete(resolve, accepts, Targets(e), []);
  }

  /** The resolved rooms of a target are the policies of their ids, admitting the
      target's source. */
  lemma ResolvedRooms(cfg: BridgeConfig, t: Target, rc: RoomConfig)
    requires rc in Resolve(cfg, t)
    ensures GetRoomConfig(cfg, rc.roomId) == Some(rc)
    ensures UsesSource(rc.settings, t.source)
  {
  }

  /** The record built for one segment (`dbMessages` entries), from the email's first
      sender. */
  function Record(e: InboundEmail, sender: Address, d: Delivery, segment: string): (m: EmailRecord)
    ensures m.emailId == e.messageId && m.textBody == segment && m.targetRoom == d.room.roomId
    ensures m.fromEmail == sender.address && m.toEmail == d.target.address && m.htmlBody == e.html
    ensures m.fromName == sender.name.GetOr("") && m.toName == d.target.name.GetOr("")
    ensures m.subject == e.subject && m.fullTextBody == e.text && m.isHtml == IsHtml(e.headers)
  {
    EmailRecord(e.messageId, sender.name.GetOr(""), sender.address,
                d.target.name.GetOr(""), d.target.address, e.subject, segment, e.html, e.text,
                IsHtml(e.headers), d.room.roomId)
  }

  /** The records of one email for one room differ in their text alone. */
  lemma RecordsDifferInText(e: InboundEmail, sender: Address, d: Delivery, a: string, b: string)
    ensures Record(e, sender, d, a).(textBody := b) == Record(e, sender, d, b)
  {
  }

  /** The store step for one record: rooms that skip the database send the record as
      built; the others write it and its attachments and send what reads back. */
  function StoreSegment(s: Store, m: EmailRecord, atts: seq<DbAttachment>, skip: bool, now: nat): (r: (Store, Option<Message>))
    ensures skip ==> r == (s, Some(Built(m)))
    ensures !skip ==>
              && r.1.Some? && r.1.value.Loaded?
              && r.1.value.row == Restored(m, r.1.value.row.id, now)
              && r.1.value.row.id !in s.emails
              && r.0.emails == s.emails[r.1.value.row.id := RowFor(m, r.1.value.row.id, now)]
    ensures Valid(s) ==> Valid(r.0)
  {
    if skip then (s, Some(Built(m)))
    else
      var (s1, id) := WriteMessage(s, m, now);
      var (s2, _) := WriteAttachments(s1, atts, id);
      WriteThenGet(s, m, now);
      WriteAttachmentsValid(s1, atts, id);
      match GetMessage(s2, id)
      case None => (s2, None)
      case Some(row) => (s2, Some(Loaded(row)))
  }

  /** A stored record's attachments: outside a room that skips the database, each
      kept attachment gets a new row linked to the record's new id, with its name and
      type, and a file with its contents; old rows and files are kept, nothing else is
      added. */
  lemma StoreSegmentLinks(s: Store, m: EmailRecord, atts: seq<DbAttachment>, skip: bool, now: nat)
    requires !skip
    ensures var r := StoreSegment(s, m, atts, skip, now);
            var ids := AttachmentIds(s, |atts|);
            && r.1.Some? && r.1.value.Loaded? && r.1.value.row.id in r.0.emails
            && (forall x :: x in r.0.attachments <==> x in s.attachments || x in ids)
            && (forall x :: x in r.0.files <==> x in s.files || x in ids)
            && (forall x :: x in s.attachments ==> r.0.attachments[x] == s.attachments[x])
            && (forall x :: x in s.files ==> r.0.files[x] == s.files[x])
            && (forall k :: 0 <= k < |atts| ==>
                  r.0.attachments[ids[k]] == AttachmentRow(ids[k], r.1.value.row.id, atts[k].name, atts[k].contentType)
                  && r.0.files[ids[k]] == atts[k].content)
  {
    var (s1, id) := WriteMessage(s, m, now);
    WriteThenGet(s, m, now);
    WriteAttachmentsRows(s1, atts, id);
    var s2 := WriteAttachments(s1, atts, id).0;
    assert StoreSegment(s, m, atts, skip, now) == (s2, Some(Loaded(GetMessage(s2, id).value)));
  }

  /** One round of a segment loop: given the segment, its message kind and the store,
      the store afterwards and the event sent or the exception thrown. */
  type Step = (string, MessageKind, Store) -> (Store, Result<Action, Crash>)

  /** One round of an attachment loop: the event sent for an attachment, or the
      exception thrown. */
  type FileStep = DbAttachment -> Result<Action, Crash>

  /** The kind of the `j`-th message of a segment loop: the first is the primary
      message, the rest are fragments. */
  function KindAt(first: bool, j: nat): MessageKind {
    if first && j == 0 then Primary else Fragment
  }

  /** A segment loop over its round `step`; an exception ends it, keeping the events
      sent before. */
  function RunSegments(step: Step, segs: seq<string>, first: bool, st: State): (r: Outcome)
    ensures st.actions <= r.state.actions
    decreases |segs|
  {
    if |segs| == 0 then Done(st)
    else
      var (store, res) := step(segs[0], KindAt(first, 0), st.store);
      match res
      case Failure(c) => Crashed(State(store, st.actions), c)
      case Success(a) => RunSegments(step, segs[1..], false, State(store, st.actions + [a]))
  }

  /** An attachment loop over its round `send`: each attachment marked `post` is sent;
      an exception ends it. */
  function RunFiles(send: FileStep, atts: seq<DbAttachment>, st: State): (r: Outcome)
    ensures st.actions <= r.state.actions
    ensures r.state.store == st.store
    decreases |atts|
  {
    if |atts| == 0 then Done(st)
    else if !atts[0].post then RunFiles(send, atts[1..], st)
    else
      match send(atts[0])
      case Failure(c) => Crashed(st, c)
      case Success(a) => RunFiles(send, atts[1..], State(st.store, st.actions + [a]))
  }

  /** Delivery to one room: its segment loop, then, unless that threw, its attachment
      loop. */
  function RunRoom(step: Step, send: FileStep, segs: seq<string>, atts: seq<DbAttachment>, st: State): (r: Outcome)
    ensures st.actions <= r.state.actions
  {
    match RunSegments(step, segs, true, st)
    case Crashed(s, c) => Crashed(s, c)
    case Done(s) => RunFiles(send, atts, s)
  }

  /** The round of `processMessage`'s segment loop for the room of `d`: build the
      record (which reads the first sender), store it unless the room skips the
      database, and send what is to be sent. */
  function SegmentStep(cfg: BridgeConfig, env: Env, e: InboundEmail, d: Delivery,
                       atts: seq<DbAttachment>, seg: string, kind: MessageKind, s: Store): (Store, Result<Action, Crash>)
  {
    if |e.from| == 0 then (s, Failure(NoSender))
    else
      var (store, msg) := StoreSegment(s, Record(e, e.from[0], d, seg), atts, d.room.settings.skipDatabase, env.now);
      match msg
      case None => (store, Failure(MissingRecord))
      case Some(m) =>
        match SendMessage(cfg, env.tools, m, d.room.roomId, kind)
        case Failure(c) => (store, Failure(c))
        case Success(content) => (store, Success(SentText(d.room.roomId, kind, m, content)))
  }

  function RoomStep(cfg: BridgeConfig, env: Env, e: InboundEmail, d: Delivery, atts: seq<DbAttachment>): Step {
    (seg: string, kind: MessageKind, s: Store) => SegmentStep(cfg, env, e, d, atts, seg, kind, s)
  }

  /** The round of `processMessage`'s attachment loop: `sendAttachment` to the room. */
  function FileSend(cfg: BridgeConfig, env: Env, roomId: string): FileStep {
    (att: DbAttachment) =>
      match SendAttachment(cfg, env.media, att, roomId)
      case Failure(c) => Failure(c)
      case Success(ev) => Success(SentFile(roomId, ev))
  }

  /** The body segments a room receives. */
  function RoomSegments(env: Env, e: InboundEmail, d: Delivery): seq<string> {
    Segments(env.parser, e.text, d.room.settings.postReplies)
  }

  /** The attachments a room keeps. */
  function RoomAttachments(e: InboundEmail, d: Delivery): seq<DbAttachment> {
    FilterAttachments(e.attachments, d.room.settings.attachments)
  }

  /** Delivery to the room of `d`: its segments, then the attachments it keeps. */
  function DeliverRoom(cfg: BridgeConfig, env: Env, e: InboundEmail, d: Delivery, st: State): (r: Outcome)
    ensures st.actions <= r.state.actions
  {
    var atts := RoomAttachments(e, d);
    RunRoom(RoomStep(cfg, env, e, d, atts), FileSend(cfg, env, d.room.roomId), RoomSegments(env, e, d), atts, st)
  }

  /** One delivery to a room, from a state. */
  type RoomRun = (Delivery, State) -> Outcome

  /** Delivery to rooms in order with `deliver`; an exception ends the run. */
  function RunAll(deliver: RoomRun, ds: seq<Delivery>, st: State): (r: Outcome)
    decreases |ds|
  {
    if |ds| == 0 then Done(st)
    else
      match deliver(ds[0], st)
      case Crashed(s, c) => Crashed(s, c)
      case Done(s) => RunAll(deliver, ds[1..], s)
  }

  /** Delivery to the planned rooms in order; an exception ends the run. */
  function DeliverAll(cfg: BridgeConfig, env: Env, e: InboundEmail, ds: seq<Delivery>, st: State): Outcome {
    RunAll((d: Delivery, s: State) => DeliverRoom(cfg, env, e, d, s), ds, st)
  }

  /** `processMessage`: nothing for an email whose id is already stored; otherwise
      delivery to every planned room. */
  function ProcessMessage(cfg: BridgeConfig, env: Env, s: Store, e: InboundEmail): Outcome {
    if DoesMessageExist(s, e.messageId) then Done(State(s, []))
    else DeliverAll(cfg, env, e, Plan(cfg, e), State(s, []))
  }

  /** The attachments marked `post`, in order. */
  function Posted(atts: seq<DbAttachment>): (r: seq<DbAttachment>)
    ensures forall a :: a in r <==> a in atts && a.post
  {
    if |atts| == 0 then []
    else
      assert atts == [atts[0]] + atts[1..];
      if atts[0].post then [atts[0]] + Posted(atts[1..]) else Posted(atts[1..])
  }

  /** A room posts all the attachments it keeps when its policy says `post`, and none
      otherwise. */
  lemma {:induction false} PostedKept(atts: seq<Attachment>, p: AttachmentPolicy)
    ensures Posted(FilterAttachments(atts, p)) == if p.post then FilterAttachments(atts, p) else []
    decreases |atts|
  {
    if |atts| > 0 {
      PostedKept(atts[1..], p);
    }
  }

  // ---------------------------------------------------------------------------
  // The store
  // ---------------------------------------------------------------------------

  /** The store `t` keeps every record, attachment row and file of `s`; every record
      it adds belongs to the email `emailId`, and every attachment row it adds is
      linked to one of those added records. */
  predicate Grows(s: Store, t: Store, emailId: string) {
    && (forall k :: k in s.emails ==> k in t.emails && t.emails[k] == s.emails[k])
    && (forall k :: k in t.emails && k !in s.emails ==> t.emails[k].emailId == emailId)
    && (forall k :: k in s.attachments ==> k in t.attachments && t.attachments[k] == s.attachments[k])
    && (forall k :: k in s.files ==> k in t.files && t.files[k] == s.files[k])
    && (forall k :: k in t.attachments && k !in s.attachments ==>
          t.attachments[k].emailId in t.emails && t.attachments[k].emailId !in s.emails)
  }

  /** A round adds only records of this email and keeps the store valid; in a room
      that skips the database it leaves the store as it is. */
  lemma SegmentStepStore(cfg: BridgeConfig, env: Env, e: InboundEmail, d: Delivery,
                         atts: seq<DbAttachment>, seg: string, kind: MessageKind, s: Store)
    ensures var t := SegmentStep(cfg, env, e, d, atts, seg, kind, s).0;
            && Grows(s, t, e.messageId)
            && (Valid(s) ==> Valid(t))
            && (d.room.settings.skipDatabase ==> t == s)
  {
    if |e.from| > 0 {
      var m := Record(e, e.from[0], d, seg);
      var r := StoreSegment(s, m, atts, d.room.settings.skipDatabase, env.now);
      assert SegmentStep(cfg, env, e, d, atts, seg, kind, s).0 == r.0;
      StoreSegmentGrows(s, m, atts, d.room.settings.skipDatabase, env.now);
    }
  }

  /** The store step keeps every old entry, adds only records of the record's email,
      and links every added attachment row to an added record. */
  lemma StoreSegmentGrows(s: Store, m: EmailRecord, atts: seq<DbAttachment>, skip: bool, now: nat)
    ensures Grows(s, StoreSegment(s, m, atts, skip, now).0, m.emailId)
  {
    if !skip {
      var r := StoreSegment(s, m, atts, skip, now);
      var ids := AttachmentIds(s, |atts|);
      var id := r.1.value.row.id;
      StoreSegmentLinks(s, m, atts, skip, now);
      forall x | x in ids && x in r.0.attachments
        ensures r.0.attachments[x].emailId == id
      {
        var k :| 0 <= k < |ids| && ids[k] == x;
      }
      NewAttachmentsLinked(s, r.0, ids, id);
    }
  }

  /** Attachment rows added under `ids`, all linked to the record `id` that is new in
      `t`, are linked to a record added to the store. */
  lemma NewAttachmentsLinked(s: Store, t: Store, ids: seq<string>, id: string)
    requires id in t.emails && id !in s.emails
    requires forall x :: x in t.attachments ==> x in s.attachments || x in ids
    requires forall x :: x in ids && x in t.attachments ==> t.attachments[x].emailId == id
    ensures forall k :: k in t.attachments && k !in s.attachments ==>
              t.attachments[k].emailId in t.emails && t.attachments[k].emailId !in s.emails
  {
  }

  /** A segment loop whose every round adds only records of `emailId` and keeps the
      store valid does the same. */
  lemma {:induction false} RunSegmentsStore(step: Step, segs: seq<string>, first: bool, st: State, emailId: string)
    requires forall seg, kind, s :: Grows(s, step(seg, kind, s).0, emailId) && (Valid(s) ==> Valid(step(seg, kind, s).0))
    ensures var r := RunSegments(step, segs, first, st);
            Grows(st.store, r.state.store, emailId) && (Valid(st.store) ==> Valid(r.state.store))
    decreases |segs|
  {
    if |segs| > 0 {
      var (store, res) := step(segs[0], KindAt(first, 0), st.store);
      if res.Success? {
        RunSegmentsStore(step, segs[1..], false, State(store, st.actions + [res.value]), emailId);
      }
    }
  }

  /** A segment loop whose rounds leave the store alone leaves it alone. */
  lemma {:induction false} RunSegmentsKeepsStore(step: Step, segs: seq<string>, first: bool, st: State)
    requires forall seg, kind, s :: step(seg, kind, s).0 == s
    ensures RunSegments(step, segs, first, st).state.store == st.store
    decreases |segs|
  {
    if |segs| > 0 {
      var (store, res) := step(segs[0], KindAt(first, 0), st.store);
      if res.Success? {
        RunSegmentsKeepsStore(step, segs[1..], false, State(store, st.actions + [res.value]));
      }
    }
  }

  /** Delivery to one room adds only records of this email and keeps the store
      valid; a room that skips the database leaves the store as it is. */
  lemma DeliverRoomStore(cfg: BridgeConfig, env: Env, e: InboundEmail, d: Delivery, st: State)
    ensures var r := DeliverRoom(cfg, env, e, d, st);
            && Grows(st.store, r.state.store, e.messageId)
            && (Valid(st.store) ==> Valid(r.state.store))
            && (d.room.settings.skipDatabase ==> r.state.store == st.store)
  {
    var atts := RoomAttachments(e, d);
    var segs := RoomSegments(env, e, d);
    var step := RoomStep(cfg, env, e, d, atts);
    forall seg, kind, s
      ensures Grows(s, step(seg, kind, s).0, e.messageId) && (Valid(s) ==> Valid(step(seg, kind, s).0))
      ensures d.room.settings.skipDatabase ==> step(seg, kind, s).0 == s
    {
      SegmentStepStore(cfg, env, e, d, atts, seg, kind, s);
    }
    RunSegmentsStore(step, segs, true, st, e.messageId);
    if d.room.settings.skipDatabase {
      RunSegmentsKeepsStore(step, segs, true, st);
    }
  }

  /** Delivery to a list of rooms adds only records of this email and keeps the store
      valid; if every room skips the database, the store is left as it is. */
  lemma {:induction false} DeliverAllStore(cfg: BridgeConfig, env: Env, e: InboundEmail, ds: seq<Delivery>, st: State)
    ensures var r := DeliverAll(cfg, env, e, ds, st);
            && Grows(st.store, r.state.store, e.messageId)
            && (Valid(st.store) ==> Valid(r.state.store))
            && ((forall k :: 0 <= k < |ds| ==> ds[k].room.settings.skipDatabase) ==> r.state.store == st.store)
    decreases |ds|
  {
    if |ds| > 0 {
      DeliverRoomStore(cfg, env, e, ds[0], st);
      var r0 := DeliverRoom(cfg, env, e, ds[0], st);
      if r0.Done? {
        DeliverAllStore(cfg, env, e, ds[1..], r0.state);
      }
    }
  }

  /** `processMessage` only adds records of the email it handles, keeps the store
      valid, and writes nothing when every room it delivers to skips the database. */
  lemma ProcessMessageStore(cfg: BridgeConfig, env: Env, s: Store, e: InboundEmail)
    ensures var r := ProcessMessage(cfg, env, s, e);
            && Grows(s, r.state.store, e.messageId)
            && (Valid(s) ==> Valid(r.state.store))
            && ((forall d :: d in Plan(cfg, e) ==> d.room.settings.skipDatabase) ==> r.state.store == s)
  {
    DeliverAllStore(cfg, env, e, Plan(cfg, e), State(s, []));
  }

  /** An email already in the store is ignored: nothing is written or sent. */
  lemma DuplicateIgnored(cfg: BridgeConfig, env: Env, s: Store, e: InboundEmail)
    requires exists k :: k in s.emails && s.emails[k].emailId == e.messageId
    ensures ProcessMessage(cfg, env, s, e) == Done(State(s, []))
  {
  }

  /** Once a run has stored a record of the email, a second run on the same email does
      nothing, whatever the outside world does the second time. */
  lemma SecondRunIgnored(cfg: BridgeConfig, env: Env, env2: Env, s: Store, e: InboundEmail)
    requires ProcessMessage(cfg, env, s, e).state.store.emails.Keys != s.emails.Keys
    ensures var t := ProcessMessage(cfg, env, s, e).state.store;
            ProcessMessage(cfg, env2, t, e) == Done(State(t, []))
  {
    var t := ProcessMessage(cfg, env, s, e).state.store;
    ProcessMessageStore(cfg, env, s, e);
    var k :| k in t.emails.Keys && k !in s.emails.Keys;
    assert t.emails[k].emailId == e.messageId;
  }

  // ---------------------------------------------------------------------------
  // The events sent
  // ---------------------------------------------------------------------------

  /** A segment loop whose every successful round sends an event that `sends` admits
      for its segment and kind appends one such event per segment, in segment order; it
      stops early only on an exception. */
  lemma {:induction false} RunSegmentsActions(step: Step, sends: (string, MessageKind, Action) -> bool,
                                              segs: seq<string>, first: bool, st: State)
    requires forall seg, kind, s :: step(seg, kind, s).1.Success? ==> sends(seg, kind, step(seg, kind, s).1.value)
    ensures var r := RunSegments(step, segs, first, st);
            var added := r.state.actions[|st.actions|..];
            && |added| <= |segs|
            && (forall j :: 0 <= j < |added| ==> sends(segs[j], KindAt(first, j), added[j]))
            && (r.Done? ==> |added| == |segs|)
    decreases |segs|
  {
    var r := RunSegments(step, segs, first, st);
    if |segs| > 0 {
      var (store, res) := step(segs[0], KindAt(first, 0), st.store);
      if res.Success? {
        var st' := State(store, st.actions + [res.value]);
        RunSegmentsActions(step, sends, segs[1..], false, st');
        assert r == RunSegments(step, segs[1..], false, st');
        assert r.state.actions[|st.actions|..] == [res.value] + r.state.actions[|st'.actions|..];
        forall j | 1 <= j < |segs|
          ensures KindAt(first, j) == KindAt(false, j - 1) && segs[j] == segs[1..][j - 1]
        {
        }
      }
    }
  }

  /** An attachment loop whose every successful round sends an event that `sendsFile`
      admits for its attachment appends one such event per attachment marked `post`,
      in order; it stops early only on an exception. */
  lemma {:induction false} RunFilesActions(send: FileStep, sendsFile: (DbAttachment, Action) -> bool,
                                           atts: seq<DbAttachment>, st: State)
    requires forall att :: send(att).Success? ==> sendsFile(att, send(att).value)
    ensures var r := RunFiles(send, atts, st);
            var added := r.state.actions[|st.actions|..];
            && |added| <= |Posted(atts)|
            && (forall j :: 0 <= j < |added| ==> sendsFile(Posted(atts)[j], added[j]))
            && (r.Done? ==> |added| == |Posted(atts)|)
    decreases |atts|
  {
    var r := RunFiles(send, atts, st);
    if |atts| > 0 {
      if !atts[0].post {
        RunFilesActions(send, sendsFile, atts[1..], st);
      } else if send(atts[0]).Success? {
        var st' := State(st.store, st.actions + [send(atts[0]).value]);
        RunFilesActions(send, sendsFile, atts[1..], st');
        assert r == RunFiles(send, atts[1..], st');
        assert r.state.actions[|st.actions|..] == [send(atts[0]).value] + r.state.actions[|st'.actions|..];
        assert Posted(atts) == [atts[0]] + Posted(atts[1..]);
      }
    }
  }

  /** Delivery to one room sends first one admitted message per segment, in order,
      the first primary and the rest fragments, then (see `RunRoomFileActions`) one
      admitted file event per attachment marked `post`; it stops early only on an
      exception. */
  lemma RunRoomActions(step: Step, send: FileStep, sends: (string, MessageKind, Action) -> bool,
                       segs: seq<string>, atts: seq<DbAttachment>, st: State)
    requires forall seg, kind, s :: step(seg, kind, s).1.Success? ==> sends(seg, kind, step(seg, kind, s).1.value)
    ensures var r := RunRoom(step, send, segs, atts, st);
            var added := r.state.actions[|st.actions|..];
            && |added| <= |segs| + |Posted(atts)|
            && (forall j :: 0 <= j < |added| && j < |segs| ==> sends(segs[j], KindAt(true, j), added[j]))
            && (r.Done? ==> |added| == |segs| + |Posted(atts)|)
  {
    RunSegmentsActions(step, sends, segs, true, st);
    var mid := RunSegments(step, segs, true, st);
    if mid.Done? {
      RunFilesActions(send, (att: DbAttachment, a: Action) => true, atts, mid.state);
      var r := RunFiles(send, atts, mid.state);
      assert RunRoom(step, send, segs, atts, st) == r;
      var texts := mid.state.actions[|st.actions|..];
      var added := r.state.actions[|st.actions|..];
      assert added == texts + r.state.actions[|mid.state.actions|..];
      forall j | 0 <= j < |added| && j < |segs|
        ensures sends(segs[j], KindAt(true, j), added[j])
      {
        assert added[j] == texts[j];
      }
    } else {
      assert RunRoom(step, send, segs, atts, st) == mid;
    }
  }

  /** The events of a room delivery after its messages are one admitted file event
      per attachment marked `post`, in order. */
  lemma RunRoomFileActions(step: Step, send: FileStep, sendsFile: (DbAttachment, Action) -> bool,
                           segs: seq<string>, atts: seq<DbAttachment>, st: State)
    requires forall att :: send(att).Success? ==> sendsFile(att, send(att).value)
    ensures var r := RunRoom(step, send, segs, atts, st);
            var added := r.state.actions[|st.actions|..];
            && |added| <= |segs| + |Posted(atts)|
            && (forall j :: |segs| <= j < |added| ==> sendsFile(Posted(atts)[j - |segs|], added[j]))
  {
    RunSegmentsActions(step, (seg: string, kind: MessageKind, a: Action) => true, segs, true, st);
    var mid := RunSegments(step, segs, true, st);
    if mid.Done? {
      RunFilesActions(send, sendsFile, atts, mid.state);
      var r := RunFiles(send, atts, mid.state);
      assert RunRoom(step, send, segs, atts, st) == r;
      var files := r.state.actions[|mid.state.actions|..];
      var added := r.state.actions[|st.actions|..];
      assert added == mid.state.actions[|st.actions|..] + files;
      forall j | |segs| <= j < |added|
        ensures sendsFile(Posted(atts)[j - |segs|], added[j])
      {
        assert added[j] == files[j - |segs|];
      }
    } else {
      assert RunRoom(step, send, segs, atts, st) == mid;
    }
  }

  /** `a` sends segment `seg` of the email to the room of `d` as a `kind` message: the
      record itself when the room skips the database, otherwise the record as it reads
      back from the store; the event is what `sendMessage` makes of it. */
  predicate SendsSegment(cfg: BridgeConfig, env: Env, e: InboundEmail, d: Delivery,
                         seg: string, kind: MessageKind, a: Action) {
    && |e.from| > 0
    && a.SentText? && a.roomId == d.room.roomId && a.kind == kind
    && (if d.room.settings.skipDatabase then a.message == Built(Record(e, e.from[0], d, seg))
        else a.message.Loaded? && a.message.row == Restored(Record(e, e.from[0], d, seg), a.message.row.id, env.now))
    && SendMessage(cfg, env.tools, a.message, d.room.roomId, kind) == Success(a.content)
  }

  /** A successful round sends its segment as `SendsSegment` describes. */
  lemma SegmentStepSends(cfg: BridgeConfig, env: Env, e: InboundEmail, d: Delivery,
                         atts: seq<DbAttachment>, seg: string, kind: MessageKind, s: Store)
    ensures var r := SegmentStep(cfg, env, e, d, atts, seg, kind, s).1;
            r.Success? ==> SendsSegment(cfg, env, e, d, seg, kind, r.value)
  {
    if |e.from| > 0 {
      var (store, msg) := StoreSegment(s, Record(e, e.from[0], d, seg), atts, d.room.settings.skipDatabase, env.now);
      assert SegmentStep(cfg, env, e, d, atts, seg, kind, s).1 ==
        match msg
        case None => Failure(MissingRecord)
        case Some(x) =>
          match SendMessage(cfg, env.tools, x, d.room.roomId, kind)
          case Failure(c) => Failure(c)
          case Success(content) => Success(SentText(d.room.roomId, kind, x, content));
    }
  }

  /** `a` sends attachment `att` to `roomId`, as `sendAttachment` makes it. */
  predicate SendsFile(cfg: BridgeConfig, env: Env, roomId: string, att: DbAttachment, a: Action) {
    a.SentFile? && a.roomId == roomId && SendAttachment(cfg, env.media, att, roomId) == Success(a.event)
  }

  /** Delivery to one room sends first one message per segment, in order, the first
      primary and the rest fragments, then one file event per attachment it keeps and
      posts; it stops early only on an exception. This lemma gives the count and the
      messages; `DeliverRoomFiles` gives the file events. */
  lemma DeliverRoomActions(cfg: BridgeConfig, env: Env, e: InboundEmail, d: Delivery, st: State)
    ensures var r := DeliverRoom(cfg, env, e, d, st);
            var segs := RoomSegments(env, e, d);
            var added := r.state.actions[|st.actions|..];
            && |added| <= |segs| + |Posted(RoomAttachments(e, d))|
            && (forall j :: 0 <= j < |added| && j < |segs| ==> SendsSegment(cfg, env, e, d, segs[j], KindAt(true, j), added[j]))
            && (r.Done? ==> |added| == |segs| + |Posted(RoomAttachments(e, d))|)
  {
    var atts := RoomAttachments(e, d);
    var segs := RoomSegments(env, e, d);
    var step := RoomStep(cfg, env, e, d, atts);
    var send := FileSend(cfg, env, d.room.roomId);
    var sends := (seg: string, kind: MessageKind, a: Action) => SendsSegment(cfg, env, e, d, seg, kind, a);
    SegmentRoundsSend(cfg, env, e, d, atts);
    assert DeliverRoom(cfg, env, e, d, st) == RunRoom(step, send, segs, atts, st);
    RunRoomActions(step, send, sends, segs, atts, st);
  }

  /** The file events of a delivery to one room come after its messages, one per
      attachment it keeps and posts, in order. */
  lemma DeliverRoomFiles(cfg: BridgeConfig, env: Env, e: InboundEmail, d: Delivery, st: State)
    ensures var r := DeliverRoom(cfg, env, e, d, st);
            var segs := RoomSegments(env, e, d);
            var files := Posted(RoomAttachments(e, d));
            var added := r.state.actions[|st.actions|..];
            && |added| <= |segs| + |files|
            && forall j :: |segs| <= j < |added| ==> SendsFile(cfg, env, d.room.roomId, files[j - |segs|], added[j])
  {
    var atts := RoomAttachments(e, d);
    RoomFileSends(RoomStep(cfg, env, e, d, atts), cfg, env, d.room.roomId, RoomSegments(env, e, d), atts, st,
                  DeliverRoom(cfg, env, e, d, st));
  }

  /** `RunRoomFileActions` for the attachment round of `processMessage`, about the
      outcome `r` of the room's delivery. */
  lemma RoomFileSends(step: Step, cfg: BridgeConfig, env: Env, roomId: string,
                      segs: seq<string>, atts: seq<DbAttachment>, st: State, r: Outcome)
    requires r == RunRoom(step, FileSend(cfg, env, roomId), segs, atts, st)
    ensures var added := r.state.actions[|st.actions|..];
            && |added| <= |segs| + |Posted(atts)|
            && forall j :: |segs| <= j < |added| ==> SendsFile(cfg, env, roomId, Posted(atts)[j - |segs|], added[j])
  {
    var sendsFile := (att: DbAttachment, a: Action) => SendsFile(cfg, env, roomId, att, a);
    FileRoundsSend(cfg, env, roomId);
    RunRoomFileActions(step, FileSend(cfg, env, roomId), sendsFile, segs, atts, st);
    var added := r.state.actions[|st.actions|..];
    forall j | |segs| <= j < |added|
      ensures SendsFile(cfg, env, roomId, Posted(atts)[j - |segs|], added[j])
    {
      assert sendsFile(Posted(atts)[j - |segs|], added[j]);
    }
  }

  /** Every successful round of a room's segment loop sends as `SendsSegment`
      describes. */
  lemma SegmentRoundsSend(cfg: BridgeConfig, env: Env, e: InboundEmail, d: Delivery, atts: seq<DbAttachment>)
    ensures forall seg, kind, s :: RoomStep(cfg, env, e, d, atts)(seg, kind, s).1.Success? ==>
              SendsSegment(cfg, env, e, d, seg, kind, RoomStep(cfg, env, e, d, atts)(seg, kind, s).1.value)
  {
    forall seg, kind, s
      ensures RoomStep(cfg, env, e, d, atts)(seg, kind, s).1.Success? ==>
              SendsSegment(cfg, env, e, d, seg, kind, RoomStep(cfg, env, e, d, atts)(seg, kind, s).1.value)
    {
      SegmentStepSends(cfg, env, e, d, atts, seg, kind, s);
    }
  }

  /** Every successful round of a room's attachment loop sends as `SendsFile`
      describes. */
  lemma FileRoundsSend(cfg: BridgeConfig, env: Env, roomId: string)
    ensures forall att :: FileSend(cfg, env, roomId)(att).Success? ==>
              SendsFile(cfg, env, roomId, att, FileSend(cfg, env, roomId)(att).value)
  {
    forall att
      ensures FileSend(cfg, env, roomId)(att).Success? ==>
              SendsFile(cfg, env, roomId, att, FileSend(cfg, env, roomId)(att).value)
    {
      FileSendSends(cfg, env, roomId, att);
    }
  }

  /** A successful attachment round sends the attachment as `SendsFile` describes. */
  lemma FileSendSends(cfg: BridgeConfig, env: Env, roomId: string, att: DbAttachment)
    ensures var r := FileSend(cfg, env, roomId)(att);
            r.Success? ==> SendsFile(cfg, env, roomId, att, r.value)
  {
  }

  // ---------------------------------------------------------------------------
  // The exceptions
  // ---------------------------------------------------------------------------

  /** A segment loop whose rounds fail exactly when `fails` holds, always with `c`,
      throws exactly when it has a segment and `fails` holds, and then `c`. */
  lemma {:induction false} RunSegmentsCrash(step: Step, segs: seq<string>, first: bool, st: State, fails: bool, c: Crash)
    requires forall seg, kind, s :: step(seg, kind, s).1.Failure? <==> fails
    requires forall seg, kind, s :: step(seg, kind, s).1.Failure? ==> step(seg, kind, s).1.error == c
    ensures var r := RunSegments(step, segs, first, st);
            (r.Crashed? <==> |segs| > 0 && fails) && (r.Crashed? ==> r.crash == c)
    decreases |segs|
  {
    if |segs| > 0 {
      var (store, res) := step(segs[0], KindAt(first, 0), st.store);
      if res.Success? {
        RunSegmentsCrash(step, segs[1..], false, State(store, st.actions + [res.value]), fails, c);
      }
    }
  }

  /** An attachment loop whose rounds fail exactly when `fails` holds, always with
      `c`, throws exactly when something is to be posted and `fails` holds, and then
      `c`. */
  lemma {:induction false} RunFilesCrash(send: FileStep, atts: seq<DbAttachment>, st: State, fails: bool, c: Crash)
    requires forall att :: send(att).Failure? <==> fails
    requires forall att :: send(att).Failure? ==> send(att).error == c
    ensures var r := RunFiles(send, atts, st);
            (r.Crashed? <==> |Posted(atts)| > 0 && fails) && (r.Crashed? ==> r.crash == c)
    decreases |atts|
  {
    if |atts| > 0 {
      if !atts[0].post {
        RunFilesCrash(send, atts[1..], st, fails, c);
      } else if send(atts[0]).Success? {
        RunFilesCrash(send, atts[1..], State(st.store, st.actions + [send(atts[0]).value]), fails, c);
      }
    }
  }

  /** Delivery to one room throws exactly when its segment loop has a segment and its
      rounds fail, or its attachment loop has something to post and its rounds fail;
      the exception is the segment loop's if that one throws. */
  lemma RunRoomCrash(step: Step, send: FileStep, segs: seq<string>, atts: seq<DbAttachment>, st: State,
                     stepFails: bool, stepCrash: Crash, sendFails: bool, sendCrash: Crash)
    requires forall seg, kind, s :: step(seg, kind, s).1.Failure? <==> stepFails
    requires forall seg, kind, s :: step(seg, kind, s).1.Failure? ==> step(seg, kind, s).1.error == stepCrash
    requires forall att :: send(att).Failure? <==> sendFails
    requires forall att :: send(att).Failure? ==> send(att).error == sendCrash
    ensures var r := RunRoom(step, send, segs, atts, st);
            && (r.Crashed? <==> (|segs| > 0 && stepFails) || (|Posted(atts)| > 0 && sendFails))
            && (r.Crashed? ==> r.crash == if |segs| > 0 && stepFails then stepCrash else sendCrash)
  {
    RunSegmentsCrash(step, segs, true, st, stepFails, stepCrash);
    var mid := RunSegments(step, segs, true, st);
    if mid.Done? {
      RunFilesCrash(send, atts, mid.state, sendFails, sendCrash);
    }
  }

  /** Whether a round in the room of `d` fails: the email has no sender, the room has
      no policy, or it skips the database, wants HTML and the email has no HTML part.
      A record read back from the store always has an HTML body, and a written record
      always reads back. */
  predicate StepFails(cfg: BridgeConfig, e: InboundEmail, d: Delivery) {
    || |e.from| == 0
    || d.room.roomId !in cfg.roomConfigs
    || (d.room.settings.skipDatabase && !GetRoomConfig(cfg, d.room.roomId).value.settings.plaintextOnly
        && e.html.None?)
  }

  /** The exception a failing round throws. */
  function StepCrash(cfg: BridgeConfig, e: InboundEmail, d: Delivery): Crash {
    if |e.from| == 0 then NoSender
    else if d.room.roomId !in cfg.roomConfigs then NoRoomPolicy
    else MissingHtmlBody
  }

  /** A round fails exactly when `StepFails` says, and then with `StepCrash`. */
  lemma SegmentStepFails(cfg: BridgeConfig, env: Env, e: InboundEmail, d: Delivery,
                         atts: seq<DbAttachment>, seg: string, kind: MessageKind, s: Store)
    ensures var r := SegmentStep(cfg, env, e, d, atts, seg, kind, s).1;
            (r.Failure? <==> StepFails(cfg, e, d)) && (r.Failure? ==> r.error == StepCrash(cfg, e, d))
  {
    if |e.from| > 0 {
      var m := Record(e, e.from[0], d, seg);
      StoredHtml(s, m, atts, d.room.settings.skipDatabase, env.now);
      var msg := StoreSegment(s, m, atts, d.room.settings.skipDatabase, env.now).1.value;
      var r := SendMessage(cfg, env.tools, msg, d.room.roomId, kind);
      SendMessageFails(cfg, env.tools, msg, d.room.roomId, kind);
      assert SegmentStep(cfg, env, e, d, atts, seg, kind, s).1 ==
        match r
        case Failure(c) => Failure(c)
        case Success(content) => Success(SentText(d.room.roomId, kind, msg, content));
    }
  }

  /** The message a store step yields always exists; it has the record's HTML body in a
      room that skips the database, and an HTML body in any other. */
  lemma StoredHtml(s: Store, m: EmailRecord, atts: seq<DbAttachment>, skip: bool, now: nat)
    ensures var msg := StoreSegment(s, m, atts, skip, now).1;
            && msg.Some?
            && (skip ==> HtmlBodyOf(msg.value) == m.htmlBody)
            && (!skip ==> HtmlBodyOf(msg.value).Some?)
  {
  }

  /** An attachment round fails exactly when the room has no policy. */
  lemma FileSendFails(cfg: BridgeConfig, env: Env, roomId: string, att: DbAttachment)
    ensures var r := FileSend(cfg, env, roomId)(att);
            (r.Failure? <==> roomId !in cfg.roomConfigs) && (r.Failure? ==> r.error == NoRoomPolicy)
  {
  }

  /** Whether delivery to the room of `d` throws: it has segments and its rounds fail,
      or it has no policy and attachments to post. */
  predicate Breaks(cfg: BridgeConfig, env: Env, e: InboundEmail, d: Delivery) {
    || (|RoomSegments(env, e, d)| > 0 && StepFails(cfg, e, d))
    || (|Posted(RoomAttachments(e, d))| > 0 && d.room.roomId !in cfg.roomConfigs)
  }

  /** The exception delivery to the room of `d` throws when it breaks. */
  function BreakCrash(cfg: BridgeConfig, env: Env, e: InboundEmail, d: Delivery): Crash {
    if |RoomSegments(env, e, d)| > 0 && StepFails(cfg, e, d) then StepCrash(cfg, e, d) else NoRoomPolicy
  }

  /** Delivery to one room throws exactly when it `Breaks`, with `BreakCrash`. */
  lemma DeliverRoomCrash(cfg: BridgeConfig, env: Env, e: InboundEmail, d: Delivery, st: State)
    ensures var r := DeliverRoom(cfg, env, e, d, st);
            (r.Crashed? <==> Breaks(cfg, env, e, d)) && (r.Crashed? ==> r.crash == BreakCrash(cfg, env, e, d))
  {
    var atts := RoomAttachments(e, d);
    var step := RoomStep(cfg, env, e, d, atts);
    var send := FileSend(cfg, env, d.room.roomId);
    forall seg, kind, s
      ensures step(seg, kind, s).1.Failure? <==> StepFails(cfg, e, d)
      ensures step(seg, kind, s).1.Failure? ==> step(seg, kind, s).1.error == StepCrash(cfg, e, d)
    {
      SegmentStepFails(cfg, env, e, d, atts, seg, kind, s);
    }
    forall att
      ensures send(att).Failure? <==> d.room.roomId !in cfg.roomConfigs
      ensures send(att).Failure? ==> send(att).error == NoRoomPolicy
    {
      FileSendFails(cfg, env, d.room.roomId, att);
    }
    assert DeliverRoom(cfg, env, e, d, st) == RunRoom(step, send, RoomSegments(env, e, d), atts, st);
    RunRoomCrash(step, send, RoomSegments(env, e, d), atts, st,
                 StepFails(cfg, e, d), StepCrash(cfg, e, d), d.room.roomId !in cfg.roomConfigs, NoRoomPolicy);
  }

  /** A run over rooms whose deliveries throw exactly for the rooms `breaks` picks,
      each with `crash` of its room, throws exactly when one of the rooms breaks, and
      then with the exception of the first that does. */
  lemma {:induction false} RunAllCrash(deliver: RoomRun, breaks: Delivery -> bool, crash: Delivery -> Crash,
                                       ds: seq<Delivery>, st: State)
    requires forall d: Delivery, s: State :: deliver(d, s).Crashed? <==> breaks(d)
    requires forall d: Delivery, s: State :: deliver(d, s).Crashed? ==> deliver(d, s).crash == crash(d)
    ensures var r := RunAll(deliver, ds, st);
            && (r.Crashed? <==> exists k :: 0 <= k < |ds| && breaks(ds[k]))
            && (r.Crashed? ==> exists k :: 0 <= k < |ds| && breaks(ds[k])
                                 && (forall i :: 0 <= i < k ==> !breaks(ds[i]))
                                 && r.crash == crash(ds[k]))
    decreases |ds|
  {
    if |ds| > 0 {
      var r0 := deliver(ds[0], st);
      if r0.Done? {
        RunAllCrash(deliver, breaks, crash, ds[1..], r0.state);
        var r := RunAll(deliver, ds[1..], r0.state);
        assert RunAll(deliver, ds, st) == r;
        if r.Crashed? {
          var k :| 0 <= k < |ds[1..]| && breaks(ds[1..][k])
                   && (forall i :: 0 <= i < k ==> !breaks(ds[1..][i]))
                   && r.crash == crash(ds[1..][k]);
          assert ds[k + 1] == ds[1..][k];
          forall i | 0 <= i < k + 1
            ensures !breaks(ds[i])
          {
            if i > 0 {
              assert ds[i] == ds[1..][i - 1];
            }
          }
        } else {
          forall k | 0 <= k < |ds|
            ensures !breaks(ds[k])
          {
            if k > 0 {
              assert ds[k] == ds[1..][k - 1];
            }
          }
        }
      } else {
        assert breaks(ds[0]);
      }
    }
  }

  /** Delivery to a list of rooms throws exactly when one of the rooms breaks, and
      then with the exception of the first that does. */
  lemma DeliverAllCrash(cfg: BridgeConfig, env: Env, e: InboundEmail, ds: seq<Delivery>, st: State)
    ensures var r := DeliverAll(cfg, env, e, ds, st);
            && (r.Crashed? <==> exists k :: 0 <= k < |ds| && Breaks(cfg, env, e, ds[k]))
            && (r.Crashed? ==> exists k :: 0 <= k < |ds| && Breaks(cfg, env, e, ds[k])
                                 && (forall i :: 0 <= i < k ==> !Breaks(cfg, env, e, ds[i]))
                                 && r.crash == BreakCrash(cfg, env, e, ds[k]))
  {
    var deliver := (d: Delivery, s: State) => DeliverRoom(cfg, env, e, d, s);
    var breaks := (d: Delivery) => Breaks(cfg, env, e, d);
    var crash := (d: Delivery) => BreakCrash(cfg, env, e, d);
    forall d: Delivery, s: State
      ensures deliver(d, s).Crashed? <==> breaks(d)
      ensures deliver(d, s).Crashed? ==> deliver(d, s).crash == crash(d)
    {
      DeliverRoomCrash(cfg, env, e, d, s);
    }
    RunAllCrash(deliver, breaks, crash, ds, st);
    var r := RunAll(deliver, ds, st);
    assert DeliverAll(cfg, env, e, ds, st) == r;
    if r.Crashed? {
      var k :| 0 <= k < |ds| && breaks(ds[k]) && (forall i :: 0 <= i < k ==> !breaks(ds[i])) && r.crash == crash(ds[k]);
      forall i | 0 <= i < k
        ensures !Breaks(cfg, env, e, ds[i])
      {
        assert !breaks(ds[i]);
      }
      assert Breaks(cfg, env, e, ds[k]) && r.crash == BreakCrash(cfg, env, e, ds[k]);
    } else {
      forall k | 0 <= k < |ds|
        ensures !Breaks(cfg, env, e, ds[k])
      {
        assert !breaks(ds[k]);
      }
    }
  }

  /** Whether delivery to a planned room throws: it has segments and the email has no
      sender, or the room skips the database, wants HTML and the email has none. */
  predicate Throws(env: Env, e: InboundEmail, d: Delivery) {
    |RoomSegments(env, e, d)| > 0
    && (|e.from| == 0 || (d.room.settings.skipDatabase && !d.room.settings.plaintextOnly && e.html.None?))
  }

  /** A planned room has a policy, so it breaks exactly when it `Throws`. */
  lemma PlannedBreaks(cfg: BridgeConfig, env: Env, e: InboundEmail, d: Delivery)
    requires d in Plan(cfg, e)
    ensures Breaks(cfg, env, e, d) <==> Throws(env, e, d)
    ensures Breaks(cfg, env, e, d) ==> BreakCrash(cfg, env, e, d) == if |e.from| == 0 then NoSender else MissingHtmlBody
  {
    PlanSound(cfg, e, d);
    ResolvedRooms(cfg, d.target, d.room);
  }

  /** `processMessage` throws exactly when the email is new and some planned room
      `Throws`: `NoSender` when the email has no sender, otherwise `MissingHtmlBody`. */
  lemma ProcessMessageCrash(cfg: BridgeConfig, env: Env, s: Store, e: InboundEmail)
    ensures var r := ProcessMessage(cfg, env, s, e);
            && (r.Crashed? <==> !DoesMessageExist(s, e.messageId) && exists d :: d in Plan(cfg, e) && Throws(env, e, d))
            && (r.Crashed? ==> r.crash == if |e.from| == 0 then NoSender else MissingHtmlBody)
  {
    if !DoesMessageExist(s, e.messageId) {
      var ds := Plan(cfg, e);
      var r := DeliverAll(cfg, env, e, ds, State(s, []));
      assert ProcessMessage(cfg, env, s, e) == r;
      DeliverAllCrash(cfg, env, e, ds, State(s, []));
      if r.Crashed? {
        var k :| 0 <= k < |ds| && Breaks(cfg, env, e, ds[k]) && r.crash == BreakCrash(cfg, env, e, ds[k]);
        PlannedBreaks(cfg, env, e, ds[k]);
      } else {
        forall d | d in ds
          ensures !Throws(env, e, d)
        {
          PlannedBreaks(cfg, env, e, d);
        }
      }
    }
  }

  /** A room delivery whose rounds all send to `roomId` sends only to `roomId`. */
  lemma RunRoomTargets(step: Step, send: FileStep, segs: seq<string>, atts: seq<DbAttachment>, st: State, roomId: string)
    requires forall seg, kind, s :: step(seg, kind, s).1.Success? ==> step(seg, kind, s).1.value.roomId == roomId
    requires forall att :: send(att).Success? ==> send(att).value.roomId == roomId
    ensures forall a :: a in RunRoom(step, send, segs, atts, st).state.actions ==> a in st.actions || a.roomId == roomId
  {
    var sends := (seg: string, kind: MessageKind, a: Action) => a.roomId == roomId;
    var sendsFile := (att: DbAttachment, a: Action) => a.roomId == roomId;
    RunRoomActions(step, send, sends, segs, atts, st);
    RunRoomFileActions(step, send, sendsFile, segs, atts, st);
    var r := RunRoom(step, send, segs, atts, st);
    var added := r.state.actions[|st.actions|..];
    assert r.state.actions == st.actions + added;
    forall a | a in added
      ensures a.roomId == roomId
    {
      var j :| 0 <= j < |added| && added[j] == a;
      if j < |segs| {
        assert sends(segs[j], KindAt(true, j), added[j]);
      } else {
        assert sendsFile(Posted(atts)[j - |segs|], added[j]);
      }
    }
  }

  /** Delivery to one room sends only to that room. */
  lemma DeliverRoomTargets(cfg: BridgeConfig, env: Env, e: InboundEmail, d: Delivery, st: State)
    ensures forall a :: a in DeliverRoom(cfg, env, e, d, st).state.actions ==> a in st.actions || a.roomId == d.room.roomId
  {
    var atts := RoomAttachments(e, d);
    var step := RoomStep(cfg, env, e, d, atts);
    var send := FileSend(cfg, env, d.room.roomId);
    forall seg, kind, s | step(seg, kind, s).1.Success?
      ensures step(seg, kind, s).1.value.roomId == d.room.roomId
    {
      SegmentStepSends(cfg, env, e, d, atts, seg, kind, s);
    }
    forall att | send(att).Success?
      ensures send(att).value.roomId == d.room.roomId
    {
      FileSendSends(cfg, env, d.room.roomId, att);
    }
    assert DeliverRoom(cfg, env, e, d, st) == RunRoom(step, send, RoomSegments(env, e, d), atts, st);
    RunRoomTargets(step, send, RoomSegments(env, e, d), atts, st, d.room.roomId);
  }

  /** A run over rooms whose every delivery sends only to its own room sends only to
      those rooms. */
  lemma {:induction false} RunAllTargets(deliver: RoomRun, ds: seq<Delivery>, st: State)
    requires forall d, s, a :: a in deliver(d, s).state.actions ==> a in s.actions || a.roomId == d.room.roomId
    ensures forall a :: a in RunAll(deliver, ds, st).state.actions ==> a in st.actions || a.roomId in RoomIds(ds)
    decreases |ds|
  {
    if |ds| > 0 {
      var r0 := deliver(ds[0], st);
      if r0.Done? {
        RunAllTargets(deliver, ds[1..], r0.state);
        assert RoomIds(ds) == [ds[0].room.roomId] + RoomIds(ds[1..]);
      }
    }
  }

  /** Delivery to a list of rooms sends only to those rooms. */
  lemma DeliverAllTargets(cfg: BridgeConfig, env: Env, e: InboundEmail, ds: seq<Delivery>, st: State)
    ensures forall a :: a in DeliverAll(cfg, env, e, ds, st).state.actions ==> a in st.actions || a.roomId in RoomIds(ds)
  {
    var deliver := (d: Delivery, s: State) => DeliverRoom(cfg, env, e, d, s);
    forall d, s, a | a in deliver(d, s).state.actions
      ensures a in s.actions || a.roomId == d.room.roomId
    {
      DeliverRoomTargets(cfg, env, e, d, s);
    }
    RunAllTargets(deliver, ds, st);
  }

  /** Every event `processMessage` sends goes to a room that some target of the email
      resolves to and that accepts the email. */
  lemma ProcessMessageTargets(cfg: BridgeConfig, env: Env, s: Store, e: InboundEmail, a: Action)
    requires a in ProcessMessage(cfg, env, s, e).state.actions
    ensures exists d :: d in Plan(cfg, e) && d.room.roomId == a.roomId
    ensures exists t, rc :: t in Targets(e) && rc in Resolve(cfg, t) && rc.roomId == a.roomId && Accepts(rc.settings, e)
  {
    var ds := Plan(cfg, e);
    DeliverAllTargets(cfg, env, e, ds, State(s, []));
    var k :| 0 <= k < |ds| && RoomIds(ds)[k] == a.roomId;
    PlanSound(cfg, e, ds[k]);
  }

  /** A run over rooms whose deliveries only append events keeps the events it
      starts with. */
  lemma {:induction false} RunAllGrows(deliver: RoomRun, ds: seq<Delivery>, st: State)
    requires forall d: Delivery, s: State :: s.actions <= deliver(d, s).state.actions
    ensures st.actions <= RunAll(deliver, ds, st).state.actions
    decreases |ds|
  {
    if |ds| > 0 && deliver(ds[0], st).Done? {
      RunAllGrows(deliver, ds[1..], deliver(ds[0], st).state);
    }
  }

  /** A run over rooms that completes has completed the delivery to each of them, and
      kept the events of that delivery. */
  lemma {:induction false} RunAllVisits(deliver: RoomRun, ds: seq<Delivery>, st: State, k: nat)
    requires forall d: Delivery, s: State :: s.actions <= deliver(d, s).state.actions
    requires RunAll(deliver, ds, st).Done? && k < |ds|
    ensures exists s :: deliver(ds[k], s).Done? && deliver(ds[k], s).state.actions <= RunAll(deliver, ds, st).state.actions
    decreases |ds|
  {
    var r0 := deliver(ds[0], st);
    if k == 0 {
      RunAllGrows(deliver, ds[1..], r0.state);
    } else {
      RunAllVisits(deliver, ds[1..], r0.state, k - 1);
      assert ds[1..][k - 1] == ds[k];
    }
  }

  /** A completed room delivery, kept in `sent`, has sent an admitted message for
      each segment and an admitted file event for each attachment marked `post`. */
  lemma RunRoomDone(step: Step, send: FileStep, sends: (string, MessageKind, Action) -> bool,
                    sendsFile: (DbAttachment, Action) -> bool, segs: seq<string>, atts: seq<DbAttachment>,
                    st: State, r: Outcome, sent: seq<Action>)
    requires forall seg, kind, s :: step(seg, kind, s).1.Success? ==> sends(seg, kind, step(seg, kind, s).1.value)
    requires forall att :: send(att).Success? ==> sendsFile(att, send(att).value)
    requires r == RunRoom(step, send, segs, atts, st)
    requires r.Done? && r.state.actions <= sent
    ensures forall j :: 0 <= j < |segs| ==> exists a :: a in sent && sends(segs[j], KindAt(true, j), a)
    ensures forall j :: 0 <= j < |Posted(atts)| ==> exists a :: a in sent && sendsFile(Posted(atts)[j], a)
  {
    RunRoomActions(step, send, sends, segs, atts, st);
    RunRoomFileActions(step, send, sendsFile, segs, atts, st);
    var added := r.state.actions[|st.actions|..];
    forall j | 0 <= j < |segs|
      ensures exists a :: a in sent && sends(segs[j], KindAt(true, j), a)
    {
      assert added[j] == sent[|st.actions| + j];
    }
    forall j | 0 <= j < |Posted(atts)|
      ensures exists a :: a in sent && sendsFile(Posted(atts)[j], a)
    {
      assert added[|segs| + j] == sent[|st.actions| + |segs| + j];
    }
  }

  /** A completed delivery to a room, kept in `sent`, has sent each of the room's
      segments and each attachment it posts. */
  lemma DeliverRoomDone(cfg: BridgeConfig, env: Env, e: InboundEmail, d: Delivery, st: State, sent: seq<Action>)
    requires DeliverRoom(cfg, env, e, d, st).Done? && DeliverRoom(cfg, env, e, d, st).state.actions <= sent
    ensures forall j :: 0 <= j < |RoomSegments(env, e, d)| ==>
              exists a :: a in sent && SendsSegment(cfg, env, e, d, RoomSegments(env, e, d)[j], KindAt(true, j), a)
    ensures forall att :: att in Posted(RoomAttachments(e, d)) ==>
              exists a :: a in sent && SendsFile(cfg, env, d.room.roomId, att, a)
  {
    DeliverRoomSentSegments(cfg, env, e, d, st, sent);
    DeliverRoomSentFiles(cfg, env, e, d, st, sent);
  }

  lemma DeliverRoomSentSegments(cfg: BridgeConfig, env: Env, e: InboundEmail, d: Delivery, st: State, sent: seq<Action>)
    requires DeliverRoom(cfg, env, e, d, st).Done? && DeliverRoom(cfg, env, e, d, st).state.actions <= sent
    ensures forall j :: 0 <= j < |RoomSegments(env, e, d)| ==>
              exists a :: a in sent && SendsSegment(cfg, env, e, d, RoomSegments(env, e, d)[j], KindAt(true, j), a)
  {
    var atts := RoomAttachments(e, d);
    var segs := RoomSegments(env, e, d);
    var sends := (seg: string, kind: MessageKind, a: Action) => SendsSegment(cfg, env, e, d, seg, kind, a);
    var sendsFile := (att: DbAttachment, a: Action) => SendsFile(cfg, env, d.room.roomId, att, a);
    SegmentRoundsSend(cfg, env, e, d, atts);
    FileRoundsSend(cfg, env, d.room.roomId);
    RunRoomDone(RoomStep(cfg, env, e, d, atts), FileSend(cfg, env, d.room.roomId), sends, sendsFile,
                segs, atts, st, DeliverRoom(cfg, env, e, d, st), sent);
    forall j | 0 <= j < |segs|
      ensures exists a :: a in sent && SendsSegment(cfg, env, e, d, segs[j], KindAt(true, j), a)
    {
      var a :| a in sent && sends(segs[j], KindAt(true, j), a);
      assert SendsSegment(cfg, env, e, d, segs[j], KindAt(true, j), a);
    }
  }

  lemma DeliverRoomSentFiles(cfg: BridgeConfig, env: Env, e: InboundEmail, d: Delivery, st: State, sent: seq<Action>)
    requires DeliverRoom(cfg, env, e, d, st).Done? && DeliverRoom(cfg, env, e, d, st).state.actions <= sent
    ensures forall att :: att in Posted(RoomAttachments(e, d)) ==>
              exists a :: a in sent && SendsFile(cfg, env, d.room.roomId, att, a)
  {
    var atts := RoomAttachments(e, d);
    var segs := RoomSegments(env, e, d);
    var sends := (seg: string, kind: MessageKind, a: Action) => SendsSegment(cfg, env, e, d, seg, kind, a);
    var sendsFile := (att: DbAttachment, a: Action) => SendsFile(cfg, env, d.room.roomId, att, a);
    SegmentRoundsSend(cfg, env, e, d, atts);
    FileRoundsSend(cfg, env, d.room.roomId);
    RunRoomDone(RoomStep(cfg, env, e, d, atts), FileSend(cfg, env, d.room.roomId), sends, sendsFile,
                segs, atts, st, DeliverRoom(cfg, env, e, d, st), sent);
    forall att | att in Posted(atts)
      ensures exists a :: a in sent && SendsFile(cfg, env, d.room.roomId, att, a)
    {
      var j :| 0 <= j < |Posted(atts)| && Posted(atts)[j] == att;
      var a :| a in sent && sendsFile(Posted(atts)[j], a);
      assert SendsFile(cfg, env, d.room.roomId, att, a);
    }
  }

  /** When `processMessage` completes on a new email, every planned room has been
      sent each of its segments, the first as the primary message and the rest as
      fragments, and each attachment it keeps and posts. */
  lemma ProcessMessageDelivers(cfg: BridgeConfig, env: Env, s: Store, e: InboundEmail, d: Delivery)
    requires !DoesMessageExist(s, e.messageId) && ProcessMessage(cfg, env, s, e).Done?
    requires d in Plan(cfg, e)
    ensures var sent := ProcessMessage(cfg, env, s, e).state.actions;
            var segs := RoomSegments(env, e, d);
            var files := Posted(RoomAttachments(e, d));
            && (forall j :: 0 <= j < |segs| ==> exists a :: a in sent && SendsSegment(cfg, env, e, d, segs[j], KindAt(true, j), a))
            && (forall att :: att in files ==> exists a :: a in sent && SendsFile(cfg, env, d.room.roomId, att, a))
  {
    var ds := Plan(cfg, e);
    var deliver := (d: Delivery, s: State) => DeliverRoom(cfg, env, e, d, s);
    var r := RunAll(deliver, ds, State(s, []));
    assert ProcessMessage(cfg, env, s, e) == r;
    var k :| 0 <= k < |ds| && ds[k] == d;
    RunAllVisits(deliver, ds, State(s, []), k);
    var st :| deliver(ds[k], st).Done? && deliver(ds[k], st).state.actions <= r.state.actions;
    DeliverRoomDone(cfg, env, e, d, st, r.state.actions);
  }
}
