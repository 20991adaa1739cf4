/** The configuration tree the bridge reads (src/config.ts): the mail domain, the
    address-to-room table, the default room policy and the per-room overrides.
    The default policy is taken to carry every key. A template, DKIM or SPF verdict
    left out is modelled as the empty string, which the bridge's `||` and `if` tests
    treat like a missing value. */
module Config {
  import opened Results

  /** Where a recipient address was found in the email. */
  datatype Source = To | Cc | Bcc | Envelope

  /** The `antispam` block of a room policy. An absent `maxScore` behaves as 0. */
  datatype Antispam = Antispam(maxScore: real, blockFailedDkim: bool, blockFailedSpf: bool)

  /** The `attachments` block of a room policy. Absent type lists behave as empty
      ones (`allowedTypes || []`). `contentMapping` maps a MIME type to a message type. */
  datatype AttachmentPolicy = AttachmentPolicy(
    post: bool,
    allowAllTypes: bool,
    contentMapping: map<string, string>,
    allowedTypes: seq<string>,
    blockedTypes: seq<string>)

  /** A complete room policy: every key of `IRoomConfig`. */
  datatype RoomSettings = RoomSettings(
    allowFromAnyone: bool,
    allowedSenders: seq<string>,
    blockedSenders: seq<string>,
    skipDatabase: bool,
    useCcAsTarget: bool,
    useBccAsTarget: bool,
    useToAsTarget: bool,
    useEnvelopeToAsTarget: bool,
    plaintextOnly: bool,
    attachments: AttachmentPolicy,
    postReplies: bool,
    messageFormat: string,
    fragmentFormat: string,
    messagePlainFormat: string,
    fragmentPlainFormat: string,
    antispam: Option<Antispam>)

  /** The keys one room's entry in `roomConfigs` sets; `None` is a key it leaves out.
      Nested blocks are single keys: an override replaces the whole block. */
  datatype RoomOverrides = RoomOverrides(
    allowFromAnyone: Option<bool>,
    allowedSenders: Option<seq<string>>,
    blockedSenders: Option<seq<string>>,
    skipDatabase: Option<bool>,
    useCcAsTarget: Option<bool>,
    useBccAsTarget: Option<bool>,
    useToAsTarget: Option<bool>,
    useEnvelopeToAsTarget: Option<bool>,
    plaintextOnly: Option<bool>,
    attachments: Option<AttachmentPolicy>,
    postReplies: Option<bool>,
    messageFormat: Option<string>,
    fragmentFormat: Option<string>,
    messagePlainFormat: Option<string>,
    fragmentPlainFormat: Option<string>,
    antispam: Option<Option<Antispam>>)

  /** A merged policy annotated with the room it belongs to (`IAnnotatedRoomConfig`). */
  datatype RoomConfig = RoomConfig(roomId: string, settings: RoomSettings)

  /** The parts of `IConfig` the routing engine reads. */
  datatype BridgeConfig = BridgeConfig(
    domain: string,
    customMailTargets: map<string, seq<string>>,
    defaultRoomConfig: RoomSettings,
    roomConfigs: map<string, RoomOverrides>)

  /** An override entry that sets no key at all. */
  const NoOverrides := RoomOverrides(None, None, None, None, None, None, None, None,
                                     None, None, None, None, None, None, None, None)

  /** An override entry that sets every key to the value it has in `s`. */
  function OverrideAll(s: RoomSettings): RoomOverrides {
    RoomOverrides(Some(s.allowFromAnyone), Some(s.allowedSenders), Some(s.blockedSenders),
                  Some(s.skipDatabase), Some(s.useCcAsTarget), Some(s.useBccAsTarget),
                  Some(s.useToAsTarget), Some(s.useEnvelopeToAsTarget), Some(s.plaintextOnly),
                  Some(s.attachments), Some(s.postReplies), Some(s.messageFormat),
                  Some(s.fragmentFormat), Some(s.messagePlainFormat), Some(s.fragmentPlainFormat),
                  Some(s.antispam))
  }

  /** `Object.assign({}, defaults, overrides)`: a shallow, key-by-key merge. */
  function Merge(d: RoomSettings, o: RoomOverrides): RoomSettings {
    RoomSettings(
      o.allowFromAnyone.GetOr(d.allowFromAnyone),
      o.allowedSenders.GetOr(d.allowedSenders),
      o.blockedSenders.GetOr(d.blockedSenders),
      o.skipDatabase.GetOr(d.skipDatabase),
      o.useCcAsTarget.GetOr(d.useCcAsTarget),
      o.useBccAsTarget.GetOr(d.useBccAsTarget),
      o.useToAsTarget.GetOr(d.useToAsTarget),
      o.useEnvelopeToAsTarget.GetOr(d.useEnvelopeToAsTarget),
      o.plaintextOnly.GetOr(d.plaintextOnly),
      o.attachments.GetOr(d.attachments),
      o.postReplies.GetOr(d.postReplies),
      o.messageFormat.GetOr(d.messageFormat),
      o.fragmentFormat.GetOr(d.fragmentFormat),
      o.messagePlainFormat.GetOr(d.messagePlainFormat),
      o.fragmentPlainFormat.GetOr(d.fragmentPlainFormat),
      o.antispam.GetOr(d.antispam))
  }

  /** The value `v` of one key after an entry `o` is laid over the default `d`: the
      entry's value when it sets the key, the default otherwise. */
  predicate Takes<T(==)>(o: Option<T>, d: T, v: T) {
    v == o.GetOr(d)
  }

  /** `s` is the default policy `d` overlaid key by key with the entry `o`. The
      `attachments` and `antispam` blocks are single keys: an entry that sets one
      replaces the whole block. */
  predicate Overlays(d: RoomSettings, o: RoomOverrides, s: RoomSettings) {
    && Takes(o.allowFromAnyone, d.allowFromAnyone, s.allowFromAnyone)
    && Takes(o.allowedSenders, d.allowedSenders, s.allowedSenders)
    && Takes(o.blockedSenders, d.blockedSenders, s.blockedSenders)
    && Takes(o.skipDatabase, d.skipDatabase, s.skipDatabase)
    && Takes(o.useCcAsTarget, d.useCcAsTarget, s.useCcAsTarget)
    && Takes(o.useBccAsTarget, d.useBccAsTarget, s.useBccAsTarget)
    && Takes(o.useToAsTarget, d.useToAsTarget, s.useToAsTarget)
    && Takes(o.useEnvelopeToAsTarget, d.useEnvelopeToAsTarget, s.useEnvelopeToAsTarget)
    && Takes(o.plaintextOnly, d.plaintextOnly, s.plaintextOnly)
    && Takes(o.attachments, d.attachments, s.attachments)
    && Takes(o.postReplies, d.postReplies, s.postReplies)
    && Takes(o.messageFormat, d.messageFormat, s.messageFormat)
    && Takes(o.fragmentFormat, d.fragmentFormat, s.fragmentFormat)
    && Takes(o.messagePlainFormat, d.messagePlainFormat, s.messagePlainFormat)
    && Takes(o.fragmentPlainFormat, d.fragmentPlainFormat, s.fragmentPlainFormat)
    && Takes(o.antispam, d.antispam, s.antispam)
  }

  /** The merge overlays the entry on the defaults. */
  lemma MergeOverlays(d: RoomSettings, o: RoomOverrides)
    ensures Overlays(d, o, Merge(d, o))
  {
  }

  /** The merge is the only policy that overlays the entry on the defaults. */
  lemma OverlayIsMerge(d: RoomSettings, o: RoomOverrides, s: RoomSettings)
    requires Overlays(d, o, s)
    ensures s == Merge(d, o)
  {
  }

  /** The policy flag that admits recipients found in `source`. */
  function UsesSource(s: RoomSettings, source: Source): bool {
    match source
    case To => s.useToAsTarget
    case Cc => s.useCcAsTarget
    case Bcc => s.useBccAsTarget
    case Envelope => s.useEnvelopeToAsTarget
  }
}
