/** Room resolution (src/configUtils.ts): from a recipient address and the field it
    was found in, to the merged policies of the rooms that should receive the email. */
module ConfigUtils {
  import opened Results
  import opened Text
  import opened Seqs
  import opened Config

  /** `getRoomConfig`: no policy for a room without an entry in `roomConfigs`;
      otherwise the defaults overlaid key by key with the room's entry. */
  function GetRoomConfig(cfg: BridgeConfig, roomId: string): (r: Option<RoomConfig>)
    ensures r.None? <==> roomId !in cfg.roomConfigs
    ensures r.Some? ==> r.value.roomId == roomId
    ensures r.Some? && cfg.roomConfigs[roomId] == NoOverrides ==> r.value.settings == cfg.defaultRoomConfig
    ensures r.Some? ==> forall s :: cfg.roomConfigs[roomId] == OverrideAll(s) ==> r.value.settings == s
    ensures r.Some? ==> Overlays(cfg.defaultRoomConfig, cfg.roomConfigs[roomId], r.value.settings)
  {
    if roomId !in cfg.roomConfigs then None
    else Some(RoomConfig(roomId, Merge(cfg.defaultRoomConfig, cfg.roomConfigs[roomId])))
  }

  /** The room id the bridge derives from a local part: `!<first>:<rest>`, where the
      parts are separated by `_`; no room when there is no `_`. */
  function DerivedRoomId(local: string): (r: Option<string>)
    ensures r.None? <==> '_' !in local
    ensures r.Some? ==>
      var i := IndexOf(local, '_');
      r.value == "!" + local[..i] + ":" + local[i + 1..]
  {
    var parts := Split(local, '_');
    if |parts| < 2 then None
    else
      SplitAtFirst(local, '_');
      Some("!" + parts[0] + ":" + Join(parts[1..], "_"))
  }

  /** A local part with `_` derives the room `!<before first _>:<after first _>`. */
  lemma DerivedFromUnderscore(local: string)
    requires '_' in local
    ensures DerivedRoomId(local) == Some("!" + local[..IndexOf(local, '_')] + ":" + local[IndexOf(local, '_') + 1..])
  {
  }

  /** The policies `getRoomConfigsForTarget` collects before filtering by source:
      `None` is the early `return null` for a domain address without `_`, and each
      inner `None` is a room `getRoomConfig` found no entry for. */
  function Candidates(cfg: BridgeConfig, address: string): Option<seq<Option<RoomConfig>>>
  {
    if address in cfg.customMailTargets then
      var mapped := cfg.customMailTargets[address];
      Some(seq(|mapped|, k requires 0 <= k < |mapped| => GetRoomConfig(cfg, mapped[k])))
    else if EndsWith(address, "@" + cfg.domain) then
      match DerivedRoomId(Split(address, '@')[0])
      case None => None
      case Some(roomId) => Some([GetRoomConfig(cfg, roomId)])
    else
      Some([])
  }

  /** The present policies among the candidates that admit recipients of `source`. */
  function KeepForSource(cs: seq<Option<RoomConfig>>, source: Source): (r: seq<RoomConfig>)
    ensures forall c :: c in r <==> Some(c) in cs && UsesSource(c.settings, source)
  {
    if |cs| == 0 then []
    else
      var rest := KeepForSource(cs[1..], source);
      assert cs == [cs[0]] + cs[1..];
      if cs[0].Some? && UsesSource(cs[0].value.settings, source) then [cs[0].value] + rest
      else rest
  }

  /** The candidates' policies, with the missing ones left out. */
  function Present(cs: seq<Option<RoomConfig>>): seq<RoomConfig> {
    if |cs| == 0 then []
    else if cs[0].Some? then [cs[0].value] + Present(cs[1..])
    else Present(cs[1..])
  }

  /** Filtering keeps the candidates' order. */
  lemma {:induction false} KeepForSourceInOrder(cs: seq<Option<RoomConfig>>, source: Source)
    ensures IsSubsequence(KeepForSource(cs, source), Present(cs))
  {
    if |cs| > 0 {
      KeepForSourceInOrder(cs[1..], source);
      var rest := KeepForSource(cs[1..], source);
      if cs[0].Some? {
        if UsesSource(cs[0].value.settings, source) {
          SubsequenceCons(cs[0].value, rest, Present(cs[1..]));
        } else {
          SubsequenceSkip(cs[0].value, rest, Present(cs[1..]));
        }
      }
    }
  }

  /** `getRoomConfigsForTarget`: `None` is the source's `null`. */
  function GetRoomConfigsForTarget(cfg: BridgeConfig, address: string, source: Source): (r: Option<seq<RoomConfig>>)
    ensures r.Some? ==> forall c :: c in r.value ==> UsesSource(c.settings, source)
    ensures r.Some? ==> forall c :: c in r.value ==> GetRoomConfig(cfg, c.roomId) == Some(c)
  {
    match Candidates(cfg, address)
    case None => None
    case Some(cs) =>
      if |cs| == 0 then None
      else Some(KeepForSource(cs, source))
  }

  /** A mapped address is resolved through its mapping alone: the result is, in
      mapping order, the mapped rooms that have a policy admitting this source, and
      it is `null` only for an empty mapping. */
  lemma MappedAddress(cfg: BridgeConfig, address: string, source: Source)
    requires address in cfg.customMailTargets
    ensures var mapped := cfg.customMailTargets[address];
            var r := GetRoomConfigsForTarget(cfg, address, source);
            && (r.None? <==> |mapped| == 0)
            && (r.Some? ==> forall c :: c in r.value <==>
                  c.roomId in mapped && GetRoomConfig(cfg, c.roomId) == Some(c) && UsesSource(c.settings, source))
            && (r.Some? ==> IsSubsequence(r.value, Present(MappedConfigs(cfg, mapped))))
  {
    var mapped := cfg.customMailTargets[address];
    var cs := MappedConfigs(cfg, mapped);
    assert Candidates(cfg, address) == Some(cs);
    KeepForSourceInOrder(cs, source);
    forall c: RoomConfig | c.roomId in mapped && GetRoomConfig(cfg, c.roomId) == Some(c)
      ensures Some(c) in cs
    {
      var k :| 0 <= k < |mapped| && mapped[k] == c.roomId;
      assert cs[k] == Some(c);
    }
  }

  /** The policies of the mapped rooms, in mapping order. */
  function MappedConfigs(cfg: BridgeConfig, mapped: seq<string>): (cs: seq<Option<RoomConfig>>)
    ensures |cs| == |mapped|
    ensures forall k :: 0 <= k < |mapped| ==> cs[k] == GetRoomConfig(cfg, mapped[k])
  {
    seq(|mapped|, k requires 0 <= k < |mapped| => GetRoomConfig(cfg, mapped[k]))
  }

  /** A mapped address whose rooms all lack an entry resolves to the empty list, not
      to `null`. */
  lemma MappedWithoutPolicies(cfg: BridgeConfig, address: string, source: Source)
    requires address in cfg.customMailTargets
    requires |cfg.customMailTargets[address]| > 0
    requires forall k :: 0 <= k < |cfg.customMailTargets[address]| ==>
               cfg.customMailTargets[address][k] !in cfg.roomConfigs
    ensures GetRoomConfigsForTarget(cfg, address, source) == Some([])
  {
    MappedAddress(cfg, address, source);
  }

  /** An unmapped address `<local>@<domain>` whose local part holds `_` goes to the
      derived room `!<before first _>:<after first _>`, if that room has a policy
      admitting the source. */
  lemma DomainAddress(cfg: BridgeConfig, local: string, source: Source)
    requires '@' !in local && '_' in local
    requires local + "@" + cfg.domain !in cfg.customMailTargets
    ensures var i := IndexOf(local, '_');
            var roomId := "!" + local[..i] + ":" + local[i + 1..];
            var r := GetRoomConfigsForTarget(cfg, local + "@" + cfg.domain, source);
            r == if roomId in cfg.roomConfigs && UsesSource(GetRoomConfig(cfg, roomId).value.settings, source)
                 then Some([GetRoomConfig(cfg, roomId).value])
                 else Some([])
  {
    var address := local + "@" + cfg.domain;
    DomainLocalPart(cfg, local);
    var i := IndexOf(local, '_');
    var roomId := "!" + local[..i] + ":" + local[i + 1..];
    DerivedFromUnderscore(local);
    assert Candidates(cfg, address) == Some([GetRoomConfig(cfg, roomId)]);
    SingleCandidate(cfg, address, source, GetRoomConfig(cfg, roomId));
  }

  /** An address with one candidate resolves to that candidate's policy when it is
      present and admits the source, and to the empty list otherwise. */
  lemma SingleCandidate(cfg: BridgeConfig, address: string, source: Source, c: Option<RoomConfig>)
    requires Candidates(cfg, address) == Some([c])
    ensures GetRoomConfigsForTarget(cfg, address, source) ==
              if c.Some? && UsesSource(c.value.settings, source) then Some([c.value]) else Some([])
  {
    assert [c][1..] == [];
    assert KeepForSource([c], source) == if c.Some? && UsesSource(c.value.settings, source) then [c.value] else [];
  }

  /** An unmapped address in the domain whose local part has no `_` is invalid. */
  lemma DomainAddressWithoutUnderscore(cfg: BridgeConfig, local: string, source: Source)
    requires '@' !in local && '_' !in local
    requires local + "@" + cfg.domain !in cfg.customMailTargets
    ensures GetRoomConfigsForTarget(cfg, local + "@" + cfg.domain, source).None?
  {
    DomainLocalPart(cfg, local);
  }

  /** The local part of `<local>@<domain>` is `local`, when `local` has no `@`. */
  lemma DomainLocalPart(cfg: BridgeConfig, local: string)
    requires '@' !in local
    ensures EndsWith(local + "@" + cfg.domain, "@" + cfg.domain)
    ensures Split(local + "@" + cfg.domain, '@')[0] == local
  {
    var address := local + "@" + cfg.domain;
    assert address[|address| - |"@" + cfg.domain|..] == "@" + cfg.domain;
    assert address == local + ['@'] + cfg.domain;
    SplitHead(local, '@', cfg.domain);
  }

  /** An unmapped address outside the domain resolves to no room at all. */
  lemma ForeignAddress(cfg: BridgeConfig, address: string, source: Source)
    requires address !in cfg.customMailTargets
    requires !EndsWith(address, "@" + cfg.domain)
    ensures GetRoomConfigsForTarget(cfg, address, source).None?
  {
  }
}
