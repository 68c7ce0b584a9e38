/**
 * `DecodedPacketPayload::from`, `from_entity_method`, `from_entity_info` and
 * `DecodedPacket::from` of parser/src/analyzer/decoder.rs.
 *
 * A decode that would panic in the source is an `Err` here.
 */
module Decoder {
  import opened Wrappers
  import opened Ints
  import Utf8
  import Text
  import Pickle
  import Packets
  import opened Decoded
  import Arena

  // ------------------------------------------------------------ closed codes

  /** The camera-mode codes with a name. */
  predicate NamedCameraMode(code: int)
  {
    code == 3 || code == 5 || code == 6 || code == 8 || code == 9 || code == 11
  }

  function CameraModeOf(code: u32): CameraMode
  {
    match code
    case 3 => OverheadMap
    case 5 => FollowingShells
    case 6 => FollowingPlanes
    case 8 => FollowingShip
    case 9 => FreeFlying
    case 11 => FollowingSubmarine
    case _ => CameraMode.Unknown(code)
  }

  /** The code of each camera mode: the inverse of `CameraModeOf`. */
  function CameraModeCode(mode: CameraMode): u32
  {
    match mode
    case OverheadMap => 3
    case FollowingShells => 5
    case FollowingPlanes => 6
    case FollowingShip => 8
    case FreeFlying => 9
    case FollowingSubmarine => 11
    case Unknown(code) => code
  }

  /** The cruise-state keys with a name. */
  function CruiseStateOf(key: u32): CruiseState
  {
    match key
    case 0 => Throttle
    case 1 => Rudder
    case 2 => DiveDepth
    case _ => CruiseState.Unknown(key)
  }

  /** The key of each cruise state: the inverse of `CruiseStateOf`. */
  function CruiseStateKey(state: CruiseState): u32
  {
    match state
    case Throttle => 0
    case Rudder => 1
    case DiveDepth => 2
    case Unknown(key) => key
  }

  lemma CameraModeCodeOf(code: u32)
    ensures CameraModeCode(CameraModeOf(code)) == code
    ensures CameraModeOf(code).Unknown? <==> !NamedCameraMode(code)
  {
  }

  /** Every mode but an `Unknown` holding a named code is what its code decodes to. */
  lemma CameraModeOfCode(mode: CameraMode)
    requires mode.Unknown? ==> !NamedCameraMode(mode.code)
    ensures CameraModeOf(CameraModeCode(mode)) == mode
  {
  }

  lemma CruiseStateKeyOf(key: u32)
    ensures CruiseStateKey(CruiseStateOf(key)) == key
    ensures CruiseStateOf(key).Unknown? <==> key > 2
  {
  }

  lemma CruiseStateOfKey(state: CruiseState)
    requires state.Unknown? ==> state.key > 2
    ensures CruiseStateOf(CruiseStateKey(state)) == state
  {
  }

  // ------------------------------------------------------------ constants

  /** The 4x4 identity matrix of little-endian f32s, 1.0 being `00 00 80 3F`. */
  const UNIT_MATRIX: seq<byte> := [
    0, 0, 128, 63, 0, 0, 0, 0, 0, 0, 0, 0, 0, 0, 0, 0, 0, 0, 0, 0,
    0, 0, 128, 63, 0, 0, 0, 0, 0, 0, 0, 0, 0, 0, 0, 0, 0, 0, 0, 0,
    0, 0, 128, 63, 0, 0, 0, 0, 0, 0, 0, 0, 0, 0, 0, 0, 0, 0, 0, 0,
    0, 0, 128, 63]

  /** The payload every camera packet of type 0x18 is expected to carry: ten f32s 0.0 and three -1.0. */
  const CAMERA_18: seq<byte> := [
    0, 0, 0, 0, 0, 0, 0, 0, 0, 0, 0, 0, 0, 0, 0, 0, 0, 0, 0, 0,
    0, 0, 0, 0, 0, 0, 0, 0, 0, 0, 0, 0, 0, 0, 0, 0, 0, 0, 0, 0,
    0, 0, 0x80, 0xBF, 0, 0, 0x80, 0xBF, 0, 0, 0x80, 0xBF]

  const CAMERA_18_TYPE: u32 := 0x18

  // ------------------------------------------------------------ audit texts

  /** `format!("{:?}", bytes)`: the numbers between brackets, separated by ", ". */
  function ShowBytes(bytes: seq<byte>): string
  {
    "[" + ShowItems(bytes) + "]"
  }

  function ShowItems(bytes: seq<byte>): string
  {
    if bytes == [] then ""
    else if |bytes| == 1 then Text.NatToString(bytes[0])
    else Text.NatToString(bytes[0]) + ", " + ShowItems(bytes[1..])
  }

  function CameraModeAudit(code: u32): string
  {
    "CameraMode(" + Text.NatToString(code) + ")"
  }

  function FreeLookAudit(freeLook: u8): string
  {
    "CameraFreeLook(" + Text.NatToString(freeLook) + ")"
  }

  function CruiseStateAudit(cs: Packets.CruiseStatePacket): string
  {
    "CruiseState(unknown=" + Text.NatToString(cs.key) + ", " + Text.IntToString(cs.value) + ")"
  }

  function MapUnknownAudit(unknown: u8): string
  {
    "Map: Unknown bool is not a bool (is " + Text.NatToString(unknown) + ")"
  }

  function MapMatrixAudit(matrix: seq<byte>): string
  {
    "Map: Unit matrix is not a unit matrix (is " + ShowBytes(matrix) + ")"
  }

  const CAMERA_18_AUDIT: string := "Camera18 unexpected value!"

  // ------------------------------------------------------------ entity methods

  /** `onChatMessageRegular`: the sender, the audience and the message, checked in the source's order. */
  function ChatOf(em: Packets.EntityMethodPacket): Result<Payload, DecodeError>
  {
    var args := em.args;
    if |args| < 2 then Err(MissingArg(1))
    else if !args[1].String? then Err(WrongArgKind(1))
    else if |args| < 3 then Err(MissingArg(2))
    else if !args[2].String? then Err(WrongArgKind(2))
    else if !args[0].Int32? then Err(WrongArgKind(0))
    else match Utf8.Decode(args[1].bytes)
      case None => Err(ArgNotUtf8(1))
      case Some(audience) =>
        match Utf8.Decode(args[2].bytes)
        case None => Err(ArgNotUtf8(2))
        case Some(message) => Ok(Payload.Chat(em.entityId, args[0].i32, audience, message))
  }

  /**
   * Both directions: a chat packet decodes to `Chat(e, s, a, m)` exactly when it
   * comes from entity `e` and its first three arguments are the sender `s` and
   * the UTF-8 encodings of `a` and `m`.
   */
  lemma ChatOfIff(em: Packets.EntityMethodPacket, e: u32, s: i32, a: string, m: string)
    ensures ChatOf(em) == Ok(Payload.Chat(e, s, a, m)) <==>
      e == em.entityId && |em.args| >= 3 && em.args[0] == Packets.Int32(s)
      && em.args[1] == Packets.String(Utf8.Encode(a)) && em.args[2] == Packets.String(Utf8.Encode(m))
  {
    if |em.args| >= 3 && em.args[1].String? && em.args[2].String? {
      Utf8.ValidIffEncoding(em.args[1].bytes, a);
      Utf8.ValidIffEncoding(em.args[2].bytes, m);
    }
  }

  /** Every chat packet that decodes gives a `Chat`, and one that fails names the argument at fault. */
  lemma ChatOfFails(em: Packets.EntityMethodPacket)
    ensures ChatOf(em).Ok? ==> ChatOf(em).value.Chat?
    ensures ChatOf(em) == Err(ArgNotUtf8(1)) <==>
      |em.args| >= 3 && em.args[0].Int32? && em.args[1].String? && em.args[2].String?
      && !Utf8.Valid(em.args[1].bytes)
    ensures ChatOf(em) == Err(WrongArgKind(0)) <==>
      |em.args| >= 3 && em.args[1].String? && em.args[2].String? && !em.args[0].Int32?
  {
  }

  /** A blob argument, unpickled. */
  function BlobArg(args: seq<Packets.ArgValue>, i: nat, codecs: Packets.Codecs): Result<Pickle.Value, DecodeError>
  {
    if |args| <= i then Err(MissingArg(i))
    else if !args[i].Blob? then Err(WrongArgKind(i))
    else match codecs.unpickle(args[i].bytes)
      case None => Err(PickleUnreadable(i))
      case Some(v) => Ok(v)
  }

  /**
   * `onArenaStateReceived`: an i64 and an i8, the per-entity snapshots of the
   * first blob (a dictionary) and the players of the second (normalised first).
   */
  function ArenaStateOf(em: Packets.EntityMethodPacket, codecs: Packets.Codecs): Result<Payload, DecodeError>
  {
    var args := em.args;
    if |args| < 1 then Err(MissingArg(0))
    else if !args[0].Int64? then Err(WrongArgKind(0))
    else if |args| < 2 then Err(MissingArg(1))
    else if !args[1].Int8? then Err(WrongArgKind(1))
    else
      var snapshots :- BlobArg(args, 2, codecs);
      if !snapshots.Dict? then Err(UnexpectedShape)
      else
        var arg2 :- Arena.Snapshots(snapshots.entries, codecs.show, map[]);
        var roster :- BlobArg(args, 3, codecs);
        var players :- Arena.Players(Pickle.Convert(roster), codecs.show);
        Ok(OnArenaStateReceived(args[0].i64, args[1].i8, arg2, players))
  }

  const CHAT_METHOD: string := "onChatMessageRegular"
  const ARENA_METHOD: string := "onArenaStateReceived"

  /** `from_entity_method`: the two methods it understands, every other one passed on as it came. */
  function EntityMethodPayload(em: Packets.EntityMethodPacket, codecs: Packets.Codecs): Result<Payload, DecodeError>
  {
    if em.methodName == CHAT_METHOD then ChatOf(em)
    else if em.methodName == ARENA_METHOD then ArenaStateOf(em, codecs)
    else Ok(Payload.EntityMethod(em))
  }

  /** `from_entity_method`, with the loops of its arena-state branch. */
  method FromEntityMethod(em: Packets.EntityMethodPacket, codecs: Packets.Codecs)
    returns (r: Result<Payload, DecodeError>)
    ensures r == EntityMethodPayload(em, codecs)
  {
    if em.methodName == CHAT_METHOD {
      return ChatOf(em);
    }
    if em.methodName != ARENA_METHOD {
      return Ok(Payload.EntityMethod(em));
    }
    var args := em.args;
    if |args| < 1 { return Err(MissingArg(0)); }
    if !args[0].Int64? { return Err(WrongArgKind(0)); }
    if |args| < 2 { return Err(MissingArg(1)); }
    if !args[1].Int8? { return Err(WrongArgKind(1)); }
    var snapshots := BlobArg(args, 2, codecs);
    if snapshots.Err? { return Err(snapshots.error); }
    if !snapshots.value.Dict? { return Err(UnexpectedShape); }
    var arg2 := Arena.CollectSnapshots(snapshots.value.entries, codecs.show);
    if arg2.Err? { return Err(arg2.error); }
    var roster := BlobArg(args, 3, codecs);
    if roster.Err? { return Err(roster.error); }
    var players := Arena.CollectPlayers(Pickle.Convert(roster.value), codecs.show);
    if players.Err? { return Err(players.error); }
    return Ok(OnArenaStateReceived(args[0].i64, args[1].i8, arg2.value, players.value));
  }

  /** Any other method name yields the very same packet. */
  lemma OtherMethodPassesThrough(em: Packets.EntityMethodPacket, codecs: Packets.Codecs)
    ensures EntityMethodPayload(em, codecs) == Ok(Payload.EntityMethod(em)) <==>
      em.methodName != CHAT_METHOD && em.methodName != ARENA_METHOD
  {
    if em.methodName == CHAT_METHOD {
      ChatOfFails(em);
    }
  }

  /** The roster blob of an arena-state packet, normalised. */
  function Roster(em: Packets.EntityMethodPacket, codecs: Packets.Codecs): Pickle.Value
    requires BlobArg(em.args, 3, codecs).Ok?
  {
    Pickle.Convert(BlobArg(em.args, 3, codecs).value)
  }

  /** An arena-state packet that decodes carries its first two arguments and one player per roster element. */
  lemma ArenaStatePlayers(em: Packets.EntityMethodPacket, codecs: Packets.Codecs)
    requires ArenaStateOf(em, codecs).Ok?
    ensures ArenaStateOf(em, codecs).value.OnArenaStateReceived?
    ensures em.args[0] == Packets.Int64(ArenaStateOf(em, codecs).value.arg0)
    ensures em.args[1] == Packets.Int8(ArenaStateOf(em, codecs).value.arg1)
    ensures BlobArg(em.args, 3, codecs).Ok?
    ensures !Roster(em, codecs).List? ==> ArenaStateOf(em, codecs).value.players == []
    ensures Roster(em, codecs).List? ==>
      |ArenaStateOf(em, codecs).value.players| == |Roster(em, codecs).items|
    ensures Roster(em, codecs).List? ==>
      forall i :: 0 <= i < |Roster(em, codecs).items| ==>
        Arena.PlayerOfElement(Roster(em, codecs).items[i], codecs.show) == Ok(ArenaStateOf(em, codecs).value.players[i])
  {
    Arena.PlayersOnePerElement(Roster(em, codecs), codecs.show);
  }

  // ------------------------------------------------------------ entity info

  const NAME: int := PropertyId(Name)
  const CLAN_TAG: int := PropertyId(ClanTag)
  const AVATAR_ID: int := PropertyId(AvatarId)
  const SHIP_ID: int := PropertyId(ShipId)
  const PLAYER_ID: int := PropertyId(Id)
  const TEAM_ID: int := PropertyId(TeamId)
  const MAX_HEALTH: int := PropertyId(MaxHealth)

  /** The record of one entity that is not a bot: seven properties read as a string or a u32. */
  function PlayerOfEntity(entity: Packets.Entity): Result<ReceivedPlayer, DecodeError>
  {
    var data := entity.data;
    if NAME !in data then Err(MissingProperty(NAME))
    else if CLAN_TAG !in data then Err(MissingProperty(CLAN_TAG))
    else if AVATAR_ID !in data then Err(MissingProperty(AVATAR_ID))
    else if SHIP_ID !in data then Err(MissingProperty(SHIP_ID))
    else if PLAYER_ID !in data then Err(MissingProperty(PLAYER_ID))
    else if TEAM_ID !in data then Err(MissingProperty(TEAM_ID))
    else if MAX_HEALTH !in data then Err(MissingProperty(MAX_HEALTH))
    else Ok(ReceivedPlayer(
      data[NAME].asString, data[CLAN_TAG].asString, data[AVATAR_ID].asU32, data[SHIP_ID].asU32,
      data[PLAYER_ID].asU32, data[TEAM_ID].asU32, data[MAX_HEALTH].asU32, map[]))
  }

  /** `from_entity_info`: the entities that are not bots, each made a record, in order. */
  function EntityInfoPlayers(entities: seq<Packets.Entity>): Result<seq<ReceivedPlayer>, DecodeError>
  {
    if entities == [] then Ok([])
    else if entities[0].isBot then EntityInfoPlayers(entities[1..])
    else
      var first :- PlayerOfEntity(entities[0]);
      var rest :- EntityInfoPlayers(entities[1..]);
      Ok([first] + rest)
  }

  /** The entities that are not bots, in order. */
  function NonBots(entities: seq<Packets.Entity>): seq<Packets.Entity>
  {
    if entities == [] then []
    else (if entities[0].isBot then [] else [entities[0]]) + NonBots(entities[1..])
  }

  lemma {:induction false} NonBotsAreNotBots(entities: seq<Packets.Entity>)
    ensures forall e :: e in NonBots(entities) <==> e in entities && !e.isBot
  {
    if entities != [] {
      NonBotsAreNotBots(entities[1..]);
      assert entities == [entities[0]] + entities[1..];
    }
  }

  /** Reading the entities is mapping `PlayerOfEntity` over those that are not bots. */
  lemma {:induction false} EntityInfoIsMap(entities: seq<Packets.Entity>)
    ensures EntityInfoPlayers(entities) == Arena.TryMap(NonBots(entities), PlayerOfEntity, [])
  {
    if entities != [] {
      var rest := entities[1..];
      EntityInfoIsMap(rest);
      if !entities[0].isBot {
        assert NonBots(entities) == [entities[0]] + NonBots(rest);
        assert NonBots(entities)[0] == entities[0] && NonBots(entities)[1..] == NonBots(rest);
        if PlayerOfEntity(entities[0]).Ok? {
          var first := PlayerOfEntity(entities[0]).value;
          assert Arena.TryMap(NonBots(entities), PlayerOfEntity, []) == Arena.TryMap(NonBots(rest), PlayerOfEntity, [first])
            by { assert [] + [first] == [first]; }
          Arena.TryMapAcc(NonBots(rest), PlayerOfEntity, [first]);
        }
      } else {
        assert NonBots(entities) == NonBots(rest);
      }
    }
  }

  /**
   * One record per entity that is not a bot, in input order, each with an
   * empty `raw`; bots are dropped, and the whole fails when one of the others does.
   */
  lemma EntityInfoKeepsNonBots(entities: seq<Packets.Entity>)
    ensures EntityInfoPlayers(entities).Ok? <==>
      forall i :: 0 <= i < |NonBots(entities)| ==> PlayerOfEntity(NonBots(entities)[i]).Ok?
    ensures EntityInfoPlayers(entities).Ok? ==>
      |EntityInfoPlayers(entities).value| == |NonBots(entities)|
    ensures EntityInfoPlayers(entities).Ok? ==>
      forall i :: 0 <= i < |NonBots(entities)| ==>
        EntityInfoPlayers(entities).value[i] == PlayerOfEntity(NonBots(entities)[i]).value
        && EntityInfoPlayers(entities).value[i].raw == map[]
  {
    EntityInfoIsMap(entities);
    Arena.TryMapSucceeds(NonBots(entities), PlayerOfEntity);
  }

  /** A record read from an entity holds the entity's properties. */
  lemma PlayerOfEntityReads(entity: Packets.Entity)
    ensures PlayerOfEntity(entity).Ok? <==>
      NAME in entity.data && CLAN_TAG in entity.data && AVATAR_ID in entity.data && SHIP_ID in entity.data
      && PLAYER_ID in entity.data && TEAM_ID in entity.data && MAX_HEALTH in entity.data
    ensures PlayerOfEntity(entity).Ok? ==>
      var p := PlayerOfEntity(entity).value;
      p.username == entity.data[NAME].asString && p.clan == entity.data[CLAN_TAG].asString
      && p.avatarid == entity.data[AVATAR_ID].asU32 && p.shipid == entity.data[SHIP_ID].asU32
      && p.playerid == entity.data[PLAYER_ID].asU32 && p.teamid == entity.data[TEAM_ID].asU32
      && p.health == entity.data[MAX_HEALTH].asU32 && p.raw == map[]
  {
  }

  // ------------------------------------------------------------ payloads

  function CameraModePayload(audit: bool, code: u32): Payload
  {
    if NamedCameraMode(code) || !audit then Payload.CameraMode(CameraModeOf(code))
    else Audit(CameraModeAudit(code))
  }

  function FreeLookPayload(audit: bool, freeLook: u8): Payload
  {
    if freeLook == 0 then Payload.CameraFreeLook(false)
    else if freeLook == 1 || !audit then Payload.CameraFreeLook(true)
    else Audit(FreeLookAudit(freeLook))
  }

  function CruiseStatePayload(audit: bool, cs: Packets.CruiseStatePacket): Payload
  {
    if cs.key <= 2 || !audit then Payload.CruiseState(CruiseStateOf(cs.key), cs.value)
    else Audit(CruiseStateAudit(cs))
  }

  function MapPayload(audit: bool, m: Packets.MapPacket): Payload
  {
    if audit && m.unknown != 0 && m.unknown != 1 then Audit(MapUnknownAudit(m.unknown))
    else if audit && m.matrix != UNIT_MATRIX then Audit(MapMatrixAudit(m.matrix))
    else Payload.Map(m)
  }

  function UnknownPayload(audit: bool, u: seq<byte>, packetType: u32): Payload
  {
    if packetType == CAMERA_18_TYPE && audit && u != CAMERA_18 then Audit(CAMERA_18_AUDIT)
    else Payload.Unknown(u)
  }

  function EntityInfoPayload(info: Packets.EntityInfoPacket): Result<Payload, DecodeError>
  {
    var players :- EntityInfoPlayers(info.entities);
    Ok(Payload.EntityInfo(players))
  }

  /** `DecodedPacketPayload::from`. */
  function PayloadOf(audit: bool, payload: Packets.PacketType, packetType: u32, codecs: Packets.Codecs)
    : Result<Payload, DecodeError>
  {
    match payload
    case EntityMethod(em) => EntityMethodPayload(em, codecs)
    case Camera(camera) => Ok(Payload.Camera(camera))
    case CameraMode(code) => Ok(CameraModePayload(audit, code))
    case CameraFreeLook(freeLook) => Ok(FreeLookPayload(audit, freeLook))
    case CruiseState(cs) => Ok(CruiseStatePayload(audit, cs))
    case Map(m) => Ok(MapPayload(audit, m))
    case EntityProperty(p) => Ok(Payload.EntityProperty(p))
    case Position(p) => Ok(Payload.Position(p))
    case PlayerOrientation(p) => Ok(Payload.PlayerOrientation(p))
    case BasePlayerCreate(b) => Ok(Payload.BasePlayerCreate(b))
    case CellPlayerCreate(c) => Ok(Payload.CellPlayerCreate(c))
    case EntityEnter(e) => Ok(Payload.EntityEnter(e))
    case EntityLeave(e) => Ok(Payload.EntityLeave(e))
    case EntityCreate(e) => Ok(Payload.EntityCreate(e))
    case PropertyUpdate(u) => Ok(Payload.PropertyUpdate(u))
    case Version(v) => Ok(Payload.Version(v))
    case EntityInfo(info) => EntityInfoPayload(info)
    case Unknown(u) => Ok(UnknownPayload(audit, u, packetType))
    case Invalid(u) => Ok(Payload.Invalid(u))
  }

  /** `DecodedPacket::from`: the type and the clock copied, the payload decoded. */
  function DecodePacket(audit: bool, packet: Packets.Packet, codecs: Packets.Codecs): Result<DecodedPacket, DecodeError>
  {
    var payload :- PayloadOf(audit, packet.payload, packet.packetType, codecs);
    Ok(DecodedPacket(packet.packetType, packet.clock, payload))
  }

  // ------------------------------------------------------------ properties

  /**
   * A camera-mode code never fails: it is the mode with that code, which is
   * `Unknown` exactly for the codes without a name, or an `Audit` diagnostic
   * exactly when auditing a code without a name.
   */
  lemma CameraModeDecoded(audit: bool, code: u32, packetType: u32, codecs: Packets.Codecs)
    ensures var r := PayloadOf(audit, Packets.CameraMode(code), packetType, codecs);
      r.Ok?
      && (r.value.Audit? <==> audit && !NamedCameraMode(code))
      && (!r.value.Audit? ==> r.value.CameraMode? && CameraModeCode(r.value.mode) == code
                              && (r.value.mode.Unknown? <==> !NamedCameraMode(code)))
  {
    CameraModeCodeOf(code);
  }

  lemma CameraModeTable(audit: bool, packetType: u32, codecs: Packets.Codecs)
    ensures PayloadOf(audit, Packets.CameraMode(3), packetType, codecs) == Ok(Payload.CameraMode(OverheadMap))
    ensures PayloadOf(audit, Packets.CameraMode(5), packetType, codecs) == Ok(Payload.CameraMode(FollowingShells))
    ensures PayloadOf(audit, Packets.CameraMode(6), packetType, codecs) == Ok(Payload.CameraMode(FollowingPlanes))
    ensures PayloadOf(audit, Packets.CameraMode(8), packetType, codecs) == Ok(Payload.CameraMode(FollowingShip))
    ensures PayloadOf(audit, Packets.CameraMode(9), packetType, codecs) == Ok(Payload.CameraMode(FreeFlying))
    ensures PayloadOf(audit, Packets.CameraMode(11), packetType, codecs) == Ok(Payload.CameraMode(FollowingSubmarine))
  {
  }

  /** Free-look 0 is off, 1 is on, and any other value on, or an `Audit` when auditing. */
  lemma FreeLookDecoded(audit: bool, freeLook: u8, packetType: u32, codecs: Packets.Codecs)
    ensures var r := PayloadOf(audit, Packets.CameraFreeLook(freeLook), packetType, codecs);
      r.Ok?
      && (r.value.Audit? <==> audit && freeLook > 1)
      && (!r.value.Audit? ==> r.value == Payload.CameraFreeLook(freeLook != 0))
  {
  }

  /** A cruise-state key gives the state with that key, `Unknown` past 2, and the value unchanged; or an `Audit`. */
  lemma CruiseStateDecoded(audit: bool, cs: Packets.CruiseStatePacket, packetType: u32, codecs: Packets.Codecs)
    ensures var r := PayloadOf(audit, Packets.CruiseState(cs), packetType, codecs);
      r.Ok?
      && (r.value.Audit? <==> audit && cs.key > 2)
      && (!r.value.Audit? ==> r.value.CruiseState? && r.value.value == cs.value
                              && CruiseStateKey(r.value.state) == cs.key
                              && (r.value.state.Unknown? <==> cs.key > 2))
  {
    CruiseStateKeyOf(cs.key);
  }

  /** Without auditing, no payload is an `Audit`. */
  lemma NoAuditWithoutFlag(payload: Packets.PacketType, packetType: u32, codecs: Packets.Codecs)
    ensures PayloadOf(false, payload, packetType, codecs).Ok? ==> !PayloadOf(false, payload, packetType, codecs).value.Audit?
  {
    if payload.EntityMethod? {
      var em := payload.em;
      if em.methodName == CHAT_METHOD {
        ChatOfFails(em);
      }
    }
  }

  /** When auditing, a map is diverted exactly when its flag is not 0 or 1 or its matrix is not the identity. */
  lemma MapAudited(m: Packets.MapPacket, packetType: u32, codecs: Packets.Codecs)
    ensures PayloadOf(true, Packets.Map(m), packetType, codecs).value.Audit? <==>
      (m.unknown != 0 && m.unknown != 1) || m.matrix != UNIT_MATRIX
    ensures PayloadOf(false, Packets.Map(m), packetType, codecs) == Ok(Payload.Map(m))
  {
  }

  /** When auditing, an unknown packet is diverted exactly when it is of type 0x18 and its bytes are not the expected ones. */
  lemma UnknownAudited(u: seq<byte>, packetType: u32, codecs: Packets.Codecs)
    ensures PayloadOf(true, Packets.Unknown(u), packetType, codecs).value.Audit? <==>
      packetType == CAMERA_18_TYPE && u != CAMERA_18
    ensures PayloadOf(false, Packets.Unknown(u), packetType, codecs) == Ok(Payload.Unknown(u))
  {
  }

  /** The flag changes nothing but the five kinds it can divert, and where it changes something the result is an `Audit`. */
  lemma AuditOnlyDiverts(payload: Packets.PacketType, packetType: u32, codecs: Packets.Codecs)
    ensures PayloadOf(true, payload, packetType, codecs) != PayloadOf(false, payload, packetType, codecs) ==>
      (payload.CameraMode? || payload.CameraFreeLook? || payload.CruiseState? || payload.Map? || payload.Unknown?)
      && PayloadOf(true, payload, packetType, codecs).Ok?
      && PayloadOf(true, payload, packetType, codecs).value.Audit?
  {
  }

  /** A decoded packet keeps the type and clock of the packet. */
  lemma DecodePacketKeepsFrame(audit: bool, packet: Packets.Packet, codecs: Packets.Codecs)
    ensures DecodePacket(audit, packet, codecs).Ok? <==> PayloadOf(audit, packet.payload, packet.packetType, codecs).Ok?
    ensures DecodePacket(audit, packet, codecs).Ok? ==>
      DecodePacket(audit, packet, codecs).value.packetType == packet.packetType
      && DecodePacket(audit, packet, codecs).value.clock == packet.clock
      && DecodePacket(audit, packet, codecs).value.payload == PayloadOf(audit, packet.payload, packet.packetType, codecs).value
  {
  }
}
