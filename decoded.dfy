/**
 * What the decoder of parser/src/analyzer/decoder.rs produces: the closed
 * enumerations, the player record, `DecodedPacketPayload` and
 * `DecodedPacket`, and the ways a decode can fail (each a `panic!` or an
 * `unwrap` of the source).
 */
module Decoded {
  import opened Wrappers
  import opened Ints
  import Packets

  datatype VoiceLine =
    | IntelRequired
    | FairWinds
    | Wilco
    | Negative
    | WellDone
    | Curses
    | UsingRadar
    | UsingHydroSearch
    | DefendTheBase
    | SetSmokeScreen
    | ProvideAntiAircraft
    | RequestingSupport(supported: Option<u32>)
    | Retreat(retreating: Option<i32>)
    | AttentionToSquare(letter: u32, number: u32)
    | ConcentrateFire(target: i32)

  datatype Ribbon =
    | PlaneShotDown | Incapacitation | SetFire | Citadel | SecondaryHit
    | OverPenetration | Penetration | NonPenetration | Ricochet | TorpedoProtectionHit
    | Captured | AssistedInCapture | Spotted | Destroyed | TorpedoHit
    | Defended | Flooding | DiveBombPenetration | RocketPenetration | RocketNonPenetration
    | RocketTorpedoProtectionHit | DepthChargeHit | ShotDownByAircraft | BuffSeized | SonarOneHit
    | SonarTwoHits | SonarNeutralized
    | Unknown(code: i8)

  datatype DeathCause =
    | Secondaries | Artillery | Fire | Flooding | Torpedo | DiveBomber
    | AerialRocket | AerialTorpedo | Detonation | Ramming | DepthCharge | SkipBombs
    | Unknown(code: u32)

  datatype Consumable =
    | DamageControl | SpottingAircraft | DefensiveAntiAircraft | SpeedBoost | RepairParty
    | CatapultFighter | MainBatteryReloadBooster | TorpedoReloadBooster | Smoke | Radar
    | HydroacousticSearch | Hydrophone | EnhancedRudders | ReserveBattery
    | Unknown(code: i8)

  datatype CameraMode =
    | OverheadMap
    | FollowingShells
    | FollowingPlanes
    | FollowingShip
    | FollowingSubmarine
    | FreeFlying
    | Unknown(code: u32)

  datatype CruiseState =
    | Throttle
    | Rudder
    | DiveDepth
    | Unknown(key: u32)

  /** The property ids of a player record; their numbers are the enum's discriminants. */
  datatype ReplayPlayerProperty =
    | AccountId | AntiAbuseEnabled | AvatarId | CamouflageInfo | ClanColor | ClanId | ClanTag
    | CrewParams | Unknown8 | DogTag | FragsCount | Id | InvitationsEnabled | IsAbuser
    | IsAlive | IsBot | IsClientLoaded | IsConnected | IsHidden | IsLeaver | IsPreBattleOwner
    | IsTShooter | KilledBuildingsCount | IsCookie | Unknown24 | MaxHealth | Name | PlayerMode
    | PreBattleIdOnStart | PreBattleSign | PreBattleId | Realm | ShipComponents | ShipConfigDump
    | ShipId | ShipParamsId | SkinId | TeamId | TtkStatus

  /** `prop as i64`. */
  function PropertyId(p: ReplayPlayerProperty): int
  {
    match p
    case AccountId => 0              case AntiAbuseEnabled => 1      case AvatarId => 2
    case CamouflageInfo => 3         case ClanColor => 4             case ClanId => 5
    case ClanTag => 6                case CrewParams => 7            case Unknown8 => 8
    case DogTag => 9                 case FragsCount => 10           case Id => 12
    case InvitationsEnabled => 13    case IsAbuser => 14             case IsAlive => 15
    case IsBot => 16                 case IsClientLoaded => 17       case IsConnected => 18
    case IsHidden => 19              case IsLeaver => 20             case IsPreBattleOwner => 21
    case IsTShooter => 22            case KilledBuildingsCount => 23 case IsCookie => 24
    case Unknown24 => 25             case MaxHealth => 26            case Name => 27
    case PlayerMode => 28            case PreBattleIdOnStart => 29   case PreBattleSign => 30
    case PreBattleId => 31           case Realm => 32                case ShipComponents => 33
    case ShipConfigDump => 34        case ShipId => 35               case ShipParamsId => 36
    case SkinId => 37                case TeamId => 38               case TtkStatus => 39
  }

  /** `ReceivedPlayer`. */
  datatype ReceivedPlayer = ReceivedPlayer(
    username: string,
    clan: string,
    avatarid: i64,
    shipid: i64,
    playerid: i64,
    teamid: i64,
    health: i64,
    /** every property of the player, each shown with `{:?}` */
    raw: map<i64, string>)

  /** `DecodedPacketPayload`. */
  datatype Payload =
    | Chat(entityId: u32, senderId: i32, audience: string, message: string)
    | VoiceLine(senderId: i32, isGlobal: bool, line: VoiceLine)
    | Ribbon(ribbon: Ribbon)
    | Position(position: Packets.Fields)
    | PlayerOrientation(orientation: Packets.Fields)
    | DamageStat(stats: Packets.Fields)
    | ShipDestroyed(killer: i32, victim: i32, cause: DeathCause)
    | EntityMethod(call: Packets.EntityMethodPacket)
    | EntityProperty(property: Packets.Fields)
    | BasePlayerCreate(basePlayer: Packets.Fields)
    | CellPlayerCreate(cellPlayer: Packets.Fields)
    | EntityEnter(enter: Packets.Fields)
    | EntityLeave(leave: Packets.Fields)
    | EntityCreate(create: Packets.Fields)
    | OnArenaStateReceived(
        arg0: i64,
        arg1: i8,
        arg2: map<i64, seq<Option<map<string, string>>>>,
        players: seq<ReceivedPlayer>)
    | CheckPing(ping: u64)
    | DamageReceived(target: u32, aggressors: Packets.Fields)
    | MinimapUpdate(updates: Packets.Fields, extra: seq<Packets.ArgValue>)
    | PropertyUpdate(update: Packets.Fields)
    | BattleEnd(winningTeam: i8, unknown: u8)
    | Consumable(entity: u32, consumable: Consumable, duration: Packets.F32)
    | CruiseState(state: CruiseState, value: i32)
    | Map(mapPacket: Packets.MapPacket)
    | Version(version: string)
    | Camera(camera: Packets.Fields)
    | CameraMode(mode: CameraMode)
    | CameraFreeLook(freeLook: bool)
    | Unknown(payload: seq<byte>)
    | Invalid(invalid: Packets.Fields)
    | Audit(text: string)
    | EntityInfo(players: seq<ReceivedPlayer>)

  /** `DecodedPacket`. */
  datatype DecodedPacket = DecodedPacket(packetType: u32, clock: Packets.F32, payload: Payload)

  /** Why decoding one packet aborts. */
  datatype DecodeError =
    | MissingArg(index: nat)           // `args[i]` past the end of the arguments
    | WrongArgKind(index: nat)         // an argument of another kind than the one matched
    | ArgNotUtf8(index: nat)           // `from_utf8(..).unwrap()` on a chat argument
    | PickleUnreadable(index: nat)     // `value_from_slice(..).unwrap()` on a blob argument
    | UnexpectedShape                  // a value tree of another shape than the one matched
    | KeyNotUtf8                       // a snapshot key whose bytes are not UTF-8
    | MissingProperty(id: int)         // `get(&property).unwrap()` on an absent property
    | WrongPropertyKind(id: int)       // a property value of another kind than the one matched
}
