/**
 * The already-framed packets the decoder of parser/src/analyzer/decoder.rs
 * consumes. Their definitions (the `packet2` and `rpc` modules) are not part
 * of this model; these datatypes keep exactly the fields the decoder reads,
 * and a `Fields` value for everything it only passes on.
 */
module Packets {
  import opened Wrappers
  import opened Ints
  import Pickle

  /** An f32 of the stream, kept as its bit pattern: the core copies floats and never computes with them. */
  datatype F32 = F32(bits: u32)

  /** The contents of a packet kind the decoder hands on without looking inside. */
  datatype Fields = Fields(bytes: seq<byte>)

  /** The RPC argument kinds the decoder distinguishes; every other kind is `OtherArg`. */
  datatype ArgValue =
    | Int8(i8: i8)
    | Int32(i32: i32)
    | Int64(i64: i64)
    | String(bytes: seq<byte>)      // the wire string, not yet checked for UTF-8
    | Blob(bytes: seq<byte>)
    | OtherArg(fields: Fields)

  datatype EntityMethodPacket = EntityMethodPacket(entityId: u32, methodName: string, args: seq<ArgValue>)

  /** One property of an `EntityInfo` entity, with the two readings the decoder takes of it. */
  datatype PropertyValue = PropertyValue(blob: seq<byte>, asString: string, asU32: u32)

  datatype Entity = Entity(isBot: bool, data: map<int, PropertyValue>)

  datatype EntityInfoPacket = EntityInfoPacket(entities: seq<Entity>)

  datatype CruiseStatePacket = CruiseStatePacket(key: u32, value: i32)

  datatype MapPacket = MapPacket(fields: Fields, unknown: u8, matrix: seq<byte>)

  /** `packet2::PacketType`. */
  datatype PacketType =
    | EntityMethod(em: EntityMethodPacket)
    | Camera(camera: Fields)
    | CameraMode(mode: u32)
    | CameraFreeLook(freeLook: u8)
    | CruiseState(cs: CruiseStatePacket)
    | Map(mapPacket: MapPacket)
    | EntityProperty(property: Fields)
    | Position(position: Fields)
    | PlayerOrientation(orientation: Fields)
    | BasePlayerCreate(basePlayer: Fields)
    | CellPlayerCreate(cellPlayer: Fields)
    | EntityEnter(enter: Fields)
    | EntityLeave(leave: Fields)
    | EntityCreate(create: Fields)
    | PropertyUpdate(update: Fields)
    | Version(version: string)
    | EntityInfo(info: EntityInfoPacket)
    | Unknown(payload: seq<byte>)
    | Invalid(invalid: Fields)

  /** `packet2::Packet`: the framed record. */
  datatype Packet = Packet(packetType: u32, clock: F32, payload: PacketType)

  /** The foreign code the decoder depends on. */
  datatype Codecs = Codecs(
    /** serde_pickle::value_from_slice */
    unpickle: seq<byte> -> Option<Pickle.Value>,
    /** format!("{:?}", value) for a pickle value */
    show: Pickle.Value -> string)
}
