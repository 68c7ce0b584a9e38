/**
 * The chat analyzer of the replay parser (parser/src/analyzer/chat.rs): it
 * learns usernames from the arena-state roster and prints one line per chat
 * from a known sender and per voice line.
 *
 * The printed lines are kept as records in `printed`; how `println!` renders
 * the float clock is not part of this model.
 */
module ChatAnalyzer {
  import opened Wrappers
  import opened Ints
  import ClientVersion
  import KorabliReplay
  import Packets
  import opened Decoded
  import Decoder
  import opened Usernames

  /** One `println!` of `process`. */
  datatype Line =
    | ChatLine(clock: Packets.F32, sender: string, audience: string, message: string)
    | VoiceLineLine(clock: Packets.F32, sender: string, line: VoiceLine)

  /** Why `process` panics. */
  datatype ProcessError =
    | Undecodable(error: DecodeError)      // the decoder panicked
    | UnknownSender(senderId: i32)         // `usernames.get(&sender_id).unwrap()` of a voice line
    | PlayerIdOverflow(playerid: i64)      // `playerid.try_into().unwrap()` of a roster entry

  /** What one call of `process` does: how it ends, the new directory, and the lines it printed. */
  datatype Step = Step(outcome: Outcome<ProcessError>, usernames: Directory, output: seq<Line>)

  function StepOf(usernames: Directory, decoded: Result<DecodedPacket, DecodeError>): Step
  {
    match decoded
    case Err(e) => Step(Fail(Undecodable(e)), usernames, [])
    case Ok(packet) =>
      match packet.payload
      case Chat(_, sender, audience, message) =>
        if sender !in usernames then Step(Pass, usernames, [])
        else Step(Pass, usernames, [ChatLine(packet.clock, usernames[sender], audience, message)])
      case VoiceLine(sender, _, line) =>
        if sender !in usernames then Step(Fail(UnknownSender(sender)), usernames, [])
        else Step(Pass, usernames, [VoiceLineLine(packet.clock, usernames[sender], line)])
      case OnArenaStateReceived(_, _, _, players) =>
        var u := Upserted(usernames, players);
        Step(if u.overflow.Some? then Fail(PlayerIdOverflow(u.overflow.value)) else Pass, u.usernames, [])
      case _ => Step(Pass, usernames, [])
  }

  /** `ChatLogger`. */
  class ChatLogger {
    var usernames: Directory
    const version: ClientVersion.Version
    /** Everything printed so far. */
    var printed: seq<Line>
    const codecs: Packets.Codecs

    /** `ChatLoggerBuilder::build`: an empty directory and the version the game wrote. */
    constructor (meta: KorabliReplay.ReplayMeta, codecs: Packets.Codecs)
      requires ClientVersion.FromClientExe(meta.clientVersionFromExe).Ok?
      ensures usernames == map[] && printed == []
      ensures version == ClientVersion.FromClientExe(meta.clientVersionFromExe).value
      ensures this.codecs == codecs
    {
      usernames := map[];
      version := ClientVersion.FromClientExe(meta.clientVersionFromExe).value;
      printed := [];
      this.codecs := codecs;
    }

    /** `finish`: nothing. */
    method Finish()
    {
    }

    /** `process`: decode without auditing, then act on the payload. */
    method Process(packet: Packets.Packet) returns (r: Outcome<ProcessError>)
      modifies this
      ensures var step := StepOf(old(usernames), Decoder.DecodePacket(false, packet, codecs));
        r == step.outcome && usernames == step.usernames && printed == old(printed) + step.output
    {
      var decoded := Decoder.DecodePacket(false, packet, codecs);
      if decoded.Err? {
        return Fail(Undecodable(decoded.error));
      }
      var d := decoded.value;
      match d.payload {
        case Chat(_, sender, audience, message) =>
          if sender !in usernames {
            return Pass;
          }
          printed := printed + [ChatLine(d.clock, usernames[sender], audience, message)];
        case VoiceLine(sender, _, line) =>
          if sender !in usernames {
            return Fail(UnknownSender(sender));
          }
          printed := printed + [VoiceLineLine(d.clock, usernames[sender], line)];
        case OnArenaStateReceived(_, _, _, players) =>
          var directory, overflow := InsertPlayers(usernames, players);
          usernames := directory;
          if overflow.Some? {
            return Fail(PlayerIdOverflow(overflow.value));
          }
        case _ =>
      }
      return Pass;
    }
  }

  // ------------------------------------------------------------ properties

  /** A chat from a sender not in the directory prints nothing and changes nothing. */
  lemma UnknownChatDropped(usernames: Directory, packet: DecodedPacket)
    requires packet.payload.Chat? && packet.payload.senderId !in usernames
    ensures StepOf(usernames, Ok(packet)) == Step(Pass, usernames, [])
  {
  }

  /** A chat from a known sender prints one line: the clock, the sender's name, the audience and the message. */
  lemma KnownChatPrinted(usernames: Directory, packet: DecodedPacket)
    requires packet.payload.Chat? && packet.payload.senderId in usernames
    ensures StepOf(usernames, Ok(packet)) == Step(Pass, usernames,
      [ChatLine(packet.clock, usernames[packet.payload.senderId], packet.payload.audience, packet.payload.message)])
  {
  }

  /** A voice line needs a known sender: the step fails exactly when the sender is unknown. */
  lemma VoiceLineNeedsSender(usernames: Directory, packet: DecodedPacket)
    requires packet.payload.VoiceLine?
    ensures StepOf(usernames, Ok(packet)).outcome.Fail? <==> packet.payload.senderId !in usernames
    ensures StepOf(usernames, Ok(packet)).usernames == usernames
  {
  }

  /** Only a roster changes the directory, and no step removes a key. */
  lemma DirectoryOnlyGrows(usernames: Directory, decoded: Result<DecodedPacket, DecodeError>)
    ensures usernames.Keys <= StepOf(usernames, decoded).usernames.Keys
    ensures !(decoded.Ok? && decoded.value.payload.OnArenaStateReceived?) ==>
      StepOf(usernames, decoded).usernames == usernames
  {
    if decoded.Ok? && decoded.value.payload.OnArenaStateReceived? {
      UpsertedKeepsKeys(usernames, decoded.value.payload.players);
    }
  }

  /** A roster whose ids all fit names each id after the last player listed with it. */
  lemma RosterLastWriteWins(usernames: Directory, packet: DecodedPacket)
    requires packet.payload.OnArenaStateReceived?
    requires forall i :: 0 <= i < |packet.payload.players| ==> IsI32(packet.payload.players[i].playerid)
    ensures StepOf(usernames, Ok(packet)).outcome == Pass
    ensures forall i :: 0 <= i < |packet.payload.players| && LastWithId(packet.payload.players, i) ==>
      packet.payload.players[i].playerid in StepOf(usernames, Ok(packet)).usernames
      && StepOf(usernames, Ok(packet)).usernames[packet.payload.players[i].playerid] == packet.payload.players[i].username
  {
    UpsertedLastWriteWins(usernames, packet.payload.players);
  }

  /** A roster with an id that does not fit an i32 fails. */
  lemma RosterOverflowFails(usernames: Directory, packet: DecodedPacket, i: nat)
    requires packet.payload.OnArenaStateReceived?
    requires i < |packet.payload.players| && !IsI32(packet.payload.players[i].playerid)
    ensures StepOf(usernames, Ok(packet)).outcome.Fail?
  {
    UpsertedOverflow(usernames, packet.payload.players);
  }
}
