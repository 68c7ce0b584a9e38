/**
 * The chat processor of the translator (chatrans/src/processor/processor.rs):
 * it learns usernames from the `EntityInfo` roster and sends one `ChatMessage`
 * down a channel per chat from a known sender.
 *
 * The channel is modelled by the messages it has accepted and whether its
 * receiving side is gone; blocking and the other end are not part of this
 * model.
 */
module Processor {
  import opened Wrappers
  import opened Ints
  import Utf8
  import Packets
  import opened Decoded
  import Decoder
  import opened Usernames

  /** `ChatMessage`. */
  datatype ChatMessage = ChatMessage(clock: Packets.F32, sender: string, audience: string, message: string)

  /** The sending end of an `async_channel` of chat messages. */
  class Channel {
    /** Every message the channel accepted, in order. */
    var sent: seq<ChatMessage>
    /** Whether every receiver is gone, so that sends fail. */
    var closed: bool

    constructor ()
      ensures sent == [] && !closed
    {
      sent := [];
      closed := false;
    }

    /** The receiving side goes away; later sends fail. */
    method Close()
      modifies this
      ensures closed && sent == old(sent)
    {
      closed := true;
    }

    /** `send_blocking`: a closed channel refuses the message, an open one queues it. */
    method SendBlocking(m: ChatMessage) returns (accepted: bool)
      modifies this
      ensures accepted == !old(closed) && closed == old(closed)
      ensures sent == if accepted then old(sent) + [m] else old(sent)
    {
      if closed {
        return false;
      }
      sent := sent + [m];
      return true;
    }
  }

  /** Why `process` panics. */
  datatype ProcessError =
    | Undecodable(error: DecodeError)      // the decoder panicked
    | PlayerIdOverflow(playerid: i64)      // `playerid.try_into().unwrap()` of a roster entry

  /** What one call of `process` does: how it ends, the new directory, and the message it sends if any. */
  datatype Step = Step(outcome: Outcome<ProcessError>, usernames: Directory, message: Option<ChatMessage>)

  function StepOf(usernames: Directory, decoded: Result<DecodedPacket, DecodeError>): Step
  {
    match decoded
    case Err(e) => Step(Fail(Undecodable(e)), usernames, None)
    case Ok(packet) =>
      match packet.payload
      case Chat(_, sender, audience, message) =>
        if sender !in usernames then Step(Pass, usernames, None)
        else Step(Pass, usernames, Some(ChatMessage(packet.clock, usernames[sender], audience, message)))
      case EntityInfo(players) =>
        var u := Upserted(usernames, players);
        Step(if u.overflow.Some? then Fail(PlayerIdOverflow(u.overflow.value)) else Pass, u.usernames, None)
      case _ => Step(Pass, usernames, None)
  }

  /** `ChatLogger`. */
  class ChatLogger {
    var usernames: Directory
    const tx: Channel
    const codecs: Packets.Codecs

    /** `ChatLoggerBuilder::build`: an empty directory and the given sender. */
    constructor (tx: Channel, codecs: Packets.Codecs)
      ensures usernames == map[] && this.tx == tx && this.codecs == codecs
    {
      usernames := map[];
      this.tx := tx;
      this.codecs := codecs;
    }

    /** `finish`: nothing. */
    method Finish()
    {
    }

    /**
     * `process`: decode without auditing, then act on the payload. The result
     * of the send is dropped: the directory and the outcome are the same
     * whether or not the channel took the message.
     */
    method Process(packet: Packets.Packet) returns (r: Outcome<ProcessError>)
      modifies this, tx
      ensures var step := StepOf(old(usernames), Decoder.DecodePacket(false, packet, codecs));
        r == step.outcome && usernames == step.usernames
        && tx.closed == old(tx.closed)
        && tx.sent == if step.message.Some? && !old(tx.closed) then old(tx.sent) + [step.message.value] else old(tx.sent)
    {
      var decoded := Decoder.DecodePacket(false, packet, codecs);
      if decoded.Err? {
        return Fail(Undecodable(decoded.error));
      }
      var d := decoded.value;
      match d.payload {
        case Chat(_, sender, audience, message) =>
          if sender !in usernames {
            return Pass;
          }
          var _ := tx.SendBlocking(ChatMessage(d.clock, usernames[sender], audience, message));
        case EntityInfo(players) =>
          var directory, overflow := InsertPlayers(usernames, players);
          usernames := directory;
          if overflow.Some? {
            return Fail(PlayerIdOverflow(overflow.value));
          }
        case _ =>
      }
      return Pass;
    }
  }

  // ------------------------------------------------------------ properties

  /** A chat from a sender not in the directory sends nothing and changes nothing. */
  lemma UnknownChatSendsNothing(usernames: Directory, packet: DecodedPacket)
    requires packet.payload.Chat? && packet.payload.senderId !in usernames
    ensures StepOf(usernames, Ok(packet)) == Step(Pass, usernames, None)
  {
  }

  /** A chat from a known sender sends one message: the clock, the sender's name, the audience and the message. */
  lemma KnownChatSends(usernames: Directory, packet: DecodedPacket)
    requires packet.payload.Chat? && packet.payload.senderId in usernames
    ensures StepOf(usernames, Ok(packet)) == Step(Pass, usernames,
      Some(ChatMessage(packet.clock, usernames[packet.payload.senderId], packet.payload.audience, packet.payload.message)))
  {
  }

  /**
   * From the wire: a packet calling the chat method with sender `s` and the
   * UTF-8 texts of `a` and `m` sends exactly the message naming `s`'s user,
   * and nothing when `s` is unknown.
   */
  lemma ChatPacketSends(usernames: Directory, packet: Packets.Packet, codecs: Packets.Codecs, s: i32, a: string, m: string)
    requires packet.payload.EntityMethod? && packet.payload.em.methodName == Decoder.CHAT_METHOD
    requires |packet.payload.em.args| >= 3 && packet.payload.em.args[0] == Packets.Int32(s)
    requires packet.payload.em.args[1] == Packets.String(Utf8.Encode(a))
    requires packet.payload.em.args[2] == Packets.String(Utf8.Encode(m))
    ensures StepOf(usernames, Decoder.DecodePacket(false, packet, codecs))
      == Step(Pass, usernames, if s in usernames then Some(ChatMessage(packet.clock, usernames[s], a, m)) else None)
  {
    Decoder.ChatOfIff(packet.payload.em, packet.payload.em.entityId, s, a, m);
  }

  /** Only a chat can send, and only a roster changes the directory; every other payload does neither. */
  lemma OtherPayloadsIgnored(usernames: Directory, packet: DecodedPacket)
    requires !packet.payload.Chat? && !packet.payload.EntityInfo?
    ensures StepOf(usernames, Ok(packet)) == Step(Pass, usernames, None)
  {
  }

  /** No step removes a key, and a step that sends a message never touches the directory. */
  lemma DirectoryOnlyGrows(usernames: Directory, decoded: Result<DecodedPacket, DecodeError>)
    ensures usernames.Keys <= StepOf(usernames, decoded).usernames.Keys
    ensures !(decoded.Ok? && decoded.value.payload.EntityInfo?) ==>
      StepOf(usernames, decoded).usernames == usernames
    ensures StepOf(usernames, decoded).message.Some? ==> StepOf(usernames, decoded).usernames == usernames
  {
    if decoded.Ok? && decoded.value.payload.EntityInfo? {
      UpsertedKeepsKeys(usernames, decoded.value.payload.players);
    }
  }

  /** A roster whose ids all fit names each id after the last player listed with it. */
  lemma RosterLastWriteWins(usernames: Directory, packet: DecodedPacket)
    requires packet.payload.EntityInfo?
    requires forall i :: 0 <= i < |packet.payload.players| ==> IsI32(packet.payload.players[i].playerid)
    ensures StepOf(usernames, Ok(packet)).outcome == Pass
    ensures forall i :: 0 <= i < |packet.payload.players| && LastWithId(packet.payload.players, i) ==>
      packet.payload.players[i].playerid in StepOf(usernames, Ok(packet)).usernames
      && StepOf(usernames, Ok(packet)).usernames[packet.payload.players[i].playerid] == packet.payload.players[i].username
  {
    UpsertedLastWriteWins(usernames, packet.payload.players);
  }

  /** A roster with an id that does not fit an i32 fails. */
  lemma RosterOverflowFails(usernames: Directory, packet: DecodedPacket, i: nat)
    requires packet.payload.EntityInfo?
    requires i < |packet.payload.players| && !IsI32(packet.payload.players[i].playerid)
    ensures StepOf(usernames, Ok(packet)).outcome.Fail?
  {
    UpsertedOverflow(usernames, packet.payload.players);
  }
}
