/** The responder itself: the process-wide transfer id counter, the framing
    of each reply into datagrams and the handling of one request. Sending is
    modelled by returning the datagrams the socket would be handed, in order. */
module Emulator {
  import opened Wire
  import opened Framing
  import opened Responses
  import opened Dispatch

  /** The outcome of one request: no reply, a payload to send, or the
      exception the info reply's map-name trim throws. */
  datatype Answer = NoAnswer | Payload(bytes: Bytes) | Fault

  /** The payload the responder answers a classified request with. */
  function AnswerTo(q: Query, host: Host): Answer
  {
    match q
    case Ignored => NoAnswer
    case ChallengeRequest => Payload(CHALLENGE_PAYLOAD)
    case InfoRequest =>
      (match TrimWorldName(host.worldName)
       case None => Fault
       case Some(mapName) => Payload(EncodeInfo(InfoOf(host, mapName))))
    case PlayerRequest => Payload(PlayersPayload(host.players))
    case RulesRequest => Payload(RULES_PAYLOAD)
  }

  /** The transfer id after sending a payload of the given length: only a
      split send consumes one. */
  function NextPacketId(length: nat, id: Int32): Int32
  {
    if length <= MAX_PAYLOAD_SIZE then id else Inc32(id)
  }

  /** The handshake reply is always the single datagram
      `FF FF FF FF 41 'V' 'S' 'D' 'S'`, and it consumes no transfer id. */
  lemma ChallengeReply(request: Bytes, host: Host, id: Int32)
    requires Classify(request) == ChallengeRequest
    ensures AnswerTo(Classify(request), host) == Payload(CHALLENGE_PAYLOAD)
    ensures Frame(CHALLENGE_PAYLOAD, id) == [[0xFF, 0xFF, 0xFF, 0xFF, 0x41, 0x56, 0x53, 0x44, 0x53]]
    ensures NextPacketId(|CHALLENGE_PAYLOAD|, id) == id
  {
    assert CHALLENGE_PAYLOAD == [0x41, 0x56, 0x53, 0x44, 0x53];
    assert ALL_ONES + CHALLENGE_PAYLOAD == [0xFF, 0xFF, 0xFF, 0xFF, 0x41, 0x56, 0x53, 0x44, 0x53];
  }

  /** An authorised rules request is always answered with the 2-byte payload
      `[0x45, 0]` (no rules) in a single datagram. */
  lemma RulesReply(request: Bytes, host: Host, id: Int32)
    requires Classify(request) == RulesRequest
    ensures AnswerTo(Classify(request), host) == Payload([0x45, 0])
    ensures Frame(RULES_PAYLOAD, id) == [[0xFF, 0xFF, 0xFF, 0xFF, 0x45, 0]]
  {
    assert ALL_ONES + RULES_PAYLOAD == [0xFF, 0xFF, 0xFF, 0xFF, 0x45, 0];
  }

  /** End to end: a client that sends a valid info request and reassembles
      the reply reads the host's info fields (given NUL-free text and a reply
      that fits in 255 fragments). */
  lemma InfoReplyReadable(request: Bytes, host: Host, id: Int32)
    requires Classify(request) == InfoRequest
    requires NulFree(host.serverName) && NulFree(host.worldName) && NulFree(host.version)
    ensures AnswerTo(Classify(request), host).Fault? <==> TrimWorldName(host.worldName).None?
    ensures match AnswerTo(Classify(request), host)
      case Payload(p) =>
        |p| <= 255 * MAX_PAYLOAD_SIZE ==>
          && Reassemble(Frame(p, id)).Some?
          && DecodeInfo(Reassemble(Frame(p, id)).value)
             == Some(InfoOf(host, TrimWorldName(host.worldName).value))
      case _ => true
  {
    match TrimWorldName(host.worldName)
    case None =>
    case Some(mapName) =>
      var info := InfoOf(host, mapName);
      var p := EncodeInfo(info);
      if |p| <= 255 * MAX_PAYLOAD_SIZE {
        FrameReassembles(p, id);
        AsciiNulFree(host.serverName);
        AsciiNulFree(mapName);
        AsciiNulFree(FOLDER);
        AsciiNulFree(GAME);
        AsciiNulFree(host.version);
        InfoRoundTrip(info);
      }
  }

  /** End to end: a client that sends an authorised player request and
      reassembles the reply reads every online player in order (given fewer
      than 256 players with NUL-free names and a reply that fits in 255
      fragments). */
  lemma PlayersReplyReadable(request: Bytes, host: Host, id: Int32)
    requires Classify(request) == PlayerRequest
    requires |host.players| < 256 && NamesNulFree(host.players)
    requires |PlayersPayload(host.players)| <= 255 * MAX_PAYLOAD_SIZE
    ensures AnswerTo(Classify(request), host) == Payload(PlayersPayload(host.players))
    ensures Reassemble(Frame(PlayersPayload(host.players), id)).Some?
    ensures DecodePlayers(Reassemble(Frame(PlayersPayload(host.players), id)).value)
            == Some(EntriesOf(host.players, 0))
  {
    FrameReassembles(PlayersPayload(host.players), id);
    PlayersRoundTrip(host.players);
  }

  class ServerEmulator {
    /** `packetId`: the transfer id of the next split reply. */
    var packetId: Int32

    constructor ()
      ensures packetId == 0
    {
      packetId := 0;
    }

    /** `Send`: frames a payload and returns the datagrams in sending order.
      A split send uses the current transfer id for every fragment and then
      increments it once. */
    method Send(data: Bytes) returns (datagrams: seq<Bytes>)
      modifies this
      ensures datagrams == Frame(data, old(packetId))
      ensures packetId == NextPacketId(|data|, old(packetId))
    {
      var length := |data|;
      if length <= MAX_PAYLOAD_SIZE {
        var buffer := new byte[4 + length];
        for i := 0 to 4
          invariant packetId == old(packetId)
          invariant forall k :: 0 <= k < i ==> buffer[k] == 0xFF
        {
          buffer[i] := 0xFF;
        }
        forall k | 0 <= k < length {
          buffer[4 + k] := data[k];
        }
        assert buffer[..] == ALL_ONES + data;
        SingleDatagram(data, packetId);
        datagrams := [buffer[..]];
        return;
      }

      var numPackets: byte := WireFragmentCount(length);
      ghost var fragments := Frame(data, packetId);
      assert |fragments| == numPackets;
      datagrams := [];
      for i := 0 to numPackets
        invariant packetId == old(packetId)
        invariant datagrams == fragments[..i]
      {
        FragmentFields(data, packetId, i);
        var stream: Bytes := [];
        stream := stream + SPLIT_HEADER;
        assert stream == SPLIT_HEADER;
        stream := stream + Int32Bytes(packetId);
        stream := stream + [numPackets];
        stream := stream + [i];
        stream := stream + Int16Bytes(MAX_PAYLOAD_SIZE);
        stream := stream + data[i * MAX_PAYLOAD_SIZE
                                .. i * MAX_PAYLOAD_SIZE + Min(MAX_PAYLOAD_SIZE, length - i * MAX_PAYLOAD_SIZE)];
        assert stream == SPLIT_HEADER + Int32Bytes(packetId) + [numPackets] + [i as byte]
          + Int16Bytes(MAX_PAYLOAD_SIZE) + Slice(data, i);
        datagrams := datagrams + [stream];
      }
      assert fragments[..numPackets] == fragments;
      packetId := Inc32(packetId);
    }

    /** `SendChallenge`: hands out the fixed token. */
    method SendChallenge() returns (datagrams: seq<Bytes>)
      modifies this
      ensures datagrams == Frame(CHALLENGE_PAYLOAD, old(packetId))
      ensures packetId == old(packetId)
    {
      var data := [CHALLENGE_RESPONSE, CHALLENGE[0], CHALLENGE[1], CHALLENGE[2], CHALLENGE[3]];
      assert data == CHALLENGE_PAYLOAD;
      datagrams := Send(data);
    }

    /** `SendInfoResponse`: nothing is sent when the map-name trim throws. */
    method SendInfoResponse(host: Host) returns (datagrams: seq<Bytes>, faulted: bool)
      modifies this
      ensures faulted <==> TrimWorldName(host.worldName).None?
      ensures faulted ==> datagrams == [] && packetId == old(packetId)
      ensures !faulted ==>
        var payload := EncodeInfo(InfoOf(host, TrimWorldName(host.worldName).value));
        datagrams == Frame(payload, old(packetId))
        && packetId == NextPacketId(|payload|, old(packetId))
    {
      var payload := BuildInfoResponse(host);
      if payload.None? {
        return [], true;
      }
      datagrams := Send(payload.value);
      faulted := false;
    }

    /** `SendPlayersResponse`. */
    method SendPlayersResponse(host: Host) returns (datagrams: seq<Bytes>)
      modifies this
      ensures datagrams == Frame(PlayersPayload(host.players), old(packetId))
      ensures packetId == NextPacketId(|PlayersPayload(host.players)|, old(packetId))
    {
      var payload := BuildPlayersResponse(host.players);
      datagrams := Send(payload);
    }

    /** `HandleRequest`: answers one datagram against a snapshot of the host.
      `faulted` reports the exception the info reply can throw. */
    method HandleRequest(request: Bytes, host: Host) returns (datagrams: seq<Bytes>, faulted: bool)
      modifies this
      ensures var answer := AnswerTo(Classify(request), host);
        && (faulted <==> answer.Fault?)
        && (answer.Payload? ==>
              datagrams == Frame(answer.bytes, old(packetId))
              && packetId == NextPacketId(|answer.bytes|, old(packetId)))
        && (!answer.Payload? ==> datagrams == [] && packetId == old(packetId))
    {
      datagrams, faulted := [], false;
      match Classify(request)
      case Ignored =>
      case ChallengeRequest =>
        datagrams := SendChallenge();
      case InfoRequest =>
        datagrams, faulted := SendInfoResponse(host);
      case PlayerRequest =>
        datagrams := SendPlayersResponse(host);
      case RulesRequest =>
        datagrams := Send([RULES_RESPONSE, 0]);
    }
  }
}
