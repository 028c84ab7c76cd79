/** Classification of an inbound datagram: which reply, if any, it gets.
    Every malformed or unauthorised request is dropped without a reply. */
module Dispatch {
  import opened Wire
  import opened Responses

  /** Request type bytes. */
  const A2S_INFO: byte := 0x54
  const A2S_PLAYER: byte := 0x55
  const A2S_RULES: byte := 0x56

  /** `INFO_PAYLOAD`: the body of an info request, NUL included. */
  const INFO_PAYLOAD_TEXT: Text := "Source Engine Query\0"
  const INFO_PAYLOAD: Bytes := Ascii(INFO_PAYLOAD_TEXT)

  /** `INFO_REQUEST_PACKET_LENGTH`: the header, the type byte and the body. */
  const INFO_REQUEST_PACKET_LENGTH: nat := 5 + |INFO_PAYLOAD_TEXT|

  /** `CHALLENGE_PACKET_LENGTH`: the header, the type byte and a 4-byte challenge. */
  const CHALLENGE_PACKET_LENGTH: nat := 9

  /** `CHALLENGE_INT`: the token read as a little-endian `int`. */
  const CHALLENGE_INT: Int32 := ToInt32(CHALLENGE)

  /** What the responder does with a datagram. */
  datatype Query = Ignored | ChallengeRequest | InfoRequest | PlayerRequest | RulesRequest

  /** The challenge check shared by player and rules requests: the length
      must be exact; a challenge of -1 asks for the token, the token itself
      grants the request and anything else is dropped. */
  function Authorise(d: Bytes, granted: Query): Query
    requires |d| >= 9
  {
    if |d| != CHALLENGE_PACKET_LENGTH then Ignored
    else
      var challenge := ToInt32(d[5..9]);
      if challenge == -1 then ChallengeRequest
      else if challenge != CHALLENGE_INT then Ignored
      else granted
  }

  /** `HandleRequest`'s decision, with the `int` comparisons of the source.
      Its contract restates the decision byte by byte. */
  function Classify(d: Bytes): (q: Query)
    ensures q == InfoRequest <==>
      |d| == 25 && d[..4] == ALL_ONES && d[4] == A2S_INFO && d[5..] == INFO_PAYLOAD
    ensures q == ChallengeRequest <==>
      |d| == 9 && d[..4] == ALL_ONES && (d[4] == A2S_PLAYER || d[4] == A2S_RULES)
      && d[5..] == ALL_ONES
    ensures q == PlayerRequest <==>
      |d| == 9 && d[..4] == ALL_ONES && d[4] == A2S_PLAYER && d[5..] == CHALLENGE
    ensures q == RulesRequest <==>
      |d| == 9 && d[..4] == ALL_ONES && d[4] == A2S_RULES && d[5..] == CHALLENGE
  {
    if |d| < 9 then Ignored
    else
      ToInt32Injective(d[..4], ALL_ONES);
      if ToInt32(d[..4]) != -1 then Ignored
      else if d[4] == A2S_INFO then
        if |d| != INFO_REQUEST_PACKET_LENGTH then Ignored
        else if d[5..5 + |INFO_PAYLOAD|] != INFO_PAYLOAD then Ignored
        else InfoRequest
      else if d[4] == A2S_PLAYER || d[4] == A2S_RULES then
        ToInt32Injective(d[5..9], ALL_ONES);
        ToInt32Injective(d[5..9], CHALLENGE);
        assert d[5..9] == d[5..] || |d| != 9;
        Authorise(d, if d[4] == A2S_PLAYER then PlayerRequest else RulesRequest)
      else Ignored
  }

  /** A datagram shorter than 9 bytes, without the -1 header or with an
      unknown type byte gets no reply. */
  lemma MalformedIgnored(d: Bytes)
    requires |d| < 9 || d[..4] != ALL_ONES || d[4] !in {A2S_INFO, A2S_PLAYER, A2S_RULES}
    ensures Classify(d) == Ignored
  {
  }
}
