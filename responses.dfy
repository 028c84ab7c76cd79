/** The payloads the responder builds from a snapshot of the host server:
    the challenge, the fixed rules reply, the info reply and the player list.
    Each payload has a client-side decoder beside it, so that its layout is
    stated as a round trip from the values a client reads back. */
module Responses {
  import opened Wire

  /** Response type bytes. */
  const CHALLENGE_RESPONSE: byte := 0x41
  const INFO_RESPONSE: byte := 0x49
  const PLAYER_RESPONSE: byte := 0x44
  const RULES_RESPONSE: byte := 0x45

  /** `CHALLENGE`: the fixed token 'V', 'S', 'D', 'S' every client must echo. */
  const CHALLENGE: Bytes := [0x56, 0x53, 0x44, 0x53]

  /** The fixed strings and application id of the info reply. */
  const FOLDER: Text := "vintagestory"
  const GAME: Text := "Vintage Story"
  const APP_ID: nat := 204

  /** The host operating system, as `Environment.OSVersion.Platform` reports it. */
  datatype Platform = MacOSX | Unix | OtherPlatform

  /** A 4-byte field. */
  type Word = w: Bytes | |w| == 4 witness [0, 0, 0, 0]

  /** An online player: the name and the already encoded 4-byte duration
      field (a float computed from clocks the model does not have). */
  datatype Player = Player(name: Text, duration: Word)

  /** The snapshot of host state a reply is built from. `hasPassword` stands
      for a non-null configured password. */
  datatype Host = Host(
    serverName: Text,
    worldName: Text,
    players: seq<Player>,
    maxClients: Int32,
    isDedicated: bool,
    hasPassword: bool,
    version: Text,
    platform: Platform)

  /** The reply to a challenge request: the response type and the token. */
  const CHALLENGE_PAYLOAD: Bytes := [CHALLENGE_RESPONSE] + CHALLENGE

  /** The reply to an authorised rules request: the response type and a
      rule count of 0. */
  const RULES_PAYLOAD: Bytes := [RULES_RESPONSE, 0]

  // ---------------------------------------------------------------------
  // Map name

  const SEPARATORS: set<char> := {'\\', '/'}

  /** `String.LastIndexOfAny`: the last position holding one of `cs`, or -1. */
  function LastIndexOfAny(s: Text, cs: set<char>): (r: int)
    ensures -1 <= r < |s|
    ensures 0 <= r ==> s[r] in cs
    ensures forall j :: r < j < |s| ==> s[j] !in cs
  {
    if |s| == 0 then -1
    else if s[|s| - 1] in cs then |s| - 1
    else LastIndexOfAny(s[..|s| - 1], cs)
  }

  /** The map name of the info reply: the world name between its last path
      separator and its last full stop. `Substring` throws (here: None) when
      the length it is given is negative. */
  function TrimWorldName(w: Text): (r: Option<Text>)
    ensures r.Some? ==> forall c :: c in r.value ==> c in w && c !in SEPARATORS
  {
    var lastSlash := LastIndexOfAny(w, SEPARATORS);
    var lastFullStop := LastIndexOfAny(w, {'.'});
    if lastFullStop - lastSlash - 1 < 0 then None
    else Some(w[lastSlash + 1 .. lastFullStop])
  }

  /** Trimming fails exactly when no full stop follows the last separator
      (in particular when there is no full stop at all). */
  lemma TrimWorldNameFails(w: Text)
    ensures TrimWorldName(w).None? <==>
      forall i :: 0 <= i < |w| && w[i] == '.' ==> exists j :: i < j < |w| && w[j] in SEPARATORS
  {
    var lastSlash := LastIndexOfAny(w, SEPARATORS);
    var lastFullStop := LastIndexOfAny(w, {'.'});
    if lastFullStop - lastSlash - 1 < 0 {
      forall i | 0 <= i < |w| && w[i] == '.'
        ensures exists j :: i < j < |w| && w[j] in SEPARATORS
      {
        assert i <= lastFullStop;
        assert w[lastSlash] in SEPARATORS;
      }
    } else {
      assert w[lastFullStop] == '.';
      assert forall j :: lastFullStop < j < |w| ==> w[j] !in SEPARATORS;
    }
  }

  /** A world file name `dir + base + "." + ext`, where `dir` is empty or ends
      in a separator, `base` has no separator and the extension has neither a
      separator nor a full stop, is trimmed to `base`. */
  lemma TrimWorldNameOf(dir: Text, base: Text, ext: Text)
    requires dir == [] || dir[|dir| - 1] in SEPARATORS
    requires forall c :: c in base ==> c !in SEPARATORS
    requires forall c :: c in ext ==> c !in SEPARATORS && c != '.'
    ensures TrimWorldName(dir + base + ['.'] + ext) == Some(base)
  {
    var w := dir + base + ['.'] + ext;
    var d, b := |dir|, |base|;
    assert forall j :: d <= j < d + b ==> w[j] == base[j - d];
    assert forall j :: d + b < j < |w| ==> w[j] == ext[j - d - b - 1];
    assert w[d + b] == '.';
    var lastSlash := LastIndexOfAny(w, SEPARATORS);
    var lastFullStop := LastIndexOfAny(w, {'.'});
    assert d > 0 ==> w[d - 1] == dir[d - 1];
    assert lastSlash == d - 1;
    assert lastFullStop == d + b;
    assert w[lastSlash + 1 .. lastFullStop] == base;
  }

  // ---------------------------------------------------------------------
  // Info reply

  /** The fields of an info reply, as a client reads them. */
  datatype Info = Info(
    protocol: byte,
    name: Bytes,
    mapName: Bytes,
    folder: Bytes,
    game: Bytes,
    appId: nat,
    players: byte,
    maxPlayers: byte,
    bots: byte,
    serverType: byte,
    environment: byte,
    visibility: byte,
    vac: byte,
    version: Bytes)

  /** The field values the responder reports for a host whose world name
      trims to `map`. The counts go through `(byte)` casts. */
  function InfoOf(host: Host, mapName: Text): Info
  {
    Info(
      protocol := 0,
      name := Ascii(host.serverName),
      mapName := Ascii(mapName),
      folder := Ascii(FOLDER),
      game := Ascii(GAME),
      appId := APP_ID,
      players := |host.players| % 256,
      maxPlayers := host.maxClients % 256,
      bots := 0,
      serverType := if host.isDedicated then 'd' as int else 'l' as int,
      environment := PlatformByte(host.platform),
      visibility := if host.hasPassword then 1 else 0,
      vac := 0,
      version := Ascii(host.version))
  }

  function PlatformByte(p: Platform): byte
  {
    match p
    case MacOSX => 'o' as int
    case Unix => 'l' as int
    case OtherPlatform => 'w' as int
  }

  /** The info reply's layout: type byte, then each field in order, strings
      NUL-terminated and the application id as a little-endian `short`. */
  function EncodeInfo(info: Info): Bytes
    requires info.appId < 0x8000
  {
    [INFO_RESPONSE, info.protocol]
      + Terminated(info.name) + Terminated(info.mapName)
      + Terminated(info.folder) + Terminated(info.game)
      + Int16Bytes(info.appId)
      + [info.players] + [info.maxPlayers] + [info.bots] + [info.serverType]
      + [info.environment] + [info.visibility] + [info.vac]
      + Terminated(info.version)
  }

  /** A client's parse of an info reply. */
  function DecodeInfo(b: Bytes): Option<Info>
  {
    if |b| < 2 || b[0] != INFO_RESPONSE then None
    else
      var name :- ReadCString(b[2..]);
      var mapName :- ReadCString(name.rest);
      var folder :- ReadCString(mapName.rest);
      var game :- ReadCString(folder.rest);
      var r := game.rest;
      if |r| < 9 then None
      else
        var version :- ReadCString(r[9..]);
        if version.rest != [] then None
        else Some(Info(b[1], name.text, mapName.text, folder.text, game.text,
                       ToUInt16(r[..2]), r[2], r[3], r[4], r[5], r[6], r[7], r[8],
                       version.text))
  }

  predicate InfoStringsNulFree(info: Info)
  {
    0 !in info.name && 0 !in info.mapName && 0 !in info.folder && 0 !in info.game
    && 0 !in info.version
  }

  /** The reply with its string fields nested from the right, the way a
      client consumes it. */
  lemma EncodeInfoNested(info: Info)
    requires info.appId < 0x8000
    ensures EncodeInfo(info) ==
      [INFO_RESPONSE, info.protocol]
        + (Terminated(info.name) + (Terminated(info.mapName)
        + (Terminated(info.folder) + (Terminated(info.game)
        + (FixedInfoFields(info) + Terminated(info.version))))))
  {
  }

  /** The nine bytes between the game name and the version string. */
  function FixedInfoFields(info: Info): Bytes
    requires info.appId < 0x8000
  {
    Int16Bytes(info.appId)
      + [info.players, info.maxPlayers, info.bots, info.serverType,
         info.environment, info.visibility, info.vac]
  }

  /** Decoding a reply assembled from NUL-free string fields and nine fixed
      bytes. */
  lemma DecodeInfoOf(protocol: byte, name: Bytes, mapName: Bytes, folder: Bytes, game: Bytes,
                     fixed: Bytes, version: Bytes)
    requires 0 !in name && 0 !in mapName && 0 !in folder && 0 !in game && 0 !in version
    requires |fixed| == 9
    ensures DecodeInfo([INFO_RESPONSE, protocol]
              + (Terminated(name) + (Terminated(mapName) + (Terminated(folder)
              + (Terminated(game) + (fixed + Terminated(version)))))))
            == Some(Info(protocol, name, mapName, folder, game, ToUInt16(fixed[..2]),
                         fixed[2], fixed[3], fixed[4], fixed[5], fixed[6], fixed[7], fixed[8],
                         version))
  {
    var r4 := fixed + Terminated(version);
    var r3 := Terminated(game) + r4;
    var r2 := Terminated(folder) + r3;
    var r1 := Terminated(mapName) + r2;
    var b := [INFO_RESPONSE, protocol] + (Terminated(name) + r1);
    assert b[2..] == Terminated(name) + r1;
    ReadCStringOf(name, r1);
    ReadCStringOf(mapName, r2);
    ReadCStringOf(folder, r3);
    ReadCStringOf(game, r4);
    assert r4[9..] == Terminated(version) + [];
    assert r4[..2] == fixed[..2];
    ReadCStringOf(version, []);
  }

  /** A client parsing an encoded info reply reads back every field, as long
      as no string field holds a NUL. */
  lemma InfoRoundTrip(info: Info)
    requires info.appId < 0x8000
    requires InfoStringsNulFree(info)
    ensures DecodeInfo(EncodeInfo(info)) == Some(info)
  {
    var fixed := FixedInfoFields(info);
    assert ToUInt16(fixed[..2]) == info.appId by {
      assert fixed[..2] == Int16Bytes(info.appId);
    }
    assert Info(info.protocol, info.name, info.mapName, info.folder, info.game,
                ToUInt16(fixed[..2]), fixed[2], fixed[3], fixed[4], fixed[5], fixed[6],
                fixed[7], fixed[8], info.version) == info;
    EncodeInfoNested(info);
    DecodeInfoOf(info.protocol, info.name, info.mapName, info.folder, info.game, fixed, info.version);
  }

  /** `SendInfoResponse`'s payload, written field by field. It fails (the
      source's `Substring` throws) exactly when the world name cannot be
      trimmed; otherwise it is the info reply for the trimmed map name, and a
      client reads back the host's fields from it. */
  method BuildInfoResponse(host: Host) returns (payload: Option<Bytes>)
    ensures payload.None? <==> TrimWorldName(host.worldName).None?
    ensures payload.Some? ==>
      payload.value == EncodeInfo(InfoOf(host, TrimWorldName(host.worldName).value))
    ensures payload.Some? && NulFree(host.serverName) && NulFree(host.worldName)
              && NulFree(host.version) ==>
      DecodeInfo(payload.value) == Some(InfoOf(host, TrimWorldName(host.worldName).value))
  {
    var stream: Bytes := [INFO_RESPONSE, 0];
    stream := stream + CString(host.serverName);
    var worldName := TrimWorldName(host.worldName);
    if worldName.None? {
      return None;
    }
    stream := stream + CString(worldName.value);
    stream := stream + CString(FOLDER);
    stream := stream + CString(GAME);
    stream := stream + Int16Bytes(APP_ID);
    stream := stream + [|host.players| % 256];
    stream := stream + [host.maxClients % 256];
    stream := stream + [0];
    if host.isDedicated {
      stream := stream + ['d' as int];
    } else {
      stream := stream + ['l' as int];
    }
    match host.platform {
      case MacOSX => stream := stream + ['o' as int];
      case Unix => stream := stream + ['l' as int];
      case OtherPlatform => stream := stream + ['w' as int];
    }
    stream := stream + [if host.hasPassword then 1 else 0];
    stream := stream + [0];
    stream := stream + CString(host.version);
    payload := Some(stream);
    var info := InfoOf(host, worldName.value);
    assert stream == EncodeInfo(info);
    if NulFree(host.serverName) && NulFree(host.worldName) && NulFree(host.version) {
      AsciiNulFree(host.serverName);
      AsciiNulFree(worldName.value);
      AsciiNulFree(FOLDER);
      AsciiNulFree(GAME);
      AsciiNulFree(host.version);
      InfoRoundTrip(info);
    }
  }

  // ---------------------------------------------------------------------
  // Player reply

  /** One player's record: index byte, name, a zero score and the duration. */
  function PlayerRecord(index: int, p: Player): Bytes
  {
    [index % 256] + CString(p.name) + Int32Bytes(0) + p.duration
  }

  /** The records of `ps`, numbered from `first`. */
  function PlayerRecords(ps: seq<Player>, first: nat): Bytes
    decreases |ps|
  {
    if ps == [] then []
    else PlayerRecord(first, ps[0]) + PlayerRecords(ps[1..], first + 1)
  }

  /** The player reply: type byte, player count (through a `(byte)` cast)
      and the records of all players in order. */
  function PlayersPayload(ps: seq<Player>): Bytes
  {
    [PLAYER_RESPONSE, |ps| % 256] + PlayerRecords(ps, 0)
  }

  /** Adding a player at the end adds its record at the end. */
  lemma {:induction false} PlayerRecordsAppend(ps: seq<Player>, p: Player, first: nat)
    ensures PlayerRecords(ps + [p], first) == PlayerRecords(ps, first) + PlayerRecord(first + |ps|, p)
    decreases |ps|
  {
    if ps == [] {
      assert ps + [p] == [p];
      assert [p][1..] == [];
    } else {
      var qs := ps + [p];
      assert qs[0] == ps[0];
      assert qs[1..] == ps[1..] + [p];
      PlayerRecordsAppend(ps[1..], p, first + 1);
      calc {
        PlayerRecords(qs, first);
        PlayerRecord(first, ps[0]) + PlayerRecords(ps[1..] + [p], first + 1);
        PlayerRecord(first, ps[0]) + (PlayerRecords(ps[1..], first + 1) + PlayerRecord(first + |ps|, p));
        (PlayerRecord(first, ps[0]) + PlayerRecords(ps[1..], first + 1)) + PlayerRecord(first + |ps|, p);
      }
    }
  }

  /** The bytes taken by the records of `ps`: 10 plus the name length each
      (index, name, NUL, 4 score bytes, 4 duration bytes). */
  function RecordsSize(ps: seq<Player>): nat
  {
    if ps == [] then 0 else |ps[0].name| + 10 + RecordsSize(ps[1..])
  }

  lemma {:induction false} PlayerRecordsLength(ps: seq<Player>, first: nat)
    ensures |PlayerRecords(ps, first)| == RecordsSize(ps)
    decreases |ps|
  {
    if ps != [] {
      PlayerRecordsLength(ps[1..], first + 1);
    }
  }

  /** One player record as a client reads it. */
  datatype PlayerEntry = PlayerEntry(index: byte, name: Bytes, score: Int32, duration: Bytes)

  /** A client's parse of `n` records that make up the rest of a reply. */
  function DecodeRecords(b: Bytes, n: nat): Option<seq<PlayerEntry>>
    decreases n
  {
    if n == 0 then (if b == [] then Some([]) else None)
    else if |b| == 0 then None
    else
      var name :- ReadCString(b[1..]);
      if |name.rest| < 8 then None
      else
        var more :- DecodeRecords(name.rest[8..], n - 1);
        Some([PlayerEntry(b[0], name.text, ToInt32(name.rest[..4]), name.rest[4..8])] + more)
  }

  /** A client's parse of a player reply: the count byte says how many records follow. */
  function DecodePlayers(b: Bytes): Option<seq<PlayerEntry>>
  {
    if |b| < 2 || b[0] != PLAYER_RESPONSE then None
    else DecodeRecords(b[2..], b[1])
  }

  /** What a client should read for the players `ps` numbered from `first`:
      player `i` under index `first + i`, with its name, score 0 and its
      duration field. */
  function EntriesOf(ps: seq<Player>, first: nat): seq<PlayerEntry>
  {
    seq(|ps|, i requires 0 <= i < |ps| =>
      PlayerEntry((first + i) % 256, Ascii(ps[i].name), 0, ps[i].duration))
  }

  predicate NamesNulFree(ps: seq<Player>)
  {
    forall i :: 0 <= i < |ps| ==> NulFree(ps[i].name)
  }

  /** One step of the record decoder: a record with a NUL-free name, then
      what the remaining records decode to. */
  lemma DecodeRecordsCons(index: byte, name: Bytes, score: Bytes, duration: Bytes,
                          more: Bytes, n: nat, entries: seq<PlayerEntry>)
    requires 0 !in name && |score| == 4 && |duration| == 4
    requires DecodeRecords(more, n) == Some(entries)
    ensures DecodeRecords([index] + (Terminated(name) + (score + duration + more)), n + 1)
            == Some([PlayerEntry(index, name, ToInt32(score), duration)] + entries)
  {
    var after := score + duration + more;
    var b := [index] + (Terminated(name) + after);
    assert b[1..] == name + [0] + after;
    ReadCStringOf(name, after);
    assert after[8..] == more;
    assert after[..4] == score;
    assert after[4..8] == duration;
  }

  lemma PlayerRecordNested(index: int, p: Player, more: Bytes)
    ensures PlayerRecord(index, p) + more
            == [index % 256] + (Terminated(Ascii(p.name)) + (Int32Bytes(0) + p.duration + more))
  {
  }

  lemma EntriesOfCons(ps: seq<Player>, first: nat)
    requires ps != []
    ensures EntriesOf(ps, first) ==
      [PlayerEntry(first % 256, Ascii(ps[0].name), 0, ps[0].duration)] + EntriesOf(ps[1..], first + 1)
  {
  }

  lemma {:induction false} RecordsRoundTrip(ps: seq<Player>, first: nat)
    requires NamesNulFree(ps)
    ensures DecodeRecords(PlayerRecords(ps, first), |ps|) == Some(EntriesOf(ps, first))
    decreases |ps|
  {
    if ps == [] {
      assert PlayerRecords(ps, first) == [];
      assert EntriesOf(ps, first) == [];
    } else {
      var p := ps[0];
      var more := PlayerRecords(ps[1..], first + 1);
      assert NamesNulFree(ps[1..]) by {
        assert forall i :: 0 <= i < |ps| - 1 ==> ps[1..][i] == ps[i + 1];
      }
      RecordsRoundTrip(ps[1..], first + 1);
      assert NulFree(p.name) by { assert ps[0] == p; }
      AsciiNulFree(p.name);
      PlayerRecordNested(first, p, more);
      DecodeRecordsCons(first % 256, Ascii(p.name), Int32Bytes(0), p.duration,
                        more, |ps| - 1, EntriesOf(ps[1..], first + 1));
      EntriesOfCons(ps, first);
    }
  }

  /** With fewer than 256 players (so the count byte does not wrap) and
      NUL-free names, a client reads back every player in order, numbered
      from 0, with score 0 and its duration field. */
  lemma PlayersRoundTrip(ps: seq<Player>)
    requires |ps| < 256 && NamesNulFree(ps)
    ensures DecodePlayers(PlayersPayload(ps)) == Some(EntriesOf(ps, 0))
  {
    RecordsRoundTrip(ps, 0);
    var b := PlayersPayload(ps);
    assert b[1] == |ps|;
    assert b[2..] == PlayerRecords(ps, 0);
    DecodePlayersOf(b, |ps|, EntriesOf(ps, 0));
  }

  lemma DecodePlayersOf(b: Bytes, n: nat, entries: seq<PlayerEntry>)
    requires |b| >= 2 && b[0] == PLAYER_RESPONSE && b[1] == n
    requires DecodeRecords(b[2..], n) == Some(entries)
    ensures DecodePlayers(b) == Some(entries)
  {
  }

  /** `SendPlayersResponse`'s payload, written record by record. */
  method BuildPlayersResponse(players: seq<Player>) returns (payload: Bytes)
    ensures payload == PlayersPayload(players)
    ensures |payload| == 2 + RecordsSize(players)
    ensures |players| < 256 && NamesNulFree(players) ==>
      DecodePlayers(payload) == Some(EntriesOf(players, 0))
  {
    var numPlrs := |players|;
    var stream: Bytes := [PLAYER_RESPONSE, numPlrs % 256];
    for i := 0 to numPlrs
      invariant stream == [PLAYER_RESPONSE, numPlrs % 256] + PlayerRecords(players[..i], 0)
    {
      stream := stream + [i % 256];
      stream := stream + CString(players[i].name);
      stream := stream + Int32Bytes(0);
      stream := stream + players[i].duration;
      PlayerRecordsAppend(players[..i], players[i], 0);
      assert players[..i + 1] == players[..i] + [players[i]];
    }
    assert players[..numPlrs] == players;
    payload := stream;
    PlayerRecordsLength(players, 0);
    if |players| < 256 && NamesNulFree(players) {
      PlayersRoundTrip(players);
    }
  }
}
