# SkatersLimit, modelled in Dafny

SkatersLimit is a server-and-client mod for the hockey game Puck. It
limits how many skaters each team may field. This project models the
parts of it whose behaviour can be stated and proved:

- **Admission** (`admission.dfy`). This is the check the client runs when the
  local player clicks a position (`PlayerPositionManagerControllerPatch.Prefix`).
  - Fail-open: every claim is allowed on a dedicated server, or before the
    server's config has arrived.
  - Otherwise the checks run in order: goalie bypass, then admin bypass.
  - Then both rosters are counted. A balance mode is switched on by
    `TeamBalancing`, or by `TeamBalancingGoalie` when exactly one team has a
    goalie.
  - The cap is tightened to the opponent's skaters + offset + 1, using C#'s
    wrapping `int` addition.
  - A claim is denied when the team is at the cap. The denial names one of
    four chat messages and the cap it prints. `Prefix` is an imperative
    method with the source's loops, and it is proved equal to the function
    `Decide`.
- **Protocol** (`protocol.dfy`). The class `Mod` holds the mutable
  `_serverConfig`. Its methods are:
  - `ReceiveData`: version check, first-wins config adoption, kick;
  - `OnClientStopped`: reset to defaults;
  - `OnPlayerSpawned`: the server sends its version, then its config.

  Sends and disconnects are returned as `Action` values.
- **Framing** (`network_communication.dfy`). `SendData` builds a buffer: a
  name field, then the UTF-8 bytes of the text.
  - `GetData` reads the name, copies every remaining byte in a loop, decodes
    them and trims both strings.
  - When the name cannot be read, `GetData` returns `("", "")`.
  - The buffers are the classes `BufferWriter` and `BufferReader`.
- **Config** (`server_config.dfy`).
  - The `ServerConfig` record and its defaults.
  - JSON serialization is a pair of functions passed in as an input, with a
    stated hypothesis (`Faithful`) that deserialize inverts serialize.
  - `ReadConfig` takes the file content (`None` when there is no file) and
    returns the text written back.
- **Supporting modules**:
  - `text.dfy`: the .NET UTF-8 codec (section 3.9 of the Unicode Standard,
    Table 3-7, with U+FFFD replacement) and `String.Trim`;
  - `numbers.dfy`: C# `int` and `ulong`, and 32-bit wrap-around;
  - `wrappers.dfy`: `Option`.

Behaviour as written:
- **Kick channel.** The client sends the kick request on FROM_SERVER
  (SkatersLimit.cs:283). The dedicated server only listens on FROM_CLIENT
  (:321). `KickRequestNotHeardByServer` states this as written.
- **Fail-open.** It also applies when the instance is a dedicated server
  (:54), not only before a config has arrived.
- **Adoption.** It is first-wins: only while `SentByServer` is false (:287).
- **Decode failure.** It is the value `("", "")`, not an error.
- **Denial contents.** A denial also carries the cap it prints (:141-149).
- **No session state.** There is no per-connection session state: the
  "kick requested" step is just the `Send` action.
- **Negative caps.** `MaxNumberOfSkaters` is an `int` that nothing prevents
  from being negative.

## Model

| member | source | states |
|---|---|---|
| Numbers.Wrap32 | SkatersLimit/SkatersLimit.cs:100 | the unchecked `int` value of a sum: congruent to it modulo 2^32, and equal to it when it fits in 32 bits |
| Text.Trim | SkatersLimit/NetworkCommunication.cs:52-56 | the result has no white space at either end and is a contiguous slice of the input, with only white space cut off on each side |
| Text.TrimOfTrimmed | SkatersLimit/NetworkCommunication.cs:52-56 | trimming a string with no surrounding white space returns it unchanged |
| Text.TrimIdempotent | SkatersLimit/NetworkCommunication.cs:52-56 | trimming twice is the same as trimming once |
| Text.Encode | SkatersLimit/NetworkCommunication.cs:17-19 | GetBytes takes between one and four bytes per character |
| Text.Decode | SkatersLimit/NetworkCommunication.cs:52 | GetString never fails and yields at most one character per byte |
| Text.DecodeFirstOfEncodeScalar | SkatersLimit/NetworkCommunication.cs:17 | each character's UTF-8 encoding decodes back to that character, consuming exactly its bytes, whatever follows |
| Text.DecodeEncode | SkatersLimit/NetworkCommunication.cs:17-52 | GetString(GetBytes(s)) == s for every string |
| Config.Defaults | SkatersLimit/ServerConfig.cs:13-49 | a fresh config: 5 skaters, no balancing, offset 0, no goalie balancing, logging on, not sent by the server, admin bypass on, no admin ids |
| Config.SetConfigInvertsToString | SkatersLimit/ServerConfig.cs:57-68 | under the serializer hypothesis, SetConfig(ToString(c)) gives back c field for field |
| Config.ReadConfig | SkatersLimit/ServerConfig.cs:76-93 | fails exactly when a file exists and does not parse; otherwise SentByServer is true and AdminSteamIds is the argument; the other six fields are the defaults (no file) or the parsed file; the written text is the config before those two overrides |
| NetworkCommunication.U32RoundTrip | SkatersLimit/NetworkCommunication.cs:22 | the stand-in length prefix reads back as the count written |
| NetworkCommunication.ReadNameField | SkatersLimit/NetworkCommunication.cs:44 | a name read from a buffer consumes at least its prefix and never more than the buffer |
| NetworkCommunication.ReadNameFieldOfNameField | SkatersLimit/NetworkCommunication.cs:22-44 | ReadValue(string) reads back the name WriteValue(string) wrote, and exactly its bytes, whatever follows |
| NetworkCommunication.ParseFrame | SkatersLimit/NetworkCommunication.cs:42-63 | both strings GetData returns are trimmed, and ("", "") is returned whenever the name cannot be read |
| NetworkCommunication.ParseFrameOfFrame | SkatersLimit/NetworkCommunication.cs:22-56 | parsing the frame SendData builds for (n, p) gives (Trim(n), Trim(p)) |
| NetworkCommunication.ParseFrameOfTrimmed | SkatersLimit/NetworkCommunication.cs:44-56 | a name and text with no surrounding white space come back exactly |
| NetworkCommunication.TruncatedFrameYieldsEmpty | SkatersLimit/NetworkCommunication.cs:58-62 | a buffer too short for its name field yields ("", "") |
| NetworkCommunication.BufferWriter.constructor | SkatersLimit/NetworkCommunication.cs:21 | a new writer has the requested capacity and is empty |
| NetworkCommunication.BufferWriter.WriteValue | SkatersLimit/NetworkCommunication.cs:22 | appends the name field and nothing else |
| NetworkCommunication.BufferWriter.WriteBytes | SkatersLimit/NetworkCommunication.cs:23 | appends exactly the given bytes |
| NetworkCommunication.BufferReader.ReadValue | SkatersLimit/NetworkCommunication.cs:44 | on success returns the name and advances past its field; on a short buffer fails and leaves the position alone |
| NetworkCommunication.BufferReader.ReadByte | SkatersLimit/NetworkCommunication.cs:50 | returns the byte at the position and advances by one |
| NetworkCommunication.SendData | SkatersLimit/NetworkCommunication.cs:15-34 | the packet goes to the given client on the given listener; its bytes are the name field followed by exactly the UTF-8 bytes of the text; its capacity is ByteCount(name) + 8 + ByteCount(text); GetData gives it back trimmed |
| NetworkCommunication.GetData | SkatersLimit/NetworkCommunication.cs:42-63 | returns ParseFrame of the unread bytes: the trimmed name, and the trimmed decoding of every remaining byte in order, or ("", ""); after a successful name read the reader is at the end of the buffer, after a failed one it has not moved |
| Admission.HasGoalie | SkatersLimit/SkatersLimit.cs:70-87 | true exactly when some position of the roster is a claimed Goalie |
| Admission.SkaterCountIsClaimedAttackers | SkatersLimit/SkatersLimit.cs:70-87 | a team's skater count is the number of its claimed Attacker positions |
| Admission.TeamBalancingIsXor | SkatersLimit/SkatersLimit.cs:400-414 | balance mode is TeamBalancing or (TeamBalancingGoalie and exactly one team has a goalie); with both or neither goalie only TeamBalancing counts |
| Admission.EffectiveCap | SkatersLimit/SkatersLimit.cs:89-117 | the cap never exceeds MaxNumberOfSkaters, is MaxNumberOfSkaters with balance mode off, and is min(MaxNumberOfSkaters, opponent + offset + 1) when that sum does not overflow |
| Admission.IsAdmin | SkatersLimit/SkatersLimit.cs:163-173 | true exactly when the local steam id is one of the admin ids |
| Admission.CountTeam | SkatersLimit/SkatersLimit.cs:70-87 | the foreach loop yields the claimed-attacker count and whether a claimed goalie exists |
| Admission.Prefix | SkatersLimit/SkatersLimit.cs:52-156 | the imperative prefix returns exactly the verdict of the decision function |
| Admission.FailOpen | SkatersLimit/SkatersLimit.cs:53-55 | on a dedicated server or before the server's config arrives, every claim is allowed whatever the rosters |
| Admission.GoalieAlwaysAllowed | SkatersLimit/SkatersLimit.cs:62-63 | a Goalie position is allowed whether or not it is claimed |
| Admission.AdminAlwaysAllowed | SkatersLimit/SkatersLimit.cs:66-67 | with AdminBypass set, a local id equal to some admin id is allowed |
| Admission.UnknownTeamAllowed | SkatersLimit/SkatersLimit.cs:124-126 | a position on neither team is allowed |
| Admission.DeniedIffTeamAtCap | SkatersLimit/SkatersLimit.cs:93-155 | once no bypass applies, a Blue or Red claim is denied exactly when the team's skaters reach the cap; the denial carries the balance mode, whether the team's goal is free, and the cap |
| Admission.DenialCapAtMostMax | SkatersLimit/SkatersLimit.cs:99-117 | the cap a denial prints is at most MaxNumberOfSkaters, and the claimant's team is at or above it |
| Admission.NoBalancingFlatCap | SkatersLimit/SkatersLimit.cs:89-117 | with neither balancing option set, the cap is MaxNumberOfSkaters for every roster |
| Admission.OffsetOverflowRefusesEmptyTeam | SkatersLimit/SkatersLimit.cs:100 | an offset of int.MaxValue wraps the cap to int.MinValue, so an empty team is refused |
| Admission.FullTeamRefusesSkater | SkatersLimit/SkatersLimit.cs:138-152 | cap 5, no balancing, Blue at 5 skaters, Red at 3: a Blue skater is refused by a denial tagged team-full, goal free, with cap 5 |
| Admission.FullTeamAdmitsGoalie | SkatersLimit/SkatersLimit.cs:62-63 | the same rosters let a Blue goalie in |
| Admission.BalancingRefusesLeadingTeam | SkatersLimit/SkatersLimit.cs:99-103 | balancing on, Blue 3 against Red 1: Blue is refused by a denial tagged unbalanced, goal free, with cap 2 |
| Admission.GoalieBalancingAdmitsTrailingTeam | SkatersLimit/SkatersLimit.cs:400-414 | goalie balancing with a goalie on Blue only, Blue 2 against Red 4: the cap is 5 and Blue is allowed |
| Protocol.Mod.constructor | SkatersLimit/SkatersLimit.cs:33 | the config starts as a fresh ServerConfig |
| Protocol.Mod.ReceiveData | SkatersLimit/SkatersLimit.cs:272-304 | the new config and the actions are those of the handler function on the decoded unread bytes; the reader ends at the end of the buffer, or where it was when the name cannot be read |
| Protocol.Mod.OnClientStopped | SkatersLimit/SkatersLimit.cs:234-243 | the config is reset to a fresh ServerConfig |
| Protocol.Mod.OnPlayerSpawned | SkatersLimit/SkatersLimit.cs:250-265 | returns the spawn announcements and leaves the config unchanged |
| Protocol.DataNamesDistinct | SkatersLimit/SkatersLimit.cs:278-299 | the three case labels are distinct and non-empty |
| Protocol.DataNamesFrameable | SkatersLimit/SkatersLimit.cs:259-283 | the three names have no surrounding white space and fit the name field |
| Protocol.UnmatchedNameIgnored | SkatersLimit/SkatersLimit.cs:278-299 | a name matching no case changes nothing and sends nothing |
| Protocol.SpawnSendsVersionThenConfig | SkatersLimit/SkatersLimit.cs:250-265 | on a dedicated server, the version and then the config are sent on FROM_SERVER to the new player; a client sends nothing |
| Protocol.AtMostOneAction | SkatersLimit/SkatersLimit.cs:278-299 | a message gives rise to at most one action |
| Protocol.KickRequestIffVersionMismatch | SkatersLimit/SkatersLimit.cs:279-284 | a send happens exactly when the version message carries another version, and it is ("kick", "1") back to the sender on FROM_SERVER |
| Protocol.DisconnectIffKickOne | SkatersLimit/SkatersLimit.cs:291-298 | a disconnect happens exactly on a kick message with text "1", and it disconnects the sender with the fixed reason |
| Protocol.ConfigChangesOnlyByAdoption | SkatersLimit/SkatersLimit.cs:286-289 | the config changes only on a config message that parses while SentByServer is false, and then becomes the parsed config |
| Protocol.FirstConfigWins | SkatersLimit/SkatersLimit.cs:287-288 | once SentByServer is set, no message changes the config |
| Protocol.UnreadableFrameIgnored | SkatersLimit/SkatersLimit.cs:276-299 | a buffer whose name cannot be read changes nothing and sends nothing |
| Protocol.VersionAnnouncementAccepted | SkatersLimit/SkatersLimit.cs:279-281 | the framed version announcement of a same-version server changes nothing and sends nothing |
| Protocol.ConfigAnnouncementAdopted | SkatersLimit/SkatersLimit.cs:286-288 | the framed config announcement makes a client without a server config adopt the server's |
| Protocol.HandshakeAdoptsServerConfig | SkatersLimit/SkatersLimit.cs:259-288 | the two spawn announcements, received in order, leave the client with the server's config and no action |
| Protocol.KickRequestNotHeardByServer | SkatersLimit/SkatersLimit.cs:283 | the kick request is sent on the listener the client registers, not on the one the dedicated server registers |

## Left out

- Harmony patching, event subscription, and enabling or disabling the mod: the decision and the handlers are called directly. This includes where `OnEnable` assigns `ReadConfig`'s result to `_serverConfig` (SkatersLimit.cs:323).
- `Event_Client_OnClientStarted`: it only registers the handler. The listeners each side registers are the function `RegisteredListener`.
- The chat output (SkatersLimit.cs:141-149). The verdict names the message by its two flags and the cap.
- Logging, and `ClientConfig`, which only affects logging. Neither changes behaviour.
- `IsDedicatedServer` is an input.
- The host's roster, local player and admin ids are inputs. The local steam id is a string.
- Netcode is left out. `SendNamedMessage` and `DisconnectClient` become returned actions, and handler registration becomes `RegisteredListener`. Allocation and `Dispose` are left out.
- The byte layout of Netcode's `WriteValue(string)` is not part of this model. A stand-in takes its place: a 4-byte little-endian byte count, then the UTF-8 bytes.
- Whether the writer's capacity is large enough is not modelled. `SendData` states the capacity it computes, and the writer grows as needed.
- Constants.cs is not part of this model. `MOD_NAME` is taken from the config file name. `CONFIG_DATA_NAME`, `WORKSHOP_MOD_NAME` and the two listener strings are stand-ins: distinct values, and the datatype `Listener`.
- The Newtonsoft JSON internals. Serializing and deserializing are an input pair, and any property of them is assumed through `Config.Faithful`.
- File system access in `ReadConfig`. The file content is an input and the written text an output.
- C# null cases: `AdminSteamIds` null (the empty sequence instead) and `SetConfig` returning null.
- Ill-formed UTF-16 (lone surrogates): Dafny strings hold only Unicode scalar values.
- The skater counters are unbounded naturals, not 32-bit `int`s. A roster would need more than 2^31 positions to overflow them.
- The `clientId` argument of `GetData`: it only appears in a log line.
- Exceptions thrown inside a send, and the `try`/`catch` around the handlers. The only exceptions modelled are a config that does not parse (config unchanged) and a name that cannot be read (`("", "")`).
- NetworkCommunication.ParseFrameOfFrame, NetworkCommunication.SendData: the round trip is stated only for names whose UTF-8 encoding is shorter than 2^32 bytes, because the stand-in length prefix wraps beyond that.
