/** The message handlers of SkatersLimit.cs: the version check, the config
    hand-over and the kick request, all dispatched by ReceiveData on the
    single mutable `_serverConfig`, plus the client-stop reset and the
    announcements the server sends to a newly spawned player.

    Sends and disconnects are returned as actions instead of being handed
    to Netcode. */
module Protocol {
  import opened Wrappers
  import opened Numbers
  import opened Text
  import opened Config
  import opened NetworkCommunication

  // ---------------------------------------------------------------------
  // Names

  /** Constants.MOD_NAME, as the config file name `oomtm450_skaterslimit_serverconfig.json` shows it. */
  const ModName: string := "oomtm450_skaterslimit"

  /** MOD_VERSION, the build identifier both ends compare. */
  const ModVersion: string := "1.0.3"

  /** `Constants.MOD_NAME + "_" + nameof(MOD_VERSION)`. */
  const VersionDataName: string := ModName + "_" + "MOD_VERSION"

  /** `Constants.MOD_NAME + "_" + "kick"`. */
  const KickDataName: string := ModName + "_" + "kick"

  /** ServerConfig.CONFIG_DATA_NAME (its value is not part of this model). */
  const ConfigDataName: string := ModName + "_" + "config"

  /** Constants.WORKSHOP_MOD_NAME (its value is not part of this model). */
  const WorkshopModName: string := "SkatersLimit"

  const KickReason: string :=
    "Mod is out of date. Please restart your game or unsubscribe from " + WorkshopModName
    + " in the workshop to update."

  /** What a handler asks the transport to do. */
  datatype Action =
    | Send(dataName: string, dataStr: string, clientId: ClientId, listener: Listener)
    | Disconnect(clientId: ClientId, reason: string)

  /** The two roles an instance plays. */
  datatype Side = DedicatedServer | GameClient

  /** The listener on which each side registers ReceiveData: a client on
      FROM_SERVER when it starts, the dedicated server on FROM_CLIENT when
      the mod is enabled. */
  function RegisteredListener(side: Side): Listener {
    match side
    case GameClient => FromServer
    case DedicatedServer => FromClient
  }

  // ---------------------------------------------------------------------
  // ReceiveData as a function

  /** The config after a message, and what the handler sends. */
  datatype Step = Step(config: ServerConfig, actions: seq<Action>)

  /** The `switch (dataName)` of ReceiveData, on an already decoded name
      and text; `clientId` is the sender. */
  function Handle(json: JsonCodec, config: ServerConfig, clientId: ClientId, dataName: string, dataStr: string): Step {
    if dataName == VersionDataName then
      if ModVersion == dataStr then Step(config, [])
      else Step(config, [Send(KickDataName, "1", clientId, FromServer)])
    else if dataName == ConfigDataName then
      if config.sentByServer then Step(config, [])
      else
        match json.deserialize(dataStr)
        case Some(delivered) => Step(delivered, [])
        case None => Step(config, [])
    else if dataName == KickDataName then
      if dataStr != "1" then Step(config, []) else Step(config, [Disconnect(clientId, KickReason)])
    else Step(config, [])
  }

  /** ReceiveData on a whole received buffer. */
  function Receive(json: JsonCodec, config: ServerConfig, clientId: ClientId, frame: seq<byte>): Step {
    var (dataName, dataStr) := ParseFrame(frame);
    Handle(json, config, clientId, dataName, dataStr)
  }

  /** The two sends of Event_OnPlayerSpawned, on a dedicated server only. */
  function SpawnAnnouncements(json: JsonCodec, config: ServerConfig, isDedicatedServer: bool, ownerClientId: ClientId)
    : seq<Action>
  {
    if !isDedicatedServer then []
    else [Send(VersionDataName, ModVersion, ownerClientId, FromServer),
          Send(ConfigDataName, json.serialize(config), ownerClientId, FromServer)]
  }

  // ---------------------------------------------------------------------
  // The mutable state

  /** The static state of the SkatersLimit class: `_serverConfig` and the
      JSON library it is exchanged with. */
  class Mod {
    const json: JsonCodec
    var serverConfig: ServerConfig

    /** The static initialiser `new ServerConfig()`. */
    constructor (json: JsonCodec)
      ensures this.json == json && serverConfig == Defaults()
    {
      this.json := json;
      serverConfig := Defaults();
    }

    /** `ReceiveData(clientId, reader)`. SetConfig's exception on a bad
        config text is caught, leaving the config unchanged. */
    method ReceiveData(clientId: ClientId, reader: BufferReader) returns (actions: seq<Action>)
      requires reader.Valid()
      modifies this, reader
      ensures reader.Valid()
      ensures ReadNameField(old(reader.Unread())).Some? ==> reader.position == |reader.bytes|
      ensures ReadNameField(old(reader.Unread())).None? ==> reader.position == old(reader.position)
      ensures Step(serverConfig, actions) == Receive(json, old(serverConfig), clientId, old(reader.Unread()))
    {
      var dataName, dataStr := GetData(reader);
      actions := [];
      if dataName == VersionDataName {
        if ModVersion != dataStr {
          actions := [Send(KickDataName, "1", clientId, FromServer)];
        }
      } else if dataName == ConfigDataName {
        if !serverConfig.sentByServer {
          var delivered := json.deserialize(dataStr);
          if delivered.Some? {
            serverConfig := delivered.value;
          }
        }
      } else if dataName == KickDataName {
        if dataStr == "1" {
          actions := [Disconnect(clientId, KickReason)];
        }
      }
    }

    /** `Event_Client_OnClientStopped`: back to a fresh config. */
    method OnClientStopped()
      modifies this
      ensures serverConfig == Defaults()
    {
      serverConfig := Defaults();
    }

    /** `Event_OnPlayerSpawned`: on a dedicated server, the version and
        then the config, both on FROM_SERVER to the new player. */
    method OnPlayerSpawned(isDedicatedServer: bool, ownerClientId: ClientId) returns (actions: seq<Action>)
      ensures actions == SpawnAnnouncements(json, serverConfig, isDedicatedServer, ownerClientId)
    {
      if !isDedicatedServer {
        return [];
      }
      actions := [Send(VersionDataName, ModVersion, ownerClientId, FromServer)];
      actions := actions + [Send(ConfigDataName, json.serialize(serverConfig), ownerClientId, FromServer)];
    }
  }

  // ---------------------------------------------------------------------
  // Properties of the handlers

  /** The three names are distinct and non-empty, so the switch tells
      them apart and the ("", "") of a failed read matches none of them. */
  lemma DataNamesDistinct()
    ensures VersionDataName != ConfigDataName && VersionDataName != KickDataName && ConfigDataName != KickDataName
    ensures VersionDataName != "" && ConfigDataName != "" && KickDataName != ""
  {
  }

  /** The names have no white space around them and are short, so they
      survive GetData's Trim and fit the name field. */
  lemma DataNamesFrameable()
    ensures IsTrimmed(VersionDataName) && |VersionDataName| < 0x4000_0000
    ensures IsTrimmed(ConfigDataName) && |ConfigDataName| < 0x4000_0000
    ensures IsTrimmed(KickDataName) && |KickDataName| < 0x4000_0000
  {
  }

  /** A name other than the three, the "" of a failed read among them,
      changes nothing and sends nothing. */
  lemma UnmatchedNameIgnored(json: JsonCodec, config: ServerConfig, clientId: ClientId, dataName: string, dataStr: string)
    requires dataName != VersionDataName && dataName != ConfigDataName && dataName != KickDataName
    ensures Handle(json, config, clientId, dataName, dataStr) == Step(config, [])
  {
  }

  /** A spawned player is sent the version and then the config, both on
      FROM_SERVER and both to that player; a game client sends nothing. */
  lemma SpawnSendsVersionThenConfig(json: JsonCodec, config: ServerConfig, isDedicatedServer: bool, ownerClientId: ClientId)
    ensures var actions := SpawnAnnouncements(json, config, isDedicatedServer, ownerClientId);
            (!isDedicatedServer ==> actions == [])
            && (isDedicatedServer ==>
                  && |actions| == 2
                  && (forall a :: a in actions ==> a.Send? && a.clientId == ownerClientId && a.listener == FromServer)
                  && actions[0].dataName == VersionDataName && actions[0].dataStr == ModVersion
                  && actions[1].dataName == ConfigDataName && actions[1].dataStr == json.serialize(config))
  {
  }

  /** Every message produces at most one action. */
  lemma AtMostOneAction(json: JsonCodec, config: ServerConfig, clientId: ClientId, dataName: string, dataStr: string)
    ensures |Handle(json, config, clientId, dataName, dataStr).actions| <= 1
  {
  }

  /** A kick request is sent exactly when the version message carries
      another version, and it goes back to the sender on FROM_SERVER. */
  lemma KickRequestIffVersionMismatch(json: JsonCodec, config: ServerConfig, clientId: ClientId,
                                      dataName: string, dataStr: string)
    ensures var actions := Handle(json, config, clientId, dataName, dataStr).actions;
            (exists a :: a in actions && a.Send?) <==> dataName == VersionDataName && dataStr != ModVersion
    ensures var actions := Handle(json, config, clientId, dataName, dataStr).actions;
            forall a :: a in actions && a.Send? ==> a == Send(KickDataName, "1", clientId, FromServer)
  {
    DataNamesDistinct();
    var actions := Handle(json, config, clientId, dataName, dataStr).actions;
    if dataName == VersionDataName && dataStr != ModVersion {
      assert actions[0] in actions;
    }
  }

  /** A disconnect happens exactly on a kick message whose text is "1",
      and it disconnects the sender. */
  lemma DisconnectIffKickOne(json: JsonCodec, config: ServerConfig, clientId: ClientId,
                             dataName: string, dataStr: string)
    ensures var actions := Handle(json, config, clientId, dataName, dataStr).actions;
            (exists a :: a in actions && a.Disconnect?) <==> dataName == KickDataName && dataStr == "1"
    ensures var actions := Handle(json, config, clientId, dataName, dataStr).actions;
            forall a :: a in actions && a.Disconnect? ==> a == Disconnect(clientId, KickReason)
  {
    DataNamesDistinct();
    var actions := Handle(json, config, clientId, dataName, dataStr).actions;
    if dataName == KickDataName && dataStr == "1" {
      assert actions[0] in actions;
    }
  }

  /** The config changes only when a config message that parses arrives
      before any config from the server has been adopted, and then it
      becomes exactly the parsed config. */
  lemma ConfigChangesOnlyByAdoption(json: JsonCodec, config: ServerConfig, clientId: ClientId,
                                    dataName: string, dataStr: string)
    ensures var after := Handle(json, config, clientId, dataName, dataStr).config;
            after != config ==>
              dataName == ConfigDataName && !config.sentByServer && json.deserialize(dataStr) == Some(after)
    ensures dataName == ConfigDataName && !config.sentByServer && json.deserialize(dataStr).Some? ==>
              Handle(json, config, clientId, dataName, dataStr).config == json.deserialize(dataStr).value
  {
    DataNamesDistinct();
  }

  /** First config wins: once SentByServer is set, no message changes the
      config. */
  lemma FirstConfigWins(json: JsonCodec, config: ServerConfig, clientId: ClientId, dataName: string, dataStr: string)
    requires config.sentByServer
    ensures Handle(json, config, clientId, dataName, dataStr).config == config
  {
  }

  /** The ("", "") that GetData returns on a failure matches no name, and
      changes nothing. */
  lemma UnreadableFrameIgnored(json: JsonCodec, config: ServerConfig, clientId: ClientId, frame: seq<byte>)
    requires ReadNameField(frame).None?
    ensures Receive(json, config, clientId, frame) == Step(config, [])
  {
    DataNamesDistinct();
  }

  /** The version announcement of a server of the same version leaves
      the client as it is and sends nothing. */
  lemma VersionAnnouncementAccepted(json: JsonCodec, client: ServerConfig, senderId: ClientId)
    ensures Receive(json, client, senderId, Frame(VersionDataName, ModVersion)) == Step(client, [])
  {
    DataNamesFrameable();
    assert IsTrimmed(ModVersion);
    ParseFrameOfTrimmed(VersionDataName, ModVersion);
  }

  /** The config announcement makes a client that has not adopted a config
      yet adopt the server's. */
  lemma ConfigAnnouncementAdopted(json: JsonCodec, server: ServerConfig, client: ServerConfig, senderId: ClientId)
    requires Faithful(json)
    requires !client.sentByServer
    ensures Receive(json, client, senderId, Frame(ConfigDataName, json.serialize(server))) == Step(server, [])
  {
    DataNamesDistinct();
    DataNamesFrameable();
    var text := json.serialize(server);
    assert json.deserialize(text) == Some(server) && IsTrimmed(text);
    ParseFrameOfTrimmed(ConfigDataName, text);
  }

  /** The handshake: a client that has not adopted a config, receiving the
      two announcements of a server of the same version in the order they
      were sent, adopts the server's config and sends nothing. */
  lemma HandshakeAdoptsServerConfig(json: JsonCodec, server: ServerConfig, client: ServerConfig,
                                    ownerClientId: ClientId, senderId: ClientId)
    requires Faithful(json)
    requires !client.sentByServer
    ensures var announcements := SpawnAnnouncements(json, server, true, ownerClientId);
            |announcements| == 2 && announcements[0].Send? && announcements[1].Send?
            && var first := Receive(json, client, senderId, Frame(announcements[0].dataName, announcements[0].dataStr));
               var second := Receive(json, first.config, senderId, Frame(announcements[1].dataName, announcements[1].dataStr));
               first == Step(client, []) && second == Step(server, [])
  {
    VersionAnnouncementAccepted(json, client, senderId);
    ConfigAnnouncementAdopted(json, server, client, senderId);
  }

  /** The kick request travels on FROM_SERVER, a listener the dedicated
      server never registers, so as written the server's ReceiveData does
      not see it and no disconnect follows from the handshake. */
  lemma KickRequestNotHeardByServer(json: JsonCodec, config: ServerConfig, clientId: ClientId, dataStr: string)
    requires dataStr != ModVersion
    ensures var actions := Handle(json, config, clientId, VersionDataName, dataStr).actions;
            |actions| == 1 && actions[0].Send?
            && actions[0].listener != RegisteredListener(DedicatedServer)
            && actions[0].listener == RegisteredListener(GameClient)
  {
  }
}
