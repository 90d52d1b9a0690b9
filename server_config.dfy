/** The configuration the server reads from its JSON file and sends to each
    client (ServerConfig.cs). */
module Config {
  import opened Wrappers
  import opened Numbers
  import Text

  /** One ServerConfig object. `adminSteamIds` is null in a fresh object;
      the model uses the empty sequence for it. */
  datatype ServerConfig = ServerConfig(
    maxNumberOfSkaters: Int32,
    teamBalancing: bool,
    teamBalanceOffset: Int32,
    teamBalancingGoalie: bool,
    logInfo: bool,
    sentByServer: bool,
    adminBypass: bool,
    adminSteamIds: seq<string>)

  /** `new ServerConfig()`: the property initialisers. */
  function Defaults(): (c: ServerConfig)
    ensures c.maxNumberOfSkaters == 5 && !c.teamBalancing && c.teamBalanceOffset == 0
    ensures !c.teamBalancingGoalie && c.logInfo && !c.sentByServer && c.adminBypass
    ensures c.adminSteamIds == []
  {
    ServerConfig(5, false, 0, false, true, false, true, [])
  }

  /** The six settings the JSON file controls; ReadConfig overrides the
      other two fields. */
  predicate SameSettings(a: ServerConfig, b: ServerConfig) {
    && a.maxNumberOfSkaters == b.maxNumberOfSkaters
    && a.teamBalancing == b.teamBalancing
    && a.teamBalanceOffset == b.teamBalanceOffset
    && a.teamBalancingGoalie == b.teamBalancingGoalie
    && a.logInfo == b.logInfo
    && a.adminBypass == b.adminBypass
  }

  /** The Newtonsoft serializer pair behind `ToString` and `SetConfig`,
      supplied from outside: `deserialize` yields None where
      `JsonConvert.DeserializeObject` throws. */
  datatype JsonCodec = JsonCodec(
    serialize: ServerConfig -> string,
    deserialize: string -> Option<ServerConfig>)

  /** What the model assumes of that library: deserializing a serialized
      config gives it back field for field, and the serialized text (a JSON
      object, from `{` to `}`) has no white space around it. */
  ghost predicate Faithful(json: JsonCodec) {
    forall c :: json.deserialize(json.serialize(c)) == Some(c) && Text.IsTrimmed(json.serialize(c))
  }

  /** `SetConfig(ToString())` gives back the config. */
  lemma SetConfigInvertsToString(json: JsonCodec, c: ServerConfig)
    requires Faithful(json)
    ensures json.deserialize(json.serialize(c)) == Some(c)
  {
  }

  /** The config ReadConfig holds before its two overrides: the defaults
      when there is no file, otherwise what the file parses to. */
  function Stored(json: JsonCodec, file: Option<string>): Option<ServerConfig> {
    match file
    case None => Some(Defaults())
    case Some(text) => json.deserialize(text)
  }

  /** What a successful ReadConfig returns, and the text it wrote back. */
  datatype Loaded = Loaded(config: ServerConfig, written: string)

  /** `ReadConfig(adminSteamIds)`, with the file's content (None when the
      file does not exist) as an input and the text written back to the file
      as an output. None is the exception a malformed file raises. */
  method ReadConfig(json: JsonCodec, adminSteamIds: seq<string>, file: Option<string>)
    returns (r: Option<Loaded>)
    ensures r.None? <==> file.Some? && json.deserialize(file.value).None?
    ensures r.Some? ==> r.value.config.sentByServer && r.value.config.adminSteamIds == adminSteamIds
    ensures r.Some? && file.None? ==> SameSettings(r.value.config, Defaults())
    ensures r.Some? && file.Some? ==>
              exists parsed :: json.deserialize(file.value) == Some(parsed)
                && SameSettings(r.value.config, parsed)
                && r.value.written == json.serialize(parsed)
    ensures r.Some? ==> Stored(json, file).Some? && r.value.written == json.serialize(Stored(json, file).value)
  {
    var config := Defaults();
    if file.Some? {
      var parsed := json.deserialize(file.value);
      if parsed.None? {
        return None;
      }
      config := parsed.value;
    }
    var written := json.serialize(config);
    config := config.(sentByServer := true);
    config := config.(adminSteamIds := adminSteamIds);
    return Some(Loaded(config, written));
  }
}
