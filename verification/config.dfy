/** The per-folder state file: the UIDVALIDITY and UIDNEXT values (section 2.3.1.1
    of RFC 3501) seen at the last completed sync, kept as a JSON object with the keys
    `uidNext` and `uidValidity`. */
module Config {
  import opened Base
  import opened Text

  /** The stored token pair; both values are kept as the text the server sent. */
  datatype ConfigData = ConfigData(uidNext: string, uidValidity: string)

  /** A config file's JSON object, reduced to its string-valued members. */
  type Json = map<string, string>

  const UidNextKey: string := "uidNext"
  const UidValidityKey: string := "uidValidity"

  /** A loaded config: where it is written back to, and the pair it holds. */
  datatype Config = Config(path: string, data: ConfigData)

  /** The config file of a folder: its local directory joined with its config file name. */
  function ConfigPath(mboxFolderName: string, cfgFileName: string): (p: string)
    ensures |cfgFileName| <= |p| && p[|p| - |cfgFileName|..] == cfgFileName
    ensures (|cfgFileName| == 0 || cfgFileName[0] != '/') ==> mboxFolderName <= p
  {
    PathJoin(mboxFolderName, cfgFileName)
  }

  /** Reading the stored pair. With no file both tokens are empty; a file lacking
      either key raises KeyError. */
  function Load(stored: Option<Json>): (r: Result<ConfigData>)
    ensures stored.None? ==> r == Ok(ConfigData("", ""))
    ensures stored.Some? ==> (r.Ok? <==> UidNextKey in stored.value && UidValidityKey in stored.value)
    ensures stored.Some? && r.Ok? ==>
      r.value.uidNext == stored.value[UidNextKey] && r.value.uidValidity == stored.value[UidValidityKey]
  {
    match stored
    case None => Ok(ConfigData("", ""))
    case Some(j) =>
      if UidNextKey !in j || UidValidityKey !in j then Raised("KeyError")
      else Ok(ConfigData(j[UidNextKey], j[UidValidityKey]))
  }

  /** `Config(folderInfo)`: the config path of the folder, and the pair loaded from
      whatever file `configs` holds at that path. */
  function Open(configs: map<string, Json>, mboxFolderName: string, cfgFileName: string): (r: Result<Config>)
    ensures var p := ConfigPath(mboxFolderName, cfgFileName);
      && (r.Ok? ==> r.value.path == p)
      && (p !in configs ==> r == Ok(Config(p, ConfigData("", ""))))
      && (r.Raised? <==> p in configs && (UidNextKey !in configs[p] || UidValidityKey !in configs[p]))
      && (p in configs && r.Ok? ==>
            r.value.data == ConfigData(configs[p][UidNextKey], configs[p][UidValidityKey]))
  {
    var p := ConfigPath(mboxFolderName, cfgFileName);
    match Load(if p in configs then Some(configs[p]) else None)
    case Raised(m) => Raised(m)
    case Ok(d) => Ok(Config(p, d))
  }

  /** The object `write` dumps: the dataclass fields under their own names. */
  function ToJson(d: ConfigData): (j: Json)
    ensures j.Keys == {UidNextKey, UidValidityKey}
  {
    map[UidNextKey := d.uidNext, UidValidityKey := d.uidValidity]
  }

  /** `write`: the pair is stored at the config's path and no other file changes. */
  function Write(c: Config, configs: map<string, Json>): (r: map<string, Json>)
    ensures r.Keys == configs.Keys + {c.path}
    ensures forall p :: p in configs && p != c.path ==> r[p] == configs[p]
    ensures Load(Some(r[c.path])) == Ok(c.data)
  {
    WriteThenLoad(c.data);
    configs[c.path := ToJson(c.data)]
  }

  /** Writing a pair and loading it again gives the same pair. */
  lemma WriteThenLoad(d: ConfigData)
    ensures Load(Some(ToJson(d))) == Ok(d)
  {
    var j := ToJson(d);
    assert UidNextKey != UidValidityKey;
    assert j[UidNextKey] == d.uidNext && j[UidValidityKey] == d.uidValidity;
  }

  /** `updateUIDs(uidValidity, uidNext)`: the pair becomes the given values; the
      path is kept. */
  function UpdateUids(c: Config, uidValidity: string, uidNext: string): (r: Config)
    ensures r.path == c.path
    ensures r.data.uidValidity == uidValidity && r.data.uidNext == uidNext
  {
    c.(data := ConfigData(uidNext, uidValidity))
  }
}
