/** `PingSitesConfigManager`: the `PingSites.properties` table maps each
    site name to a JSON object holding its address and baseline. The file
    itself and the `org.json` library are outside the model: the JSON text
    is produced and read by an `encode`/`decode` pair passed in, and the
    key order of `propertyNames()` is an enumeration `keys` of the table. */
module PingSitesConfig {
  import opened JavaSemantics
  import opened PingSites

  /** Site name -> JSON text. */
  type Config = map<string, string>

  /** The four JSON fields `address`, `average`, `stddev`, `tolerance`. */
  datatype SiteJson = SiteJson(address: string, average: real, stddev: real, tolerance: int)

  /** `propertyNames()` lists every key of the table exactly once. */
  predicate Enumerates(keys: seq<string>, config: Config) {
    (forall k :: k in keys ==> k in config) && (forall k :: k in config ==> k in keys) &&
    forall i, j :: 0 <= i < j < |keys| ==> keys[i] != keys[j]
  }

  function JsonOf(site: PingSite): SiteJson {
    SiteJson(site.address, site.avgLatency, site.latencyStdDeviation, site.deviationTolerance)
  }

  /** `addPingSite(pingSite)`: the name is set to the site's JSON text,
      replacing any earlier entry; every other key is untouched. */
  function AddPingSite(config: Config, site: PingSite, encode: SiteJson -> string): (r: Config)
    ensures site.name in r && r[site.name] == encode(JsonOf(site))
    ensures forall k :: k != site.name ==> (k in r <==> k in config)
    ensures forall k :: k != site.name && k in config ==> r[k] == config[k]
  {
    config[site.name := encode(JsonOf(site))]
  }

  /** `removePingSite(siteName)`: only that key goes, and removing an
      absent key changes nothing. */
  function RemovePingSite(config: Config, siteName: string): (r: Config)
    ensures siteName !in r
    ensures forall k :: k != siteName ==> (k in r <==> k in config)
    ensures forall k :: k != siteName && k in config ==> r[k] == config[k]
    ensures siteName !in config ==> r == config
  {
    config - {siteName}
  }

  /** The `isNameInConfig` loop as written: the `;` right after its `if`
      makes the `if` guard an empty statement, so the block below it runs
      on the first key whatever that key is. */
  function ScanAsWritten(keys: seq<string>, siteName: string, isInConfig: bool): bool
    decreases |keys|
  {
    if isInConfig == false && |keys| > 0 then ScanAsWritten(keys[1..], siteName, true)
    else isInConfig
  }

  /** The loop with the `;` removed: the flag is set by the key that equals
      the name. */
  function Scan(keys: seq<string>, siteName: string, isInConfig: bool): bool
    decreases |keys|
  {
    if isInConfig == false && |keys| > 0 then Scan(keys[1..], siteName, keys[0] == siteName)
    else isInConfig
  }

  lemma EnumeratesNonEmpty(keys: seq<string>, config: Config)
    requires Enumerates(keys, config)
    ensures |keys| > 0 <==> |config| > 0
  {
    if |keys| > 0 {
      assert keys[0] in config;
      assert keys[0] in config.Keys;
    }
    if |config| > 0 {
      var k :| k in config.Keys;
      assert k in keys;
    }
  }

  /** `isNameInConfig(siteName)` as written: true exactly when the table has
      any key at all. */
  function IsNameInConfigAsWritten(config: Config, keys: seq<string>, siteName: string): (isInConfig: bool)
    requires Enumerates(keys, config)
    ensures isInConfig <==> |config| > 0
  {
    EnumeratesNonEmpty(keys, config);
    ScanAsWrittenSetsOnFirstKey(keys, siteName);
    ScanAsWritten(keys, siteName, false)
  }

  lemma ScanAsWrittenSetsOnFirstKey(keys: seq<string>, siteName: string)
    ensures ScanAsWritten(keys, siteName, false) <==> |keys| > 0
  {
    if |keys| > 0 {
      assert ScanAsWritten(keys[1..], siteName, true);
    }
  }

  /** A one-entry table answers "yes" for a name it does not hold. */
  lemma IsNameInConfigAsWrittenIgnoresName()
    ensures var config := map["home" := "{}"];
            IsNameInConfigAsWritten(config, ["home"], "office") && "office" !in config
  {
    var config := map["home" := "{}"];
    assert Enumerates(["home"], config);
  }

  lemma {:induction false} ScanFinds(keys: seq<string>, siteName: string)
    ensures Scan(keys, siteName, false) <==> siteName in keys
    decreases |keys|
  {
    if |keys| > 0 {
      if keys[0] != siteName {
        ScanFinds(keys[1..], siteName);
        assert keys == [keys[0]] + keys[1..];
      }
    }
  }

  /** `isNameInConfig(siteName)` as documented: true exactly when the name
      is a key of the table. */
  function IsNameInConfig(config: Config, keys: seq<string>, siteName: string): (isInConfig: bool)
    requires Enumerates(keys, config)
    ensures isInConfig <==> siteName in config
  {
    ScanFinds(keys, siteName);
    Scan(keys, siteName, false)
  }

  function SiteFromJson(key: string, json: SiteJson): PingSite {
    NewPingSite(key, json.address, json.average, json.stddev, json.tolerance)
  }

  /** `getPingSitesFromConfig()`: one site per key whose JSON text decodes,
      named by that key, in enumeration order; a `JSONException` skips the
      entry. */
  function SitesFromConfig(config: Config, keys: seq<string>, decode: string -> Option<SiteJson>): (sites: seq<PingSite>)
    requires forall k :: k in keys ==> k in config
    ensures |sites| <= |keys|
    ensures forall i :: 0 <= i < |sites| ==>
              sites[i].name in keys && decode(config[sites[i].name]) == Some(JsonOf(sites[i]))
    decreases |keys|
  {
    if |keys| == 0 then []
    else
      var rest := SitesFromConfig(config, keys[1..], decode);
      assert forall k :: k in keys[1..] ==> k in keys;
      match decode(config[keys[0]])
      case None => rest
      case Some(json) => [SiteFromJson(keys[0], json)] + rest
  }

  /** Every key whose JSON text decodes yields its site. */
  lemma {:induction false} SitesFromConfigComplete(config: Config, keys: seq<string>, decode: string -> Option<SiteJson>)
    requires forall k :: k in keys ==> k in config
    ensures forall k :: k in keys && decode(config[k]).Some? ==>
              SiteFromJson(k, decode(config[k]).value) in SitesFromConfig(config, keys, decode)
    decreases |keys|
  {
    if |keys| > 0 {
      assert forall k :: k in keys[1..] ==> k in keys;
      SitesFromConfigComplete(config, keys[1..], decode);
      assert forall k :: k in keys ==> k == keys[0] || k in keys[1..];
    }
  }

  predicate NamesDistinct(sites: seq<PingSite>) {
    forall i, j :: 0 <= i < j < |sites| ==> sites[i].name != sites[j].name
  }

  /** With the keys enumerated once each, no two loaded sites share a name. */
  lemma {:induction false} SitesFromConfigNamesDistinct(config: Config, keys: seq<string>, decode: string -> Option<SiteJson>)
    requires forall k :: k in keys ==> k in config
    requires forall i, j :: 0 <= i < j < |keys| ==> keys[i] != keys[j]
    ensures NamesDistinct(SitesFromConfig(config, keys, decode))
    decreases |keys|
  {
    if |keys| > 0 {
      var tail := keys[1..];
      assert forall k :: k in tail ==> k in keys;
      assert forall i :: 0 <= i < |tail| ==> tail[i] == keys[i + 1];
      SitesFromConfigNamesDistinct(config, tail, decode);
      var rest := SitesFromConfig(config, tail, decode);
      assert keys[0] !in tail;
      if decode(config[keys[0]]).Some? {
        var sites := SitesFromConfig(config, keys, decode);
        assert sites == [SiteFromJson(keys[0], decode(config[keys[0]]).value)] + rest;
        forall i, j | 0 <= i < j < |sites| ensures sites[i].name != sites[j].name {
          assert sites[j] == rest[j - 1] && rest[j - 1].name in tail;
          if i > 0 {
            assert sites[i] == rest[i - 1];
            assert rest[i - 1].name != rest[j - 1].name;
          } else {
            assert sites[i].name == keys[0];
          }
        }
      } else {
        assert SitesFromConfig(config, keys, decode) == rest;
      }
    }
  }

  /** A site added to the table is loaded back unchanged, provided the JSON
      library reads back what it writes. */
  lemma AddedSiteLoads(config: Config, site: PingSite, encode: SiteJson -> string,
                       decode: string -> Option<SiteJson>, keys: seq<string>)
    requires forall j :: decode(encode(j)) == Some(j)
    requires Enumerates(keys, AddPingSite(config, site, encode))
    ensures site in SitesFromConfig(AddPingSite(config, site, encode), keys, decode)
  {
    var added := AddPingSite(config, site, encode);
    assert site.name in keys;
    SitesFromConfigComplete(added, keys, decode);
    assert decode(added[site.name]) == Some(JsonOf(site));
    assert SiteFromJson(site.name, JsonOf(site)) == site;
  }
}
