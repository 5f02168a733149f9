/** The Capacitor information provider: the facts it records about a proof
    (device, battery, language and location), gated by two preferences
    that default to on. The plugin results are inputs, already rendered by
    `String(...)`; `translate` is the localisation service. */
module CapacitorProviderModel {
  import opened ProofRepositorySpec

  datatype Information = Information(proofHash: string, provider: string, name: string, value: string)

  /** The fields of `Device.getInfo()` that are recorded, rendered. */
  datatype DeviceInfo = DeviceInfo(
    name: string, model: string, platform: string, uuid: string, appVersion: string, appBuild: string,
    operatingSystem: string, osVersion: string, manufacturer: string, isVirtual: string,
    memUsed: string, diskFree: string, diskTotal: string)

  datatype BatteryInfo = BatteryInfo(batteryLevel: string, isCharging: string)

  /** Latitude and longitude, rendered as JavaScript renders numbers. */
  datatype Coordinates = Coordinates(latitude: string, longitude: string)

  /** What the plugins return when they are called. */
  datatype PluginResults = PluginResults(
    deviceInfo: DeviceInfo, batteryInfo: BatteryInfo, languageCode: string, coordinates: Coordinates)

  const ProviderName := "Capacitor"

  const CollectDeviceInfoKey := "collectDeviceInfo"
  const CollectLocationInfoKey := "collectLocationInfo"

  /** The provider's boolean preferences, by key. */
  type Preferences = map<string, bool>

  /** `getBoolean$(key, true)`: a preference that was never set reads true. */
  function GetBoolean(preferences: Preferences, key: string): (enabled: bool)
    ensures key !in preferences ==> enabled
  {
    if key in preferences then preferences[key] else true
  }

  function IsDeviceInfoCollectionEnabled(preferences: Preferences): bool {
    GetBoolean(preferences, CollectDeviceInfoKey)
  }

  function SetDeviceInfoCollection(preferences: Preferences, enable: bool): Preferences {
    preferences[CollectDeviceInfoKey := enable]
  }

  function IsLocationInfoCollectionEnabled(preferences: Preferences): bool {
    GetBoolean(preferences, CollectLocationInfoKey)
  }

  function SetLocationInfoCollection(preferences: Preferences, enable: bool): Preferences {
    preferences[CollectLocationInfoKey := enable]
  }

  /** The untranslated names of the device, battery and language records,
      in the order they are recorded. */
  const DeviceKeys: seq<string> := [
    "deviceName", "deviceModel", "devicePlatform", "uuid", "appVersion", "appVersionCode",
    "operatingSystem", "osVersion", "deviceManufacturer", "runningOnVm", "usedMemory",
    "freeDiskSpace", "totalDiskSpace"]
  const BatteryKeys: seq<string> := ["batteryLevel", "batteryCharging"]
  const LanguageKey := "deviceLanguageCode"
  const LocationKey := "location"

  /** The device fields in the order the device records carry them. */
  function DeviceValues(d: DeviceInfo): seq<string> {
    [d.name, d.model, d.platform, d.uuid, d.appVersion, d.appBuild, d.operatingSystem,
     d.osVersion, d.manufacturer, d.isVirtual, d.memUsed, d.diskFree, d.diskTotal]
  }

  /** The template literal `(${latitude}, ${longitude})`. */
  function LocationValue(c: Coordinates): string {
    "(" + c.latitude + ", " + c.longitude + ")"
  }

  /** The untranslated names `provide$` records, for the given toggles. */
  function ExpectedKeys(deviceEnabled: bool, locationEnabled: bool): seq<string> {
    (if deviceEnabled then DeviceKeys + BatteryKeys + [LanguageKey] else [])
      + (if locationEnabled then [LocationKey] else [])
  }

  /** The records pushed for one plugin result: one per name, tagged with
      the proof's hash and the provider's name, named by the translated key
      and carrying the matching value. */
  function Records(h: string, translate: string -> string, keys: seq<string>, values: seq<string>)
    : (r: seq<Information>)
    requires |keys| == |values|
    ensures |r| == |keys|
    ensures forall i :: 0 <= i < |keys| ==>
              r[i] == Information(h, ProviderName, translate(keys[i]), values[i])
  {
    seq(|keys|, i requires 0 <= i < |keys| => Information(h, ProviderName, translate(keys[i]), values[i]))
  }

  /** `provide$(proof)`: each enabled plugin group is called and its records
      are appended in the order device, battery, language, location. */
  function Provide(proof: Proof, deviceEnabled: bool, locationEnabled: bool, results: PluginResults,
                   translate: string -> string): seq<Information>
  {
    var h := proof.hash;
    var b := results.batteryInfo;
    var device := if !deviceEnabled then [] else Records(h, translate, DeviceKeys, DeviceValues(results.deviceInfo));
    var battery := if !deviceEnabled then [] else Records(h, translate, BatteryKeys, [b.batteryLevel, b.isCharging]);
    var language := if !deviceEnabled then [] else Records(h, translate, [LanguageKey], [results.languageCode]);
    var location := if !locationEnabled then [] else
      Records(h, translate, [LocationKey], [LocationValue(results.coordinates)]);
    device + battery + language + location
  }

  /** `provide$` with the toggles read from the preferences. */
  function ProvideWithPreferences(proof: Proof, preferences: Preferences, results: PluginResults,
                                  translate: string -> string): seq<Information>
  {
    Provide(proof, IsDeviceInfoCollectionEnabled(preferences), IsLocationInfoCollectionEnabled(preferences),
            results, translate)
  }

  /** Both toggles are on until set, and each setter changes only its own
      toggle. */
  lemma TogglesDefaultOnAndIndependent(preferences: Preferences, enable: bool)
    ensures IsDeviceInfoCollectionEnabled(map[]) && IsLocationInfoCollectionEnabled(map[])
    ensures IsDeviceInfoCollectionEnabled(SetDeviceInfoCollection(preferences, enable)) == enable
    ensures IsLocationInfoCollectionEnabled(SetDeviceInfoCollection(preferences, enable))
            == IsLocationInfoCollectionEnabled(preferences)
    ensures IsLocationInfoCollectionEnabled(SetLocationInfoCollection(preferences, enable)) == enable
    ensures IsDeviceInfoCollectionEnabled(SetLocationInfoCollection(preferences, enable))
            == IsDeviceInfoCollectionEnabled(preferences)
  {
  }

  /** The shape of the list: 16 records with device collection on, one more
      with location on; every record is tagged with the proof's hash and the
      provider's name; the names follow the expected key order (device,
      battery, language, location), translated. */
  lemma ProvideShape(proof: Proof, deviceEnabled: bool, locationEnabled: bool, results: PluginResults,
                     translate: string -> string)
    ensures var r := Provide(proof, deviceEnabled, locationEnabled, results, translate);
            var keys := ExpectedKeys(deviceEnabled, locationEnabled);
            && |r| == (if deviceEnabled then 16 else 0) + (if locationEnabled then 1 else 0)
            && |r| == |keys|
            && (forall i :: 0 <= i < |r| ==> r[i].proofHash == proof.hash && r[i].provider == ProviderName)
            && (forall i :: 0 <= i < |r| ==> r[i].name == translate(keys[i]))
  {
    var r := Provide(proof, deviceEnabled, locationEnabled, results, translate);
    var keys := ExpectedKeys(deviceEnabled, locationEnabled);
    var h := proof.hash;
    var n := if deviceEnabled then 16 else 0;
    var b := results.batteryInfo;
    var device := if !deviceEnabled then [] else Records(h, translate, DeviceKeys, DeviceValues(results.deviceInfo));
    var battery := if !deviceEnabled then [] else Records(h, translate, BatteryKeys, [b.batteryLevel, b.isCharging]);
    var language := if !deviceEnabled then [] else Records(h, translate, [LanguageKey], [results.languageCode]);
    var location := if !locationEnabled then [] else
      Records(h, translate, [LocationKey], [LocationValue(results.coordinates)]);
    assert r == device + battery + language + location;
    forall i | 0 <= i < |r|
      ensures r[i].proofHash == h && r[i].provider == ProviderName && r[i].name == translate(keys[i])
    {
      if i < |device| {
        assert r[i] == device[i];
        assert keys[i] == DeviceKeys[i];
      } else if i < |device| + |battery| {
        assert r[i] == battery[i - 13];
        assert keys[i] == BatteryKeys[i - 13];
      } else if i < n {
        assert r[i] == language[0] && keys[i] == LanguageKey;
      } else {
        assert r[i] == location[0] && keys[i] == LocationKey;
      }
    }
  }

  /** The recorded values: the device fields in order, then battery level
      and charging state, then the language code, then the location. */
  lemma ProvideValues(proof: Proof, deviceEnabled: bool, locationEnabled: bool, results: PluginResults,
                      translate: string -> string)
    ensures var r := Provide(proof, deviceEnabled, locationEnabled, results, translate);
            && (deviceEnabled ==>
                  && (forall i :: 0 <= i < 13 ==> r[i].value == DeviceValues(results.deviceInfo)[i])
                  && r[13].value == results.batteryInfo.batteryLevel
                  && r[14].value == results.batteryInfo.isCharging
                  && r[15].value == results.languageCode)
            && (locationEnabled ==>
                  r[|r| - 1].value == "(" + results.coordinates.latitude + ", " + results.coordinates.longitude + ")")
  {
  }

  /** With both toggles off nothing is recorded; with only one of them off,
      only that group's records are missing. */
  lemma ProvideGatedByToggles(proof: Proof, results: PluginResults, translate: string -> string)
    ensures Provide(proof, false, false, results, translate) == []
    ensures Provide(proof, true, false, results, translate) + Provide(proof, false, true, results, translate)
            == Provide(proof, true, true, results, translate)
  {
  }

  /** With no preference set, every group is collected. */
  lemma DefaultPreferencesCollectEverything(proof: Proof, results: PluginResults, translate: string -> string)
    ensures |ProvideWithPreferences(proof, map[], results, translate)| == 17
  {
    ProvideShape(proof, true, true, results, translate);
  }
}
