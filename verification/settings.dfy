/**
 * The settings router: a small key/value table with two defaults that are
 * created on demand. The table is a map because `key` is unique.
 */
module Settings {
  import opened Wrappers
  import opened Models

  const SaladTimeLimit: string := "salad_time_limit"
  const SaladKanaPerRound: string := "salad_kana_per_round"

  /** `DEFAULT_SETTINGS`: 120 seconds per salad round, 20 kana per round. */
  const Defaults: map<string, string> := map[SaladTimeLimit := "120", SaladKanaPerRound := "20"]

  /** `init_default_settings`: every default key that is missing is added with its default value. */
  function InitDefaultSettings(settings: map<string, string>): (r: map<string, string>)
    ensures r.Keys == settings.Keys + Defaults.Keys
    ensures forall k :: k in settings ==> r[k] == settings[k]
    ensures forall k :: k in Defaults && k !in settings ==> r[k] == Defaults[k]
  {
    map k | k in settings.Keys + Defaults.Keys :: if k in settings then settings[k] else Defaults[k]
  }

  /** Initialising twice is initialising once, and a table that already holds both keys is left alone. */
  lemma InitDefaultSettingsIdempotent(settings: map<string, string>)
    ensures InitDefaultSettings(InitDefaultSettings(settings)) == InitDefaultSettings(settings)
    ensures Defaults.Keys <= settings.Keys ==> InitDefaultSettings(settings) == settings
  {
  }

  /** `get_all_settings`: the defaults are created first, then the whole table is returned. */
  function GetAllSettings(db: Db): (r: Outcome<map<string, string>>)
    ensures r.reply.IsOk() && r.reply.value == r.db.settings
    ensures SaladTimeLimit in r.reply.value && SaladKanaPerRound in r.reply.value
    ensures forall k :: k in db.settings ==> k in r.reply.value && r.reply.value[k] == db.settings[k]
    ensures r.db == db.(settings := r.db.settings)
  {
    var settings := InitDefaultSettings(db.settings);
    Outcome(db.(settings := settings), Ok(settings))
  }

  /** The 404 of `get_setting` for a key that is neither stored nor a default. */
  function NotFound(key: string): HttpError {
    HttpError(404, "Setting '" + key + "' not found")
  }

  /**
   * `get_setting`: a stored key answers its value; a missing default key is
   * created with its default value first; any other key is 404.
   */
  function GetSetting(db: Db, key: string): (r: Outcome<string>)
    ensures r.reply.IsOk() <==> key in db.settings || key in Defaults
    ensures key in db.settings ==> r == Outcome(db, Ok(db.settings[key]))
    ensures key !in db.settings && key in Defaults ==>
      r.reply == Ok(Defaults[key]) && r.db == db.(settings := db.settings[key := Defaults[key]])
    ensures !r.reply.IsOk() ==> r.db == db && r.reply.error.status == 404
  {
    if key in db.settings then Outcome(db, Ok(db.settings[key]))
    else if key in Defaults then
      Outcome(db.(settings := db.settings[key := Defaults[key]]), Ok(Defaults[key]))
    else Outcome(db, Fail(NotFound(key)))
  }

  /** `update_setting`: an upsert; afterwards the key holds the value and no other key changed. */
  function UpdateSetting(db: Db, key: string, value: string): (r: Outcome<string>)
    ensures r.reply == Ok(value)
    ensures key in r.db.settings && r.db.settings[key] == value
    ensures r.db.settings.Keys == db.settings.Keys + {key}
    ensures forall k :: k in db.settings && k != key ==> r.db.settings[k] == db.settings[k]
    ensures r.db == db.(settings := r.db.settings)
  {
    Outcome(db.(settings := db.settings[key := value]), Ok(value))
  }

  /** A get after an update answers the updated value and changes nothing. */
  lemma GetAfterUpdate(db: Db, key: string, value: string, other: string)
    ensures var after := UpdateSetting(db, key, value).db;
      GetSetting(after, key) == Outcome(after, Ok(value))
    ensures var after := UpdateSetting(db, key, value).db;
      other != key ==> GetSetting(after, other).reply == GetSetting(db, other).reply
  {
  }
}
