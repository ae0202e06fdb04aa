/** The plugin's two settings and how `loadSettings` builds them:
    `Object.assign({}, DEFAULT_SETTINGS, await this.loadData())`. An
    object here is a record whose keys may each be absent. */
module PluginSettings {
  import opened Optional

  /** The settings the plugin holds after loading. */
  datatype Settings = Settings(autoRemoveOnCreate: bool, autoRemoveOnRename: bool)

  /** A plain object that may carry either key, as `{}` and the stored
      data do. */
  datatype SettingsObject = SettingsObject(autoRemoveOnCreate: Option<bool>, autoRemoveOnRename: Option<bool>)

  /** `DEFAULT_SETTINGS`: both automatic removals off. */
  const DefaultSettings: Settings := Settings(false, false)

  /** The empty object literal `{}`. */
  const EmptyObject: SettingsObject := SettingsObject(None, None)

  /** A settings record as an object with both keys present; this is also
      what `saveSettings` hands to the store. */
  function AsObject(s: Settings): SettingsObject {
    SettingsObject(Some(s.autoRemoveOnCreate), Some(s.autoRemoveOnRename))
  }

  /** `Object.assign(target, source)` for one source: every key the source
      carries overwrites the target's; a `null` or `undefined` source
      (`None`) is skipped. */
  function Assign(target: SettingsObject, source: Option<SettingsObject>): (r: SettingsObject)
    ensures source.None? ==> r == target
    ensures source.Some? && source.value.autoRemoveOnCreate.Some? ==> r.autoRemoveOnCreate == source.value.autoRemoveOnCreate
    ensures source.Some? && source.value.autoRemoveOnRename.Some? ==> r.autoRemoveOnRename == source.value.autoRemoveOnRename
    ensures source.Some? && source.value.autoRemoveOnCreate.None? ==> r.autoRemoveOnCreate == target.autoRemoveOnCreate
    ensures source.Some? && source.value.autoRemoveOnRename.None? ==> r.autoRemoveOnRename == target.autoRemoveOnRename
  {
    match source
    case None => target
    case Some(src) =>
      SettingsObject(
        if src.autoRemoveOnCreate.Some? then src.autoRemoveOnCreate else target.autoRemoveOnCreate,
        if src.autoRemoveOnRename.Some? then src.autoRemoveOnRename else target.autoRemoveOnRename)
  }

  /** An object carrying both keys, read as a settings record. */
  function ToSettings(o: SettingsObject): Settings
    requires o.autoRemoveOnCreate.Some? && o.autoRemoveOnRename.Some?
  {
    Settings(o.autoRemoveOnCreate.value, o.autoRemoveOnRename.value)
  }

  /** `loadSettings`: the defaults copied into a fresh object, then the
      loaded data (`None` when the store has nothing) copied over them.
      Each setting is the loaded value when the data carries that key and
      the default otherwise. */
  function LoadSettings(loaded: Option<SettingsObject>): (s: Settings)
    ensures s.autoRemoveOnCreate
            == (if loaded.Some? then loaded.value.autoRemoveOnCreate else None).GetOr(DefaultSettings.autoRemoveOnCreate)
    ensures s.autoRemoveOnRename
            == (if loaded.Some? then loaded.value.autoRemoveOnRename else None).GetOr(DefaultSettings.autoRemoveOnRename)
  {
    var merged := Assign(Assign(EmptyObject, Some(AsObject(DefaultSettings))), loaded);
    ToSettings(merged)
  }

  /** With nothing stored, or an empty object stored, loading gives the
      defaults. */
  lemma LoadNothingGivesDefaults()
    ensures LoadSettings(None) == DefaultSettings
    ensures LoadSettings(Some(EmptyObject)) == DefaultSettings
  {
  }

  /** Loading what `saveSettings` stored gives back the same settings. */
  lemma LoadAfterSave(s: Settings)
    ensures LoadSettings(Some(AsObject(s))) == s
  {
  }
}
