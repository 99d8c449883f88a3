/**
 * MongoUtils.extractLastErrorModes: the names of the custom write-concern
 * modes (`settings.getLastErrorModes`) of a replica-set configuration
 * document, any level of which may be missing.
 */
module LastErrorModes {
  import opened Wrappers
  import opened JavaUtil

  /** The `settings` sub-document; `getLastErrorModes` lists its mode names in document order. */
  datatype ReplSetSettings = ReplSetSettings(getLastErrorModes: Option<seq<string>>)

  /** The replica-set configuration document of `local.system.replset`, reduced to its `settings`. */
  datatype ReplSetConfig = ReplSetConfig(settings: Option<ReplSetSettings>)

  /** The mode names the configuration defines: none when the document or any level on the way is missing. */
  function LastErrorModeNames(config: Option<ReplSetConfig>): seq<string>
  {
    if config.Some? && config.value.settings.Some? && config.value.settings.value.getLastErrorModes.Some? then
      config.value.settings.value.getLastErrorModes.value
    else []
  }

  /** MongoUtils.extractLastErrorModes: appends each mode name, in key order, to customLastErrorModes. */
  method ExtractLastErrorModes(config: Option<ReplSetConfig>, customLastErrorModes: ArrayList<string>)
    modifies customLastErrorModes
    ensures customLastErrorModes.elems == old(customLastErrorModes.elems) + LastErrorModeNames(config)
  {
    if config.Some? {
      var settings := config.value.settings;
      if settings.Some? {
        var getLastErrModes := settings.value.getLastErrorModes;
        if getLastErrModes.Some? {
          var keys := getLastErrModes.value;
          var i := 0;
          while i < |keys|
            invariant 0 <= i <= |keys|
            invariant customLastErrorModes.elems == old(customLastErrorModes.elems) + keys[..i]
          {
            customLastErrorModes.Add(keys[i]);
            assert keys[..i + 1] == keys[..i] + [keys[i]];
            i := i + 1;
          }
          assert keys[..|keys|] == keys;
        }
      }
    }
  }
}
