/** Plugin data persisted in a pact file (`PluginData`). */
module Plugins {
  import opened Json
  import opened DeepMerge

  class PluginData {
    var name: string
    var version: string
    var configuration: map<string, Value>

    constructor (name: string, version: string, configuration: map<string, Value>)
      ensures this.name == name && this.version == version && this.configuration == configuration
    {
      this.name, this.version, this.configuration := name, version, configuration;
    }

    /** Folds the incoming data into the configuration, whatever order its hash map is walked in. */
    method Merge(data: map<string, Value>)
      modifies `configuration
      ensures Object(configuration) == Merged(Object(old(configuration)), Object(data))
    {
      var rest := data.Keys;
      while rest != {}
        invariant rest <= data.Keys
        invariant configuration == PartlyMerged(old(configuration), data, old(configuration).Keys, data.Keys - rest)
      {
        var key :| key in rest;
        TakeOther(old(configuration), data, data.Keys - rest, key);
        OneLess(data.Keys, rest, key);
        var value := data[key];
        if key in configuration {
          value := JsonDeepMerge(configuration[key], data[key]);
        }
        configuration := configuration[key := value];
        rest := rest - {key};
      }
      AllMerged(old(configuration), data);
      assert data.Keys - {} == data.Keys;
    }
  }

  lemma OneLess(all: set<string>, rest: set<string>, key: string)
    requires key in rest && rest <= all
    ensures all - (rest - {key}) == (all - rest) + {key}
  {
  }
}
