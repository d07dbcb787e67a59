// The patcher of the cluster's own DNS configuration.
module Patcher {
  import opened Text
  import opened Slices
  import opened Corefile
  import Fleet

  const COREFILE := "Corefile"

  /** A config map; `None` is one without data. */
  type ConfigMap = Option<map<string, string>>

  /** `Panicked` is the write into the nil data of a config map. */
  datatype Outcome = UpToDate | Updated | Failed | Panicked

  /** The text under the Corefile key, empty when there is none. */
  function CorefileOf(configMap: ConfigMap): string {
    if configMap.Some? && COREFILE in configMap.value then configMap.value[COREFILE] else ""
  }

  /** Patching one config map, every other key and map as before. */
  ghost function PatchedMaps(maps: map<NamespacedName, ConfigMap>, name: NamespacedName, domainSuffix: string, ip: string):
      map<NamespacedName, ConfigMap>
    requires name in maps && maps[name].Some?
  {
    maps[name := Some(maps[name].value[COREFILE := Patched(domainSuffix, ip, CorefileOf(maps[name]))])]
  }

  class CorefilePatcher {
    const domainSuffix: string
    const configMapName: NamespacedName
    var configMaps: map<NamespacedName, ConfigMap>

    constructor (domainSuffix: string, configMapName: NamespacedName, configMaps: map<NamespacedName, ConfigMap>)
      ensures this.domainSuffix == domainSuffix && this.configMapName == configMapName && this.configMaps == configMaps
    {
      this.domainSuffix, this.configMapName, this.configMaps := domainSuffix, configMapName, configMaps;
    }

    /** Reading and updating the config map may each fail. */
    method AppendStubDomainBlock(forwardingIP: string, getFault: Fleet.Fault, updateFault: Fleet.Fault) returns (outcome: Outcome)
      modifies this`configMaps
      ensures !getFault.Healthy? || configMapName !in old(configMaps) ==> outcome == Failed
      ensures getFault.Healthy? && configMapName in old(configMaps) ==>
                && (outcome.UpToDate? <==>
                      Contains(CorefileOf(old(configMaps)[configMapName]), XccBlock(domainSuffix, forwardingIP)))
                && (outcome.Panicked? <==> old(configMaps)[configMapName].None?)
                && (updateFault.Healthy? ==> outcome != Failed)
      ensures outcome.Updated? ==>
                && configMapName in old(configMaps) && old(configMaps)[configMapName].Some?
                && configMaps == PatchedMaps(old(configMaps), configMapName, domainSuffix, forwardingIP)
      ensures configMaps == old(configMaps)
              || (outcome.Failed? && configMapName in old(configMaps) && old(configMaps)[configMapName].Some?
                  && configMaps == PatchedMaps(old(configMaps), configMapName, domainSuffix, forwardingIP))
              || outcome.Updated?
    {
      if !getFault.Healthy? || configMapName !in configMaps {
        return Failed;
      }
      var configMap := configMaps[configMapName];
      var block := XccBlock(domainSuffix, forwardingIP);
      var corefile := CorefileOf(configMap);
      NoBlockInNothing(domainSuffix, forwardingIP);
      if Contains(corefile, block) {
        return UpToDate;
      }
      corefile := StripXCCBlock(corefile);
      if configMap.None? {
        return Panicked;
      }
      configMap := Some(configMap.value[COREFILE := corefile + "\n" + block + "\n"]);
      if !updateFault.RequestLost? {
        configMaps := configMaps[configMapName := configMap];
      }
      return if updateFault.Healthy? then Updated else Failed;
    }
  }

  lemma NoBlockInNothing(domainSuffix: string, ip: string)
    ensures !Contains("", XccBlock(domainSuffix, ip))
  {
    BlockHead(domainSuffix, ip);
  }
}
