/** The stored Azure resources: finite maps with Get and CreateOrUpdate. */
module AzureStore {
  import opened Basics
  import opened ResourceIds
  import opened SecurityRules

  /** `rest` stands for every field of a record that the program only carries along. */
  datatype IPConfig = IPConfig(pools: Option<seq<string>>, rest: string)

  datatype Nic = Nic(ipConfigs: Option<seq<IPConfig>>, securityGroup: Option<string>, rest: string)

  class Azure {
    var groups: map<Key, seq<SecurityRule>>
    var nics: map<Key, Nic>

    constructor (groups: map<Key, seq<SecurityRule>>, nics: map<Key, Nic>)
      ensures this.groups == groups && this.nics == nics
    {
      this.groups, this.nics := groups, nics;
    }

    method PutGroup(key: Key, rules: seq<SecurityRule>)
      modifies this`groups
      ensures groups == old(groups)[key := rules]
    {
      groups := groups[key := rules];
    }

    method PutNic(key: Key, nic: Nic)
      modifies this`nics
      ensures nics == old(nics)[key := nic]
    {
      nics := nics[key := nic];
    }
  }
}
