/** The legacy export of cluster property definitions: the parameters of
    the pacemaker daemons' agent metadata turned into one dictionary entry
    per property name, and the dictionaries of several daemons merged. How
    the metadata is obtained (running the daemons) is not part of this
    model; the list of metadata is a parameter. */
module ClusterProperty {
  import opened Util

  /** A parameter of an agent's metadata. Optional texts are None when the
      metadata does not give them. */
  datatype Parameter = Parameter(
    name: string,
    shortdesc: Option<string>,
    longdesc: Option<string>,
    paramType: string,
    defaultValue: Option<string>,
    advanced: bool,
    enumValues: Option<seq<string>>)

  /** The metadata of one daemon: `metadata.name.type` and its parameters. */
  datatype AgentMetadata = AgentMetadata(agentType: string, parameters: seq<Parameter>)

  /** One entry of the legacy dictionary. The "enum" key is present exactly
      when `enumValues` is Some. */
  datatype PropertyDefinition = PropertyDefinition(
    name: string,
    shortdesc: string,
    longdesc: string,
    propertyType: string,
    defaultValue: string,
    advanced: bool,
    readableName: string,
    source: string,
    enumValues: Option<seq<string>>)

  /** Properties that are never exported. */
  const BANNED_PROPERTIES: set<string> := {"dc-version", "cluster-infrastructure"}

  /** Names shown to users for some properties. */
  const READABLE_NAMES: map<string, string> := map[
    "batch-limit" := "Batch Limit",
    "no-quorum-policy" := "No Quorum Policy",
    "symmetric-cluster" := "Symmetric",
    "stonith-enabled" := "Stonith Enabled",
    "stonith-action" := "Stonith Action",
    "cluster-delay" := "Cluster Delay",
    "stop-orphan-resources" := "Stop Orphan Resources",
    "stop-orphan-actions" := "Stop Orphan Actions",
    "start-failure-is-fatal" := "Start Failure is Fatal",
    "pe-error-series-max" := "PE Error Storage",
    "pe-warn-series-max" := "PE Warning Storage",
    "pe-input-series-max" := "PE Input Storage",
    "enable-acl" := "Enable ACLs"
  ]

  /** `text or ""`: a missing or empty text becomes "". */
  function OrEmpty(text: Option<string>): string {
    match text
    case None => ""
    case Some(t) => t
  }

  /** The entry of one parameter, exported from the agent `source`. */
  function Definition(p: Parameter, source: string): PropertyDefinition {
    PropertyDefinition(
      p.name, OrEmpty(p.shortdesc), OrEmpty(p.longdesc),
      if p.enumValues.Some? then "enum" else p.paramType,
      OrEmpty(p.defaultValue), p.advanced,
      if p.name in READABLE_NAMES then READABLE_NAMES[p.name] else p.name,
      source, p.enumValues)
  }

  /** What one entry says about its parameter: the same name; texts that
      are "" exactly when missing or empty and otherwise the given ones;
      the readable name from the table with the name itself as fallback;
      the type "enum" with the values for a parameter with enum values, the
      parameter's own type and no values otherwise. */
  lemma DefinitionFields(p: Parameter, source: string)
    ensures var d := Definition(p, source);
      && d.name == p.name
      && (d.shortdesc == "" <==> p.shortdesc == None || p.shortdesc == Some(""))
      && (d.shortdesc != "" ==> p.shortdesc == Some(d.shortdesc))
      && (d.longdesc == "" <==> p.longdesc == None || p.longdesc == Some(""))
      && (d.longdesc != "" ==> p.longdesc == Some(d.longdesc))
      && (d.defaultValue == "" <==> p.defaultValue == None || p.defaultValue == Some(""))
      && (d.defaultValue != "" ==> p.defaultValue == Some(d.defaultValue))
      && d.advanced == p.advanced
      && d.source == source
      && (p.name in READABLE_NAMES ==> d.readableName == READABLE_NAMES[p.name])
      && (p.name !in READABLE_NAMES ==> d.readableName == p.name)
      && (d.enumValues.Some? <==> p.enumValues.Some?)
      && (p.enumValues.Some? ==> d.propertyType == "enum" && d.enumValues == p.enumValues)
      && (p.enumValues.None? ==> d.propertyType == p.paramType)
  {
  }

  /** The dictionary the loop over the parameters builds: banned names are
      skipped, every other parameter stores its entry under its name, a
      later parameter overwriting an earlier one of the same name. */
  function DefinitionsOf(params: seq<Parameter>, source: string): map<string, PropertyDefinition> {
    if params == [] then map[]
    else
      var before := DefinitionsOf(params[..|params| - 1], source);
      var p := params[|params| - 1];
      if p.name in BANNED_PROPERTIES then before else before[p.name := Definition(p, source)]
  }

  /** `_cluster_property_metadata_to_dict(metadata)` */
  function MetadataToDict(metadata: AgentMetadata): map<string, PropertyDefinition> {
    DefinitionsOf(metadata.parameters, metadata.agentType)
  }

  /** The keys stated without the loop: a name is a key exactly when it
      is not banned and some parameter has it. */
  lemma {:induction false} DefinitionsOfKeys(params: seq<Parameter>, source: string, name: string)
    ensures name in DefinitionsOf(params, source) <==>
      name !in BANNED_PROPERTIES && exists i :: 0 <= i < |params| && params[i].name == name
  {
    if params != [] {
      var n := |params| - 1;
      var init := params[..n];
      DefinitionsOfKeys(init, source, name);
      if exists i :: 0 <= i < |params| && params[i].name == name {
        var i :| 0 <= i < |params| && params[i].name == name;
        if i < n {
          assert init[i].name == name;
        }
      }
      if exists i :: 0 <= i < n && init[i].name == name {
        var i :| 0 <= i < n && init[i].name == name;
        assert params[i].name == name;
      }
    }
  }

  /** The entry stated without the loop: that of the last parameter with
      the name. */
  lemma {:induction false} DefinitionsOfLast(params: seq<Parameter>, source: string, name: string)
    requires name in DefinitionsOf(params, source)
    ensures exists i :: && 0 <= i < |params| && params[i].name == name
                        && DefinitionsOf(params, source)[name] == Definition(params[i], source)
                        && forall j :: i < j < |params| ==> params[j].name != name
  {
    var n := |params| - 1;
    var init := params[..n];
    var p := params[n];
    DefinitionsOfKeys(params, source, name);
    if p.name == name {
      assert DefinitionsOf(params, source)[name] == Definition(params[n], source);
    } else {
      DefinitionsOfLast(init, source, name);
      var i :| && 0 <= i < n && init[i].name == name
               && DefinitionsOf(init, source)[name] == Definition(init[i], source)
               && forall j :: i < j < n ==> init[j].name != name;
      assert params[i] == init[i];
      assert forall j :: i < j < |params| ==> params[j].name != name by {
        forall j | i < j < |params|
          ensures params[j].name != name
        {
          if j < n {
            assert params[j] == init[j];
          }
        }
      }
    }
  }

  /** Banned properties never appear, and every key is the name stored in
      its entry. */
  lemma MetadataToDictKeys(metadata: AgentMetadata)
    ensures var d := MetadataToDict(metadata);
      && (forall name :: name in BANNED_PROPERTIES ==> name !in d)
      && (forall name :: name in d ==> d[name].name == name && d[name].source == metadata.agentType)
  {
    var d := MetadataToDict(metadata);
    forall name | name in d
      ensures d[name].name == name && d[name].source == metadata.agentType
    {
      DefinitionsOfLast(metadata.parameters, metadata.agentType, name);
    }
    forall name | name in BANNED_PROPERTIES
      ensures name !in d
    {
      DefinitionsOfKeys(metadata.parameters, metadata.agentType, name);
    }
  }

  /** The dictionaries of several daemons merged in order: `dict.update`
      lets a later daemon's entry replace an earlier one. */
  function MergedDefinitions(metadataList: seq<AgentMetadata>): map<string, PropertyDefinition> {
    if metadataList == [] then map[]
    else
      var n := |metadataList| - 1;
      MergedDefinitions(metadataList[..n]) + MetadataToDict(metadataList[n])
  }

  /** The merged keys stated without the loop: a name is a key exactly
      when some daemon exports it. */
  lemma {:induction false} MergedDefinitionsKeys(metadataList: seq<AgentMetadata>, name: string)
    ensures name in MergedDefinitions(metadataList) <==>
      exists i :: 0 <= i < |metadataList| && name in MetadataToDict(metadataList[i])
  {
    if metadataList != [] {
      var n := |metadataList| - 1;
      var init := metadataList[..n];
      MergedDefinitionsKeys(init, name);
      if exists i :: 0 <= i < |metadataList| && name in MetadataToDict(metadataList[i]) {
        var i :| 0 <= i < |metadataList| && name in MetadataToDict(metadataList[i]);
        if i < n {
          assert name in MetadataToDict(init[i]);
        }
      }
      if exists i :: 0 <= i < n && name in MetadataToDict(init[i]) {
        var i :| 0 <= i < n && name in MetadataToDict(init[i]);
        assert name in MetadataToDict(metadataList[i]);
      }
    }
  }

  /** The merged entry stated without the loop: that of the last daemon
      exporting the name. */
  lemma {:induction false} MergedDefinitionsLast(metadataList: seq<AgentMetadata>, name: string)
    requires name in MergedDefinitions(metadataList)
    ensures exists i :: && 0 <= i < |metadataList| && name in MetadataToDict(metadataList[i])
                        && MergedDefinitions(metadataList)[name] == MetadataToDict(metadataList[i])[name]
                        && forall j :: i < j < |metadataList| ==> name !in MetadataToDict(metadataList[j])
  {
    var n := |metadataList| - 1;
    var init := metadataList[..n];
    if name in MetadataToDict(metadataList[n]) {
      assert MergedDefinitions(metadataList)[name] == MetadataToDict(metadataList[n])[name];
    } else {
      MergedDefinitionsLast(init, name);
      var i :| && 0 <= i < n && name in MetadataToDict(init[i])
               && MergedDefinitions(init)[name] == MetadataToDict(init[i])[name]
               && forall j :: i < j < n ==> name !in MetadataToDict(init[j]);
      assert metadataList[i] == init[i];
      assert forall j :: i < j < |metadataList| ==> name !in MetadataToDict(metadataList[j]) by {
        forall j | i < j < |metadataList|
          ensures name !in MetadataToDict(metadataList[j])
        {
          if j < n {
            assert metadataList[j] == init[j];
          }
        }
      }
    }
  }

  /** No merged dictionary holds a banned property. */
  lemma MergedDefinitionsNotBanned(metadataList: seq<AgentMetadata>, name: string)
    requires name in BANNED_PROPERTIES
    ensures name !in MergedDefinitions(metadataList)
  {
    MergedDefinitionsKeys(metadataList, name);
    forall i | 0 <= i < |metadataList|
      ensures name !in MetadataToDict(metadataList[i])
    {
      MetadataToDictKeys(metadataList[i]);
    }
  }

  /** `_cluster_property_metadata_to_dict(metadata)`: the entry of each
      parameter is built, given the "enum" key and type when the parameter
      has enum values, and stored under the parameter's name. */
  method PropertyMetadataToDict(metadata: AgentMetadata) returns (definitions: map<string, PropertyDefinition>)
    ensures definitions == MetadataToDict(metadata)
  {
    var params := metadata.parameters;
    definitions := map[];
    var i := 0;
    while i < |params|
      invariant 0 <= i <= |params|
      invariant definitions == DefinitionsOf(params[..i], metadata.agentType)
    {
      assert params[..i + 1][..i] == params[..i];
      var p := params[i];
      if p.name !in BANNED_PROPERTIES {
        var readable := if p.name in READABLE_NAMES then READABLE_NAMES[p.name] else p.name;
        var property := PropertyDefinition(
          p.name, OrEmpty(p.shortdesc), OrEmpty(p.longdesc), p.paramType,
          OrEmpty(p.defaultValue), p.advanced, readable, metadata.agentType, None);
        if p.enumValues.Some? {
          property := property.(enumValues := p.enumValues, propertyType := "enum");
        }
        definitions := definitions[p.name := property];
      }
      i := i + 1;
    }
    assert params[..i] == params;
  }

  /** The merge loop of `get_cluster_properties_definition` over the
      metadata of the daemons, in the order they were queried. */
  method GetClusterPropertiesDefinition(metadataList: seq<AgentMetadata>)
    returns (properties: map<string, PropertyDefinition>)
    ensures properties == MergedDefinitions(metadataList)
  {
    properties := map[];
    var i := 0;
    while i < |metadataList|
      invariant 0 <= i <= |metadataList|
      invariant properties == MergedDefinitions(metadataList[..i])
    {
      assert metadataList[..i + 1][..i] == metadataList[..i];
      var definitions := PropertyMetadataToDict(metadataList[i]);
      properties := properties + definitions;
      i := i + 1;
    }
    assert metadataList[..i] == metadataList;
  }
}
