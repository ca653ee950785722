# pcs corosync facade and cluster property definitions in Dafny

This project models two pieces of the pcs cluster shell and proves
properties of them.

## The corosync configuration facade

The facade is `ConfigFacade` in `pcs/lib/corosync/config_facade.py`. It
works on a parsed `corosync.conf`, which is a tree of sections. Each section
has:

- a name;
- an ordered list of `key: value` attributes, in which keys may repeat;
- an ordered list of child sections, whose names may repeat.

Which file holds what:

- `section.dfy` (`ConfigParser`) is the section tree. The tree is a value.
  - Python's in-place edits of sections reached through `get_sections` are
    written as `Select`: the sections reached by a path of names, in
    document order.
  - `Replace` writes a list of changed sections back at the same places.
- `queries.dfy` (`FacadeQueries`) states what the queries return:
  - `get_nodes`;
  - `get_quorum_options`;
  - `has_quorum_device`;
  - `get_quorum_device_settings`.
- `validation.dfy` (`FacadeValidation`) is the validators. They turn an
  option dictionary into report items, checked in sorted name order.
- `mutations.dfy` (`FacadeMutations`) states the changes made by:
  - `set_quorum_options`;
  - `add_quorum_device`;
  - `update_quorum_device`;
  - `remove_quorum_device`;
  - the helpers `__set_section_options`, `__ensure_section`,
    `__update_two_node` and `__remove_empty_sections`.
- `config_facade.dfy` (`CorosyncFacade`) has the class `ConfigFacade`.
  - It has a `config` field. The commands reassign it step by step, with the
    loops of the source.
  - Every method is proved to compute what the functions above say.
  - The commands' results are stated as `CommandResult`: the outcome (the
    changes were applied, or the command was rejected with its reports) and
    the tree after the command.
  - A rejected command leaves the tree untouched.
- `reports.dfy` (`Reports`) has report items and forcing.
- `util.dfy` (`Util`) has:
  - Python's string order and `sorted` over dictionary keys;
  - `str.isdigit` and `int()` on digit strings.

## Cluster property definitions

`cluster_property.dfy` (`ClusterProperty`) models two things from
`pcs/lib/commands/cluster_property.py`:

- `_cluster_property_metadata_to_dict`: the legacy dictionary built from a
  resource agent's parameters;
- the merge loop of `get_cluster_properties_definition`, over a given list
  of agent metadata.

Both are loops in the source and methods here. Each is proved equal to a
function over the parameter or metadata sequence. Lemmas about those
functions state the keys, the entries and which definition wins.

## Model

| member | source | states |
|---|---|---|
| ConfigParser.LastValue | pcs/lib/corosync/config_facade.py:71-73 | reading attributes in order and overwriting gives nothing exactly when the key is absent, and otherwise a value the key really has |
| ConfigParser.SetAttribute | pcs/lib/corosync/config_facade.py:464 | `set_attribute` leaves exactly one attribute with the key, holding the new value; attributes with other keys, the name and the children are unchanged |
| ConfigParser.DelAttributesByName | pcs/lib/corosync/config_facade.py:443 | `del_attributes_by_name` leaves no attribute with the key and every other key's attributes as they were |
| ConfigParser.AddSection | pcs/lib/corosync/config_facade.py:215 | `add_section` appends the child after the existing children and changes nothing else |
| ConfigParser.DelSection | pcs/lib/corosync/config_facade.py:211 | `del_section` removes exactly one child and keeps the order of the rest |
| ConfigParser.GetSections | pcs/lib/corosync/config_facade.py:467 | `get_sections(name)` is the children with that name, in document order |
| ConfigParser.Prune | pcs/lib/corosync/config_facade.py:474-478 | after `__remove_empty_sections` no section below the root is empty; the root keeps its name and attributes |
| Util.SortedKeys | pcs/lib/corosync/config_facade.py:108 | `sorted(options.items())` visits every key exactly once, in strictly ascending string order |
| FacadeQueries.DictOf | pcs/lib/corosync/config_facade.py:99-103 | the dictionary filled by walking attributes in order has exactly the keys present, each with its last value |
| FacadeQueries.NodesOf | pcs/lib/corosync/config_facade.py:62-80 | one node per `nodelist/node` section, in document order, each with the last value of each of its four keys |
| FacadeQueries.QuorumOptions | pcs/lib/corosync/config_facade.py:95-104 | only names from QUORUM_OPTIONS, exactly those present in some quorum section, each with its last value across all quorum sections |
| FacadeQueries.HasQuorumDeviceByAttributes | pcs/lib/corosync/config_facade.py:135-143 | a device is present exactly when some `quorum/device` section has a `model` attribute |
| FacadeQueries.QuorumDeviceSettings | pcs/lib/corosync/config_facade.py:145-165 | the model is the last `model` of all device sections; generic options are every other device key with its last value and never `model`; model options are the merged options of the sections named after the model, or none without a model |
| FacadeValidation.QuorumOptionReportsMeaning | pcs/lib/corosync/config_facade.py:106-133 | an unknown name gives one invalid-option report and no value check; a known name gives one invalid-value report exactly when its value is not acceptable |
| FacadeValidation.QuorumOptionsReportsPerName | pcs/lib/corosync/config_facade.py:106-133 | the reports about each submitted name in the whole validation are exactly that name's own reports |
| FacadeValidation.QuorumOptionsGate | pcs/lib/corosync/config_facade.py:106-133 | the validation has an error exactly when some submitted option is not acceptable: an empty value, digits for `last_man_standing_window`, "0" or "1" for the other options |
| FacadeValidation.QuorumOptionsUnforceable | pcs/lib/corosync/config_facade.py:112-131 | every quorum option report is an ERROR without a force code |
| FacadeValidation.ModelCheck | pcs/lib/corosync/config_facade.py:279-295 | only `net` passes; an unknown model gives one report that is a WARNING exactly when forced, and an error exactly when not forced |
| FacadeValidation.NetValueChecks | pcs/lib/corosync/config_facade.py:351-388 | a non-empty optional net option is reported exactly when its value breaks its rule: `algorithm` in {2nodelms, ffsplit, lms}, `connect_timeout` digits in 1000..120000, `force_ip_version` in {0, 4, 6}, `port` digits in 1..65535, `tie_breaker` lowest, highest or an existing node id |
| FacadeValidation.NetUnknownOption | pcs/lib/corosync/config_facade.py:331-340 | an unknown net option gives exactly one forceable invalid-option report and no value check |
| FacadeValidation.NetHostMissing | pcs/lib/corosync/config_facade.py:327-347 | `host` is reported missing exactly when it is required and absent, or when it is given as "" |
| FacadeValidation.NetMissingOnlyHost | pcs/lib/corosync/config_facade.py:327-347 | the only missing-option report the net validation ever makes is the unforceable one about `host` |
| FacadeValidation.NetReportsAbout | pcs/lib/corosync/config_facade.py:308-390 | the reports about one name are the missing-`host` report when it applies, followed by that option's own checks |
| FacadeValidation.GenericReportsPerName | pcs/lib/corosync/config_facade.py:392-427 | a generic option named `model` is always an unforceable error; another unknown name gets a forceable invalid-option report; `sync_timeout` and `timeout` pass when empty or digits and are otherwise reported forceably |
| FacadeValidation.ModelForceOnlyDowngrades | pcs/lib/corosync/config_facade.py:290-292 | forcing the model turns its report into the same report downgraded, and changes nothing else |
| FacadeValidation.NetForceOnlyDowngrades | pcs/lib/corosync/config_facade.py:322-325 | the forced model option reports are exactly the unforced ones with every forceable report downgraded to a WARNING without a force code |
| FacadeValidation.GenericForceOnlyDowngrades | pcs/lib/corosync/config_facade.py:401-416 | the same for generic options |
| FacadeValidation.NetForcedOk | pcs/lib/corosync/config_facade.py:322-347 | without force every net report is an ERROR; with force none carries a force code, and the only remaining ERROR is the missing `host` |
| FacadeValidation.GenericForcedOk | pcs/lib/corosync/config_facade.py:401-416 | without force every generic report is an ERROR; with force none carries a force code, and the only remaining ERROR is about `model` |
| FacadeValidation.ForcedModelOptionsErrors | pcs/lib/corosync/config_facade.py:297-347 | under force, the model options block exactly when the model is `net` and `host` is missing as required or given as "" |
| FacadeValidation.ForcedGenericErrors | pcs/lib/corosync/config_facade.py:406-416 | a generic `model` option always blocks; under force nothing else does |
| FacadeMutations.SetSectionOptionsEffect | pcs/lib/corosync/config_facade.py:456-464 | no section but the last keeps a submitted key; in the last, a key submitted as "" is absent and every other submitted key has exactly its value; other keys are unchanged everywhere |
| FacadeMutations.MergedLastValue | pcs/lib/corosync/config_facade.py:456-464 | across the merged sections, the attributes of a submitted key are exactly the submitted one, and those of any other key are unchanged |
| FacadeMutations.EnsureSectionSelect | pcs/lib/corosync/config_facade.py:466-472 | `__ensure_section` adds one empty section only when none with the name exists, and otherwise changes nothing |
| FacadeMutations.Flip | pcs/lib/corosync/config_facade.py:444-454 | `lms` becomes `2nodelms` with two nodes, `2nodelms` becomes `lms` with any other count, and any other or absent algorithm is left alone; other keys are untouched |
| FacadeMutations.FlipLast | pcs/lib/corosync/config_facade.py:448-454 | the algorithm read after the flip of one section is the flipped value of the one read before |
| FacadeMutations.FlipEachLast | pcs/lib/corosync/config_facade.py:444-454 | the same across all flipped `net` sections, read in order |
| FacadeMutations.UpdateTwoNodeModelOptions | pcs/lib/corosync/config_facade.py:444-454 | `__update_two_node` leaves the options of a non-`net` model alone and changes only the `algorithm` of `net`, as the flip says |
| FacadeMutations.FlipSettles | pcs/lib/corosync/config_facade.py:444-454 | after the flip the algorithm never needs flipping again: a second flip changes nothing |
| FacadeMutations.TwoNodeRule | pcs/lib/corosync/config_facade.py:429-443 | with exactly two nodes, no `auto_tie_breaker` other than "0" and no device, the last quorum section has `two_node: 1` and no other has `two_node`; otherwise no quorum section has it |
| FacadeMutations.UpdateTwoNodeQuorumAttributes | pcs/lib/corosync/config_facade.py:429-443 | `__update_two_node` changes no quorum key other than `two_node` |
| FacadeMutations.UpdateTwoNodeKeepsDevice | pcs/lib/corosync/config_facade.py:429-454 | `__update_two_node` keeps the device attributes and whether a device is present |
| FacadeMutations.PruneKeepsAttributes | pcs/lib/corosync/config_facade.py:474-478 | removing empty sections keeps the attributes found along every path |
| FacadeMutations.SetQuorumOptions | pcs/lib/corosync/config_facade.py:82-93 | after `set_quorum_options` no empty section remains |
| FacadeMutations.SetQuorumOptionsResult | pcs/lib/corosync/config_facade.py:82-93 | the quorum options afterwards are the old ones with the submitted ones laid over them: "" removes, anything else sets |
| FacadeMutations.SetQuorumOptionsAt | pcs/lib/corosync/config_facade.py:82-93 | the same for every quorum key but `two_node`, read as the last value across quorum sections |
| FacadeMutations.RemoveQuorumDevice | pcs/lib/corosync/config_facade.py:267-277 | after `remove_quorum_device` no empty section remains |
| FacadeMutations.RemoveQuorumDeviceResult | pcs/lib/corosync/config_facade.py:273-277 | no quorum section has a `device` child and no device remains; the quorum options are unchanged |
| FacadeMutations.AddQuorumDevice | pcs/lib/corosync/config_facade.py:167-222 | after `add_quorum_device` no empty section remains |
| FacadeMutations.AddQuorumDeviceClearsOptions | pcs/lib/corosync/config_facade.py:197-211 | `allow_downscale`, `auto_tie_breaker`, `last_man_standing`, `last_man_standing_window` and `two_node` are gone from every quorum section; every other quorum key keeps its value |
| FacadeMutations.AddQuorumDeviceAttributes | pcs/lib/corosync/config_facade.py:212-222 | the device attributes afterwards are exactly those of the one new device |
| FacadeMutations.AddQuorumDeviceResult | pcs/lib/corosync/config_facade.py:212-222 | afterwards a device is present, its model is the given one, its generic options are exactly the given non-empty ones, and its model options are the given non-empty ones, with a `net` `algorithm` flipped by the two-node step |
| FacadeMutations.AddQuorumDeviceModelOptions | pcs/lib/corosync/config_facade.py:212-222 | the options of the new model section are the given non-empty ones, then flipped by the node count of the tree |
| FacadeMutations.AddWithoutModelOptions | pcs/lib/corosync/config_facade.py:218-222 | a device added without model options keeps no section named after its model, because the empty one is pruned |
| FacadeMutations.PruneBareList | pcs/lib/corosync/config_facade.py:474-478 | where every section at a path is empty, none is left there after pruning |
| FacadeMutations.ClearForDeviceKeepsNodes | pcs/lib/corosync/config_facade.py:197-211 | the cleanup before a new device leaves the node list as it was |
| FacadeMutations.DeviceModel | pcs/lib/corosync/config_facade.py:237-241 | the model loop finds the model that `get_quorum_device_settings` reports, and finds one exactly when a device is present |
| FacadeMutations.MergeDeviceOptionsAsWritten | pcs/lib/corosync/config_facade.py:256-263 | the option merge as written fails exactly when options are given for an empty list of device or model sections |
| FacadeMutations.MergeDeviceOptionsAgrees | pcs/lib/corosync/config_facade.py:256-263 | wherever the merge as written succeeds, the corrected merge gives the same tree |
| FacadeMutations.MergeDeviceOptionsResult | pcs/lib/corosync/config_facade.py:256-263 | the corrected merge leaves, across device sections and across model sections, exactly the submitted attributes for submitted keys and the old ones for other keys |
| FacadeMutations.UpdateQuorumDevice | pcs/lib/corosync/config_facade.py:224-265 | after `update_quorum_device` no empty section remains |
| FacadeMutations.UpdateQuorumDeviceAt | pcs/lib/corosync/config_facade.py:255-265 | the generic options merge submitted keys over the device sections and leaves other keys alone |
| FacadeMutations.UpdateQuorumDeviceResult | pcs/lib/corosync/config_facade.py:255-265 | the generic options afterwards are the old ones with the submitted ones laid over them; the model is unchanged when `model` is not submitted |
| FacadeMutations.MergeDeviceModelOptions | pcs/lib/corosync/config_facade.py:256-263 | the merge leaves the old model options with the submitted ones laid over them |
| FacadeMutations.MergeDeviceOptionsKeepsNodes | pcs/lib/corosync/config_facade.py:256-263 | the merge leaves the node list as it was |
| FacadeMutations.UpdateQuorumDeviceModelOptions | pcs/lib/corosync/config_facade.py:255-265 | the model options afterwards are the old ones with the submitted ones laid over them; for a `net` model `lms` then becomes `2nodelms` on two nodes and `2nodelms` becomes `lms` otherwise |
| CorosyncFacade.FromParsed | pcs/lib/corosync/config_facade.py:26-45 | a parsed configuration is accepted; each parser exception becomes one unforceable error of its own kind |
| CorosyncFacade.ParserErrorsDistinct | pcs/lib/corosync/config_facade.py:32-45 | the three parser exceptions give three different results |
| CorosyncFacade.ReadQuorumOptionsMeaning | pcs/lib/corosync/config_facade.py:99-103 | the dictionary filled by the quorum loop is the quorum-option part of the last values read |
| CorosyncFacade.ReadGenericOptionsMeaning | pcs/lib/corosync/config_facade.py:154-158 | the generic dictionary the device loop fills is every key but `model` with its last value |
| CorosyncFacade.ReadSubsectionsMeaning | pcs/lib/corosync/config_facade.py:159-164 | the per-name dictionary has an entry exactly for the names of the subsections read, holding the merged attributes of the subsections with that name |
| CorosyncFacade.SetQuorumOptionsCommandResult | pcs/lib/corosync/config_facade.py:82-93 | `set_quorum_options` applies exactly when every option is acceptable, then without reports and with the overlaid quorum options and no empty section; otherwise the tree is unchanged and there are errors |
| CorosyncFacade.AddQuorumDeviceCommandResult | pcs/lib/corosync/config_facade.py:167-222 | an existing device raises `qdevice_already_defined` before any change; a rejection leaves the tree unchanged; an unforced success has no reports; without force it applies exactly when no device exists and validation reports nothing; on success the device has the given model, non-empty generic options and non-empty model options with `algorithm` flipped for the node count, and the cleared quorum options are gone |
| CorosyncFacade.AddQuorumDeviceForced | pcs/lib/corosync/config_facade.py:179-196 | fully forced, adding a device applies exactly when no generic option is named `model` and a `net` model has a non-empty `host` |
| CorosyncFacade.UpdateQuorumDeviceCommandResult | pcs/lib/corosync/config_facade.py:224-265 | no device raises `qdevice_not_defined`; a rejection leaves the tree unchanged; on success the model is unchanged, the generic options are the old ones with the submitted ones laid over them, and so are the model options, with a `net` `algorithm` then flipped for the node count |
| CorosyncFacade.RemoveQuorumDeviceCommandResult | pcs/lib/corosync/config_facade.py:267-277 | applies exactly when a device exists and otherwise raises `qdevice_not_defined`; afterwards no device remains, the quorum options are unchanged and no empty section remains |
| CorosyncFacade.HostOnlyReports | pcs/lib/corosync/config_facade.py:242-254 | updating a `net` device with only a valid `host` produces no reports |
| CorosyncFacade.UpdateWithoutModelSection | pcs/lib/corosync/config_facade.py:256-263 | a `net` device without a `net` subsection passes validation, yet the merge as written fails on it |
| CorosyncFacade.UpdateAfterForcedModel | pcs/lib/corosync/config_facade.py:167-265 | the same failure through pcs alone: a forced add of the unknown model `bogus` without model options applies and leaves no `bogus` section; an update with a model option then passes validation, and the merge as written fails |
| CorosyncFacade.UpdateCreatesModelSection | pcs/lib/corosync/config_facade.py:256-263 | with the corrected merge, the same update succeeds and the device then reports `host` as set |
| CorosyncFacade.ConfigFacade.constructor | pcs/lib/corosync/config_facade.py:47-52 | the facade holds the parsed tree |
| CorosyncFacade.ConfigFacade.GetNodes | pcs/lib/corosync/config_facade.py:58-80 | the nested loops return `Nodes(config)` |
| CorosyncFacade.ConfigFacade.ReadNodes | pcs/lib/corosync/config_facade.py:64-79 | one address per node section, in order |
| CorosyncFacade.ConfigFacade.ReadNode | pcs/lib/corosync/config_facade.py:65-79 | the `node_data` loop gives the node's last value of each of the four keys |
| CorosyncFacade.ConfigFacade.GetQuorumOptions | pcs/lib/corosync/config_facade.py:95-104 | the loop returns `QuorumOptions(config)` |
| CorosyncFacade.ConfigFacade.HasQuorumDevice | pcs/lib/corosync/config_facade.py:135-143 | the early-returning loop answers whether some device section has a model |
| CorosyncFacade.ConfigFacade.GetQuorumDeviceSettings | pcs/lib/corosync/config_facade.py:145-165 | the loops return `QuorumDeviceSettings(config)` |
| CorosyncFacade.ConfigFacade.ReadDevices | pcs/lib/corosync/config_facade.py:152-164 | the device loop keeps the last model, the generic options and the options per subsection name |
| CorosyncFacade.ConfigFacade.ReadDeviceAttributes | pcs/lib/corosync/config_facade.py:154-158 | one device's attributes extend the model and generic dictionary read so far |
| CorosyncFacade.ConfigFacade.ReadDeviceSubsections | pcs/lib/corosync/config_facade.py:159-164 | one device's subsections extend the per-name dictionaries read so far |
| CorosyncFacade.ConfigFacade.DelAttributes | pcs/lib/corosync/config_facade.py:457-459 | deleting the submitted keys from an earlier section leaves its other attributes in order |
| CorosyncFacade.ConfigFacade.ApplyOptionsTo | pcs/lib/corosync/config_facade.py:460-464 | the sorted loop deletes the keys submitted as "" from the last section and sets the others |
| CorosyncFacade.ConfigFacade.SetSectionOptionsIn | pcs/lib/corosync/config_facade.py:456-464 | `__set_section_options` on a list of sections computes `SetSectionOptions` |
| CorosyncFacade.ConfigFacade.EnsureQuorumSection | pcs/lib/corosync/config_facade.py:466-472 | the tree afterwards is `EnsureSection(old, "quorum")` |
| CorosyncFacade.ConfigFacade.RemoveEmpty | pcs/lib/corosync/config_facade.py:474-478 | the recursive removal, cleaning each child and deleting it with `del_section` when it is then empty, computes `Prune` |
| CorosyncFacade.ConfigFacade.RemoveEmptySections | pcs/lib/corosync/config_facade.py:474-478 | the tree afterwards is `Prune(old)` |
| CorosyncFacade.ConfigFacade.DelDevices | pcs/lib/corosync/config_facade.py:274-275 | deleting every `device` child of one quorum section with `del_section`, one at a time, keeps its other children in order |
| CorosyncFacade.ConfigFacade.RemoveDevicesInPlace | pcs/lib/corosync/config_facade.py:273-275 | every quorum section loses its `device` children |
| CorosyncFacade.ConfigFacade.ReadAutoTieBreaker | pcs/lib/corosync/config_facade.py:433-436 | the flag is true exactly when the last `auto_tie_breaker` is present and not "0" |
| CorosyncFacade.ConfigFacade.FlipNet | pcs/lib/corosync/config_facade.py:448-454 | one `net` section's algorithm is flipped as `Flip` says |
| CorosyncFacade.ConfigFacade.FlipAlgorithms | pcs/lib/corosync/config_facade.py:444-454 | every `quorum/device/net` section is flipped |
| CorosyncFacade.ConfigFacade.SetTwoNodeInPlace | pcs/lib/corosync/config_facade.py:438-440 | `two_node: 1` is merged into the ensured quorum sections |
| CorosyncFacade.ConfigFacade.ClearTwoNodeInPlace | pcs/lib/corosync/config_facade.py:441-443 | `two_node` is deleted from every quorum section |
| CorosyncFacade.ConfigFacade.UpdateTwoNodeInPlace | pcs/lib/corosync/config_facade.py:429-454 | the tree afterwards is `UpdateTwoNode(old)` |
| CorosyncFacade.ConfigFacade.ReadDeviceModel | pcs/lib/corosync/config_facade.py:237-241 | the model loop returns the device's model |
| CorosyncFacade.ConfigFacade.SetQuorumOptions | pcs/lib/corosync/config_facade.py:82-93 | outcome and new tree are `SetQuorumOptionsCommand(old, options)` |
| CorosyncFacade.ConfigFacade.AddQuorumDevice | pcs/lib/corosync/config_facade.py:167-222 | outcome and new tree are `AddQuorumDeviceCommand(old, ...)` |
| CorosyncFacade.ConfigFacade.AttachDevice | pcs/lib/corosync/config_facade.py:197-222 | the cleanup, the new device, the two-node step and the pruning give `AddQuorumDevice(old, ...)` |
| CorosyncFacade.ConfigFacade.UpdateQuorumDevice | pcs/lib/corosync/config_facade.py:224-265 | outcome and new tree are `UpdateQuorumDeviceCommand(old, ...)` |
| CorosyncFacade.ConfigFacade.EnsureModelSectionAt | pcs/lib/corosync/config_facade.py:256-263 | the last device section gets a section named after the model when none exists |
| CorosyncFacade.ConfigFacade.RemoveQuorumDevice | pcs/lib/corosync/config_facade.py:267-277 | outcome and new tree are `RemoveQuorumDeviceCommand(old)` |
| ClusterProperty.DefinitionFields | pcs/lib/commands/cluster_property.py:74-86 | an entry has the parameter's name and advanced flag; its texts and default are "" exactly when missing or empty; its readable name comes from the table, or is the name itself; its source is the agent type; with enum values the type is "enum" and the values are kept, otherwise the parameter's type and no values |
| ClusterProperty.DefinitionsOfKeys | pcs/lib/commands/cluster_property.py:70-88 | a name is a key exactly when it is not banned and some parameter has it |
| ClusterProperty.DefinitionsOfLast | pcs/lib/commands/cluster_property.py:71-87 | each entry is the definition of the last parameter with that name |
| ClusterProperty.MetadataToDictKeys | pcs/lib/commands/cluster_property.py:54-88 | `dc-version` and `cluster-infrastructure` never appear; every entry's name is its key and its source is the agent type |
| ClusterProperty.PropertyMetadataToDict | pcs/lib/commands/cluster_property.py:51-88 | the loop computes `MetadataToDict(metadata)` |
| ClusterProperty.MergedDefinitionsKeys | pcs/lib/commands/cluster_property.py:95-102 | a name is merged exactly when some agent exports it |
| ClusterProperty.MergedDefinitionsLast | pcs/lib/commands/cluster_property.py:95-102 | each merged entry is the one from the last agent that exports the name |
| ClusterProperty.MergedDefinitionsNotBanned | pcs/lib/commands/cluster_property.py:95-102 | a banned name never appears in the merged result |
| ClusterProperty.GetClusterPropertiesDefinition | pcs/lib/commands/cluster_property.py:91-102 | the update loop computes `MergedDefinitions(metadataList)` |

## Left out

- `from_string`: the corosync.conf grammar and parser (`config_parser`) are
  not part of this model. The model maps each of the three parser
  exception kinds to its report.
- `config_parser.Section`: its source is not part of this model.
  - When a key repeats, `SetAttribute` replaces the first attribute with
    the key and drops the later ones. It appends the attribute when the key
    is absent.
  - `GetAttributes` and `DelAttributesByName` work as their names say.
- Sections are values. Aliasing and object identity are not modelled.
  - A Python edit of a section reached through `get_sections` is written as
    select, change, replace along the path of names.
  - `add_quorum_device` builds the new device before attaching it. In
    Python it is attached first and filled afterwards; the tree comes out
    the same.
- `NodeAddresses` and `NodeAddressesList`: their internals are not
  modelled. A node is a record of four optional strings, and its id is the
  `nodeid` attribute.
- `report_processor.process_list`: modelled as "the command stops, with the
  tree unchanged, exactly when a report has ERROR severity". Report message
  texts and the `allowed` lists are not modelled: a report holds its kind,
  option name, severity and force code.
- `str.isdigit`: modelled as a non-empty string of ASCII digits. Python
  also accepts other Unicode digits, such as "²".
  - For `connect_timeout` and `port`
    (pcs/lib/corosync/config_facade.py:360 and :375) such a value passes
    `isdigit()`, then `int()` raises a ValueError that nothing catches. The
    model reports an invalid value instead.
  - For `last_man_standing_window`, `sync_timeout` and `timeout`
    (pcs/lib/corosync/config_facade.py:121 and :422) the source accepts
    such a value, and the model reports it as invalid.
- Dictionary iteration order: modelled only where the source sorts. The
  first loop of `__set_section_options` deletes every submitted key, so
  its order does not matter.
- CorosyncFacade.ConfigFacade.UpdateQuorumDevice: uses the corrected merge
  (see Findings). The source instead raises an IndexError when model
  options are given and the device has no model section.
- `_get_property_facade_list`, the agent facade factory and the pacemaker
  daemons they run: the metadata list is a parameter of
  `GetClusterPropertiesDefinition`.

## Findings

| source | as written | input that shows it | evidently intended | confidence | as-written member | corrected member |
|---|---|---|---|---|---|---|
| pcs/lib/corosync/config_facade.py:256-263 | `update_quorum_device` sets the model options on the sections named after the model that already exist, and indexes the last one; with none, `section_list[-1]` raises IndexError | a tree whose only device section is `device { model: net }`, with no `net` subsection, updated with model options `host: qnetd`; validation passes, then the merge fails. pcs itself reaches the same shape: a forced add of model `bogus` without model options leaves `device { model: bogus }`, and a later update with any model option fails the same way | create the model section under the device, as `add_quorum_device` does, and set the options there | not executed | CorosyncFacade.UpdateWithoutModelSection | CorosyncFacade.UpdateCreatesModelSection |
