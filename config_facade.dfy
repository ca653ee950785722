/** `ConfigFacade`: high level access to a parsed corosync configuration.
    The facade owns the section tree and replaces it as it edits it; every
    method is proved to compute what the functions of `FacadeQueries`,
    `FacadeValidation` and `FacadeMutations` say. */
module CorosyncFacade {
  import opened Util
  import opened ConfigParser
  import opened Reports
  import opened FacadeQueries
  import opened FacadeValidation
  import opened FacadeMutations

  /** How a command ends: the changes were made (the reports are then at most
      warnings), or a LibraryError stopped it before anything changed. */
  datatype Outcome = Applied(reports: seq<Report>) | Rejected(reports: seq<Report>)

  /** The exceptions of the corosync.conf parser that `from_string` turns
      into reports. */
  datatype ParserError = MissingClosingBrace | UnexpectedClosingBrace | OtherParserError

  datatype Parsed = ParsedConfig(root: Section) | ParseFailed(error: ParserError)

  function ParserErrorKind(e: ParserError): ReportKind {
    match e
    case MissingClosingBrace => CorosyncConfigParserMissingClosingBrace
    case UnexpectedClosingBrace => CorosyncConfigParserUnexpectedClosingBrace
    case OtherParserError => CorosyncConfigParserOtherError
  }

  /** `from_string`: a parsed configuration becomes the facade's tree, a
      parser exception an ERROR report that cannot be forced. */
  function FromParsed(p: Parsed): (r: Outcome)
    ensures p.ParsedConfig? ==> r == Applied([])
    ensures p.ParseFailed? ==> r.Rejected? && |r.reports| == 1 && HasErrors(r.reports)
    ensures p.ParseFailed? ==> r.reports[0].kind == ParserErrorKind(p.error) && r.reports[0].forceCode.None?
  {
    match p
    case ParsedConfig(_) => Applied([])
    case ParseFailed(e) =>
      var reports := [Blocking(ParserErrorKind(e), "")];
      assert reports[0].severity == Error;
      Rejected(reports)
  }

  /** Each parser exception has a report of its own. */
  lemma ParserErrorsDistinct(e1: ParserError, e2: ParserError)
    ensures FromParsed(ParseFailed(e1)) == FromParsed(ParseFailed(e2)) <==> e1 == e2
  {
    if e1 != e2 {
      assert ParserErrorKind(e1) != ParserErrorKind(e2);
      assert FromParsed(ParseFailed(e1)).reports[0] != FromParsed(ParseFailed(e2)).reports[0];
    }
  }

  /** The dictionary `get_quorum_options` fills: attribute by attribute,
      every quorum option stored under its name. */
  ghost function ReadQuorumOptions(read: seq<Attr>): map<string, string>
    decreases |read|
  {
    if read == [] then map[]
    else
      var a := read[|read| - 1];
      var before := ReadQuorumOptions(read[..|read| - 1]);
      if a.key in QUORUM_OPTIONS then before[a.key := a.value] else before
  }

  lemma {:induction false} ReadQuorumOptionsMeaning(read: seq<Attr>)
    ensures ReadQuorumOptions(read) == QuorumOnly(DictOf(read))
    decreases |read|
  {
    if read == [] {
      QuorumOnlyEmpty();
    } else {
      var a := read[|read| - 1];
      var prefix := read[..|read| - 1];
      ReadQuorumOptionsMeaning(prefix);
      QuorumOnlyLast(read);
    }
  }

  lemma QuorumOnlyLast(read: seq<Attr>)
    requires read != []
    ensures var a := read[|read| - 1];
      QuorumOnly(DictOf(read)) ==
        if a.key in QUORUM_OPTIONS then QuorumOnly(DictOf(read[..|read| - 1]))[a.key := a.value]
        else QuorumOnly(DictOf(read[..|read| - 1]))
  {
    var prefix := read[..|read| - 1];
    assert read == prefix + [read[|read| - 1]];
    QuorumOnlySnoc(prefix, read[|read| - 1]);
  }

  lemma QuorumOnlyEmpty()
    ensures QuorumOnly(DictOf([])) == map[]
  {
    DictOfEmpty();
    MapsEqual(QuorumOnly(DictOf([])), map[]);
  }

  lemma QuorumOnlySnoc(read: seq<Attr>, a: Attr)
    ensures QuorumOnly(DictOf(read + [a])) ==
      if a.key in QUORUM_OPTIONS then QuorumOnly(DictOf(read))[a.key := a.value] else QuorumOnly(DictOf(read))
  {
    DictOfSnoc(read, a);
    var d := QuorumOnly(DictOf(read + [a]));
    var e := if a.key in QUORUM_OPTIONS then QuorumOnly(DictOf(read))[a.key := a.value] else QuorumOnly(DictOf(read));
    MapsEqual(d, e);
  }

  /** The generic options `get_quorum_device_settings` fills: every device
      attribute but `model` stored under its name. */
  ghost function ReadGenericOptions(read: seq<Attr>): map<string, string>
    decreases |read|
  {
    if read == [] then map[]
    else
      var a := read[|read| - 1];
      var before := ReadGenericOptions(read[..|read| - 1]);
      if a.key == "model" then before else before[a.key := a.value]
  }

  lemma GenericSnoc(read: seq<Attr>, a: Attr)
    ensures DictOf(read + [a]) - {"model"} ==
      if a.key == "model" then DictOf(read) - {"model"} else (DictOf(read) - {"model"})[a.key := a.value]
  {
    DictOfSnoc(read, a);
    var d := DictOf(read + [a]) - {"model"};
    var e := if a.key == "model" then DictOf(read) - {"model"} else (DictOf(read) - {"model"})[a.key := a.value];
    MapsEqual(d, e);
  }

  lemma {:induction false} ReadGenericOptionsMeaning(read: seq<Attr>)
    ensures ReadGenericOptions(read) == DictOf(read) - {"model"}
    decreases |read|
  {
    if read == [] {
      DictOfEmpty();
      assert DictOf([]) - {"model"} == map[];
    } else {
      var a := read[|read| - 1];
      var prefix := read[..|read| - 1];
      var before := ReadGenericOptions(prefix);
      assert ReadGenericOptions(read) == if a.key == "model" then before else before[a.key := a.value];
      ReadGenericOptionsMeaning(prefix);
      assert read == prefix + [a];
      GenericSnoc(prefix, a);
    }
  }

  /** Reading one more attribute of a section after `read`. */
  lemma ReadQuorumStep(read: seq<Attr>, attrs: seq<Attr>, j: int)
    requires 0 <= j < |attrs|
    ensures var p, a := read + attrs[..j], attrs[j];
      ReadQuorumOptions(read + attrs[..j + 1]) ==
        if a.key in QUORUM_OPTIONS then ReadQuorumOptions(p)[a.key := a.value] else ReadQuorumOptions(p)
  {
    var q := read + attrs[..j + 1];
    assert q[..|q| - 1] == read + attrs[..j] && q[|q| - 1] == attrs[j];
  }

  /** What the reader of the device attributes holds after reading `read`. */
  ghost predicate DeviceRead(read: seq<Attr>, model: Option<string>, generic: map<string, string>) {
    model == LastValue(read, "model") && generic == ReadGenericOptions(read)
  }

  /** The reader before the first and after the last attribute of a section. */
  lemma DeviceReadEnds(read: seq<Attr>, attrs: seq<Attr>, model: Option<string>, generic: map<string, string>)
    ensures DeviceRead(read + attrs[..0], model, generic) <==> DeviceRead(read, model, generic)
    ensures DeviceRead(read + attrs[..|attrs|], model, generic) <==> DeviceRead(read + attrs, model, generic)
  {
    assert read + attrs[..0] == read;
    assert attrs[..|attrs|] == attrs;
  }

  /** Reading attribute `j` of a device section after `read` and the ones before it. */
  lemma ReadDeviceStep(read: seq<Attr>, attrs: seq<Attr>, j: int, model: Option<string>, generic: map<string, string>)
    requires 0 <= j < |attrs| && DeviceRead(read + attrs[..j], model, generic)
    ensures var a := attrs[j];
      DeviceRead(read + attrs[..j + 1], if a.key == "model" then Some(a.value) else model,
                 if a.key == "model" then generic else generic[a.key := a.value])
  {
    var p, a := read + attrs[..j], attrs[j];
    var q := read + attrs[..j + 1];
    assert q == p + [a];
    assert q[..|q| - 1] == p && q[|q| - 1] == a;
    LastValueSnoc(p, a, "model");
  }

  /** The children of the sections, in document order. */
  ghost function Children(ss: seq<Section>): seq<Section> {
    if ss == [] then [] else ss[0].sections + Children(ss[1..])
  }

  lemma {:induction false} ChildrenAppend(a: seq<Section>, b: seq<Section>)
    ensures Children(a + b) == Children(a) + Children(b)
  {
    if a == [] {
      assert a + b == b;
    } else {
      assert (a + b)[0] == a[0] && (a + b)[1..] == a[1..] + b;
      ChildrenAppend(a[1..], b);
    }
  }

  lemma {:induction false} ChildrenSelect(ss: seq<Section>, name: string)
    ensures Select(Children(ss), [name]) == SelectBelow(ss, [name])
  {
    if ss != [] {
      ChildrenSelect(ss[1..], name);
      SelectAppend(ss[0].sections, Children(ss[1..]), [name]);
    }
  }

  /** The model options `get_quorum_device_settings` collects: for every
      subsection name, the attributes of all subsections of that name,
      later values overriding earlier ones. */
  ghost function ReadSubsections(subs: seq<Section>): map<string, map<string, string>>
    decreases |subs|
  {
    if subs == [] then map[]
    else AddSubsection(ReadSubsections(subs[..|subs| - 1]), subs[|subs| - 1])
  }

  /** Reading one more subsection after `subs`. */
  lemma ReadSubsectionsStep(subs: seq<Section>, sections: seq<Section>, j: int)
    requires 0 <= j < |sections|
    ensures ReadSubsections(subs + sections[..j + 1]) ==
      AddSubsection(ReadSubsections(subs + sections[..j]), sections[j])
  {
    var q := subs + sections[..j + 1];
    assert q[..|q| - 1] == subs + sections[..j] && q[|q| - 1] == sections[j];
  }

  /** The children of one more section. */
  lemma ChildrenSnoc(ss: seq<Section>, i: int)
    requires 0 <= i < |ss|
    ensures Children(ss[..i + 1]) == Children(ss[..i]) + ss[i].sections
  {
    assert ss[..i + 1] == ss[..i] + [ss[i]];
    ChildrenAppend(ss[..i], [ss[i]]);
    assert Children([ss[i]]) == ss[i].sections + Children([]);
    assert ss[i].sections + [] == ss[i].sections;
  }

  /** `model_options[s.name].update(s.get_attributes())`, creating the
      entry when it is missing. */
  function AddSubsection(byName: map<string, map<string, string>>, s: Section): map<string, map<string, string>> {
    byName[s.name := (if s.name in byName then byName[s.name] else map[]) + DictOf(s.attributes)]
  }

  /** What is known of one name is kept when a subsection is added. */
  lemma AddSubsectionMeaning(before: map<string, map<string, string>>, sel: seq<Section>, s: Section, name: string)
    requires name in before <==> sel != []
    requires name in before ==> before[name] == DictOf(AllAttributes(sel))
    ensures var after := AddSubsection(before, s);
      var sel' := sel + if s.name == name then [s] else [];
      && (name in after <==> sel' != [])
      && (name in after ==> after[name] == DictOf(AllAttributes(sel')))
  {
    if s.name == name {
      SubsectionRead(sel, s);
      if sel == [] {
        DictOfEmpty();
        assert AllAttributes(sel) == [];
      }
    } else {
      assert sel + [] == sel;
    }
  }

  lemma {:induction false} ReadSubsectionsMeaning(subs: seq<Section>, name: string)
    ensures name in ReadSubsections(subs) <==> Select(subs, [name]) != []
    ensures name in ReadSubsections(subs) ==> ReadSubsections(subs)[name] == DictOf(AllAttributes(Select(subs, [name])))
    decreases |subs|
  {
    if subs != [] {
      var s := subs[|subs| - 1];
      var prefix := subs[..|subs| - 1];
      ReadSubsectionsMeaning(prefix, name);
      assert subs == prefix + [s];
      SelectSnoc(prefix, s, name);
      AddSubsectionMeaning(ReadSubsections(prefix), Select(prefix, [name]), s, name);
    }
  }

  lemma SelectSnoc(ss: seq<Section>, s: Section, name: string)
    ensures Select(ss + [s], [name]) == Select(ss, [name]) + if s.name == name then [s] else []
  {
    SelectAppend(ss, [s], [name]);
    assert Select([s], [name]) == SelectIn(s, [name]) + Select([], [name]);
  }

  /** One more subsection of the same name read. */
  lemma SubsectionRead(sel: seq<Section>, s: Section)
    ensures DictOf(AllAttributes(sel + [s])) == DictOf(AllAttributes(sel)) + DictOf(s.attributes)
  {
    AllAttributesAppend(sel, [s]);
    assert AllAttributes([s]) == s.attributes + AllAttributes([]);
    assert AllAttributes(sel + [s]) == AllAttributes(sel) + s.attributes;
    DictOfAppend(AllAttributes(sel), s.attributes);
  }

  /** `model_options.get(model, {})` is what the model sections hold. */
  lemma ModelOptionsRead(root: Section, model: string, byName: map<string, map<string, string>>)
    requires byName == ReadSubsections(Children(DeviceSections(root)))
    ensures (if model in byName then byName[model] else map[]) == DictOf(ModelAttributes(root, model))
  {
    ReadSubsectionsMeaning(Children(DeviceSections(root)), model);
    ChildrenSelect(DeviceSections(root), model);
    SelectCompose(root.sections, DevicePath, [model]);
    if model !in byName {
      DictOfEmpty();
      assert AllAttributes([]) == [];
    }
  }

  /* ---------------------------------------------------------------------
     The commands: their reports and the tree they leave
     --------------------------------------------------------------------- */

  /** What a facade command leaves behind: how it ended and the tree. */
  datatype CommandResult = CommandResult(outcome: Outcome, config: Section)

  /** Reports go to `report_processor.process_list`, which stops the
      command before any change when one of them is an ERROR. */
  function Validated(root: Section, reports: seq<Report>, changed: Section): CommandResult {
    if HasErrors(reports) then CommandResult(Rejected(reports), root)
    else CommandResult(Applied(reports), changed)
  }

  function SetQuorumOptionsCommand(root: Section, options: map<string, string>): CommandResult {
    Validated(root, ValidateQuorumOptions(options), SetQuorumOptions(root, options))
  }

  /** The reports `add_quorum_device` hands to the report processor. */
  function AddQuorumDeviceReports(model: string, modelOptions: map<string, string>, genericOptions: map<string, string>,
                                  forceModel: bool, forceOptions: bool, nodes: seq<NodeAddress>): seq<Report> {
    ValidateModel(model, forceModel)
    + ValidateModelOptions(model, modelOptions, true, forceOptions, nodes)
    + ValidateGenericOptions(genericOptions, forceOptions)
  }

  function AddQuorumDeviceCommand(root: Section, model: string, modelOptions: map<string, string>,
                                  genericOptions: map<string, string>, forceModel: bool, forceOptions: bool): CommandResult {
    if HasQuorumDevice(root) then CommandResult(Rejected([Blocking(QdeviceAlreadyDefined, "")]), root)
    else
      Validated(root, AddQuorumDeviceReports(model, modelOptions, genericOptions, forceModel, forceOptions, Nodes(root)),
                AddQuorumDevice(root, model, modelOptions, genericOptions))
  }

  /** The reports `update_quorum_device` hands to the report processor. */
  function UpdateQuorumDeviceReports(model: string, modelOptions: map<string, string>, genericOptions: map<string, string>,
                                     forceOptions: bool, nodes: seq<NodeAddress>): seq<Report> {
    ValidateModelOptions(model, modelOptions, false, forceOptions, nodes)
    + ValidateGenericOptions(genericOptions, forceOptions)
  }

  function UpdateQuorumDeviceCommand(root: Section, modelOptions: map<string, string>,
                                     genericOptions: map<string, string>, forceOptions: bool): CommandResult {
    if !HasQuorumDevice(root) then CommandResult(Rejected([Blocking(QdeviceNotDefined, "")]), root)
    else
      Validated(root, UpdateQuorumDeviceReports(DeviceModel(root).value, modelOptions, genericOptions, forceOptions, Nodes(root)),
                UpdateQuorumDevice(root, modelOptions, genericOptions))
  }

  function RemoveQuorumDeviceCommand(root: Section): CommandResult {
    if !HasQuorumDevice(root) then CommandResult(Rejected([Blocking(QdeviceNotDefined, "")]), root)
    else CommandResult(Applied([]), RemoveQuorumDevice(root))
  }

  /** Reports that are all ERRORs stop the command as soon as there is one. */
  lemma {:induction false} AllErrors(rs: seq<Report>)
    requires forall i :: 0 <= i < |rs| ==> rs[i].severity == Error
    ensures HasErrors(rs) <==> rs != []
  {
    if rs != [] {
      assert rs[0].severity == Error;
    }
  }

  /** `set_quorum_options` goes ahead exactly when every option is a known
      quorum option with an acceptable value, and then reports nothing; the
      options read back are the old ones with the submitted ones laid over
      them, and no empty section is left. */
  lemma SetQuorumOptionsCommandResult(root: Section, options: map<string, string>)
    ensures var r := SetQuorumOptionsCommand(root, options);
      && (r.outcome.Applied? <==> forall name :: name in options ==> QuorumOptionAcceptable(name, options[name]))
      && (r.outcome.Rejected? ==> r.config == root && HasErrors(r.outcome.reports))
      && (r.outcome.Applied? ==>
            && r.outcome.reports == []
            && QuorumOptions(r.config) == QuorumOnly(Overlay(QuorumOptions(root), options))
            && NoEmptyBelow(r.config))
  {
    var rs := ValidateQuorumOptions(options);
    QuorumOptionsGate(options);
    QuorumOptionsUnforceable(options);
    AllErrors(rs);
    SetQuorumOptionsResult(root, options);
  }

  /** `add_quorum_device`: refused while a device exists; otherwise, once the
      reports let it through, the tree holds a device of the given model
      with exactly the non-empty generic options submitted and the non-empty
      model options submitted (the algorithm of a net device following the
      node count), and the quorum options a device replaces are gone.
      Without force it goes ahead exactly when there is no device and no
      report at all. */
  lemma AddQuorumDeviceCommandResult(root: Section, model: string, modelOptions: map<string, string>,
                                     genericOptions: map<string, string>, forceModel: bool, forceOptions: bool)
    ensures var r := AddQuorumDeviceCommand(root, model, modelOptions, genericOptions, forceModel, forceOptions);
      && (HasQuorumDevice(root) ==> r == CommandResult(Rejected([Blocking(QdeviceAlreadyDefined, "")]), root))
      && (r.outcome.Rejected? ==> r.config == root && HasErrors(r.outcome.reports))
      && (r.outcome.Applied? && !forceModel && !forceOptions ==> r.outcome.reports == [])
      && (!forceModel && !forceOptions ==>
            (r.outcome.Applied? <==>
               !HasQuorumDevice(root) && AddQuorumDeviceReports(model, modelOptions, genericOptions, false, false, Nodes(root)) == []))
      && (r.outcome.Applied? ==>
            var s := QuorumDeviceSettings(r.config);
            && HasQuorumDevice(r.config)
            && s.model == Some(model)
            && (forall k :: k in s.genericOptions <==> k in genericOptions && genericOptions[k] != "")
            && (forall k :: k in s.genericOptions ==> s.genericOptions[k] == genericOptions[k])
            && s.modelOptions == ModelOptionsFor(model, Overlay(map[], modelOptions), |Nodes(root)| == 2)
            && (forall k :: k in CLEANUP_OPTIONS ==> !HasKey(QuorumAttributes(r.config), k)))
  {
    var r := AddQuorumDeviceCommand(root, model, modelOptions, genericOptions, forceModel, forceOptions);
    if HasQuorumDevice(root) {
      assert r.outcome.reports[0].severity == Error;
    } else {
      var rs := AddQuorumDeviceReports(model, modelOptions, genericOptions, forceModel, forceOptions, Nodes(root));
      if !forceModel && !forceOptions {
        UnforcedAllErrors(model, modelOptions, genericOptions, Nodes(root));
        AllErrors(rs);
      }
      if r.outcome.Applied? {
        ForcedGenericErrors(genericOptions, forceOptions);
        HasErrorsAppend(ValidateModel(model, forceModel) + ValidateModelOptions(model, modelOptions, true, forceOptions, Nodes(root)),
                        ValidateGenericOptions(genericOptions, forceOptions));
        AddQuorumDeviceResult(root, model, modelOptions, genericOptions);
        AddQuorumDeviceClearsOptions(root, model, modelOptions, genericOptions);
      }
    }
  }

  lemma UnforcedAllErrors(model: string, modelOptions: map<string, string>, genericOptions: map<string, string>,
                          nodes: seq<NodeAddress>)
    ensures var rs := AddQuorumDeviceReports(model, modelOptions, genericOptions, false, false, nodes);
      forall i :: 0 <= i < |rs| ==> rs[i].severity == Error
  {
    var a := ValidateModel(model, false);
    var b := ValidateModelOptions(model, modelOptions, true, false, nodes);
    var c := ValidateGenericOptions(genericOptions, false);
    DeviceOptionReportsForcedOk(model, modelOptions, genericOptions, true, false, nodes);
    ModelUnforcedOk(model);
    UnforcedOk(a, b, c);
  }

  lemma ModelUnforcedOk(model: string)
    ensures forall i :: 0 <= i < |ValidateModel(model, false)| ==> ForcedOk(false, ValidateModel(model, false)[i])
  {
  }

  lemma UnforcedOk(a: seq<Report>, b: seq<Report>, c: seq<Report>)
    requires forall i :: 0 <= i < |a| ==> ForcedOk(false, a[i])
    requires forall i :: 0 <= i < |b + c| ==> ForcedOk(false, (b + c)[i])
    ensures forall i :: 0 <= i < |a + b + c| ==> (a + b + c)[i].severity == Error
  {
    AllForcedOkAppend(false, a, b + c);
    assert a + (b + c) == a + b + c;
  }

  /** With both forces `add_quorum_device` goes ahead on a cluster without a
      device unless a net device lacks its `host` or a generic option is
      named `model`. */
  lemma AddQuorumDeviceForced(root: Section, model: string, modelOptions: map<string, string>,
                              genericOptions: map<string, string>)
    requires !HasQuorumDevice(root)
    ensures AddQuorumDeviceCommand(root, model, modelOptions, genericOptions, true, true).outcome.Applied? <==>
      && "model" !in genericOptions
      && (model == "net" ==> "host" in modelOptions && modelOptions["host"] != "")
  {
    var a := ValidateModel(model, true);
    var b := ValidateModelOptions(model, modelOptions, true, true, Nodes(root));
    var c := ValidateGenericOptions(genericOptions, true);
    HasErrorsAppend(a, b);
    HasErrorsAppend(a + b, c);
    ModelCheck(model, true);
    ForcedModelOptionsErrors(model, modelOptions, true, Nodes(root));
    ForcedGenericErrors(genericOptions, true);
  }

  /** `update_quorum_device`: refused without a device; once through, the
      model is kept, the generic options are the old ones with the submitted
      ones laid over them, and so are the model options, the algorithm of a
      net device then following the node count. */
  lemma UpdateQuorumDeviceCommandResult(root: Section, modelOptions: map<string, string>,
                                        genericOptions: map<string, string>, forceOptions: bool)
    ensures var r := UpdateQuorumDeviceCommand(root, modelOptions, genericOptions, forceOptions);
      && (!HasQuorumDevice(root) ==> r == CommandResult(Rejected([Blocking(QdeviceNotDefined, "")]), root))
      && (r.outcome.Rejected? ==> r.config == root && HasErrors(r.outcome.reports))
      && (r.outcome.Applied? ==>
            var s0 := QuorumDeviceSettings(root);
            var s := QuorumDeviceSettings(r.config);
            && "model" !in genericOptions
            && s.model == s0.model
            && s.genericOptions == Overlay(s0.genericOptions, genericOptions)
            && s0.model.Some?
            && s.modelOptions == ModelOptionsFor(s0.model.value, Overlay(s0.modelOptions, modelOptions), |Nodes(root)| == 2))
  {
    var r := UpdateQuorumDeviceCommand(root, modelOptions, genericOptions, forceOptions);
    if !HasQuorumDevice(root) {
      assert r.outcome.reports[0].severity == Error;
    } else if r.outcome.Applied? {
      var model := DeviceModel(root).value;
      ForcedGenericErrors(genericOptions, forceOptions);
      HasErrorsAppend(ValidateModelOptions(model, modelOptions, false, forceOptions, Nodes(root)),
                      ValidateGenericOptions(genericOptions, forceOptions));
      UpdateQuorumDeviceResult(root, modelOptions, genericOptions);
      UpdateQuorumDeviceModelOptions(root, modelOptions, genericOptions);
      var s0 := QuorumDeviceSettings(root);
      MapsEqual(Overlay(s0.genericOptions, genericOptions) - {"model"}, Overlay(s0.genericOptions, genericOptions));
    }
  }

  /** `remove_quorum_device`: refused without a device; otherwise no device
      is left and the quorum options are those from before. */
  lemma RemoveQuorumDeviceCommandResult(root: Section)
    ensures var r := RemoveQuorumDeviceCommand(root);
      && (r.outcome.Applied? <==> HasQuorumDevice(root))
      && (r.outcome.Rejected? ==> r == CommandResult(Rejected([Blocking(QdeviceNotDefined, "")]), root))
      && (r.outcome.Applied? ==>
            && r.outcome.reports == []
            && DeviceSections(r.config) == []
            && !HasQuorumDevice(r.config)
            && QuorumOptions(r.config) == QuorumOptions(root)
            && NoEmptyBelow(r.config))
  {
    RemoveQuorumDeviceResult(root);
  }

  /** A tree whose only quorum device is a `net` device without its `net`
      section. `add_quorum_device` never leaves this for `net`, which always
      needs a non-empty `host`: the tree comes from a corosync.conf edited by
      hand. */
  function NetDeviceWithoutSection(): Section {
    Section("", [], [Section("quorum", [], [Section("device", [Attr("model", "net")], [])])])
  }

  lemma NetDeviceWithoutSectionShape()
    ensures DeviceSections(NetDeviceWithoutSection()) == [Section("device", [Attr("model", "net")], [])]
    ensures Select(NetDeviceWithoutSection().sections, DevicePath + ["net"]) == []
    ensures HasQuorumDevice(NetDeviceWithoutSection())
    ensures DeviceModel(NetDeviceWithoutSection()) == Some("net")
  {
    var root := NetDeviceWithoutSection();
    var device := Section("device", [Attr("model", "net")], []);
    var quorum := root.sections[0];
    assert Select(root.sections, QuorumPath) == [quorum] by {
      assert root.sections[1..] == [];
    }
    assert Select(quorum.sections, ["device"]) == [device] by {
      assert quorum.sections[1..] == [];
    }
    assert Select(device.sections, ["net"]) == [];
    SelectCompose(root.sections, QuorumPath, ["device"]);
    SelectCompose(root.sections, DevicePath, ["net"]);
    assert SelectBelow([quorum], ["device"]) == Select(quorum.sections, ["device"]) + SelectBelow([], ["device"]);
    assert SelectBelow([device], ["net"]) == Select(device.sections, ["net"]) + SelectBelow([], ["net"]);
    assert QuorumPath + ["device"] == DevicePath;
    assert HasKey(DeviceSections(root)[0].attributes, "model");
    assert AllAttributes([device]) == device.attributes + AllAttributes([]);
    assert AttrsNamed(device.attributes, "model") == [Attr("model", "net")];
  }

  /** `host` alone is a valid update of a net device. */
  lemma HostOnlyReports(nodes: seq<NodeAddress>)
    ensures UpdateQuorumDeviceReports("net", map["host" := "qnetd"], map[], false, nodes) == []
  {
    var modelOptions := map["host" := "qnetd"];
    var names := SortedKeys(modelOptions.Keys);
    var check := NetCheck(modelOptions, false, nodes);
    assert names == ["host"] by {
      assert |names| == 1 && names[0] in modelOptions.Keys;
    }
    assert check("host") == [] by {
      NetHostReports("qnetd", false, nodes);
    }
    assert ConcatMap(names, check) == check("host") + ConcatMap([], check);
    assert ValidateModelOptions("net", modelOptions, false, false, nodes) == [];
    var none: map<string, string> := map[];
    assert SortedKeys(none.Keys) == [];
    assert ValidateGenericOptions(none, false) == [];
  }

  /** On a net device without its `net` section `update_quorum_device`
      with a valid `host` passes validation, but the source then sets the
      model options on an empty list of model sections and fails with an
      IndexError; the corrected merge adds the `net` section and stores the
      host. */
  lemma UpdateCreatesModelSection(root: Section)
    requires DeviceModel(root) == Some("net")
    requires Select(root.sections, DevicePath + ["net"]) == []
    ensures var modelOptions := map["host" := "qnetd"];
      var r := UpdateQuorumDeviceCommand(root, modelOptions, map[], false);
      && MergeDeviceOptionsAsWritten(root, "net", modelOptions, map[]).None?
      && r.outcome == Applied([])
      && "host" in QuorumDeviceSettings(r.config).modelOptions
      && QuorumDeviceSettings(r.config).modelOptions["host"] == "qnetd"
  {
    var modelOptions := map["host" := "qnetd"];
    HostOnlyReports(Nodes(root));
    var r := UpdateQuorumDeviceCommand(root, modelOptions, map[], false);
    var updated := UpdateQuorumDevice(root, modelOptions, map[]);
    assert r == CommandResult(Applied([]), updated);
    UpdateQuorumDeviceModelOptions(root, modelOptions, map[]);
    OverlaidHost(QuorumDeviceSettings(root).modelOptions, QuorumDeviceSettings(updated).modelOptions, |Nodes(root)| == 2);
  }

  lemma OverlaidHost(before: map<string, string>, after: map<string, string>, twoNodes: bool)
    requires after == ModelOptionsFor("net", Overlay(before, map["host" := "qnetd"]), twoNodes)
    ensures "host" in after && after["host"] == "qnetd"
  {
  }

  /** Such a tree exists: the counterexample of the finding. */
  lemma UpdateWithoutModelSection()
    ensures var root := NetDeviceWithoutSection();
      && HasQuorumDevice(root)
      && MergeDeviceOptionsAsWritten(root, "net", map["host" := "qnetd"], map[]).None?
      && UpdateQuorumDeviceCommand(root, map["host" := "qnetd"], map[], false).outcome == Applied([])
  {
    NetDeviceWithoutSectionShape();
    UpdateCreatesModelSection(NetDeviceWithoutSection());
  }

  /** The same failure reached through pcs alone. A device with the unknown
      model `bogus`, added under force without model options, keeps no
      `bogus` section. A later update with a model option passes validation,
      since options of a model other than `net` are not checked, and the
      merge as written then fails. */
  lemma UpdateAfterForcedModel(root: Section)
    requires !HasQuorumDevice(root)
    ensures var added := AddQuorumDeviceCommand(root, "bogus", map[], map[], true, false);
      && added.outcome.Applied?
      && HasQuorumDevice(added.config)
      && MergeDeviceOptionsAsWritten(added.config, "bogus", map["host" := "qnetd"], map[]).None?
      && UpdateQuorumDeviceCommand(added.config, map["host" := "qnetd"], map[], false).outcome == Applied([])
  {
    var t := AddQuorumDevice(root, "bogus", map[], map[]);
    ForcedBogusAdd(root);
    BogusAdded(root);
    AddWithoutModelOptions(root, "bogus", map[]);
    BogusUpdateApplies(t);
  }

  lemma BogusAdded(root: Section)
    ensures var t := AddQuorumDevice(root, "bogus", map[], map[]);
      HasQuorumDevice(t) && QuorumDeviceSettings(t).model == Some("bogus")
  {
    AddQuorumDeviceResult(root, "bogus", map[], map[]);
  }

  lemma BogusUpdateApplies(t: Section)
    requires QuorumDeviceSettings(t).model == Some("bogus")
    ensures UpdateQuorumDeviceCommand(t, map["host" := "qnetd"], map[], false).outcome == Applied([])
  {
    assert DeviceModel(t) == Some("bogus");
    assert HasQuorumDevice(t);
    var reports := UpdateQuorumDeviceReports("bogus", map["host" := "qnetd"], map[], false, Nodes(t));
    BogusUpdateReports(Nodes(t));
    assert !HasErrors(reports);
  }

  lemma ForcedBogusAdd(root: Section)
    requires !HasQuorumDevice(root)
    ensures var added := AddQuorumDeviceCommand(root, "bogus", map[], map[], true, false);
      added.outcome.Applied? && added.config == AddQuorumDevice(root, "bogus", map[], map[])
  {
    ForcedBogusReports(Nodes(root));
  }

  lemma ForcedBogusReports(nodes: seq<NodeAddress>)
    ensures !HasErrors(AddQuorumDeviceReports("bogus", map[], map[], true, false, nodes))
  {
    assert ValidateGenericOptions(map[], false) == [];
  }

  lemma BogusUpdateReports(nodes: seq<NodeAddress>)
    ensures UpdateQuorumDeviceReports("bogus", map["host" := "qnetd"], map[], false, nodes) == []
  {
    assert ValidateGenericOptions(map[], false) == [];
  }

  /** Reading the attributes named `key` of one more section gives the
      last value of `key` among all attributes read. */
  lemma ReadSnoc(ss: seq<Section>, i: int, key: string)
    requires 0 <= i < |ss|
    ensures LastValue(AllAttributes(ss[..i + 1]), key) ==
      LastValue(AllAttributes(ss[..i]) + AttrsNamed(ss[i].attributes, key), key)
  {
    var seen := AllAttributes(ss[..i]);
    AllAttributesSnoc(ss, i);
    LastValueAppend(seen, ss[i].attributes, key);
    LastValueAppend(seen, AttrsNamed(ss[i].attributes, key), key);
    LastValueNamed(ss[i].attributes, key);
  }

  class ConfigFacade {
    var config: Section

    constructor(parsed: Section)
      ensures config == parsed
    {
      config := parsed;
    }

    /* -------------------------------------------------------------------
       Reading the tree
       ------------------------------------------------------------------- */

    /** The children named `name` of each parent in turn:
        `for parent in parents: result.extend(parent.get_sections(name))` */
    method SectionsBelow(parents: seq<Section>, name: string) returns (r: seq<Section>)
      ensures r == SelectBelow(parents, [name])
    {
      r := [];
      var i := 0;
      while i < |parents|
        invariant 0 <= i <= |parents|
        invariant r == SelectBelow(parents[..i], [name])
      {
        SelectBelowSnoc(parents, i, [name]);
        r := r + GetSections(parents[i], name);
        i := i + 1;
      }
      assert parents[..i] == parents;
    }

    /** The `device` sections of all `quorum` sections, in document order. */
    method DeviceSectionsIn() returns (devices: seq<Section>)
      ensures devices == DeviceSections(config)
    {
      var quorums := GetSections(config, "quorum");
      devices := SectionsBelow(quorums, "device");
      SelectCompose(config.sections, QuorumPath, ["device"]);
      assert QuorumPath + ["device"] == DevicePath;
    }

    /** The four keys a node section is read for are different names. */
    lemma NodeKeysDistinct()
      ensures "ring0_addr" != "ring1_addr" && "ring0_addr" != "name" && "ring0_addr" != "nodeid"
      ensures "ring1_addr" != "name" && "ring1_addr" != "nodeid" && "name" != "nodeid"
    {
      assert "ring0_addr"[4] != "ring1_addr"[4];
      assert |"name"| != |"ring0_addr"| && |"name"| != |"ring1_addr"| && |"nodeid"| != |"ring0_addr"|;
      assert |"nodeid"| != |"ring1_addr"| && |"name"| != |"nodeid"|;
    }

    /** One `node` section read into an address: each of the four keys
        takes the last value given for it. */
    method ReadNode(node: Section) returns (address: NodeAddress)
      ensures address == NodeOf(node)
    {
      var ring0, ring1, name, id: Option<string> := None, None, None, None;
      var attrs := node.attributes;
      var j := 0;
      while j < |attrs|
        invariant 0 <= j <= |attrs|
        invariant ring0 == LastValue(attrs[..j], "ring0_addr") && ring1 == LastValue(attrs[..j], "ring1_addr")
        invariant name == LastValue(attrs[..j], "name") && id == LastValue(attrs[..j], "nodeid")
      {
        var a := attrs[j];
        NodeKeysDistinct();
        assert attrs[..j + 1] == attrs[..j] + [a];
        LastValueSnoc(attrs[..j], a, "ring0_addr");
        LastValueSnoc(attrs[..j], a, "ring1_addr");
        LastValueSnoc(attrs[..j], a, "name");
        LastValueSnoc(attrs[..j], a, "nodeid");
        if a.key == "ring0_addr" {
          ring0 := Some(a.value);
        } else if a.key == "ring1_addr" {
          ring1 := Some(a.value);
        } else if a.key == "name" {
          name := Some(a.value);
        } else if a.key == "nodeid" {
          id := Some(a.value);
        }
        assert ring0 == LastValue(attrs[..j + 1], "ring0_addr") && ring1 == LastValue(attrs[..j + 1], "ring1_addr");
        assert name == LastValue(attrs[..j + 1], "name") && id == LastValue(attrs[..j + 1], "nodeid");
        j := j + 1;
      }
      assert attrs[..j] == attrs;
      address := NodeAddress(ring0, ring1, name, id);
    }

    /** `get_nodes()` */
    method GetNodes() returns (nodes: seq<NodeAddress>)
      ensures nodes == Nodes(config)
    {
      var nodelists := GetSections(config, "nodelist");
      var nodeSections := SectionsBelow(nodelists, "node");
      SelectCompose(config.sections, ["nodelist"], ["node"]);
      assert ["nodelist"] + ["node"] == NodePath;
      nodes := ReadNodes(nodeSections);
    }

    /** One address per `node` section, in order. */
    method ReadNodes(nodeSections: seq<Section>) returns (nodes: seq<NodeAddress>)
      ensures nodes == NodesOf(nodeSections)
    {
      nodes := [];
      var i := 0;
      while i < |nodeSections|
        invariant 0 <= i <= |nodeSections|
        invariant nodes == NodesOf(nodeSections[..i])
      {
        var address := ReadNode(nodeSections[i]);
        NodesOfSnoc(nodeSections, i);
        nodes := nodes + [address];
        i := i + 1;
      }
      assert nodeSections[..i] == nodeSections;
    }

    /** The quorum options among the attributes of one section, laid over
        those read before. */
    method ReadQuorumAttributes(before: map<string, string>, ghost read: seq<Attr>, attrs: seq<Attr>)
      returns (options: map<string, string>)
      requires before == ReadQuorumOptions(read)
      ensures options == ReadQuorumOptions(read + attrs)
    {
      options := before;
      var j := 0;
      assert read + attrs[..0] == read;
      while j < |attrs|
        invariant 0 <= j <= |attrs|
        invariant options == ReadQuorumOptions(read + attrs[..j])
      {
        var a := attrs[j];
        ReadQuorumStep(read, attrs, j);
        if a.key in QUORUM_OPTIONS {
          options := options[a.key := a.value];
        }
        j := j + 1;
      }
      assert read + attrs[..j] == read + attrs;
    }

    /** `get_quorum_options()` */
    method GetQuorumOptions() returns (options: map<string, string>)
      ensures options == QuorumOptions(config)
    {
      var quorums := GetSections(config, "quorum");
      options := map[];
      var i := 0;
      while i < |quorums|
        invariant 0 <= i <= |quorums|
        invariant options == ReadQuorumOptions(AllAttributes(quorums[..i]))
      {
        options := ReadQuorumAttributes(options, AllAttributes(quorums[..i]), quorums[i].attributes);
        AllAttributesSnoc(quorums, i);
        i := i + 1;
      }
      assert quorums[..i] == quorums;
      ReadQuorumOptionsMeaning(AllAttributes(quorums));
    }

    /** `has_quorum_device()` */
    method HasQuorumDevice() returns (present: bool)
      ensures present == FacadeQueries.HasQuorumDevice(config)
    {
      var devices := DeviceSectionsIn();
      var j := 0;
      while j < |devices|
        invariant 0 <= j <= |devices|
        invariant forall l :: 0 <= l < j ==> !HasKey(devices[l].attributes, "model")
      {
        HasKeyNamed(devices[j].attributes, "model");
        if GetAttributes(devices[j], "model") != [] {
          return true;
        }
        j := j + 1;
      }
      return false;
    }

    /** The attributes of one device: `model` keeps the last value, every
        other attribute becomes a generic option. */
    method ReadDeviceAttributes(model0: Option<string>, generic0: map<string, string>, ghost read: seq<Attr>,
                                attrs: seq<Attr>)
      returns (model: Option<string>, generic: map<string, string>)
      requires model0 == LastValue(read, "model") && generic0 == ReadGenericOptions(read)
      ensures model == LastValue(read + attrs, "model") && generic == ReadGenericOptions(read + attrs)
    {
      model, generic := model0, generic0;
      var j := 0;
      DeviceReadEnds(read, attrs, model, generic);
      while j < |attrs|
        invariant 0 <= j <= |attrs| && DeviceRead(read + attrs[..j], model, generic)
      {
        var a := attrs[j];
        ReadDeviceStep(read, attrs, j, model, generic);
        if a.key == "model" {
          model := Some(a.value);
        } else {
          generic := generic[a.key := a.value];
        }
        j := j + 1;
      }
      DeviceReadEnds(read, attrs, model, generic);
    }

    /** The subsections of one device added to the model options by name:
        `model_options[name].update(subsection.get_attributes())` */
    method ReadDeviceSubsections(byName0: map<string, map<string, string>>, ghost subs: seq<Section>,
                                 sections: seq<Section>)
      returns (byName: map<string, map<string, string>>)
      requires byName0 == ReadSubsections(subs)
      ensures byName == ReadSubsections(subs + sections)
    {
      byName := byName0;
      var j := 0;
      assert subs + sections[..0] == subs;
      while j < |sections|
        invariant 0 <= j <= |sections|
        invariant byName == ReadSubsections(subs + sections[..j])
      {
        var sub := sections[j];
        ReadSubsectionsStep(subs, sections, j);
        var entry := if sub.name in byName then byName[sub.name] else map[];
        byName := byName[sub.name := entry + DictOf(sub.attributes)];
        j := j + 1;
      }
      assert subs + sections[..j] == subs + sections;
    }

    /** The attributes and subsections of the device sections, read in
        document order. */
    method ReadDevices(devices: seq<Section>)
      returns (model: Option<string>, generic: map<string, string>, byName: map<string, map<string, string>>)
      ensures model == LastValue(AllAttributes(devices), "model")
      ensures generic == ReadGenericOptions(AllAttributes(devices))
      ensures byName == ReadSubsections(Children(devices))
    {
      model, generic, byName := None, map[], map[];
      var i := 0;
      while i < |devices|
        invariant 0 <= i <= |devices|
        invariant model == LastValue(AllAttributes(devices[..i]), "model")
        invariant generic == ReadGenericOptions(AllAttributes(devices[..i]))
        invariant byName == ReadSubsections(Children(devices[..i]))
      {
        var device := devices[i];
        model, generic := ReadDeviceAttributes(model, generic, AllAttributes(devices[..i]), device.attributes);
        byName := ReadDeviceSubsections(byName, Children(devices[..i]), device.sections);
        AllAttributesSnoc(devices, i);
        ChildrenSnoc(devices, i);
        i := i + 1;
      }
      assert devices[..i] == devices;
    }

    /** `get_quorum_device_settings()` */
    method GetQuorumDeviceSettings() returns (settings: DeviceSettings)
      ensures settings == QuorumDeviceSettings(config)
    {
      var devices := DeviceSectionsIn();
      var model, generic, byName := ReadDevices(devices);
      ReadGenericOptionsMeaning(AllAttributes(devices));
      var modelOptions: map<string, string> := map[];
      if model.Some? {
        ModelOptionsRead(config, model.value, byName);
        if model.value in byName {
          modelOptions := byName[model.value];
        }
      }
      settings := DeviceSettings(model, modelOptions, generic);
    }

    /* -------------------------------------------------------------------
       __set_section_options, __ensure_section, __remove_empty_sections
       ------------------------------------------------------------------- */

    /** `for name in options: section.del_attributes_by_name(name)` */
    method DelAttributes(section: Section, keys: set<string>) returns (r: Section)
      ensures r == section.(attributes := Drop(section.attributes, keys))
    {
      r := section;
      var pending := keys;
      DropNothing(section.attributes);
      assert keys - pending == {};
      while pending != {}
        invariant pending <= keys
        invariant r == section.(attributes := Drop(section.attributes, keys - pending))
        decreases |pending|
      {
        var name :| name in pending;
        DropDrop(section.attributes, keys - pending, {name});
        r := DelAttributesByName(r, name);
        assert keys - pending + {name} == keys - (pending - {name});
        pending := pending - {name};
      }
      assert keys - {} == keys;
    }

    /** The options, in the order of `names`, deleted from the section when
        their value is "" and set on it otherwise. */
    method ApplyOptionsTo(section: Section, names: seq<string>, options: map<string, string>) returns (r: Section)
      requires forall n :: n in names ==> n in options
      ensures r == section.(attributes := ApplyOptions(section.attributes, names, options))
    {
      r := section;
      var k := 0;
      while k < |names|
        invariant 0 <= k <= |names|
        invariant r.name == section.name && r.sections == section.sections
        invariant ApplyOptions(r.attributes, names[k..], options) == ApplyOptions(section.attributes, names, options)
      {
        assert names[k..][1..] == names[k + 1..];
        var name := names[k];
        if options[name] == "" {
          r := DelAttributesByName(r, name);
        } else {
          r := SetAttribute(r, name, options[name]);
        }
        k := k + 1;
      }
    }

    /** `__set_section_options`: every section but the last loses the
        submitted keys; then the options, in sorted order, are deleted from
        or set on the last section. */
    method SetSectionOptionsIn(ss: seq<Section>, options: map<string, string>) returns (r: seq<Section>)
      requires ss != [] || options == map[]
      ensures r == SetSectionOptions(ss, options)
    {
      r := ss;
      var i := 0;
      while i < |ss| - 1
        invariant 0 <= i <= |ss| && |r| == |ss|
        invariant forall j :: 0 <= j < i ==> r[j] == ss[j].(attributes := Drop(ss[j].attributes, options.Keys))
        invariant forall j :: i <= j < |ss| ==> r[j] == ss[j]
      {
        var section := DelAttributes(ss[i], options.Keys);
        r := r[i := section];
        i := i + 1;
      }
      if ss != [] {
        var last := ApplyOptionsTo(ss[|ss| - 1], SortedKeys(options.Keys), options);
        r := r[|ss| - 1 := last];
      }
    }

    /** `__ensure_section(self.config, "quorum")` */
    method EnsureQuorumSection()
      modifies this
      ensures config == EnsureSection(old(config), "quorum")
    {
      var quorums := GetSections(config, "quorum");
      if quorums == [] {
        config := AddSection(config, Section("quorum", [], []));
      }
    }

    /** `__remove_empty_sections` part way through the children of `s`: the
        first `i` have been cleaned, and those left are `kept`, followed by
        the children not yet visited. */
    ghost predicate CleanedUpTo(s: Section, i: int, kept: seq<Section>, r: Section) {
      && 0 <= i <= |s.sections|
      && r.name == s.name && r.attributes == s.attributes
      && r.sections == kept + s.sections[i..]
      && kept + PruneList(s.sections[i..]) == PruneList(s.sections)
    }

    /** One child more: cleaned in place, then deleted when it has become
        empty. */
    lemma CleanedStep(s: Section, i: int, kept: seq<Section>, r: Section, child: Section)
      requires CleanedUpTo(s, i, kept, r) && i < |s.sections| && child == Prune(s.sections[i])
      ensures |kept| < |r.sections|
      ensures var cleaned := r.(sections := r.sections[|kept| := child]);
        var next := if Empty(child) then DelSection(cleaned, |kept|) else cleaned;
        CleanedUpTo(s, i + 1, if Empty(child) then kept else kept + [child], next)
    {
      ReplacedChild(s, i, kept, r, child);
      PruneListStep(s.sections, i, kept);
    }

    lemma ReplacedChild(s: Section, i: int, kept: seq<Section>, r: Section, child: Section)
      requires 0 <= i < |s.sections|
      requires r.name == s.name && r.attributes == s.attributes && r.sections == kept + s.sections[i..]
      ensures var cleaned := r.(sections := r.sections[|kept| := child]);
        var next := if Empty(child) then DelSection(cleaned, |kept|) else cleaned;
        && next.name == s.name && next.attributes == s.attributes
        && next.sections == (if Empty(child) then kept else kept + [child]) + s.sections[i + 1..]
    {
      var rest := s.sections[i..];
      assert rest[1..] == s.sections[i + 1..];
      var cleaned := r.(sections := r.sections[|kept| := child]);
      assert cleaned.sections == kept + ([child] + rest[1..]);
      DelSectionStep(cleaned, kept, [child] + rest[1..], Empty(child));
    }

    /** The cleaned children kept so far, one child further. */
    lemma PruneListStep(ss: seq<Section>, i: int, kept: seq<Section>)
      requires 0 <= i < |ss| && kept + PruneList(ss[i..]) == PruneList(ss)
      ensures var child := Prune(ss[i]);
        (if Empty(child) then kept else kept + [child]) + PruneList(ss[i + 1..]) == PruneList(ss)
    {
      assert ss[i..][1..] == ss[i + 1..];
    }

    lemma CleanedAll(s: Section, kept: seq<Section>, r: Section)
      requires CleanedUpTo(s, |s.sections|, kept, r)
      ensures r == Prune(s)
    {
      assert s.sections[|s.sections|..] == [];
    }

    /** `__remove_empty_sections` below one section: children are cleaned
        first, then dropped when nothing is left in them. */
    method RemoveEmpty(s: Section) returns (r: Section)
      ensures r == Prune(s)
      decreases s
    {
      r := s;
      ghost var kept: seq<Section> := [];
      var n := 0;
      var i := 0;
      while i < |s.sections|
        invariant CleanedUpTo(s, i, kept, r) && n == |kept|
      {
        var child := RemoveEmpty(s.sections[i]);
        CleanedStep(s, i, kept, r, child);
        r := r.(sections := r.sections[n := child]);
        if Empty(child) {
          r := DelSection(r, n);
        } else {
          kept := kept + [child];
          n := n + 1;
        }
        i := i + 1;
        assert CleanedUpTo(s, i, kept, r);
      }
      CleanedAll(s, kept, r);
    }

    method RemoveEmptySections()
      modifies this
      ensures config == Prune(old(config))
    {
      config := RemoveEmpty(config);
    }

    /** `__set_section_options` on the sections found at `path`. */
    method SetSectionOptionsAt(path: seq<string>, options: map<string, string>)
      requires path != [] && (Select(config.sections, path) != [] || options == map[])
      modifies this
      ensures config == MergeAt(old(config), path, options)
    {
      var sections := Select(config.sections, path);
      var updated := SetSectionOptionsIn(sections, options);
      config := config.(sections := Replace(config.sections, path, updated));
    }

    /** `section_list[-1].add_section(child)` for the sections at `path`. */
    method AppendChildAt(path: seq<string>, child: Section)
      requires path != [] && Select(config.sections, path) != []
      modifies this
      ensures config == AppendChild(old(config), path, child)
    {
      var sections := Select(config.sections, path);
      var n := |sections|;
      var last := AddSection(sections[n - 1], child);
      config := config.(sections := Replace(config.sections, path, sections[..n - 1] + [last]));
    }

    /** `for device in quorum.get_sections("device"): quorum.del_section(device)` */
    method DelDevices(quorum: Section) returns (r: Section)
      ensures r == WithoutDevices(quorum)
    {
      var children := quorum.sections;
      r := quorum;
      ghost var kept: seq<Section> := [];
      var n := 0;
      var j := 0;
      while j < |children|
        invariant 0 <= j <= |children| && n == |kept|
        invariant kept == ChildrenNotNamed(children[..j], "device")
        invariant r.name == quorum.name && r.attributes == quorum.attributes
        invariant r.sections == kept + children[j..]
      {
        ChildrenNotNamedSnoc(children, j, "device");
        DelSectionStep(r, kept, children[j..], children[j].name == "device");
        assert children[j..][1..] == children[j + 1..];
        if children[j].name == "device" {
          r := DelSection(r, n);
        } else {
          kept := kept + [children[j]];
          n := n + 1;
        }
        j := j + 1;
      }
      assert children[..j] == children && children[j..] == [];
    }

    /** Every device section of every quorum section deleted. */
    method RemoveDevicesInPlace()
      modifies this
      ensures config == RemoveDevices(old(config))
    {
      var root := config;
      var quorums := GetSections(root, "quorum");
      assert QuorumPath == ["quorum"];
      var updated: seq<Section> := [];
      var i := 0;
      while i < |quorums|
        invariant 0 <= i <= |quorums|
        invariant updated == WithoutDevicesEach(quorums[..i])
      {
        var q := DelDevices(quorums[i]);
        WithoutDevicesSnoc(quorums, i);
        updated := updated + [q];
        i := i + 1;
      }
      assert quorums[..i] == quorums;
      config := root.(sections := Replace(root.sections, QuorumPath, updated));
    }

    /** The `auto_tie_breaker` flag `__update_two_node` reads: the last
        value found in the quorum sections, on unless it is "0". */
    method ReadAutoTieBreaker() returns (autoTieBreaker: bool)
      ensures autoTieBreaker == AutoTieBreaker(config)
    {
      var key := "auto_tie_breaker";
      var quorums := GetSections(config, "quorum");
      autoTieBreaker := false;
      var i := 0;
      while i < |quorums|
        invariant 0 <= i <= |quorums|
        invariant autoTieBreaker == TieBreakerOn(LastValue(AllAttributes(quorums[..i]), key))
      {
        var named := GetAttributes(quorums[i], key);
        autoTieBreaker := ReadTieBreakerIn(autoTieBreaker, AllAttributes(quorums[..i]), named);
        ReadSnoc(quorums, i, key);
        i := i + 1;
      }
      assert quorums[..i] == quorums;
    }

    /** `for attr in quorum.get_attributes("auto_tie_breaker"):
        auto_tie_breaker = attr[1] != "0"` after the attributes `seen`. */
    method ReadTieBreakerIn(before: bool, ghost seen: seq<Attr>, named: seq<Attr>) returns (flag: bool)
      requires before == TieBreakerOn(LastValue(seen, "auto_tie_breaker"))
      requires forall a :: a in named ==> a.key == "auto_tie_breaker"
      ensures flag == TieBreakerOn(LastValue(seen + named, "auto_tie_breaker"))
    {
      flag := before;
      var j := 0;
      assert seen + named[..0] == seen;
      while j < |named|
        invariant 0 <= j <= |named|
        invariant flag == TieBreakerOn(LastValue(seen + named[..j], "auto_tie_breaker"))
      {
        assert seen + named[..j + 1] == (seen + named[..j]) + [named[j]];
        assert named[j] in named;
        LastValueSnoc(seen + named[..j], named[j], "auto_tie_breaker");
        flag := named[j].value != "0";
        j := j + 1;
      }
      assert named[..j] == named;
    }

    /** The algorithm of one `net` section brought in line with the node
        count. */
    method FlipNet(net: Section, twoNodes: bool) returns (r: Section)
      ensures r == Flip(net, twoNodes)
    {
      var algorithm: Option<string> := None;
      var named := GetAttributes(net, "algorithm");
      assert named == AttrsNamed(net.attributes, "algorithm");
      var j := 0;
      while j < |named|
        invariant 0 <= j <= |named|
        invariant algorithm == if j == 0 then None else Some(named[j - 1].value)
      {
        algorithm := Some(named[j].value);
        j := j + 1;
      }
      r := net;
      if algorithm == Some("lms") && twoNodes {
        r := SetAttribute(net, "algorithm", "2nodelms");
      } else if algorithm == Some("2nodelms") && !twoNodes {
        r := SetAttribute(net, "algorithm", "lms");
      }
    }

    /** The qdevice algorithm step of `__update_two_node`. */
    method FlipAlgorithms(twoNodes: bool)
      modifies this
      ensures config == FlipAll(old(config), twoNodes)
    {
      var root := config;
      var nets := Select(root.sections, NetPath);
      var updated: seq<Section> := [];
      var i := 0;
      while i < |nets|
        invariant 0 <= i <= |nets|
        invariant |updated| == i && forall l :: 0 <= l < i ==> updated[l] == Flip(nets[l], twoNodes)
      {
        var net := FlipNet(nets[i], twoNodes);
        updated := updated + [net];
        i := i + 1;
      }
      assert updated == FlipEach(nets, twoNodes);
      config := root.(sections := Replace(root.sections, NetPath, updated));
    }

    /** `__update_two_node()` */
    method UpdateTwoNodeInPlace()
      modifies this
      ensures config == UpdateTwoNode(old(config))
    {
      var hasDevice := HasQuorumDevice();
      var nodes := GetNodes();
      var twoNodes := |nodes| == 2;
      var autoTieBreaker := ReadAutoTieBreaker();
      if twoNodes && !autoTieBreaker && !hasDevice {
        SetTwoNodeInPlace();
      } else {
        ClearTwoNodeInPlace();
      }
      FlipAlgorithms(twoNodes);
    }

    /** The branch of `__update_two_node()` that asks for `two_node: 1`. */
    method SetTwoNodeInPlace()
      modifies this
      ensures config == SetTwoNode(old(config))
    {
      EnsureQuorumSection();
      assert QuorumPath == ["quorum"];
      SetSectionOptionsAt(QuorumPath, map["two_node" := "1"]);
    }

    /** The branch of `__update_two_node()` that deletes `two_node` from
        every quorum section. */
    method ClearTwoNodeInPlace()
      modifies this
      ensures config == ClearTwoNode(old(config))
    {
      var root := config;
      var quorums := GetSections(root, "quorum");
      assert QuorumPath == ["quorum"];
      var updated: seq<Section> := [];
      var i := 0;
      while i < |quorums|
        invariant 0 <= i <= |quorums|
        invariant |updated| == i && forall l :: 0 <= l < i ==> updated[l] == DelAttributesByName(quorums[l], "two_node")
      {
        updated := updated + [DelAttributesByName(quorums[i], "two_node")];
        i := i + 1;
      }
      assert updated == DelEach(quorums, "two_node");
      config := root.(sections := Replace(root.sections, QuorumPath, updated));
    }

    /** The model `update_quorum_device` reads: the last `model` attribute
        of all device sections. */
    method ReadDeviceModel() returns (model: Option<string>)
      ensures model == DeviceModel(config)
    {
      var devices := DeviceSectionsIn();
      model := None;
      var i := 0;
      while i < |devices|
        invariant 0 <= i <= |devices|
        invariant model == LastValue(AllAttributes(devices[..i]), "model")
      {
        var named := GetAttributes(devices[i], "model");
        model := ReadValueIn(model, AllAttributes(devices[..i]), "model", named);
        ReadSnoc(devices, i, "model");
        i := i + 1;
      }
      assert devices[..i] == devices;
    }

    /** `for dummy_name, value in attributes: result = value` after the
        attributes `seen`, all of them named `key`. */
    method ReadValueIn(before: Option<string>, ghost seen: seq<Attr>, ghost key: string, named: seq<Attr>)
      returns (value: Option<string>)
      requires before == LastValue(seen, key)
      requires forall a :: a in named ==> a.key == key
      ensures value == LastValue(seen + named, key)
    {
      value := before;
      var j := 0;
      assert seen + named[..0] == seen;
      while j < |named|
        invariant 0 <= j <= |named|
        invariant value == LastValue(seen + named[..j], key)
      {
        assert seen + named[..j + 1] == (seen + named[..j]) + [named[j]];
        assert named[j] in named;
        LastValueSnoc(seen + named[..j], named[j], key);
        value := Some(named[j].value);
        j := j + 1;
      }
      assert named[..j] == named;
    }

    /** A section named `model` under the last device section unless some
        device already has one. */
    method EnsureModelSectionAt(model: string)
      requires DeviceSections(config) != []
      modifies this
      ensures config == EnsureModelSection(old(config), model)
    {
      var devices := DeviceSectionsIn();
      var models := SectionsBelow(devices, model);
      SelectCompose(config.sections, DevicePath, [model]);
      if models == [] {
        AppendChildAt(DevicePath, Section(model, [], []));
      }
    }

    /* -------------------------------------------------------------------
       Commands
       ------------------------------------------------------------------- */

    /** `set_quorum_options(report_processor, options)` */
    method SetQuorumOptions(options: map<string, string>) returns (outcome: Outcome)
      modifies this
      ensures CommandResult(outcome, config) == SetQuorumOptionsCommand(old(config), options)
    {
      var reports := ValidateQuorumOptions(options);
      if HasErrors(reports) {
        return Rejected(reports);
      }
      EnsureQuorumSection();
      assert QuorumPath == ["quorum"];
      SetSectionOptionsAt(QuorumPath, options);
      UpdateTwoNodeInPlace();
      RemoveEmptySections();
      outcome := Applied(reports);
    }

    /** `add_quorum_device(report_processor, model, model_options,
        generic_options, force_model, force_options)` */
    method AddQuorumDevice(model: string, modelOptions: map<string, string>, genericOptions: map<string, string>,
                           forceModel: bool, forceOptions: bool) returns (outcome: Outcome)
      modifies this
      ensures CommandResult(outcome, config) ==
        AddQuorumDeviceCommand(old(config), model, modelOptions, genericOptions, forceModel, forceOptions)
    {
      var hasDevice := HasQuorumDevice();
      if hasDevice {
        return Rejected([Blocking(QdeviceAlreadyDefined, "")]);
      }
      var nodes := GetNodes();
      var reports := ValidateModel(model, forceModel)
        + ValidateModelOptions(model, modelOptions, true, forceOptions, nodes)
        + ValidateGenericOptions(genericOptions, forceOptions);
      if HasErrors(reports) {
        return Rejected(reports);
      }
      AttachDevice(model, modelOptions, genericOptions);
      outcome := Applied(reports);
    }

    /** The part of `add_quorum_device` after validation: the cleanup, the
        new device, the two-node rule and the removal of empty sections. */
    method AttachDevice(model: string, modelOptions: map<string, string>, genericOptions: map<string, string>)
      modifies this
      ensures config == FacadeMutations.AddQuorumDevice(old(config), model, modelOptions, genericOptions)
    {
      ghost var root := config;
      // configuration cleanup
      EnsureQuorumSection();
      assert QuorumPath == ["quorum"];
      SetSectionOptionsAt(QuorumPath, CLEANUP_OPTIONS);
      RemoveDevicesInPlace();
      assert config == ClearForDevice(root);
      // the new device, built before it is attached
      var device := SetSectionOptionsIn([Section("device", [], [])], genericOptions);
      var newModel := SetSectionOptionsIn([Section(model, [], [])], modelOptions);
      var newDevice := AddSection(SetAttribute(device[0], "model", model), newModel[0]);
      AppendChildAt(QuorumPath, newDevice);
      UpdateTwoNodeInPlace();
      RemoveEmptySections();
    }

    /** `update_quorum_device(report_processor, model_options,
        generic_options, force_options)`, model options creating the model
        section when the device has none. */
    method UpdateQuorumDevice(modelOptions: map<string, string>, genericOptions: map<string, string>,
                              forceOptions: bool) returns (outcome: Outcome)
      modifies this
      ensures CommandResult(outcome, config) ==
        UpdateQuorumDeviceCommand(old(config), modelOptions, genericOptions, forceOptions)
    {
      var hasDevice := HasQuorumDevice();
      if !hasDevice {
        return Rejected([Blocking(QdeviceNotDefined, "")]);
      }
      var model := ReadDeviceModel();
      var nodes := GetNodes();
      var reports := ValidateModelOptions(model.value, modelOptions, false, forceOptions, nodes)
        + ValidateGenericOptions(genericOptions, forceOptions);
      if HasErrors(reports) {
        return Rejected(reports);
      }
      ghost var root := config;
      SetSectionOptionsAt(DevicePath, genericOptions);
      MergeAtSelect(root, DevicePath, genericOptions);
      if modelOptions != map[] {
        EnsureModelSectionAt(model.value);
      }
      SetSectionOptionsAt(DevicePath + [model.value], modelOptions);
      assert config == MergeDeviceOptions(root, model.value, modelOptions, genericOptions);
      UpdateTwoNodeInPlace();
      RemoveEmptySections();
      outcome := Applied(reports);
    }

    /** `remove_quorum_device()` */
    method RemoveQuorumDevice() returns (outcome: Outcome)
      modifies this
      ensures CommandResult(outcome, config) == RemoveQuorumDeviceCommand(old(config))
    {
      var hasDevice := HasQuorumDevice();
      if !hasDevice {
        return Rejected([Blocking(QdeviceNotDefined, "")]);
      }
      RemoveDevicesInPlace();
      UpdateTwoNodeInPlace();
      RemoveEmptySections();
      outcome := Applied([]);
    }
  }
}
