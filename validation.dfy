/** The validators of the corosync facade: they turn a proposed option
    dictionary into report items and never touch the tree. Options are
    checked in sorted name order, as `sorted(options.items())` does. */
module FacadeValidation {
  import opened Util
  import opened Reports
  import opened FacadeQueries

  const NET_REQUIRED_OPTIONS: set<string> := {"host"}
  const NET_OPTIONAL_OPTIONS: set<string> :=
    {"algorithm", "connect_timeout", "force_ip_version", "port", "tie_breaker"}
  const NET_ALLOWED_OPTIONS: set<string> := NET_REQUIRED_OPTIONS + NET_OPTIONAL_OPTIONS
  const GENERIC_OPTIONS: set<string> := {"sync_timeout", "timeout"}
  const QDEVICE_MODELS: set<string> := {"net"}

  /* ---------------------------------------------------------------------
     __validate_quorum_options
     --------------------------------------------------------------------- */

  /** The reports for one quorum option. */
  function QuorumOptionReports(name: string, value: string): seq<Report> {
    if name !in QUORUM_OPTIONS then [Blocking(InvalidOption, name)]
    else if value == "" then []
    else if name == "last_man_standing_window" then
      (if IsDigits(value) then [] else [Blocking(InvalidOptionValue, name)])
    else if value in {"0", "1"} then []
    else [Blocking(InvalidOptionValue, name)]
  }

  function QuorumCheck(options: map<string, string>): string -> seq<Report> {
    name => if name in options then QuorumOptionReports(name, options[name]) else []
  }

  function ValidateQuorumOptions(options: map<string, string>): seq<Report> {
    ConcatMap(SortedKeys(options.Keys), QuorumCheck(options))
  }

  /** What the quorum options accept, stated on its own: a known name whose
      value is empty (removal), a string of digits for the window, and "0"
      or "1" for the switches. */
  predicate QuorumOptionAcceptable(name: string, value: string) {
    && name in QUORUM_OPTIONS
    && (value == ""
        || (name == "last_man_standing_window" && IsDigits(value))
        || (name != "last_man_standing_window" && (value == "0" || value == "1")))
  }

  lemma QuorumCheckAboutItsName(options: map<string, string>)
    ensures AboutItsName(QuorumCheck(options))
  {
  }

  lemma QuorumReportsAbout(options: map<string, string>, name: string)
    ensures ReportsAbout(ValidateQuorumOptions(options), name) ==
      if name in options then QuorumOptionReports(name, options[name]) else []
  {
    var names := SortedKeys(options.Keys);
    SortedDistinct(names);
    QuorumCheckAboutItsName(options);
    ConcatMapAbout(names, QuorumCheck(options), name);
  }

  lemma QuorumOptionReportsMeaning(name: string, value: string)
    ensures QuorumOptionReports(name, value) ==
      if name !in QUORUM_OPTIONS then [Blocking(InvalidOption, name)]
      else if QuorumOptionAcceptable(name, value) then [] else [Blocking(InvalidOptionValue, name)]
  {
  }

  /** The reports about each submitted quorum option. */
  lemma QuorumOptionsReportsPerName(options: map<string, string>, name: string)
    requires name in options
    ensures name !in QUORUM_OPTIONS ==>
      ReportsAbout(ValidateQuorumOptions(options), name) == [Blocking(InvalidOption, name)]
    ensures name in QUORUM_OPTIONS ==>
      ReportsAbout(ValidateQuorumOptions(options), name) ==
        if QuorumOptionAcceptable(name, options[name]) then [] else [Blocking(InvalidOptionValue, name)]
  {
    QuorumReportsAbout(options, name);
    QuorumOptionReportsMeaning(name, options[name]);
  }

  /** `set_quorum_options` is stopped exactly when some submitted option is
      not acceptable; nothing it reports can be forced. */
  lemma QuorumOptionsGate(options: map<string, string>)
    ensures HasErrors(ValidateQuorumOptions(options)) <==>
      exists name :: name in options && !QuorumOptionAcceptable(name, options[name])
  {
    var names := SortedKeys(options.Keys);
    var check := QuorumCheck(options);
    ConcatMapHasErrors(names, check);
    if HasErrors(ValidateQuorumOptions(options)) {
      var i :| 0 <= i < |names| && HasErrors(check(names[i]));
      assert names[i] in names;
      QuorumNameErrors(options, names[i]);
    }
    if exists name :: name in options && !QuorumOptionAcceptable(name, options[name]) {
      var name :| name in options && !QuorumOptionAcceptable(name, options[name]);
      QuorumNameErrors(options, name);
      ConcatMapHasErrorsOf(names, check, name);
    }
  }

  lemma QuorumNameErrors(options: map<string, string>, name: string)
    requires name in options
    ensures HasErrors(QuorumCheck(options)(name)) <==> !QuorumOptionAcceptable(name, options[name])
  {
    QuorumOptionReportsMeaning(name, options[name]);
    var rs := QuorumCheck(options)(name);
    assert rs == QuorumOptionReports(name, options[name]);
    if rs != [] {
      assert rs[0].severity == Error;
    }
  }

  predicate Unforceable(r: Report) {
    r.severity == Error && r.forceCode == None
  }

  /** Nothing the quorum options check reports can be forced. */
  lemma QuorumOptionsUnforceable(options: map<string, string>)
    ensures forall i :: 0 <= i < |ValidateQuorumOptions(options)| ==> Unforceable(ValidateQuorumOptions(options)[i])
  {
    var check := QuorumCheck(options);
    forall name, i | 0 <= i < |check(name)|
      ensures Unforceable(check(name)[i])
    {
      QuorumOptionReportsMeaning(name, options[name]);
    }
    ConcatMapAll(SortedKeys(options.Keys), check, Unforceable);
  }

  /* ---------------------------------------------------------------------
     __validate_quorum_device_model
     --------------------------------------------------------------------- */

  function ValidateModel(model: string, forceModel: bool): seq<Report> {
    if model !in QDEVICE_MODELS then [Forceable(InvalidOptionValue, "model", forceModel, ForceQdeviceModel)]
    else []
  }

  /** Only "net" is a known model; an unknown one is a WARNING exactly when
      forced and otherwise an ERROR that names FORCE_QDEVICE_MODEL. */
  lemma ModelCheck(model: string, forceModel: bool)
    ensures ValidateModel(model, forceModel) == [] <==> model == "net"
    ensures model != "net" ==> |ValidateModel(model, forceModel)| == 1
    ensures model != "net" ==>
      (ValidateModel(model, forceModel)[0].severity == Warning <==> forceModel)
    ensures HasErrors(ValidateModel(model, forceModel)) <==> model != "net" && !forceModel
  {
  }

  /* ---------------------------------------------------------------------
     __validate_quorum_device_model_net_options
     --------------------------------------------------------------------- */

  /** The value a known net option may take, stated on its own. */
  predicate NetValueAcceptable(name: string, value: string, nodes: seq<NodeAddress>) {
    match name
    case "algorithm" => value in {"2nodelms", "ffsplit", "lms"}
    case "connect_timeout" => IsIntInRange(value, 1000, 2 * 60 * 1000)
    case "force_ip_version" => value in {"0", "4", "6"}
    case "port" => IsIntInRange(value, 1, 65535)
    case "tie_breaker" =>
      value in {"lowest", "highest"} || exists i :: 0 <= i < |nodes| && nodes[i].id == Some(value)
    case _ => true
  }

  /** The reports for one net option, as the checks run one after another. */
  function NetOptionReports(name: string, value: string, force: bool, nodes: seq<NodeAddress>): seq<Report> {
    if name !in NET_ALLOWED_OPTIONS then [Forceable(InvalidOption, name, force, ForceOptions)]
    else if value == "" && name !in NET_REQUIRED_OPTIONS then []
    else
      (if value == "" then [Blocking(RequiredOptionIsMissing, name)] else [])
      + (if NetValueAcceptable(name, value, nodes) then []
         else [Forceable(InvalidOptionValue, name, force, ForceOptions)])
  }

  function NetCheck(options: map<string, string>, force: bool, nodes: seq<NodeAddress>): string -> seq<Report> {
    name => if name in options then NetOptionReports(name, options[name], force, nodes) else []
  }

  function ValidateNetOptions(options: map<string, string>, needRequired: bool, force: bool,
                              nodes: seq<NodeAddress>): seq<Report> {
    (if needRequired && "host" !in options then [Blocking(RequiredOptionIsMissing, "host")] else [])
    + ConcatMap(SortedKeys(options.Keys), NetCheck(options, force, nodes))
  }

  /** `__validate_quorum_device_model_options`: only the "net" model has
      options that are checked. */
  function ValidateModelOptions(model: string, options: map<string, string>, needRequired: bool,
                                force: bool, nodes: seq<NodeAddress>): seq<Report> {
    if model == "net" then ValidateNetOptions(options, needRequired, force, nodes) else []
  }

  lemma NetCheckAboutItsName(options: map<string, string>, force: bool, nodes: seq<NodeAddress>)
    ensures AboutItsName(NetCheck(options, force, nodes))
  {
  }

  lemma NetReportsAbout(options: map<string, string>, needRequired: bool, force: bool,
                        nodes: seq<NodeAddress>, name: string)
    ensures ReportsAbout(ValidateNetOptions(options, needRequired, force, nodes), name) ==
      (if needRequired && "host" !in options && name == "host" then [Blocking(RequiredOptionIsMissing, "host")] else [])
      + (if name in options then NetOptionReports(name, options[name], force, nodes) else [])
  {
    var names := SortedKeys(options.Keys);
    SortedDistinct(names);
    NetCheckAboutItsName(options, force, nodes);
    var head := if needRequired && "host" !in options then [Blocking(RequiredOptionIsMissing, "host")] else [];
    HeadThenChecksAbout(head, names, NetCheck(options, force, nodes), name);
  }

  /** The value checks of the net model: a known option with a non-empty
      value is reported (once, forceably) exactly when its value is not
      acceptable (`port` in 1..65535, `connect_timeout` in 1000..120000,
      `force_ip_version` in {0,4,6}, `algorithm` in {2nodelms, ffsplit, lms},
      `tie_breaker` lowest, highest or the id of a configured node). */
  lemma NetValueChecks(options: map<string, string>, needRequired: bool, force: bool,
                       nodes: seq<NodeAddress>, name: string)
    requires name in options && name in NET_OPTIONAL_OPTIONS && options[name] != ""
    ensures ReportsAbout(ValidateNetOptions(options, needRequired, force, nodes), name) ==
      if NetValueAcceptable(name, options[name], nodes) then []
      else [Forceable(InvalidOptionValue, name, force, ForceOptions)]
  {
    NetReportsAbout(options, needRequired, force, nodes, name);
  }

  /** An unknown net option is reported once, forceably, and its value is
      not looked at. */
  lemma NetUnknownOption(options: map<string, string>, needRequired: bool, force: bool,
                         nodes: seq<NodeAddress>, name: string)
    requires name in options && name !in NET_ALLOWED_OPTIONS
    ensures ReportsAbout(ValidateNetOptions(options, needRequired, force, nodes), name) ==
      [Forceable(InvalidOption, name, force, ForceOptions)]
  {
    NetReportsAbout(options, needRequired, force, nodes, name);
  }

  /** `host` is reported missing when it is required and absent, or whenever
      it is given as "" (a required option cannot be removed). */
  lemma NetHostMissing(options: map<string, string>, needRequired: bool, force: bool, nodes: seq<NodeAddress>)
    ensures Blocking(RequiredOptionIsMissing, "host") in ValidateNetOptions(options, needRequired, force, nodes) <==>
      (needRequired && "host" !in options) || ("host" in options && options["host"] == "")
  {
    var all := ValidateNetOptions(options, needRequired, force, nodes);
    var missing := Blocking(RequiredOptionIsMissing, "host");
    var about := ReportsAbout(all, "host");
    assert about == (if needRequired && "host" !in options then [missing] else [])
                     + (if "host" in options && options["host"] == "" then [missing] else []) by {
      NetReportsAbout(options, needRequired, force, nodes, "host");
      if "host" in options {
        NetHostReports(options["host"], force, nodes);
      }
    }
    if missing in all {
      ReportsAboutHas(all, missing);
    }
    if missing in about {
      assert missing in all;
    }
  }

  /** The only report `host` can draw is that it is missing. */
  lemma NetHostReports(value: string, force: bool, nodes: seq<NodeAddress>)
    ensures NetOptionReports("host", value, force, nodes) ==
      if value == "" then [Blocking(RequiredOptionIsMissing, "host")] else []
  {
    assert NetValueAcceptable("host", value, nodes);
  }

  predicate MissingOnlyHost(r: Report) {
    r.kind == RequiredOptionIsMissing ==> r == Blocking(RequiredOptionIsMissing, "host")
  }

  lemma NetOptionMissingOnlyHost(name: string, value: string, force: bool, nodes: seq<NodeAddress>)
    ensures forall i :: 0 <= i < |NetOptionReports(name, value, force, nodes)| ==>
      MissingOnlyHost(NetOptionReports(name, value, force, nodes)[i])
  {
  }

  /** No option but `host` is ever reported missing by the net model. */
  lemma NetMissingOnlyHost(options: map<string, string>, needRequired: bool, force: bool, nodes: seq<NodeAddress>)
    ensures forall i :: 0 <= i < |ValidateNetOptions(options, needRequired, force, nodes)| ==>
      MissingOnlyHost(ValidateNetOptions(options, needRequired, force, nodes)[i])
  {
    var names := SortedKeys(options.Keys);
    var check := NetCheck(options, force, nodes);
    var head := if needRequired && "host" !in options then [Blocking(RequiredOptionIsMissing, "host")] else [];
    NetCheckMissingOnlyHost(options, force, nodes);
    ConcatMapAll(names, check, MissingOnlyHost);
    AllAppend(head, ConcatMap(names, check), MissingOnlyHost);
  }

  lemma NetCheckMissingOnlyHost(options: map<string, string>, force: bool, nodes: seq<NodeAddress>)
    ensures var check := NetCheck(options, force, nodes);
      forall name, i :: 0 <= i < |check(name)| ==> MissingOnlyHost(check(name)[i])
  {
    var check := NetCheck(options, force, nodes);
    forall name, i | 0 <= i < |check(name)|
      ensures MissingOnlyHost(check(name)[i])
    {
      NetOptionMissingOnlyHost(name, options[name], force, nodes);
    }
  }

  lemma {:induction false} ReportsAboutHas(rs: seq<Report>, r: Report)
    requires r in rs
    ensures r in ReportsAbout(rs, r.option)
  {
    if rs[0] != r {
      ReportsAboutHas(rs[1..], r);
    }
  }

  /* ---------------------------------------------------------------------
     __validate_quorum_device_generic_options
     --------------------------------------------------------------------- */

  /** The reports for one generic device option. `model` has its own
      argument and is never allowed here, not even by force. */
  function GenericOptionReports(name: string, value: string, force: bool): seq<Report> {
    if name !in GENERIC_OPTIONS then
      (if name == "model" then [Blocking(InvalidOption, name)]
       else [Forceable(InvalidOption, name, force, ForceOptions)])
    else if value == "" then []
    else if IsDigits(value) then []
    else [Forceable(InvalidOptionValue, name, force, ForceOptions)]
  }

  function GenericCheck(options: map<string, string>, force: bool): string -> seq<Report> {
    name => if name in options then GenericOptionReports(name, options[name], force) else []
  }

  function ValidateGenericOptions(options: map<string, string>, force: bool): seq<Report> {
    ConcatMap(SortedKeys(options.Keys), GenericCheck(options, force))
  }

  /** A generic option literally named `model` is an ERROR without force
      code whatever `force` says; any other unknown name and any non-digit
      value is reported forceably; known names with "" or digits pass. */
  lemma GenericReportsPerName(options: map<string, string>, force: bool, name: string)
    requires name in options
    ensures name == "model" ==>
      ReportsAbout(ValidateGenericOptions(options, force), name) == [Blocking(InvalidOption, "model")]
    ensures name != "model" && name !in GENERIC_OPTIONS ==>
      ReportsAbout(ValidateGenericOptions(options, force), name) == [Forceable(InvalidOption, name, force, ForceOptions)]
    ensures name in GENERIC_OPTIONS ==>
      ReportsAbout(ValidateGenericOptions(options, force), name) ==
        if options[name] == "" || IsDigits(options[name]) then []
        else [Forceable(InvalidOptionValue, name, force, ForceOptions)]
  {
    GenericReportsAbout(options, force, name);
  }

  lemma GenericCheckAboutItsName(options: map<string, string>, force: bool)
    ensures AboutItsName(GenericCheck(options, force))
  {
  }

  lemma GenericReportsAbout(options: map<string, string>, force: bool, name: string)
    ensures ReportsAbout(ValidateGenericOptions(options, force), name) ==
      if name in options then GenericOptionReports(name, options[name], force) else []
  {
    var names := SortedKeys(options.Keys);
    SortedDistinct(names);
    GenericCheckAboutItsName(options, force);
    ConcatMapAbout(names, GenericCheck(options, force), name);
  }

  /* ---------------------------------------------------------------------
     What `force` changes
     --------------------------------------------------------------------- */

  lemma NetOptionForced(name: string, value: string, nodes: seq<NodeAddress>)
    ensures NetOptionReports(name, value, true, nodes) == DowngradeAll(NetOptionReports(name, value, false, nodes))
  {
  }

  lemma GenericOptionForced(name: string, value: string)
    ensures GenericOptionReports(name, value, true) == DowngradeAll(GenericOptionReports(name, value, false))
  {
  }

  /** Forcing the net options changes only the reports that carry a force
      code: each becomes a WARNING without one; a missing `host` stays an
      ERROR. */
  lemma NetForceOnlyDowngrades(model: string, options: map<string, string>, needRequired: bool,
                               nodes: seq<NodeAddress>)
    ensures ValidateModelOptions(model, options, needRequired, true, nodes) ==
      DowngradeAll(ValidateModelOptions(model, options, needRequired, false, nodes))
  {
    if model == "net" {
      NetTailForced(options, nodes);
      var head := if needRequired && "host" !in options then [Blocking(RequiredOptionIsMissing, "host")] else [];
      var plain := ConcatMap(SortedKeys(options.Keys), NetCheck(options, false, nodes));
      DowngradeAllAppend(head, plain);
      assert DowngradeAll(head) == head;
    }
  }

  lemma NetTailForced(options: map<string, string>, nodes: seq<NodeAddress>)
    ensures ConcatMap(SortedKeys(options.Keys), NetCheck(options, true, nodes)) ==
      DowngradeAll(ConcatMap(SortedKeys(options.Keys), NetCheck(options, false, nodes)))
  {
    var forced, plain := NetCheck(options, true, nodes), NetCheck(options, false, nodes);
    forall name
      ensures forced(name) == DowngradeAll(plain(name))
    {
      if name in options {
        NetOptionForced(name, options[name], nodes);
      }
    }
    ConcatMapDowngrade(SortedKeys(options.Keys), forced, plain);
  }

  /** Forcing the generic options downgrades every report that carries a
      force code; a generic `model` stays an ERROR. */
  lemma GenericForceOnlyDowngrades(options: map<string, string>)
    ensures ValidateGenericOptions(options, true) == DowngradeAll(ValidateGenericOptions(options, false))
  {
    var forced, plain := GenericCheck(options, true), GenericCheck(options, false);
    forall name
      ensures forced(name) == DowngradeAll(plain(name))
    {
      if name in options {
        GenericOptionForced(name, options[name]);
      }
    }
    ConcatMapDowngrade(SortedKeys(options.Keys), forced, plain);
  }

  /** Forcing the model turns its report into a WARNING without code. */
  lemma ModelForceOnlyDowngrades(model: string)
    ensures ValidateModel(model, true) == DowngradeAll(ValidateModel(model, false))
  {
  }

  /** What a report of the device option checks looks like: without force
      an ERROR; with force no force code, and an ERROR only for the two
      reports that can never be forced. */
  predicate ForcedOk(force: bool, r: Report) {
    && (!force ==> r.severity == Error)
    && (force ==> r.forceCode == None)
    && (force && r.severity == Error ==>
          r == Blocking(RequiredOptionIsMissing, "host") || r == Blocking(InvalidOption, "model"))
  }

  lemma NetOptionForcedOk(name: string, value: string, force: bool, nodes: seq<NodeAddress>)
    ensures forall i :: 0 <= i < |NetOptionReports(name, value, force, nodes)| ==>
      ForcedOk(force, NetOptionReports(name, value, force, nodes)[i])
  {
  }

  lemma GenericOptionForcedOk(name: string, value: string, force: bool)
    ensures forall i :: 0 <= i < |GenericOptionReports(name, value, force)| ==>
      ForcedOk(force, GenericOptionReports(name, value, force)[i])
  {
  }

  lemma {:induction false} AllForcedOkAppend(force: bool, a: seq<Report>, b: seq<Report>)
    requires forall i :: 0 <= i < |a| ==> ForcedOk(force, a[i])
    requires forall i :: 0 <= i < |b| ==> ForcedOk(force, b[i])
    ensures forall i :: 0 <= i < |a + b| ==> ForcedOk(force, (a + b)[i])
  {
    forall i | 0 <= i < |a + b|
      ensures ForcedOk(force, (a + b)[i])
    {
      if i >= |a| {
        assert (a + b)[i] == b[i - |a|];
      }
    }
  }

  lemma NetForcedOk(options: map<string, string>, needRequired: bool, force: bool, nodes: seq<NodeAddress>)
    ensures forall i :: 0 <= i < |ValidateNetOptions(options, needRequired, force, nodes)| ==>
      ForcedOk(force, ValidateNetOptions(options, needRequired, force, nodes)[i])
  {
    var net := NetCheck(options, force, nodes);
    var ok := (r: Report) => ForcedOk(force, r);
    forall name, i | 0 <= i < |net(name)|
      ensures ok(net(name)[i])
    {
      NetOptionForcedOk(name, options[name], force, nodes);
    }
    ConcatMapAll(SortedKeys(options.Keys), net, ok);
    var head := if needRequired && "host" !in options then [Blocking(RequiredOptionIsMissing, "host")] else [];
    AllForcedOkAppend(force, head, ConcatMap(SortedKeys(options.Keys), net));
  }

  lemma GenericForcedOk(options: map<string, string>, force: bool)
    ensures forall i :: 0 <= i < |ValidateGenericOptions(options, force)| ==>
      ForcedOk(force, ValidateGenericOptions(options, force)[i])
  {
    var gen := GenericCheck(options, force);
    var ok := (r: Report) => ForcedOk(force, r);
    forall name, i | 0 <= i < |gen(name)|
      ensures ok(gen(name)[i])
    {
      GenericOptionForcedOk(name, options[name], force);
    }
    ConcatMapAll(SortedKeys(options.Keys), gen, ok);
  }

  /** Without force every report of the device option checks is an ERROR;
      with force only the reports that can never be forced stay ERRORs. */
  lemma DeviceOptionReportsForcedOk(model: string, modelOptions: map<string, string>,
                                    genericOptions: map<string, string>, needRequired: bool,
                                    force: bool, nodes: seq<NodeAddress>)
    ensures var rs := ValidateModelOptions(model, modelOptions, needRequired, force, nodes)
                      + ValidateGenericOptions(genericOptions, force);
      forall i :: 0 <= i < |rs| ==> ForcedOk(force, rs[i])
  {
    NetForcedOk(modelOptions, needRequired, force, nodes);
    GenericForcedOk(genericOptions, force);
    AllForcedOkAppend(force, ValidateModelOptions(model, modelOptions, needRequired, force, nodes),
                      ValidateGenericOptions(genericOptions, force));
  }

  /** With force the model options stop a command only for a missing or
      empty `host` of the net model. */
  lemma ForcedModelOptionsErrors(model: string, options: map<string, string>, needRequired: bool,
                                 nodes: seq<NodeAddress>)
    ensures HasErrors(ValidateModelOptions(model, options, needRequired, true, nodes)) <==>
      model == "net" && ((needRequired && "host" !in options) || ("host" in options && options["host"] == ""))
  {
    if model == "net" {
      NetHostMissing(options, needRequired, true, nodes);
      ForcedNetErrors(options, needRequired, nodes);
    }
  }

  /** With force the only ERROR the net model can report is a missing `host`. */
  lemma ForcedNetErrors(options: map<string, string>, needRequired: bool, nodes: seq<NodeAddress>)
    ensures var rs := ValidateNetOptions(options, needRequired, true, nodes);
      HasErrors(rs) <==> Blocking(RequiredOptionIsMissing, "host") in rs
  {
    NetForcedOk(options, needRequired, true, nodes);
    NetNoBlockingModel(options, needRequired, nodes);
    ForcedErrorsAreMissingHost(ValidateNetOptions(options, needRequired, true, nodes));
  }

  /** Forced reports without a blocking `model` report hold an ERROR
      exactly when `host` is reported missing. */
  lemma ForcedErrorsAreMissingHost(rs: seq<Report>)
    requires forall i :: 0 <= i < |rs| ==> ForcedOk(true, rs[i])
    requires Blocking(InvalidOption, "model") !in rs
    ensures HasErrors(rs) <==> Blocking(RequiredOptionIsMissing, "host") in rs
  {
    var host := Blocking(RequiredOptionIsMissing, "host");
    if host in rs {
      var i :| 0 <= i < |rs| && rs[i] == host;
      assert rs[i].severity == Error;
    }
    if HasErrors(rs) {
      var i :| 0 <= i < |rs| && rs[i].severity == Error;
      assert ForcedOk(true, rs[i]);
      assert rs[i] in rs;
    }
  }

  /** The net model never reports `model` as an ERROR when forced. */
  lemma NetNoBlockingModel(options: map<string, string>, needRequired: bool, nodes: seq<NodeAddress>)
    ensures Blocking(InvalidOption, "model") !in ValidateNetOptions(options, needRequired, true, nodes)
  {
    var rs := ValidateNetOptions(options, needRequired, true, nodes);
    var bad := Blocking(InvalidOption, "model");
    NetModelReports(options, needRequired, nodes);
    if bad in rs {
      ReportsAboutHas(rs, bad);
    }
  }

  /** A `model` among the net options is reported as a forced WARNING. */
  lemma NetModelReports(options: map<string, string>, needRequired: bool, nodes: seq<NodeAddress>)
    ensures ReportsAbout(ValidateNetOptions(options, needRequired, true, nodes), "model") ==
      if "model" in options then [Report(InvalidOption, "model", Warning, None)] else []
  {
    if "model" in options {
      NetUnknownOption(options, needRequired, true, nodes, "model");
    } else {
      NetReportsAbout(options, needRequired, true, nodes, "model");
    }
  }

  /** With force the generic options stop a command only when one of them
      is named `model`; without force a `model` among them stops it too. */
  lemma ForcedGenericErrors(options: map<string, string>, force: bool)
    ensures "model" in options ==> HasErrors(ValidateGenericOptions(options, force))
    ensures force ==> (HasErrors(ValidateGenericOptions(options, force)) <==> "model" in options)
  {
    var rs := ValidateGenericOptions(options, force);
    var bad := Blocking(InvalidOption, "model");
    if "model" in options {
      GenericReportsPerName(options, force, "model");
      assert bad in ReportsAbout(rs, "model");
      var i :| 0 <= i < |rs| && rs[i] == bad;
    }
    if force && HasErrors(rs) {
      var i :| 0 <= i < |rs| && rs[i].severity == Error;
      GenericForcedOk(options, force);
      assert ForcedOk(force, rs[i]);
      GenericErrorNamesModel(options, rs[i]);
    }
  }

  lemma GenericErrorNamesModel(options: map<string, string>, r: Report)
    requires r in ValidateGenericOptions(options, true)
    requires r == Blocking(RequiredOptionIsMissing, "host") || r == Blocking(InvalidOption, "model")
    ensures "model" in options
  {
    var rs := ValidateGenericOptions(options, true);
    ReportsAboutHas(rs, r);
    GenericReportsAbout(options, true, r.option);
  }
}
