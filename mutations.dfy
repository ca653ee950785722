/** What the mutating operations of the corosync facade do to the section
    tree, stated as functions of the tree before the call. The methods of
    `ConfigFacade` are proved to produce exactly these trees. */
module FacadeMutations {
  import opened Util
  import opened ConfigParser
  import opened FacadeQueries

  const NetPath: seq<string> := ["quorum", "device", "net"]

  /* ---------------------------------------------------------------------
     __set_section_options
     --------------------------------------------------------------------- */

  /** One option applied to the last section: "" deletes the key, any other
      value sets it. */
  function ApplyOption(attrs: seq<Attr>, name: string, value: string): seq<Attr> {
    if value == "" then Drop(attrs, {name}) else SetAttr(attrs, name, value)
  }

  /** The options applied one after another in the order of `names`. */
  function ApplyOptions(attrs: seq<Attr>, names: seq<string>, options: map<string, string>): seq<Attr>
    requires forall n :: n in names ==> n in options
    decreases |names|
  {
    if names == [] then attrs
    else ApplyOptions(ApplyOption(attrs, names[0], options[names[0]]), names[1..], options)
  }

  /** The attributes an option leaves behind under its own key. */
  function OptionAttrs(options: map<string, string>, k: string): seq<Attr>
    requires k in options
  {
    if options[k] == "" then [] else [Attr(k, options[k])]
  }

  /** `__set_section_options(section_list, options)`: every section but the
      last loses the submitted keys; the last one gets the options applied
      in sorted order. An empty list with options is an IndexError in the
      source, hence the precondition. */
  function SetSectionOptions(ss: seq<Section>, options: map<string, string>): (r: seq<Section>)
    requires ss != [] || options == map[]
    ensures |r| == |ss|
    ensures forall i :: 0 <= i < |r| ==> r[i].name == ss[i].name && r[i].sections == ss[i].sections
  {
    var names := SortedKeys(options.Keys);
    seq(|ss|, i requires 0 <= i < |ss| =>
      if i < |ss| - 1 then ss[i].(attributes := Drop(ss[i].attributes, options.Keys))
      else ss[i].(attributes := ApplyOptions(ss[i].attributes, names, options)))
  }

  lemma ApplyOptionNamed(attrs: seq<Attr>, name: string, value: string, k: string)
    ensures AttrsNamed(ApplyOption(attrs, name, value), k) ==
      if k != name then AttrsNamed(attrs, k) else if value == "" then [] else [Attr(k, value)]
  {
    if value == "" {
      AttrsNamedDrop(attrs, {name}, k);
    } else if k != name {
      AttrsNamedDrop(SetAttr(attrs, name, value), {name}, k);
      AttrsNamedDrop(attrs, {name}, k);
    }
  }

  lemma {:induction false} ApplyOptionsNamed(attrs: seq<Attr>, names: seq<string>, options: map<string, string>, k: string)
    requires forall n :: n in names ==> n in options
    ensures AttrsNamed(ApplyOptions(attrs, names, options), k) ==
      if k in names then OptionAttrs(options, k) else AttrsNamed(attrs, k)
    decreases |names|
  {
    if names != [] {
      var n := names[0];
      ApplyOptionsNamed(ApplyOption(attrs, n, options[n]), names[1..], options, k);
      ApplyOptionNamed(attrs, n, options[n], k);
      assert k in names <==> k == n || k in names[1..];
    }
  }

  lemma ApplyOptionDrop(attrs: seq<Attr>, name: string, value: string, keys: set<string>)
    requires name in keys
    ensures Drop(ApplyOption(attrs, name, value), keys) == Drop(attrs, keys)
  {
    assert {name} + keys == keys;
    DropDrop(attrs, {name}, keys);
    if value != "" {
      DropDrop(SetAttr(attrs, name, value), {name}, keys);
    }
  }

  lemma {:induction false} ApplyOptionsDrop(attrs: seq<Attr>, names: seq<string>, options: map<string, string>, keys: set<string>)
    requires forall n :: n in names ==> n in options && n in keys
    ensures Drop(ApplyOptions(attrs, names, options), keys) == Drop(attrs, keys)
    decreases |names|
  {
    if names != [] {
      ApplyOptionsDrop(ApplyOption(attrs, names[0], options[names[0]]), names[1..], options, keys);
      ApplyOptionDrop(attrs, names[0], options[names[0]], keys);
    }
  }

  /** The merge rule of `__set_section_options`: no section but the last
      holds a submitted key; in the last one a key submitted as "" is absent
      and every other submitted key appears once, with the submitted value;
      attributes with other keys stay as they were, in the same order. */
  lemma SetSectionOptionsEffect(ss: seq<Section>, options: map<string, string>)
    requires ss != [] || options == map[]
    ensures var r := SetSectionOptions(ss, options);
      && (forall i, k :: 0 <= i < |r| - 1 && k in options ==> !HasKey(r[i].attributes, k))
      && (forall k :: k in options && options[k] == "" ==> !HasKey(r[|r| - 1].attributes, k))
      && (forall k :: k in options && options[k] != "" ==>
            AttrsNamed(r[|r| - 1].attributes, k) == [Attr(k, options[k])])
      && (forall i :: 0 <= i < |r| ==> Drop(r[i].attributes, options.Keys) == Drop(ss[i].attributes, options.Keys))
  {
    StrippedSections(ss, options);
    LastSectionOptions(ss, options);
    MergeKeepsOtherKeys(ss, options);
  }

  lemma StrippedSections(ss: seq<Section>, options: map<string, string>)
    requires ss != [] || options == map[]
    ensures var r := SetSectionOptions(ss, options);
      forall i, k :: 0 <= i < |r| - 1 && k in options ==> !HasKey(r[i].attributes, k)
  {
    var r := SetSectionOptions(ss, options);
    forall i, k | 0 <= i < |r| - 1 && k in options
      ensures !HasKey(r[i].attributes, k)
    {
      assert r[i].attributes == Drop(ss[i].attributes, options.Keys);
      DropMembers(ss[i].attributes, options.Keys);
    }
  }

  lemma LastSectionNamed(ss: seq<Section>, options: map<string, string>, k: string)
    requires ss != [] && k in options
    ensures AttrsNamed(SetSectionOptions(ss, options)[|ss| - 1].attributes, k) == OptionAttrs(options, k)
  {
    var names := SortedKeys(options.Keys);
    var last := ss[|ss| - 1].attributes;
    SetSectionOptionsLast(ss, options);
    assert k in names;
    ApplyOptionsNamed(last, names, options, k);
  }

  lemma SetSectionOptionsLast(ss: seq<Section>, options: map<string, string>)
    requires ss != []
    ensures SetSectionOptions(ss, options)[|ss| - 1].attributes ==
      ApplyOptions(ss[|ss| - 1].attributes, SortedKeys(options.Keys), options)
  {
  }

  lemma LastSectionOptions(ss: seq<Section>, options: map<string, string>)
    requires ss != [] || options == map[]
    ensures var r := SetSectionOptions(ss, options);
      && (forall k :: k in options && options[k] == "" ==> !HasKey(r[|r| - 1].attributes, k))
      && (forall k :: k in options && options[k] != "" ==>
            AttrsNamed(r[|r| - 1].attributes, k) == [Attr(k, options[k])])
  {
    var r := SetSectionOptions(ss, options);
    forall k | k in options
      ensures AttrsNamed(r[|r| - 1].attributes, k) == OptionAttrs(options, k)
      ensures options[k] == "" ==> !HasKey(r[|r| - 1].attributes, k)
    {
      LastSectionNamed(ss, options, k);
      HasKeyNamed(r[|r| - 1].attributes, k);
    }
  }

  lemma MergeKeepsOtherKeys(ss: seq<Section>, options: map<string, string>)
    requires ss != [] || options == map[]
    ensures var r := SetSectionOptions(ss, options);
      forall i :: 0 <= i < |r| ==> Drop(r[i].attributes, options.Keys) == Drop(ss[i].attributes, options.Keys)
  {
    var r := SetSectionOptions(ss, options);
    var names := SortedKeys(options.Keys);
    forall i | 0 <= i < |r|
      ensures Drop(r[i].attributes, options.Keys) == Drop(ss[i].attributes, options.Keys)
    {
      if i < |r| - 1 {
        assert r[i].attributes == Drop(ss[i].attributes, options.Keys);
        DropTwice(ss[i].attributes, options.Keys);
      } else {
        assert r[i].attributes == ApplyOptions(ss[i].attributes, names, options);
        ApplyOptionsDrop(ss[i].attributes, names, options, options.Keys);
      }
    }
  }

  /** Equal attributes outside a set of keys mean equal attributes under
      every key outside it. */
  lemma DropSameNamed(a: seq<Attr>, b: seq<Attr>, keys: set<string>, k: string)
    requires Drop(a, keys) == Drop(b, keys) && k !in keys
    ensures AttrsNamed(a, k) == AttrsNamed(b, k)
  {
    AttrsNamedDrop(a, keys, k);
    AttrsNamedDrop(b, keys, k);
  }

  /* ---------------------------------------------------------------------
     Keys across a list of sections
     --------------------------------------------------------------------- */

  lemma {:induction false} SameNamedAll(a: seq<Section>, b: seq<Section>, k: string)
    requires |a| == |b|
    requires forall i :: 0 <= i < |a| ==> AttrsNamed(a[i].attributes, k) == AttrsNamed(b[i].attributes, k)
    ensures AttrsNamed(AllAttributes(a), k) == AttrsNamed(AllAttributes(b), k)
  {
    if a != [] {
      SameNamedAll(a[1..], b[1..], k);
      AttrsNamedAppend(a[0].attributes, AllAttributes(a[1..]), k);
      AttrsNamedAppend(b[0].attributes, AllAttributes(b[1..]), k);
    }
  }

  lemma {:induction false} NoneNamedAll(a: seq<Section>, k: string)
    requires forall i :: 0 <= i < |a| ==> !HasKey(a[i].attributes, k)
    ensures AttrsNamed(AllAttributes(a), k) == []
  {
    if a != [] {
      NoneNamedAll(a[1..], k);
      NoKeyNamed(a[0].attributes, k);
      AttrsNamedAppend(a[0].attributes, AllAttributes(a[1..]), k);
    }
  }

  /** When only the last section holds a key, the key's attributes across
      the list are the last section's. */
  lemma OnlyLastNamed(a: seq<Section>, k: string)
    requires a != []
    requires forall i :: 0 <= i < |a| - 1 ==> !HasKey(a[i].attributes, k)
    ensures AttrsNamed(AllAttributes(a), k) == AttrsNamed(a[|a| - 1].attributes, k)
  {
    var init := a[..|a| - 1];
    assert a == init + [a[|a| - 1]];
    AllAttributesAppend(init, [a[|a| - 1]]);
    NoneNamedAll(init, k);
    AttrsNamedAppend(AllAttributes(init), a[|a| - 1].attributes, k);
    assert [a[|a| - 1]][1..] == [];
    assert AllAttributes([a[|a| - 1]]) == a[|a| - 1].attributes + [];
    assert a[|a| - 1].attributes + [] == a[|a| - 1].attributes;
    assert [] + AttrsNamed(a[|a| - 1].attributes, k) == AttrsNamed(a[|a| - 1].attributes, k);
  }

  lemma HasKeyNamed(attrs: seq<Attr>, k: string)
    ensures HasKey(attrs, k) <==> AttrsNamed(attrs, k) != []
  {
    AttrsNamedMembers(attrs, k);
    if AttrsNamed(attrs, k) != [] {
      assert AttrsNamed(attrs, k)[0] in AttrsNamed(attrs, k);
    }
  }

  /** Read back across all the merged sections, every submitted key has its
      submitted value (or none for ""), and every other key its old one. */
  lemma MergedLastValue(ss: seq<Section>, options: map<string, string>, k: string)
    requires ss != [] || options == map[]
    ensures AttrsNamed(AllAttributes(SetSectionOptions(ss, options)), k) ==
      if k in options then OptionAttrs(options, k) else AttrsNamed(AllAttributes(ss), k)
  {
    var r := SetSectionOptions(ss, options);
    SetSectionOptionsEffect(ss, options);
    if k in options {
      OnlyLastNamed(r, k);
      if options[k] == "" {
        HasKeyNamed(r[|r| - 1].attributes, k);
      }
    } else {
      forall i | 0 <= i < |r|
        ensures AttrsNamed(r[i].attributes, k) == AttrsNamed(ss[i].attributes, k)
      {
        DropSameNamed(r[i].attributes, ss[i].attributes, options.Keys, k);
      }
      SameNamedAll(r, ss, k);
    }
  }

  /* ---------------------------------------------------------------------
     Writing merged sections back into the tree
     --------------------------------------------------------------------- */

  /** `__set_section_options` on the sections that `path` selects. */
  function MergeAt(root: Section, path: seq<string>, options: map<string, string>): Section
    requires path != []
    requires Select(root.sections, path) != [] || options == map[]
  {
    root.(sections := Replace(root.sections, path, SetSectionOptions(Select(root.sections, path), options)))
  }

  lemma MergeAtSelect(root: Section, path: seq<string>, options: map<string, string>)
    requires path != []
    requires Select(root.sections, path) != [] || options == map[]
    ensures Select(MergeAt(root, path, options).sections, path) == SetSectionOptions(Select(root.sections, path), options)
  {
    SelectReplace(root.sections, path, SetSectionOptions(Select(root.sections, path), options));
  }

  lemma MergeAtBelow(root: Section, path: seq<string>, options: map<string, string>, rest: seq<string>)
    requires path != [] && rest != []
    requires Select(root.sections, path) != [] || options == map[]
    ensures Select(MergeAt(root, path, options).sections, path + rest) == Select(root.sections, path + rest)
  {
    SelectReplaceBelow(root.sections, path, SetSectionOptions(Select(root.sections, path), options), rest);
  }

  /* ---------------------------------------------------------------------
     __ensure_section
     --------------------------------------------------------------------- */

  /** `__ensure_section(root, name)`: an empty section called `name` is
      added when there is none. */
  function EnsureSection(root: Section, name: string): (r: Section)
    ensures Select(r.sections, [name]) != []
    ensures r.name == root.name && r.attributes == root.attributes
  {
    if Select(root.sections, [name]) != [] then root
    else
      var r := AddSection(root, Section(name, [], []));
      SelectAppend(root.sections, [Section(name, [], [])], [name]);
      r
  }

  /** Existing sections are kept; the only selection that can change is
      the one of `name` itself, from nothing to the new empty section. */
  lemma EnsureSectionSelect(root: Section, name: string, path: seq<string>)
    requires path != [] && path[0] == name
    ensures Select(EnsureSection(root, name).sections, path) ==
      if Select(root.sections, [name]) == [] && path == [name] then [Section(name, [], [])]
      else Select(root.sections, path)
  {
    if Select(root.sections, [name]) == [] {
      var added := Section(name, [], []);
      SelectAppend(root.sections, [added], path);
      if path != [name] {
        assert Select([added], path) == SelectIn(added, path) + [];
        assert |path| > 1;
        SelectCompose(root.sections, [name], path[1..]);
        assert [name] + path[1..] == path;
      }
      assert Select([added], [name]) == [added] + [];
    }
  }

  lemma EnsureSectionAttributes(root: Section, name: string)
    ensures AllAttributes(Select(EnsureSection(root, name).sections, [name])) == AllAttributes(Select(root.sections, [name]))
  {
    EnsureSectionSelect(root, name, [name]);
    if Select(root.sections, [name]) == [] {
      assert AllAttributes([Section(name, [], [])]) == [] + AllAttributes([]);
    }
  }

  /** Sections with the same names and attributes have the same attributes
      taken together. */
  lemma {:induction false} SameHeadsAttributes(a: seq<Section>, b: seq<Section>)
    requires SameHeads(a, b)
    ensures AllAttributes(a) == AllAttributes(b)
  {
    if a != [] {
      SameHeadsAttributes(a[1..], b[1..]);
    }
  }

  /* ---------------------------------------------------------------------
     __update_two_node
     --------------------------------------------------------------------- */

  /** The last `auto_tie_breaker` of the quorum sections, read as a flag:
      any value but "0" switches it on. */
  predicate AutoTieBreaker(root: Section) {
    TieBreakerOn(LastValue(QuorumAttributes(root), "auto_tie_breaker"))
  }

  /** The flag an `auto_tie_breaker` value gives: on unless it is "0". */
  predicate TieBreakerOn(value: Option<string>) {
    match value
    case None => false
    case Some(v) => v != "0"
  }

  /** When `two_node: 1` belongs in the quorum section. */
  predicate TwoNodeRequired(root: Section) {
    |Nodes(root)| == 2 && !AutoTieBreaker(root) && !HasQuorumDevice(root)
  }

  /** The quorum sections with `two_node` deleted from each. */
  function DelEach(ss: seq<Section>, key: string): (r: seq<Section>)
    ensures |r| == |ss|
    ensures forall i :: 0 <= i < |r| ==> r[i] == DelAttributesByName(ss[i], key)
  {
    seq(|ss|, i requires 0 <= i < |ss| => DelAttributesByName(ss[i], key))
  }

  function ClearTwoNode(root: Section): Section {
    var qs := Select(root.sections, QuorumPath);
    root.(sections := Replace(root.sections, QuorumPath, DelEach(qs, "two_node")))
  }

  function SetTwoNode(root: Section): Section {
    MergeAt(EnsureSection(root, "quorum"), QuorumPath, map["two_node" := "1"])
  }

  /** The qdevice algorithm of one `net` section after the node count is
      known: `lms` becomes `2nodelms` with two nodes, `2nodelms` becomes `lms`
      with any other number, and anything else is left alone. */
  function FlipValue(algorithm: Option<string>, twoNodes: bool): (r: Option<string>)
    ensures r.Some? <==> algorithm.Some?
  {
    if algorithm == Some("lms") && twoNodes then Some("2nodelms")
    else if algorithm == Some("2nodelms") && !twoNodes then Some("lms")
    else algorithm
  }

  /** `Flip` on one `net` section: the attribute is rewritten only when the
      value changes. */
  function Flip(net: Section, twoNodes: bool): (r: Section)
    ensures r.name == net.name && r.sections == net.sections
    ensures forall k :: k != "algorithm" ==> AttrsNamed(r.attributes, k) == AttrsNamed(net.attributes, k)
    ensures twoNodes && LastValue(net.attributes, "algorithm") == Some("lms") ==>
      AttrsNamed(r.attributes, "algorithm") == [Attr("algorithm", "2nodelms")]
    ensures !twoNodes && LastValue(net.attributes, "algorithm") == Some("2nodelms") ==>
      AttrsNamed(r.attributes, "algorithm") == [Attr("algorithm", "lms")]
    ensures LastValue(net.attributes, "algorithm") !in {Some("lms"), Some("2nodelms")} ==> r == net
  {
    var algorithm := LastValue(net.attributes, "algorithm");
    var flipped := FlipValue(algorithm, twoNodes);
    if flipped == algorithm then net else SetAttribute(net, "algorithm", flipped.value)
  }

  /** The algorithm read back from a flipped section is the flipped value. */
  lemma FlipLast(net: Section, twoNodes: bool)
    ensures LastValue(Flip(net, twoNodes).attributes, "algorithm") ==
      FlipValue(LastValue(net.attributes, "algorithm"), twoNodes)
  {
    var r := Flip(net, twoNodes);
    var algorithm := LastValue(net.attributes, "algorithm");
    if FlipValue(algorithm, twoNodes) != algorithm {
      LastValueNamed(r.attributes, "algorithm");
      var v := FlipValue(algorithm, twoNodes).value;
      assert AttrsNamed([Attr("algorithm", v)], "algorithm") == [Attr("algorithm", v)] + AttrsNamed([], "algorithm");
    }
  }

  /** After the flip the algorithm never contradicts the node count, and
      flipping again changes nothing. */
  lemma FlipSettles(net: Section, twoNodes: bool)
    ensures twoNodes ==> LastValue(Flip(net, twoNodes).attributes, "algorithm") != Some("lms")
    ensures !twoNodes ==> LastValue(Flip(net, twoNodes).attributes, "algorithm") != Some("2nodelms")
    ensures Flip(Flip(net, twoNodes), twoNodes) == Flip(net, twoNodes)
  {
    var r := Flip(net, twoNodes);
    LastValueNamed(r.attributes, "algorithm");
    LastValueNamed(net.attributes, "algorithm");
    var a := AttrsNamed(r.attributes, "algorithm");
    if a == [Attr("algorithm", "2nodelms")] || a == [Attr("algorithm", "lms")] {
      assert AttrsNamed(a, "algorithm") == [a[0]] + AttrsNamed([], "algorithm");
    }
  }

  function FlipEach(ss: seq<Section>, twoNodes: bool): (r: seq<Section>)
    ensures |r| == |ss|
    ensures forall i :: 0 <= i < |r| ==> r[i] == Flip(ss[i], twoNodes)
  {
    seq(|ss|, i requires 0 <= i < |ss| => Flip(ss[i], twoNodes))
  }

  /** Over a list of `net` sections, the last algorithm read is flipped too. */
  lemma {:induction false} FlipEachLast(ss: seq<Section>, twoNodes: bool)
    ensures LastValue(AllAttributes(FlipEach(ss, twoNodes)), "algorithm") ==
      FlipValue(LastValue(AllAttributes(ss), "algorithm"), twoNodes)
  {
    if ss != [] {
      var fs := FlipEach(ss, twoNodes);
      assert fs[1..] == FlipEach(ss[1..], twoNodes);
      FlipEachLast(ss[1..], twoNodes);
      FlipLast(ss[0], twoNodes);
      LastValueAppend(fs[0].attributes, AllAttributes(fs[1..]), "algorithm");
      LastValueAppend(ss[0].attributes, AllAttributes(ss[1..]), "algorithm");
    }
  }

  /** The model options as `__update_two_node` leaves them: only the
      `algorithm` of a `net` model follows the node count, the way `Flip`
      rewrites it. */
  function ModelOptionsFor(model: string, options: map<string, string>, twoNodes: bool): map<string, string> {
    if model == "net" && "algorithm" in options then
      options["algorithm" := FlipValue(Some(options["algorithm"]), twoNodes).value]
    else options
  }

  function FlipAll(root: Section, twoNodes: bool): Section {
    var nets := Select(root.sections, NetPath);
    root.(sections := Replace(root.sections, NetPath, FlipEach(nets, twoNodes)))
  }

  /** `__update_two_node`: first `two_node` is set on the last quorum
      section (the others lose it) or deleted everywhere, then the algorithm
      of every `quorum/device/net` section is brought in line with the node
      count. Both decisions use the state before the call. */
  function UpdateTwoNode(root: Section): Section {
    var twoNodes := |Nodes(root)| == 2;
    var r := if TwoNodeRequired(root) then SetTwoNode(root) else ClearTwoNode(root);
    FlipAll(r, twoNodes)
  }

  lemma FlipAllQuorum(root: Section, twoNodes: bool)
    ensures SameHeads(Select(FlipAll(root, twoNodes).sections, QuorumPath), Select(root.sections, QuorumPath))
    ensures SameHeads(Select(FlipAll(root, twoNodes).sections, DevicePath), Select(root.sections, DevicePath))
    ensures Select(FlipAll(root, twoNodes).sections, NetPath) == FlipEach(Select(root.sections, NetPath), twoNodes)
  {
    var news := FlipEach(Select(root.sections, NetPath), twoNodes);
    assert NetPath[..|QuorumPath|] == QuorumPath && NetPath[..|DevicePath|] == DevicePath;
    SelectReplaceAbove(root.sections, NetPath, news, QuorumPath);
    SelectReplaceAbove(root.sections, NetPath, news, DevicePath);
    SelectReplace(root.sections, NetPath, news);
  }

  lemma SetTwoNodeQuorum(root: Section)
    ensures Select(SetTwoNode(root).sections, QuorumPath) ==
      SetSectionOptions(Select(EnsureSection(root, "quorum").sections, QuorumPath), map["two_node" := "1"])
    ensures forall k :: k != "two_node" ==>
      AttrsNamed(QuorumAttributes(SetTwoNode(root)), k) == AttrsNamed(QuorumAttributes(root), k)
  {
    var e := EnsureSection(root, "quorum");
    var o := map["two_node" := "1"];
    MergeAtSelect(e, QuorumPath, o);
    EnsureSectionAttributes(root, "quorum");
    forall k | k != "two_node"
      ensures AttrsNamed(QuorumAttributes(SetTwoNode(root)), k) == AttrsNamed(QuorumAttributes(root), k)
    {
      MergedLastValue(Select(e.sections, QuorumPath), o, k);
    }
  }

  lemma ClearTwoNodeQuorum(root: Section)
    ensures Select(ClearTwoNode(root).sections, QuorumPath) == DelEach(Select(root.sections, QuorumPath), "two_node")
    ensures forall k :: k != "two_node" ==>
      AttrsNamed(QuorumAttributes(ClearTwoNode(root)), k) == AttrsNamed(QuorumAttributes(root), k)
  {
    var qs := Select(root.sections, QuorumPath);
    SelectReplace(root.sections, QuorumPath, DelEach(qs, "two_node"));
    forall k | k != "two_node"
      ensures AttrsNamed(QuorumAttributes(ClearTwoNode(root)), k) == AttrsNamed(QuorumAttributes(root), k)
    {
      SameNamedAll(DelEach(qs, "two_node"), qs, k);
    }
  }

  /** Neither way of setting `two_node` touches anything below the quorum
      sections. */
  lemma TwoNodeStepBelow(root: Section, rest: seq<string>)
    requires rest != []
    ensures Select(SetTwoNode(root).sections, QuorumPath + rest) == Select(root.sections, QuorumPath + rest)
    ensures Select(ClearTwoNode(root).sections, QuorumPath + rest) == Select(root.sections, QuorumPath + rest)
  {
    var e := EnsureSection(root, "quorum");
    MergeAtBelow(e, QuorumPath, map["two_node" := "1"], rest);
    assert (QuorumPath + rest)[0] == "quorum" && QuorumPath + rest != ["quorum"];
    EnsureSectionSelect(root, "quorum", QuorumPath + rest);
    var qs := Select(root.sections, QuorumPath);
    SelectReplaceBelow(root.sections, QuorumPath, DelEach(qs, "two_node"), rest);
  }

  /** The rule of `__update_two_node` for `two_node`: it is "1" on the last
      quorum section and absent from the others exactly when there are two
      nodes, no auto_tie_breaker and no quorum device; otherwise no quorum
      section has it. */
  lemma TwoNodeRule(root: Section)
    ensures var qs := Select(UpdateTwoNode(root).sections, QuorumPath);
      && (TwoNodeRequired(root) ==>
            && qs != []
            && AttrsNamed(qs[|qs| - 1].attributes, "two_node") == [Attr("two_node", "1")]
            && forall i :: 0 <= i < |qs| - 1 ==> !HasKey(qs[i].attributes, "two_node"))
      && (!TwoNodeRequired(root) ==> forall i :: 0 <= i < |qs| ==> !HasKey(qs[i].attributes, "two_node"))
  {
    var twoNodes := |Nodes(root)| == 2;
    if TwoNodeRequired(root) {
      assert UpdateTwoNode(root) == FlipAll(SetTwoNode(root), twoNodes);
      TwoNodeRuleSet(root, twoNodes);
    } else {
      assert UpdateTwoNode(root) == FlipAll(ClearTwoNode(root), twoNodes);
      TwoNodeRuleClear(root, twoNodes);
    }
  }

  lemma TwoNodeRuleSet(root: Section, twoNodes: bool)
    ensures var qs := Select(FlipAll(SetTwoNode(root), twoNodes).sections, QuorumPath);
      && qs != []
      && AttrsNamed(qs[|qs| - 1].attributes, "two_node") == [Attr("two_node", "1")]
      && forall i :: 0 <= i < |qs| - 1 ==> !HasKey(qs[i].attributes, "two_node")
  {
    var r := SetTwoNode(root);
    FlipAllQuorum(r, twoNodes);
    var qs := Select(FlipAll(r, twoNodes).sections, QuorumPath);
    var qr := Select(r.sections, QuorumPath);
    assert SameHeads(qs, qr);
    var o := map["two_node" := "1"];
    SetTwoNodeQuorum(root);
    var qe := Select(EnsureSection(root, "quorum").sections, QuorumPath);
    assert qr == SetSectionOptions(qe, o);
    SetSectionOptionsEffect(qe, o);
    assert "two_node" in o && o["two_node"] == "1";
    var n := |qr| - 1;
    assert AttrsNamed(qr[n].attributes, "two_node") == [Attr("two_node", "1")];
    assert qs[n].attributes == qr[n].attributes;
    forall i | 0 <= i < n
      ensures !HasKey(qs[i].attributes, "two_node")
    {
      assert qs[i].attributes == qr[i].attributes;
    }
  }

  lemma TwoNodeRuleClear(root: Section, twoNodes: bool)
    ensures var qs := Select(FlipAll(ClearTwoNode(root), twoNodes).sections, QuorumPath);
      forall i :: 0 <= i < |qs| ==> !HasKey(qs[i].attributes, "two_node")
  {
    var r := ClearTwoNode(root);
    FlipAllQuorum(r, twoNodes);
    var qs := Select(FlipAll(r, twoNodes).sections, QuorumPath);
    var qr := Select(r.sections, QuorumPath);
    ClearTwoNodeQuorum(root);
    forall i | 0 <= i < |qs|
      ensures !HasKey(qs[i].attributes, "two_node")
    {
      assert qs[i].attributes == qr[i].attributes;
    }
  }

  /** `__update_two_node` changes no quorum attribute but `two_node`. */
  lemma UpdateTwoNodeQuorumAttributes(root: Section, k: string)
    requires k != "two_node"
    ensures AttrsNamed(QuorumAttributes(UpdateTwoNode(root)), k) == AttrsNamed(QuorumAttributes(root), k)
  {
    var twoNodes := |Nodes(root)| == 2;
    var r := if TwoNodeRequired(root) then SetTwoNode(root) else ClearTwoNode(root);
    FlipAllQuorum(r, twoNodes);
    SameHeadsAttributes(Select(UpdateTwoNode(root).sections, QuorumPath), Select(r.sections, QuorumPath));
    SetTwoNodeQuorum(root);
    ClearTwoNodeQuorum(root);
  }

  /** The device sections keep their names and attributes, and every `net`
      section is flipped according to the node count before the call. */
  lemma UpdateTwoNodeDevices(root: Section)
    ensures SameHeads(DeviceSections(UpdateTwoNode(root)), DeviceSections(root))
    ensures Select(UpdateTwoNode(root).sections, NetPath) == FlipEach(Select(root.sections, NetPath), |Nodes(root)| == 2)
  {
    var twoNodes := |Nodes(root)| == 2;
    var r := if TwoNodeRequired(root) then SetTwoNode(root) else ClearTwoNode(root);
    assert UpdateTwoNode(root) == FlipAll(r, twoNodes);
    assert QuorumPath + ["device"] == DevicePath && QuorumPath + ["device", "net"] == NetPath;
    TwoNodeStepBelow(root, ["device"]);
    TwoNodeStepBelow(root, ["device", "net"]);
    assert Select(r.sections, DevicePath) == Select(root.sections, DevicePath);
    assert Select(r.sections, NetPath) == Select(root.sections, NetPath);
    FlipAllQuorum(r, twoNodes);
  }

  /** The quorum device survives `__update_two_node` exactly as it was. */
  lemma UpdateTwoNodeKeepsDevice(root: Section)
    ensures HasQuorumDevice(UpdateTwoNode(root)) <==> HasQuorumDevice(root)
    ensures AllAttributes(DeviceSections(UpdateTwoNode(root))) == AllAttributes(DeviceSections(root))
  {
    UpdateTwoNodeDevices(root);
    SameHeadsAttributes(DeviceSections(UpdateTwoNode(root)), DeviceSections(root));
    HasQuorumDeviceByAttributes(root);
    HasQuorumDeviceByAttributes(UpdateTwoNode(root));
  }

  /* ---------------------------------------------------------------------
     __remove_empty_sections
     --------------------------------------------------------------------- */

  /** Pruning removes only sections without attributes anywhere below them:
      every selection keeps its attributes, and nothing appears where
      nothing was. */
  lemma {:induction false} PruneSelectList(cs: seq<Section>, p: seq<string>)
    requires p != []
    ensures AllAttributes(Select(PruneList(cs), p)) == AllAttributes(Select(cs, p))
    ensures Select(cs, p) == [] ==> Select(PruneList(cs), p) == []
    decreases cs, 0
  {
    if cs != [] {
      var pc := Prune(cs[0]);
      var head := if Empty(pc) then [] else [pc];
      var tail := PruneList(cs[1..]);
      assert PruneList(cs) == head + tail;
      SelectAppend(head, tail, p);
      AllAttributesAppend(Select(head, p), Select(tail, p));
      AllAttributesAppend(SelectIn(cs[0], p), Select(cs[1..], p));
      PruneHead(cs[0], p);
      PruneSelectList(cs[1..], p);
    }
  }

  /** What the pruned first section of a list contributes to a selection. */
  lemma {:induction false} PruneHead(c: Section, p: seq<string>)
    requires p != []
    ensures var pc := Prune(c);
      var head := if Empty(pc) then [] else [pc];
      && AllAttributes(Select(head, p)) == AllAttributes(SelectIn(c, p))
      && (SelectIn(c, p) == [] ==> Select(head, p) == [])
    decreases c, 2
  {
    var pc := Prune(c);
    PruneSelectIn(c, p);
    if Empty(pc) {
      if pc.name == p[0] && |p| == 1 {
        assert SelectIn(pc, p) == [pc];
        assert AllAttributes([pc]) == pc.attributes + AllAttributes([]);
      } else {
        assert SelectIn(pc, p) == [];
      }
      assert AllAttributes(SelectIn(pc, p)) == [];
    } else {
      assert Select([pc], p) == SelectIn(pc, p) + Select([], p);
      assert SelectIn(pc, p) + [] == SelectIn(pc, p);
    }
  }

  lemma {:induction false} PruneSelectIn(c: Section, p: seq<string>)
    requires p != []
    ensures AllAttributes(SelectIn(Prune(c), p)) == AllAttributes(SelectIn(c, p))
    ensures SelectIn(c, p) == [] ==> SelectIn(Prune(c), p) == []
    decreases c, 1
  {
    if c.name == p[0] {
      if |p| == 1 {
        assert AllAttributes([c]) == c.attributes + AllAttributes([]);
        assert AllAttributes([Prune(c)]) == Prune(c).attributes + AllAttributes([]);
      } else {
        PruneSelectList(c.sections, p[1..]);
      }
    }
  }

  lemma PruneKeepsAttributes(root: Section, p: seq<string>)
    requires p != []
    ensures AllAttributes(Select(Prune(root).sections, p)) == AllAttributes(Select(root.sections, p))
    ensures Select(root.sections, p) == [] ==> Select(Prune(root).sections, p) == []
  {
    PruneSelectList(root.sections, p);
  }

  /** Where every section at `p` is empty, pruning leaves nothing at `p`. */
  lemma {:induction false} PruneBareList(cs: seq<Section>, p: seq<string>)
    requires p != [] && forall s :: s in Select(cs, p) ==> Empty(s)
    ensures Select(PruneList(cs), p) == []
    decreases cs, 0
  {
    if cs != [] {
      var pc := Prune(cs[0]);
      var head := if Empty(pc) then [] else [pc];
      assert PruneList(cs) == head + PruneList(cs[1..]);
      SelectAppend(head, PruneList(cs[1..]), p);
      PruneBareIn(cs[0], p);
      PruneBareList(cs[1..], p);
      if !Empty(pc) {
        assert Select([pc], p) == SelectIn(pc, p) + Select([], p);
      }
    }
  }

  lemma {:induction false} PruneBareIn(c: Section, p: seq<string>)
    requires p != [] && forall s :: s in SelectIn(c, p) ==> Empty(s)
    ensures Empty(Prune(c)) || SelectIn(Prune(c), p) == []
    decreases c, 1
  {
    if c.name == p[0] {
      if |p| == 1 {
        assert c in SelectIn(c, p);
      } else {
        PruneBareList(c.sections, p[1..]);
      }
    }
  }

  /* ---------------------------------------------------------------------
     Reading options back
     --------------------------------------------------------------------- */

  /** A dictionary after submitting `options`: a key submitted as "" is
      gone, any other submitted key has its new value, the rest is kept. */
  function Overlay(before: map<string, string>, options: map<string, string>): (r: map<string, string>)
    ensures forall k :: k in options && options[k] == "" ==> k !in r
    ensures forall k :: k in options && options[k] != "" ==> k in r && r[k] == options[k]
    ensures forall k :: k !in options ==> (k in r <==> k in before) && (k in before ==> r[k] == before[k])
  {
    map k | k in options.Keys + before.Keys && (if k in options then options[k] != "" else true) ::
      if k in options then options[k] else before[k]
  }

  lemma NamedSameLastValue(a: seq<Attr>, b: seq<Attr>, k: string)
    requires AttrsNamed(a, k) == AttrsNamed(b, k)
    ensures LastValue(a, k) == LastValue(b, k)
  {
    LastValueNamed(a, k);
    LastValueNamed(b, k);
  }

  lemma LastValueOfOption(a: seq<Attr>, options: map<string, string>, k: string)
    requires k in options && AttrsNamed(a, k) == OptionAttrs(options, k)
    ensures LastValue(a, k) == OptionValue(options, k)
  {
    LastValueNamed(a, k);
    if options[k] != "" {
      assert AttrsNamed([Attr(k, options[k])], k) == [Attr(k, options[k])] + AttrsNamed([], k);
    }
  }

  /** The value a submitted option leaves for its key. */
  function OptionValue(options: map<string, string>, k: string): Option<string>
    requires k in options
  {
    if options[k] == "" then None else Some(options[k])
  }

  /** Attributes whose last values follow `options` over those of `b` read
      back as `b`'s dictionary overlaid with `options`. */
  lemma DictOfOverlay(a: seq<Attr>, b: seq<Attr>, options: map<string, string>)
    requires forall k :: LastValue(a, k) == if k in options then OptionValue(options, k) else LastValue(b, k)
    ensures DictOf(a) == Overlay(DictOf(b), options)
  {
    var d, e := DictOf(a), Overlay(DictOf(b), options);
    forall k
      ensures (k in d <==> k in e) && (k in d ==> d[k] == e[k])
    {
      DictOfOverlayAt(a, b, options, k);
    }
    MapsEqual(d, e);
  }

  lemma DictOfOverlayAt(a: seq<Attr>, b: seq<Attr>, options: map<string, string>, k: string)
    requires LastValue(a, k) == if k in options then OptionValue(options, k) else LastValue(b, k)
    ensures var d, e := DictOf(a), Overlay(DictOf(b), options);
      (k in d <==> k in e) && (k in d ==> d[k] == e[k])
  {
  }

  /** The same for the quorum options of two trees. */
  lemma QuorumOptionsOverlay(r: Section, root: Section, options: map<string, string>)
    requires forall k :: k in QUORUM_OPTIONS ==>
      LastValue(QuorumAttributes(r), k) ==
        if k in options then OptionValue(options, k) else LastValue(QuorumAttributes(root), k)
    ensures QuorumOptions(r) == QuorumOnly(Overlay(QuorumOptions(root), options))
  {
    var d, e := QuorumOptions(r), QuorumOnly(Overlay(QuorumOptions(root), options));
    forall k
      ensures (k in d <==> k in e) && (k in d ==> d[k] == e[k])
    {
      if k in QUORUM_OPTIONS {
        QuorumOptionsOverlayAt(r, root, options, k);
      }
    }
    MapsEqual(d, e);
  }

  lemma QuorumOptionsOverlayAt(r: Section, root: Section, options: map<string, string>, k: string)
    requires k in QUORUM_OPTIONS
    requires LastValue(QuorumAttributes(r), k) ==
      if k in options then OptionValue(options, k) else LastValue(QuorumAttributes(root), k)
    ensures var d, e := QuorumOptions(r), QuorumOnly(Overlay(QuorumOptions(root), options));
      (k in d <==> k in e) && (k in d ==> d[k] == e[k])
  {
  }

  /* ---------------------------------------------------------------------
     set_quorum_options
     --------------------------------------------------------------------- */

  /** `set_quorum_options` once the options passed validation. */
  function SetQuorumOptions(root: Section, options: map<string, string>): (r: Section)
    ensures NoEmptyBelow(r)
  {
    var e := EnsureSection(root, "quorum");
    Prune(UpdateTwoNode(MergeAt(e, QuorumPath, options)))
  }

  /** `get_quorum_options` after `set_quorum_options`: the old options with
      the submitted ones laid over them, a "" value removing the option. */
  lemma SetQuorumOptionsResult(root: Section, options: map<string, string>)
    ensures QuorumOptions(SetQuorumOptions(root, options)) == QuorumOnly(Overlay(QuorumOptions(root), options))
  {
    var r := SetQuorumOptions(root, options);
    TwoNodeNotQuorumOption();
    forall k | k in QUORUM_OPTIONS
      ensures LastValue(QuorumAttributes(r), k) ==
        if k in options then OptionValue(options, k) else LastValue(QuorumAttributes(root), k)
    {
      SetQuorumOptionsAt(root, options, k);
    }
    QuorumOptionsOverlay(r, root, options);
  }

  lemma SetQuorumOptionsAt(root: Section, options: map<string, string>, k: string)
    requires k != "two_node"
    ensures LastValue(QuorumAttributes(SetQuorumOptions(root, options)), k) ==
      if k in options then OptionValue(options, k) else LastValue(QuorumAttributes(root), k)
  {
    var e := EnsureSection(root, "quorum");
    var m := MergeAt(e, QuorumPath, options);
    var u := UpdateTwoNode(m);
    var r := SetQuorumOptions(root, options);
    assert r == Prune(u);
    MergeAtSelect(e, QuorumPath, options);
    EnsureSectionAttributes(root, "quorum");
    PruneKeepsAttributes(u, QuorumPath);
    UpdateTwoNodeQuorumAttributes(m, k);
    MergedLastValue(Select(e.sections, QuorumPath), options, k);
    if k in options {
      LastValueOfOption(QuorumAttributes(r), options, k);
    } else {
      NamedSameLastValue(QuorumAttributes(r), QuorumAttributes(root), k);
    }
  }

  /* ---------------------------------------------------------------------
     remove_quorum_device
     --------------------------------------------------------------------- */

  /** The children not called `name`, in order. */
  function ChildrenNotNamed(cs: seq<Section>, name: string): (r: seq<Section>)
    ensures Select(r, [name]) == []
  {
    if cs == [] then []
    else
      var rest := ChildrenNotNamed(cs[1..], name);
      if cs[0].name == name then rest
      else
        assert ([cs[0]] + rest)[1..] == rest;
        [cs[0]] + rest
  }

  /** Exactly the children with another name are kept. */
  lemma {:induction false} ChildrenNotNamedMembers(cs: seq<Section>, name: string)
    ensures forall c :: c in ChildrenNotNamed(cs, name) <==> c in cs && c.name != name
  {
    if cs != [] {
      ChildrenNotNamedMembers(cs[1..], name);
      assert cs == [cs[0]] + cs[1..];
    }
  }

  lemma {:induction false} ChildrenNotNamedAppend(a: seq<Section>, b: seq<Section>, name: string)
    ensures ChildrenNotNamed(a + b, name) == ChildrenNotNamed(a, name) + ChildrenNotNamed(b, name)
  {
    if a == [] {
      assert a + b == b;
    } else {
      assert (a + b)[0] == a[0] && (a + b)[1..] == a[1..] + b;
      ChildrenNotNamedAppend(a[1..], b, name);
    }
  }

  /** One more child looked at. */
  lemma ChildrenNotNamedSnoc(cs: seq<Section>, j: int, name: string)
    requires 0 <= j < |cs|
    ensures ChildrenNotNamed(cs[..j + 1], name) ==
      ChildrenNotNamed(cs[..j], name) + if cs[j].name == name then [] else [cs[j]]
  {
    assert cs[..j + 1] == cs[..j] + [cs[j]];
    ChildrenNotNamedAppend(cs[..j], [cs[j]], name);
    assert ChildrenNotNamed([cs[j]], name) == if cs[j].name == name then [] else [cs[j]];
  }

  /** One more quorum section cleared of devices. */
  lemma WithoutDevicesSnoc(qs: seq<Section>, i: int)
    requires 0 <= i < |qs|
    ensures WithoutDevicesEach(qs[..i + 1]) == WithoutDevicesEach(qs[..i]) + [WithoutDevices(qs[i])]
  {
    var a, b := WithoutDevicesEach(qs[..i + 1]), WithoutDevicesEach(qs[..i]) + [WithoutDevices(qs[i])];
    assert |a| == |b|;
    forall l | 0 <= l < |a|
      ensures a[l] == b[l]
    {
      assert qs[..i + 1][l] == qs[l];
    }
  }

  /** A quorum section after `del_section` of each of its `device` children. */
  function WithoutDevices(q: Section): (r: Section)
    ensures r.name == q.name && r.attributes == q.attributes
    ensures Select(r.sections, ["device"]) == []
  {
    q.(sections := ChildrenNotNamed(q.sections, "device"))
  }

  function WithoutDevicesEach(qs: seq<Section>): (r: seq<Section>)
    ensures |r| == |qs| && SameHeads(r, qs)
    ensures forall i :: 0 <= i < |r| ==> r[i] == WithoutDevices(qs[i])
  {
    seq(|qs|, i requires 0 <= i < |qs| => WithoutDevices(qs[i]))
  }

  function RemoveDevices(root: Section): Section {
    var qs := Select(root.sections, QuorumPath);
    root.(sections := Replace(root.sections, QuorumPath, WithoutDevicesEach(qs)))
  }

  /** `remove_quorum_device` once a device was found. */
  function RemoveQuorumDevice(root: Section): (r: Section)
    ensures NoEmptyBelow(r)
  {
    Prune(UpdateTwoNode(RemoveDevices(root)))
  }

  lemma {:induction false} SelectBelowNone(ss: seq<Section>, rest: seq<string>)
    requires rest != []
    ensures SelectBelow(ss, rest) == [] <==> forall i :: 0 <= i < |ss| ==> Select(ss[i].sections, rest) == []
  {
    if ss != [] {
      SelectBelowNone(ss[1..], rest);
      assert forall i :: 1 <= i < |ss| ==> ss[i] == ss[1..][i - 1];
    }
  }

  lemma RemoveDevicesEffect(root: Section)
    ensures Select(RemoveDevices(root).sections, QuorumPath) == WithoutDevicesEach(Select(root.sections, QuorumPath))
    ensures DeviceSections(RemoveDevices(root)) == []
    ensures QuorumAttributes(RemoveDevices(root)) == QuorumAttributes(root)
  {
    var qs := Select(root.sections, QuorumPath);
    var ws := WithoutDevicesEach(qs);
    SelectReplace(root.sections, QuorumPath, ws);
    SelectCompose(RemoveDevices(root).sections, QuorumPath, ["device"]);
    assert QuorumPath + ["device"] == DevicePath;
    SelectBelowNone(ws, ["device"]);
    SameHeadsAttributes(ws, qs);
  }

  /** After `remove_quorum_device` no quorum section has a `device` child,
      so there is no quorum device; the quorum options are unchanged. */
  lemma RemoveQuorumDeviceResult(root: Section)
    ensures var r := RemoveQuorumDevice(root);
      && DeviceSections(r) == []
      && !HasQuorumDevice(r)
      && (forall q :: q in Select(r.sections, QuorumPath) ==> GetSections(q, "device") == [])
      && QuorumOptions(r) == QuorumOptions(root)
  {
    RemoveQuorumDeviceNoDevice(root);
    RemoveQuorumDeviceNoChild(root);
    RemoveQuorumDeviceKeepsOptions(root);
  }

  lemma RemoveQuorumDeviceNoChild(root: Section)
    ensures forall q :: q in Select(RemoveQuorumDevice(root).sections, QuorumPath) ==> GetSections(q, "device") == []
  {
    var r := RemoveQuorumDevice(root);
    var qs := Select(r.sections, QuorumPath);
    assert SelectBelow(qs, ["device"]) == [] by {
      RemoveQuorumDeviceNoDevice(root);
      SelectCompose(r.sections, QuorumPath, ["device"]);
      assert QuorumPath + ["device"] == DevicePath;
    }
    SelectBelowNone(qs, ["device"]);
    forall q | q in qs
      ensures GetSections(q, "device") == []
    {
      var i :| 0 <= i < |qs| && qs[i] == q;
    }
  }

  lemma RemoveQuorumDeviceKeepsOptions(root: Section)
    ensures QuorumOptions(RemoveQuorumDevice(root)) == QuorumOptions(root)
  {
    var r := RemoveQuorumDevice(root);
    TwoNodeNotQuorumOption();
    forall k | k in QUORUM_OPTIONS
      ensures LastValue(QuorumAttributes(r), k) == LastValue(QuorumAttributes(root), k)
    {
      RemoveQuorumDeviceAt(root, k);
    }
    QuorumOptionsOverlay(r, root, map[]);
    MapsEqual(Overlay(QuorumOptions(root), map[]), QuorumOptions(root));
    MapsEqual(QuorumOnly(QuorumOptions(root)), QuorumOptions(root));
  }

  lemma RemoveQuorumDeviceNoDevice(root: Section)
    ensures DeviceSections(RemoveQuorumDevice(root)) == []
  {
    var d := RemoveDevices(root);
    var u := UpdateTwoNode(d);
    RemoveDevicesEffect(root);
    UpdateTwoNodeDevices(d);
    PruneKeepsAttributes(u, DevicePath);
  }

  lemma RemoveQuorumDeviceAt(root: Section, k: string)
    requires k != "two_node"
    ensures LastValue(QuorumAttributes(RemoveQuorumDevice(root)), k) == LastValue(QuorumAttributes(root), k)
  {
    var d := RemoveDevices(root);
    var u := UpdateTwoNode(d);
    RemoveDevicesEffect(root);
    PruneKeepsAttributes(u, QuorumPath);
    UpdateTwoNodeQuorumAttributes(d, k);
    NamedSameLastValue(QuorumAttributes(RemoveQuorumDevice(root)), QuorumAttributes(root), k);
  }

  /* ---------------------------------------------------------------------
     add_quorum_device
     --------------------------------------------------------------------- */

  /** The quorum options `add_quorum_device` clears before adding a device. */
  const CLEANUP_OPTIONS: map<string, string> := map[
    "allow_downscale" := "", "auto_tie_breaker" := "", "last_man_standing" := "",
    "last_man_standing_window" := "", "two_node" := ""]

  /** The new `device` section: the generic options set on an empty
      section, then `model`, then a child named after the model holding the
      model options. */
  function NewDevice(model: string, modelOptions: map<string, string>, genericOptions: map<string, string>): Section {
    var d := SetSectionOptions([Section("device", [], [])], genericOptions)[0];
    var m := SetSectionOptions([Section(model, [], [])], modelOptions)[0];
    AddSection(SetAttribute(d, "model", model), m)
  }

  /** The configuration cleanup of `add_quorum_device`: a quorum section is
      ensured, the cleared options removed and every device deleted. */
  function ClearForDevice(root: Section): (r: Section)
    ensures Select(r.sections, QuorumPath) != []
  {
    var e := EnsureSection(root, "quorum");
    var c := MergeAt(e, QuorumPath, CLEANUP_OPTIONS);
    MergeAtSelect(e, QuorumPath, CLEANUP_OPTIONS);
    RemoveDevicesEffect(c);
    RemoveDevices(c)
  }

  /** `section_list[-1].add_section(child)` for the sections at `path`. */
  function AppendChild(root: Section, path: seq<string>, child: Section): Section
    requires path != [] && Select(root.sections, path) != []
  {
    var ss := Select(root.sections, path);
    var n := |ss|;
    root.(sections := Replace(root.sections, path, ss[..n - 1] + [AddSection(ss[n - 1], child)]))
  }

  /** The sections at `path` after the append: the last one gains the child,
      all keep their names and attributes. */
  lemma AppendChildHeads(root: Section, path: seq<string>, child: Section)
    requires path != [] && Select(root.sections, path) != []
    ensures var ss := Select(root.sections, path);
      Select(AppendChild(root, path, child).sections, path) == ss[..|ss| - 1] + [AddSection(ss[|ss| - 1], child)]
    ensures SameHeads(Select(AppendChild(root, path, child).sections, path), Select(root.sections, path))
  {
    var ss := Select(root.sections, path);
    var n := |ss|;
    var last := AddSection(ss[n - 1], child);
    var news := ss[..n - 1] + [last];
    forall i | 0 <= i < n
      ensures news[i].name == ss[i].name == path[|path| - 1] && news[i].attributes == ss[i].attributes
    {
      assert ss[i] in ss;
      if i < n - 1 {
        assert news[i] == ss[i];
      } else {
        assert news[i] == last;
      }
    }
    SelectReplace(root.sections, path, news);
  }

  /** Appended where no section of its name was, the child is the only one. */
  lemma AppendChildBelow(root: Section, path: seq<string>, child: Section)
    requires path != [] && Select(root.sections, path) != []
    requires Select(root.sections, path + [child.name]) == []
    ensures Select(AppendChild(root, path, child).sections, path + [child.name]) == [child]
  {
    var ss := Select(root.sections, path);
    var init, last := ss[..|ss| - 1], ss[|ss| - 1];
    assert ss == init + [last];
    AppendChildHeads(root, path, child);
    var a := AppendChild(root, path, child);
    assert Select(a.sections, path) == init + [AddSection(last, child)];
    SelectCompose(root.sections, path, [child.name]);
    SelectCompose(a.sections, path, [child.name]);
    SelectBelowAddLast(init, last, child);
  }

  /** The child added to the last of sections that had none of its name is
      the only section of that name below them. */
  lemma SelectBelowAddLast(init: seq<Section>, s: Section, child: Section)
    requires SelectBelow(init + [s], [child.name]) == []
    ensures SelectBelow(init + [AddSection(s, child)], [child.name]) == [child]
  {
    var name := child.name;
    SelectBelowAppend(init, [s], [name]);
    SelectBelowSingle(s, [name]);
    var a, b := SelectBelow(init, [name]), Select(s.sections, [name]);
    assert |a + b| == 0;
    assert a == [] && b == [];
    SelectBelowAppend(init, [AddSection(s, child)], [name]);
    SelectBelowSingle(AddSection(s, child), [name]);
    SelectAddChild(s, child);
    assert [] + ([] + [child]) == [child];
  }

  lemma SelectBelowSingle(s: Section, rest: seq<string>)
    requires rest != []
    ensures SelectBelow([s], rest) == Select(s.sections, rest)
  {
    assert SelectBelow([s], rest) == Select(s.sections, rest) + SelectBelow([], rest);
  }

  /** A child added to a section is the last of its name directly below it. */
  lemma SelectAddChild(s: Section, child: Section)
    ensures Select(AddSection(s, child).sections, [child.name]) == Select(s.sections, [child.name]) + [child]
  {
    SelectAppend(s.sections, [child], [child.name]);
    assert Select([child], [child.name]) == SelectIn(child, [child.name]) + Select([], [child.name]);
  }

  /** `add_quorum_device` once the device was found missing and the options
      passed validation. */
  function AddQuorumDevice(root: Section, model: string, modelOptions: map<string, string>,
                           genericOptions: map<string, string>): (r: Section)
    ensures NoEmptyBelow(r)
  {
    var a := AppendChild(ClearForDevice(root), QuorumPath, NewDevice(model, modelOptions, genericOptions));
    Prune(UpdateTwoNode(a))
  }

  /** Added without model options, the device keeps no section named after
      its model: the empty one built for it is pruned. */
  lemma AddWithoutModelOptions(root: Section, model: string, genericOptions: map<string, string>)
    ensures Select(AddQuorumDevice(root, model, map[], genericOptions).sections, DevicePath + [model]) == []
  {
    var a := AppendChild(ClearForDevice(root), QuorumPath, NewDevice(model, map[], genericOptions));
    AppendedModelSection(root, model, map[], genericOptions);
    BareModelSection(model);
    TwoNodeKeepsBare(a, model, SetSectionOptions([Section(model, [], [])], map[])[0]);
    PruneBareList(UpdateTwoNode(a).sections, DevicePath + [model]);
  }

  lemma BareModelSection(model: string)
    ensures Empty(SetSectionOptions([Section(model, [], [])], map[])[0])
  {
  }

  /** The two-node step leaves an empty model section alone: it has no
      algorithm to flip. */
  lemma TwoNodeKeepsBare(a: Section, model: string, m: Section)
    requires Empty(m) && Select(a.sections, DevicePath + [model]) == [m]
    ensures Select(UpdateTwoNode(a).sections, DevicePath + [model]) == [m]
  {
    UpdateTwoNodeModelSections(a, model);
    assert Flip(m, |Nodes(a)| == 2) == m;
  }

  lemma ClearForDeviceEffect(root: Section)
    ensures DeviceSections(ClearForDevice(root)) == []
    ensures forall k :: k in CLEANUP_OPTIONS ==> AttrsNamed(QuorumAttributes(ClearForDevice(root)), k) == []
    ensures forall k :: k !in CLEANUP_OPTIONS ==>
      AttrsNamed(QuorumAttributes(ClearForDevice(root)), k) == AttrsNamed(QuorumAttributes(root), k)
  {
    var e := EnsureSection(root, "quorum");
    var qs := Select(e.sections, QuorumPath);
    var c := MergeAt(e, QuorumPath, CLEANUP_OPTIONS);
    MergeAtSelect(e, QuorumPath, CLEANUP_OPTIONS);
    RemoveDevicesEffect(c);
    assert ClearForDevice(root) == RemoveDevices(c);
    assert QuorumAttributes(c) == AllAttributes(SetSectionOptions(qs, CLEANUP_OPTIONS));
    EnsureSectionAttributes(root, "quorum");
    assert AllAttributes(qs) == QuorumAttributes(root);
    forall k
      ensures AttrsNamed(QuorumAttributes(c), k) ==
        if k in CLEANUP_OPTIONS then [] else AttrsNamed(QuorumAttributes(root), k)
    {
      MergedLastValue(qs, CLEANUP_OPTIONS, k);
      if k in CLEANUP_OPTIONS {
        assert CLEANUP_OPTIONS[k] == "";
      }
    }
  }

  /** Appending the device to a tree without devices makes it the only one
      and leaves the quorum attributes alone. */
  lemma AppendDeviceEffect(root: Section, device: Section)
    requires Select(root.sections, QuorumPath) != [] && DeviceSections(root) == [] && device.name == "device"
    ensures DeviceSections(AppendChild(root, QuorumPath, device)) == [device]
    ensures QuorumAttributes(AppendChild(root, QuorumPath, device)) == QuorumAttributes(root)
  {
    assert QuorumPath + ["device"] == DevicePath;
    AppendChildBelow(root, QuorumPath, device);
    AppendChildHeads(root, QuorumPath, device);
    SameHeadsAttributes(Select(AppendChild(root, QuorumPath, device).sections, QuorumPath), Select(root.sections, QuorumPath));
  }

  lemma LastValueSingle(a: seq<Attr>, k: string, v: string)
    requires AttrsNamed(a, k) == [Attr(k, v)]
    ensures LastValue(a, k) == Some(v)
  {
  }

  lemma NewDeviceAttributes(model: string, modelOptions: map<string, string>, genericOptions: map<string, string>)
    ensures var d := NewDevice(model, modelOptions, genericOptions);
      && d.name == "device"
      && AttrsNamed(d.attributes, "model") == [Attr("model", model)]
      && forall k :: k != "model" ==>
           AttrsNamed(d.attributes, k) == if k in genericOptions then OptionAttrs(genericOptions, k) else []
  {
    var names := SortedKeys(genericOptions.Keys);
    var d := SetSectionOptions([Section("device", [], [])], genericOptions)[0];
    assert d.attributes == ApplyOptions([], names, genericOptions);
    forall k | k != "model"
      ensures AttrsNamed(d.attributes, k) == if k in genericOptions then OptionAttrs(genericOptions, k) else []
    {
      ApplyOptionsNamed([], names, genericOptions, k);
    }
  }

  /** A device appended after the cleanup is, with its attributes, the only
      device left once the two-node rule and the pruning have run. */
  lemma AddedDeviceAttributes(root: Section, device: Section)
    requires device.name == "device"
    ensures var a := AppendChild(ClearForDevice(root), QuorumPath, device);
      AllAttributes(DeviceSections(Prune(UpdateTwoNode(a)))) == device.attributes
  {
    var c := ClearForDevice(root);
    var a := AppendChild(c, QuorumPath, device);
    assert DeviceSections(c) == [] by {
      ClearForDeviceEffect(root);
    }
    assert AllAttributes(DeviceSections(a)) == device.attributes by {
      AppendDeviceEffect(c, device);
      assert AllAttributes([device]) == device.attributes + AllAttributes([]);
    }
    var u := UpdateTwoNode(a);
    UpdateTwoNodeKeepsDevice(a);
    PruneKeepsAttributes(u, DevicePath);
  }

  /** The device sections after `add_quorum_device` hold exactly the
      attributes of the new device. */
  lemma AddQuorumDeviceAttributes(root: Section, model: string, modelOptions: map<string, string>,
                                  genericOptions: map<string, string>)
    ensures AllAttributes(DeviceSections(AddQuorumDevice(root, model, modelOptions, genericOptions))) ==
      NewDevice(model, modelOptions, genericOptions).attributes
  {
    var dev := NewDevice(model, modelOptions, genericOptions);
    AddedDeviceAttributes(root, dev);
  }

  /** After `add_quorum_device` there is a quorum device with the given
      model, exactly the non-empty generic options submitted, and the
      non-empty model options submitted, with the `algorithm` of a `net`
      model adjusted to the node count. */
  lemma AddQuorumDeviceResult(root: Section, model: string, modelOptions: map<string, string>,
                              genericOptions: map<string, string>)
    ensures var r := AddQuorumDevice(root, model, modelOptions, genericOptions);
      var s := QuorumDeviceSettings(r);
      && HasQuorumDevice(r)
      && s.model == Some(model)
      && (forall k :: k != "model" ==>
            (k in s.genericOptions <==> k in genericOptions && genericOptions[k] != "")
            && (k in s.genericOptions ==> s.genericOptions[k] == genericOptions[k]))
      && s.modelOptions == ModelOptionsFor(model, Overlay(map[], modelOptions), |Nodes(root)| == 2)
  {
    var r := AddQuorumDevice(root, model, modelOptions, genericOptions);
    AddQuorumDeviceModelOptions(root, model, modelOptions, genericOptions);
    NewDeviceAttributes(model, modelOptions, genericOptions);
    AddQuorumDeviceAttributes(root, model, modelOptions, genericOptions);
    var attrs := AllAttributes(DeviceSections(r));
    LastValueSingle(attrs, "model", model);
    HasKeyNamed(attrs, "model");
    HasQuorumDeviceByAttributes(r);
    var s := QuorumDeviceSettings(r);
    forall k | k != "model"
      ensures (k in s.genericOptions <==> k in genericOptions && genericOptions[k] != "")
      ensures k in s.genericOptions ==> s.genericOptions[k] == genericOptions[k]
    {
      HasKeyNamed(attrs, k);
      if k in genericOptions {
        LastValueOfOption(attrs, genericOptions, k);
      }
    }
  }


  lemma AddQuorumDeviceQuorumAt(root: Section, model: string, modelOptions: map<string, string>,
                                 genericOptions: map<string, string>, k: string)
    ensures AttrsNamed(QuorumAttributes(AddQuorumDevice(root, model, modelOptions, genericOptions)), k) ==
      if k in CLEANUP_OPTIONS then [] else AttrsNamed(QuorumAttributes(root), k)
  {
    var dev := NewDevice(model, modelOptions, genericOptions);
    var p := ClearForDevice(root);
    var a := AppendChild(p, QuorumPath, dev);
    var u := UpdateTwoNode(a);
    NewDeviceAttributes(model, modelOptions, genericOptions);
    ClearForDeviceEffect(root);
    AppendDeviceEffect(p, dev);
    PruneKeepsAttributes(u, QuorumPath);
    if k == "two_node" {
      HasKeyNamed(DeviceSections(a)[0].attributes, "model");
      assert HasQuorumDevice(a);
      TwoNodeRule(a);
      NoneNamedAll(Select(u.sections, QuorumPath), k);
    } else {
      UpdateTwoNodeQuorumAttributes(a, k);
    }
  }

  /** `add_quorum_device` clears `allow_downscale`, `auto_tie_breaker`,
      `last_man_standing`, `last_man_standing_window` and `two_node` from
      every quorum section, and keeps the other quorum options. */
  lemma AddQuorumDeviceClearsOptions(root: Section, model: string, modelOptions: map<string, string>,
                                     genericOptions: map<string, string>)
    ensures var r := AddQuorumDevice(root, model, modelOptions, genericOptions);
      && (forall k :: k in CLEANUP_OPTIONS ==> !HasKey(QuorumAttributes(r), k))
      && (forall k :: k !in CLEANUP_OPTIONS ==> LastValue(QuorumAttributes(r), k) == LastValue(QuorumAttributes(root), k))
  {
    var r := AddQuorumDevice(root, model, modelOptions, genericOptions);
    forall k
      ensures k in CLEANUP_OPTIONS ==> !HasKey(QuorumAttributes(r), k)
      ensures k !in CLEANUP_OPTIONS ==> LastValue(QuorumAttributes(r), k) == LastValue(QuorumAttributes(root), k)
    {
      AddQuorumDeviceQuorumAt(root, model, modelOptions, genericOptions, k);
      HasKeyNamed(QuorumAttributes(r), k);
      if k !in CLEANUP_OPTIONS {
        NamedSameLastValue(QuorumAttributes(r), QuorumAttributes(root), k);
      }
    }
  }

  /** The model section of the new device holds exactly the non-empty
      model options submitted. */
  lemma NewModelSectionOptions(model: string, modelOptions: map<string, string>)
    ensures DictOf(SetSectionOptions([Section(model, [], [])], modelOptions)[0].attributes) == Overlay(map[], modelOptions)
  {
    var names := SortedKeys(modelOptions.Keys);
    var a := SetSectionOptions([Section(model, [], [])], modelOptions)[0].attributes;
    assert a == ApplyOptions([], names, modelOptions);
    forall k
      ensures LastValue(a, k) == if k in modelOptions then OptionValue(modelOptions, k) else LastValue([], k)
    {
      ApplyOptionsNamed([], names, modelOptions, k);
      if k in modelOptions {
        LastValueOfOption(a, modelOptions, k);
      } else {
        NamedSameLastValue(a, [], k);
      }
    }
    DictOfOverlay(a, [], modelOptions);
    DictOfEmpty();
  }

  lemma NewDeviceSections(model: string, modelOptions: map<string, string>, genericOptions: map<string, string>)
    ensures var dev := NewDevice(model, modelOptions, genericOptions);
      dev.name == "device" && dev.sections == [SetSectionOptions([Section(model, [], [])], modelOptions)[0]]
  {
  }

  /** A device with one child appended to a tree without devices: that
      child is the only section of its name below the devices. */
  lemma AppendedChildBelowDevice(c: Section, dev: Section, m: Section)
    requires Select(c.sections, QuorumPath) != [] && DeviceSections(c) == []
    requires dev.name == "device" && dev.sections == [m]
    ensures Select(AppendChild(c, QuorumPath, dev).sections, DevicePath + [m.name]) == [m]
  {
    var a := AppendChild(c, QuorumPath, dev);
    AppendDeviceEffect(c, dev);
    SelectCompose(a.sections, DevicePath, [m.name]);
    SelectBelowSingle(dev, [m.name]);
    assert Select([m], [m.name]) == SelectIn(m, [m.name]) + Select([], [m.name]);
  }

  /** The sections named after the model once the new device is appended:
      only the model section of the new device. */
  lemma AppendedModelSection(root: Section, model: string, modelOptions: map<string, string>,
                             genericOptions: map<string, string>)
    ensures var a := AppendChild(ClearForDevice(root), QuorumPath, NewDevice(model, modelOptions, genericOptions));
      Select(a.sections, DevicePath + [model]) == [SetSectionOptions([Section(model, [], [])], modelOptions)[0]]
  {
    var c := ClearForDevice(root);
    assert DeviceSections(c) == [] by {
      ClearForDeviceEffect(root);
    }
    NewDeviceSections(model, modelOptions, genericOptions);
    AppendedChildBelowDevice(c, NewDevice(model, modelOptions, genericOptions),
                             SetSectionOptions([Section(model, [], [])], modelOptions)[0]);
  }

  /** The two-node rule and the pruning after the device was appended, as
      seen in the model options. */
  lemma AddedModelOptions(a: Section, model: string, options: map<string, string>)
    requires DictOf(ModelAttributes(a, model)) == options
    ensures DictOf(ModelAttributes(Prune(UpdateTwoNode(a)), model)) == ModelOptionsFor(model, options, |Nodes(a)| == 2)
  {
    UpdateTwoNodeModelOptions(a, model);
    PruneKeepsAttributes(UpdateTwoNode(a), DevicePath + [model]);
  }

  lemma AppendedModelOptions(root: Section, model: string, modelOptions: map<string, string>,
                             genericOptions: map<string, string>)
    ensures var a := AppendChild(ClearForDevice(root), QuorumPath, NewDevice(model, modelOptions, genericOptions));
      DictOf(ModelAttributes(a, model)) == Overlay(map[], modelOptions)
  {
    var a := AppendChild(ClearForDevice(root), QuorumPath, NewDevice(model, modelOptions, genericOptions));
    AppendedModelSection(root, model, modelOptions, genericOptions);
    ModelAttributesSingle(a, model, SetSectionOptions([Section(model, [], [])], modelOptions)[0]);
    NewModelSectionOptions(model, modelOptions);
  }

  lemma ModelAttributesSingle(root: Section, model: string, m: Section)
    requires Select(root.sections, DevicePath + [model]) == [m]
    ensures ModelAttributes(root, model) == m.attributes
  {
    assert AllAttributes([m]) == m.attributes + AllAttributes([]);
  }

  lemma AppendedDeviceKeepsNodes(root: Section, dev: Section)
    ensures Nodes(AppendChild(ClearForDevice(root), QuorumPath, dev)) == Nodes(root)
  {
    ClearForDeviceKeepsNodes(root);
    AppendChildKeepsNodes(ClearForDevice(root), QuorumPath, dev);
  }

  /** After `add_quorum_device` the model options are exactly the non-empty
      ones submitted; for a `net` model the `algorithm` is then adjusted to
      the node count by `__update_two_node`. */
  lemma AddQuorumDeviceModelOptions(root: Section, model: string, modelOptions: map<string, string>,
                                    genericOptions: map<string, string>)
    ensures DictOf(ModelAttributes(AddQuorumDevice(root, model, modelOptions, genericOptions), model)) ==
      ModelOptionsFor(model, Overlay(map[], modelOptions), |Nodes(root)| == 2)
  {
    var dev := NewDevice(model, modelOptions, genericOptions);
    var a := AppendChild(ClearForDevice(root), QuorumPath, dev);
    AppendedModelOptions(root, model, modelOptions, genericOptions);
    AppendedDeviceKeepsNodes(root, dev);
    AddedModelOptions(a, model, Overlay(map[], modelOptions));
  }

  /* ---------------------------------------------------------------------
     The node list is not touched
     --------------------------------------------------------------------- */

  /** Writing back sections below `quorum` leaves the `nodelist` alone. */
  lemma ReplaceQuorumKeepsNodes(root: Section, path: seq<string>, news: seq<Section>)
    requires path != [] && path[0] == "quorum" && |news| == |Select(root.sections, path)|
    requires AllNamed(news, path[|path| - 1])
    ensures Nodes(root.(sections := Replace(root.sections, path, news))) == Nodes(root)
  {
    assert path[..0] == NodePath[..0] && path[0] != NodePath[0];
    SelectReplaceElsewhere(root.sections, path, news, NodePath);
  }

  lemma MergeAtKeepsNodes(root: Section, path: seq<string>, options: map<string, string>)
    requires path != [] && path[0] == "quorum"
    requires Select(root.sections, path) != [] || options == map[]
    ensures Nodes(MergeAt(root, path, options)) == Nodes(root)
  {
    var ss := Select(root.sections, path);
    var news := SetSectionOptions(ss, options);
    forall i | 0 <= i < |news|
      ensures news[i].name == path[|path| - 1]
    {
      assert ss[i] in ss;
    }
    ReplaceQuorumKeepsNodes(root, path, news);
  }

  lemma AppendChildKeepsNodes(root: Section, path: seq<string>, child: Section)
    requires path != [] && path[0] == "quorum" && Select(root.sections, path) != []
    ensures Nodes(AppendChild(root, path, child)) == Nodes(root)
  {
    var ss := Select(root.sections, path);
    var n := |ss|;
    var news := ss[..n - 1] + [AddSection(ss[n - 1], child)];
    forall i | 0 <= i < n
      ensures news[i].name == path[|path| - 1]
    {
      assert ss[i] in ss;
    }
    ReplaceQuorumKeepsNodes(root, path, news);
  }

  lemma EnsureQuorumKeepsNodes(root: Section)
    ensures Nodes(EnsureSection(root, "quorum")) == Nodes(root)
  {
    if Select(root.sections, QuorumPath) == [] {
      var q := Section("quorum", [], []);
      SelectAppend(root.sections, [q], NodePath);
      assert Select([q], NodePath) == SelectIn(q, NodePath) + Select([], NodePath);
    }
  }

  lemma RemoveDevicesKeepsNodes(root: Section)
    ensures Nodes(RemoveDevices(root)) == Nodes(root)
  {
    ReplaceQuorumKeepsNodes(root, QuorumPath, WithoutDevicesEach(Select(root.sections, QuorumPath)));
  }

  /** The cleanup of `add_quorum_device` leaves the nodes alone. */
  lemma ClearForDeviceKeepsNodes(root: Section)
    ensures Nodes(ClearForDevice(root)) == Nodes(root)
  {
    var e := EnsureSection(root, "quorum");
    EnsureQuorumKeepsNodes(root);
    MergeAtKeepsNodes(e, QuorumPath, CLEANUP_OPTIONS);
    RemoveDevicesKeepsNodes(MergeAt(e, QuorumPath, CLEANUP_OPTIONS));
  }

  /** The option merge of `update_quorum_device` leaves the nodes alone. */
  lemma MergeDeviceOptionsKeepsNodes(root: Section, model: string, modelOptions: map<string, string>,
                                     genericOptions: map<string, string>)
    requires DeviceSections(root) != []
    ensures Nodes(MergeDeviceOptions(root, model, modelOptions, genericOptions)) == Nodes(root)
  {
    var r1 := MergeAt(root, DevicePath, genericOptions);
    MergeAtKeepsNodes(root, DevicePath, genericOptions);
    MergeAtSelect(root, DevicePath, genericOptions);
    var r2 := if modelOptions == map[] then r1 else EnsureModelSection(r1, model);
    if modelOptions != map[] && Select(r1.sections, DevicePath + [model]) == [] {
      AppendChildKeepsNodes(r1, DevicePath, Section(model, [], []));
    }
    MergeAtKeepsNodes(r2, DevicePath + [model], modelOptions);
  }

  /* ---------------------------------------------------------------------
     update_quorum_device
     --------------------------------------------------------------------- */

  /** The model `update_quorum_device` reads: the last `model` attribute of
      all device sections, the same value `get_quorum_device_settings`
      reports. */
  function DeviceModel(root: Section): (r: Option<string>)
    ensures r == QuorumDeviceSettings(root).model
    ensures r.Some? <==> HasQuorumDevice(root)
  {
    HasQuorumDeviceByAttributes(root);
    LastValue(AllAttributes(DeviceSections(root)), "model")
  }

  /** The option merge of `update_quorum_device` as written: the generic
      options go to the device sections, the model options to the sections
      named after the model below them. Setting options on an empty list of
      sections raises IndexError, here None. */
  function MergeDeviceOptionsAsWritten(root: Section, model: string, modelOptions: map<string, string>,
                                       genericOptions: map<string, string>): (r: Option<Section>)
    ensures r.None? <==>
      (DeviceSections(root) == [] && genericOptions != map[]) ||
      (Select(root.sections, DevicePath + [model]) == [] && modelOptions != map[])
  {
    if DeviceSections(root) == [] && genericOptions != map[] then None
    else if Select(root.sections, DevicePath + [model]) == [] && modelOptions != map[] then None
    else
      var r1 := MergeAt(root, DevicePath, genericOptions);
      MergeAtBelow(root, DevicePath, genericOptions, [model]);
      Some(MergeAt(r1, DevicePath + [model], modelOptions))
  }

  /** A section named `model` in the last device section, added there when no
      device has one. */
  function EnsureModelSection(root: Section, model: string): (r: Section)
    requires DeviceSections(root) != []
    ensures Select(r.sections, DevicePath + [model]) != []
    ensures AllAttributes(Select(r.sections, DevicePath + [model])) == AllAttributes(Select(root.sections, DevicePath + [model]))
    ensures SameHeads(DeviceSections(r), DeviceSections(root))
  {
    if Select(root.sections, DevicePath + [model]) != [] then root
    else
      var m := Section(model, [], []);
      AppendChildBelow(root, DevicePath, m);
      AppendChildHeads(root, DevicePath, m);
      assert AllAttributes([m]) == [] + AllAttributes([]);
      AppendChild(root, DevicePath, m)
  }

  /** The option merge of `update_quorum_device` as intended: model options
      for a device without a model section create one. */
  function MergeDeviceOptions(root: Section, model: string, modelOptions: map<string, string>,
                              genericOptions: map<string, string>): Section
    requires DeviceSections(root) != []
  {
    var r1 := MergeAt(root, DevicePath, genericOptions);
    MergeAtSelect(root, DevicePath, genericOptions);
    var r2 := if modelOptions == map[] then r1 else EnsureModelSection(r1, model);
    MergeAt(r2, DevicePath + [model], modelOptions)
  }

  /** Where the source does not fail, the intended merge is the source's. */
  lemma MergeDeviceOptionsAgrees(root: Section, model: string, modelOptions: map<string, string>,
                                 genericOptions: map<string, string>)
    requires DeviceSections(root) != []
    requires MergeDeviceOptionsAsWritten(root, model, modelOptions, genericOptions).Some?
    ensures MergeDeviceOptionsAsWritten(root, model, modelOptions, genericOptions).value ==
      MergeDeviceOptions(root, model, modelOptions, genericOptions)
  {
    var r1 := MergeAt(root, DevicePath, genericOptions);
    MergeAtBelow(root, DevicePath, genericOptions, [model]);
  }

  /** The intended merge sets every submitted generic option on the device
      sections and every submitted model option on the model sections,
      removing those given as "", and keeps every other option. */
  lemma MergeDeviceOptionsResult(root: Section, model: string, modelOptions: map<string, string>,
                                 genericOptions: map<string, string>, k: string)
    requires DeviceSections(root) != []
    ensures var r := MergeDeviceOptions(root, model, modelOptions, genericOptions);
      && AttrsNamed(AllAttributes(DeviceSections(r)), k) ==
           (if k in genericOptions then OptionAttrs(genericOptions, k)
            else AttrsNamed(AllAttributes(DeviceSections(root)), k))
      && AttrsNamed(ModelAttributes(r, model), k) ==
           (if k in modelOptions then OptionAttrs(modelOptions, k)
            else AttrsNamed(ModelAttributes(root, model), k))
  {
    var r1 := MergeAt(root, DevicePath, genericOptions);
    MergeAtSelect(root, DevicePath, genericOptions);
    MergeAtBelow(root, DevicePath, genericOptions, [model]);
    assert DevicePath + [model] == ["quorum", "device", model];
    MergedLastValue(DeviceSections(root), genericOptions, k);
    var r2 := if modelOptions == map[] then r1 else EnsureModelSection(r1, model);
    assert SameHeads(DeviceSections(r2), DeviceSections(r1));
    SameHeadsAttributes(DeviceSections(r2), DeviceSections(r1));
    var p := DevicePath + [model];
    var r := MergeAt(r2, p, modelOptions);
    MergeAtSelect(r2, p, modelOptions);
    MergedLastValue(Select(r2.sections, p), modelOptions, k);
    SelectReplaceAbove(r2.sections, p, SetSectionOptions(Select(r2.sections, p), modelOptions), DevicePath);
    SameHeadsAttributes(DeviceSections(r), DeviceSections(r2));
  }

  /** `update_quorum_device` once a device was found and the options passed
      validation, with the intended merge. */
  function UpdateQuorumDevice(root: Section, modelOptions: map<string, string>,
                              genericOptions: map<string, string>): (r: Section)
    requires HasQuorumDevice(root)
    ensures NoEmptyBelow(r)
  {
    var model := DeviceModel(root).value;
    Prune(UpdateTwoNode(MergeDeviceOptions(root, model, modelOptions, genericOptions)))
  }

  lemma UpdateQuorumDeviceAt(root: Section, modelOptions: map<string, string>,
                             genericOptions: map<string, string>, k: string)
    requires HasQuorumDevice(root)
    ensures var r := UpdateQuorumDevice(root, modelOptions, genericOptions);
      AttrsNamed(AllAttributes(DeviceSections(r)), k) ==
        if k in genericOptions then OptionAttrs(genericOptions, k)
        else AttrsNamed(AllAttributes(DeviceSections(root)), k)
  {
    var model := DeviceModel(root).value;
    var m := MergeDeviceOptions(root, model, modelOptions, genericOptions);
    MergeDeviceOptionsResult(root, model, modelOptions, genericOptions, k);
    UpdateTwoNodeKeepsDevice(m);
    PruneKeepsAttributes(UpdateTwoNode(m), DevicePath);
  }

  /** After `update_quorum_device` the device keeps its model unless
      `model` was among the generic options, and its generic options are
      the old ones overlaid with the submitted ones. */
  lemma UpdateQuorumDeviceResult(root: Section, modelOptions: map<string, string>,
                                 genericOptions: map<string, string>)
    requires HasQuorumDevice(root)
    ensures var s0 := QuorumDeviceSettings(root);
      var s := QuorumDeviceSettings(UpdateQuorumDevice(root, modelOptions, genericOptions));
      && ("model" !in genericOptions ==> s.model == s0.model)
      && s.genericOptions == Overlay(s0.genericOptions, genericOptions) - {"model"}
  {
    var r := UpdateQuorumDevice(root, modelOptions, genericOptions);
    var a0, a := AllAttributes(DeviceSections(root)), AllAttributes(DeviceSections(r));
    var s0, s := QuorumDeviceSettings(root), QuorumDeviceSettings(r);
    var e := Overlay(s0.genericOptions, genericOptions) - {"model"};
    forall k
      ensures (k in s.genericOptions <==> k in e) && (k in s.genericOptions ==> s.genericOptions[k] == e[k])
      ensures k == "model" && "model" !in genericOptions ==> s.model == s0.model
    {
      UpdateQuorumDeviceAt(root, modelOptions, genericOptions, k);
      if k in genericOptions {
        LastValueOfOption(a, genericOptions, k);
      } else {
        NamedSameLastValue(a, a0, k);
      }
    }
    MapsEqual(s.genericOptions, e);
  }

  /** The flip only touches `algorithm`. */
  lemma {:induction false} FlipEachNamed(ss: seq<Section>, twoNodes: bool, k: string)
    requires k != "algorithm"
    ensures AttrsNamed(AllAttributes(FlipEach(ss, twoNodes)), k) == AttrsNamed(AllAttributes(ss), k)
  {
    if ss != [] {
      var fs := FlipEach(ss, twoNodes);
      assert fs[1..] == FlipEach(ss[1..], twoNodes);
      FlipEachNamed(ss[1..], twoNodes, k);
      AttrsNamedAppend(fs[0].attributes, AllAttributes(fs[1..]), k);
      AttrsNamedAppend(ss[0].attributes, AllAttributes(ss[1..]), k);
    }
  }

  /** The sections named after the model after `__update_two_node`: those
      of a `net` model are flipped, those of any other model are untouched. */
  lemma UpdateTwoNodeModelSections(root: Section, model: string)
    ensures var p := DevicePath + [model];
      Select(UpdateTwoNode(root).sections, p) ==
        if model == "net" then FlipEach(Select(root.sections, p), |Nodes(root)| == 2)
        else Select(root.sections, p)
  {
    var twoNodes := |Nodes(root)| == 2;
    var r := if TwoNodeRequired(root) then SetTwoNode(root) else ClearTwoNode(root);
    var p := DevicePath + [model];
    assert p == QuorumPath + ["device", model];
    TwoNodeStepBelow(root, ["device", model]);
    assert Select(r.sections, p) == Select(root.sections, p);
    if model == "net" {
      assert p == NetPath;
      FlipAllQuorum(r, twoNodes);
    } else {
      var nets := Select(r.sections, NetPath);
      var news := FlipEach(nets, twoNodes);
      forall i | 0 <= i < |news|
        ensures news[i].name == "net"
      {
        assert nets[i] in nets;
      }
      assert NetPath[..2] == p[..2] && NetPath[2] != p[2];
      SelectReplaceElsewhere(r.sections, NetPath, news, p);
    }
  }

  /** `__update_two_node` leaves every model option except `algorithm` alone. */
  lemma UpdateTwoNodeModelAttributes(root: Section, model: string, k: string)
    requires k != "algorithm"
    ensures AttrsNamed(ModelAttributes(UpdateTwoNode(root), model), k) == AttrsNamed(ModelAttributes(root, model), k)
  {
    UpdateTwoNodeModelSections(root, model);
    if model == "net" {
      FlipEachNamed(Select(root.sections, DevicePath + [model]), |Nodes(root)| == 2, k);
    }
  }

  /** The model options read back after `__update_two_node`. */
  lemma UpdateTwoNodeModelOptions(root: Section, model: string)
    ensures DictOf(ModelAttributes(UpdateTwoNode(root), model)) ==
      ModelOptionsFor(model, DictOf(ModelAttributes(root, model)), |Nodes(root)| == 2)
  {
    UpdateTwoNodeModelSections(root, model);
    if model == "net" {
      FlippedNetOptions(Select(root.sections, DevicePath + [model]), |Nodes(root)| == 2);
    }
  }

  /** The options read back from flipped `net` sections. */
  lemma FlippedNetOptions(ss: seq<Section>, twoNodes: bool)
    ensures DictOf(AllAttributes(FlipEach(ss, twoNodes))) == ModelOptionsFor("net", DictOf(AllAttributes(ss)), twoNodes)
  {
    var a0, a := AllAttributes(ss), AllAttributes(FlipEach(ss, twoNodes));
    var d, e := DictOf(a), ModelOptionsFor("net", DictOf(a0), twoNodes);
    forall k
      ensures (k in d <==> k in e) && (k in d ==> d[k] == e[k])
    {
      if k == "algorithm" {
        FlipEachLast(ss, twoNodes);
      } else {
        FlipEachNamed(ss, twoNodes, k);
        NamedSameLastValue(a, a0, k);
      }
    }
    MapsEqual(d, e);
  }

  lemma UpdateQuorumDeviceModelAt(root: Section, modelOptions: map<string, string>,
                                  genericOptions: map<string, string>, k: string)
    requires HasQuorumDevice(root) && k != "algorithm"
    ensures var model := DeviceModel(root).value;
      AttrsNamed(ModelAttributes(UpdateQuorumDevice(root, modelOptions, genericOptions), model), k) ==
        if k in modelOptions then OptionAttrs(modelOptions, k)
        else AttrsNamed(ModelAttributes(root, model), k)
  {
    var model := DeviceModel(root).value;
    var m := MergeDeviceOptions(root, model, modelOptions, genericOptions);
    MergeDeviceOptionsResult(root, model, modelOptions, genericOptions, k);
    UpdateTwoNodeModelAttributes(m, model, k);
    PruneKeepsAttributes(UpdateTwoNode(m), DevicePath + [model]);
  }

  /** The model options read back after the intended merge: the old ones
      overlaid with the submitted ones. */
  lemma MergeDeviceModelOptions(root: Section, model: string, modelOptions: map<string, string>,
                                genericOptions: map<string, string>)
    requires DeviceSections(root) != []
    ensures DictOf(ModelAttributes(MergeDeviceOptions(root, model, modelOptions, genericOptions), model)) ==
      Overlay(DictOf(ModelAttributes(root, model)), modelOptions)
  {
    var a0 := ModelAttributes(root, model);
    var a := ModelAttributes(MergeDeviceOptions(root, model, modelOptions, genericOptions), model);
    forall k
      ensures LastValue(a, k) == if k in modelOptions then OptionValue(modelOptions, k) else LastValue(a0, k)
    {
      MergeDeviceOptionsResult(root, model, modelOptions, genericOptions, k);
      if k in modelOptions {
        LastValueOfOption(a, modelOptions, k);
      } else {
        NamedSameLastValue(a, a0, k);
      }
    }
    DictOfOverlay(a, a0, modelOptions);
  }

  /** When the model is not changed, `update_quorum_device` overlays the
      model options with the submitted ones; for a `net` model the
      `algorithm` is then adjusted to the node count by `__update_two_node`. */
  lemma UpdateQuorumDeviceModelOptions(root: Section, modelOptions: map<string, string>,
                                       genericOptions: map<string, string>)
    requires HasQuorumDevice(root) && "model" !in genericOptions
    ensures var s0 := QuorumDeviceSettings(root);
      var s := QuorumDeviceSettings(UpdateQuorumDevice(root, modelOptions, genericOptions));
      s.modelOptions == ModelOptionsFor(s0.model.value, Overlay(s0.modelOptions, modelOptions), |Nodes(root)| == 2)
  {
    UpdateQuorumDeviceResult(root, modelOptions, genericOptions);
    var model := DeviceModel(root).value;
    var m := MergeDeviceOptions(root, model, modelOptions, genericOptions);
    MergeDeviceModelOptions(root, model, modelOptions, genericOptions);
    MergeDeviceOptionsKeepsNodes(root, model, modelOptions, genericOptions);
    UpdateTwoNodeModelOptions(m, model);
    PruneKeepsAttributes(UpdateTwoNode(m), DevicePath + [model]);
  }
}
