/** What the corosync facade reads out of the section tree: the node list,
    the quorum options and the quorum device settings. These functions say
    what `get_nodes`, `get_quorum_options`, `has_quorum_device` and
    `get_quorum_device_settings` compute; the methods of `ConfigFacade` that
    walk the tree with loops are proved equal to them. */
module FacadeQueries {
  import opened Util
  import opened ConfigParser

  /** `ConfigFacade.QUORUM_OPTIONS` */
  const QUORUM_OPTIONS: set<string> :=
    {"auto_tie_breaker", "last_man_standing", "last_man_standing_window", "wait_for_all"}

  /** `two_node` is not one of them: `set_quorum_options` never sets it. */
  lemma TwoNodeNotQuorumOption()
    ensures "two_node" !in QUORUM_OPTIONS
  {
    assert |"two_node"| == 8;
  }

  const QuorumPath: seq<string> := ["quorum"]
  const DevicePath: seq<string> := ["quorum", "device"]
  const NodePath: seq<string> := ["nodelist", "node"]

  /** A node of `nodelist`. How the library derives `node.id` is not part
      of this model: the id is the `nodeid` attribute. */
  datatype NodeAddress = NodeAddress(
    ring0: Option<string>, ring1: Option<string>, name: Option<string>, id: Option<string>)

  /** All attributes of a list of sections, in document order. */
  function AllAttributes(ss: seq<Section>): (r: seq<Attr>)
  {
    if ss == [] then [] else ss[0].attributes + AllAttributes(ss[1..])
  }

  lemma {:induction false} AllAttributesAppend(a: seq<Section>, b: seq<Section>)
    ensures AllAttributes(a + b) == AllAttributes(a) + AllAttributes(b)
  {
    if a == [] {
      assert a + b == b;
    } else {
      assert (a + b)[0] == a[0] && (a + b)[1..] == a[1..] + b;
      AllAttributesAppend(a[1..], b);
    }
  }

  /** The attributes of one more section. */
  lemma AllAttributesSnoc(ss: seq<Section>, i: int)
    requires 0 <= i < |ss|
    ensures AllAttributes(ss[..i + 1]) == AllAttributes(ss[..i]) + ss[i].attributes
  {
    assert ss[..i + 1] == ss[..i] + [ss[i]];
    AllAttributesAppend(ss[..i], [ss[i]]);
    assert AllAttributes([ss[i]]) == ss[i].attributes + AllAttributes([]);
    assert ss[i].attributes + [] == ss[i].attributes;
  }

  /** The keys present in a list of attributes. */
  function KeysOf(attrs: seq<Attr>): (r: set<string>)
    ensures forall k :: k in r <==> HasKey(attrs, k)
  {
    set a | a in attrs :: a.key
  }

  /** The dictionary a reader builds by walking the attributes in order and
      storing every value under its key: later values override earlier ones. */
  function DictOf(attrs: seq<Attr>): (d: map<string, string>)
    ensures forall k :: k in d <==> HasKey(attrs, k)
    ensures forall k :: k in d ==> LastValue(attrs, k) == Some(d[k])
  {
    map k | k in KeysOf(attrs) :: LastValue(attrs, k).value
  }

  /** One more attribute read: the dictionary stores its value. */
  lemma DictOfSnoc(attrs: seq<Attr>, a: Attr)
    ensures DictOf(attrs + [a]) == DictOf(attrs)[a.key := a.value]
  {
    var d1, d2 := DictOf(attrs + [a]), DictOf(attrs)[a.key := a.value];
    forall k
      ensures (k in d1 <==> k in d2) && (k in d1 ==> d1[k] == d2[k])
    {
      LastValueAppend(attrs, [a], k);
      assert AttrsNamed([a], k) == (if a.key == k then [a] else []) + AttrsNamed([], k);
    }
  }

  /** Reading two lists one after the other: the later one overrides. */
  lemma DictOfAppend(a: seq<Attr>, b: seq<Attr>)
    ensures DictOf(a + b) == DictOf(a) + DictOf(b)
  {
    forall k
      ensures (k in DictOf(a + b) <==> k in DictOf(a) + DictOf(b))
      ensures k in DictOf(a + b) ==> DictOf(a + b)[k] == (DictOf(a) + DictOf(b))[k]
    {
      LastValueAppend(a, b, k);
    }
    MapsEqual(DictOf(a + b), DictOf(a) + DictOf(b));
  }

  lemma DictOfEmpty()
    ensures DictOf([]) == map[]
  {
    MapsEqual(DictOf([]), map[]);
  }

  /* ---------------------------------------------------------------------
     get_nodes
     --------------------------------------------------------------------- */

  /** The node described by one `node` section: for each of the four keys,
      the last value given (a later duplicate overrides an earlier one). */
  function NodeOf(node: Section): NodeAddress {
    NodeAddress(
      LastValue(node.attributes, "ring0_addr"), LastValue(node.attributes, "ring1_addr"),
      LastValue(node.attributes, "name"), LastValue(node.attributes, "nodeid"))
  }

  function NodesOf(ss: seq<Section>): (r: seq<NodeAddress>)
    ensures |r| == |ss|
    ensures forall i :: 0 <= i < |ss| ==> r[i] == NodeOf(ss[i])
  {
    if ss == [] then [] else [NodeOf(ss[0])] + NodesOf(ss[1..])
  }

  lemma {:induction false} NodesOfAppend(a: seq<Section>, b: seq<Section>)
    ensures NodesOf(a + b) == NodesOf(a) + NodesOf(b)
  {
    if a == [] {
      assert a + b == b;
    } else {
      assert (a + b)[0] == a[0] && (a + b)[1..] == a[1..] + b;
      NodesOfAppend(a[1..], b);
    }
  }

  /** One more node section read. */
  lemma NodesOfSnoc(ss: seq<Section>, i: int)
    requires 0 <= i < |ss|
    ensures NodesOf(ss[..i + 1]) == NodesOf(ss[..i]) + [NodeOf(ss[i])]
  {
    assert ss[..i + 1] == ss[..i] + [ss[i]];
    NodesOfAppend(ss[..i], [ss[i]]);
    assert NodesOf([ss[i]]) == [NodeOf(ss[i])] + NodesOf([]);
  }

  /** `get_nodes()`: one address per `nodelist/node` section, in document order. */
  function Nodes(root: Section): seq<NodeAddress> {
    NodesOf(Select(root.sections, NodePath))
  }

  /* ---------------------------------------------------------------------
     get_quorum_options
     --------------------------------------------------------------------- */

  /** The attributes of all `quorum` sections, in document order. */
  function QuorumAttributes(root: Section): seq<Attr> {
    AllAttributes(Select(root.sections, QuorumPath))
  }

  /** A dictionary restricted to the recognised quorum options. */
  function QuorumOnly(d: map<string, string>): (r: map<string, string>)
    ensures forall k :: k in r <==> k in d && k in QUORUM_OPTIONS
    ensures forall k :: k in r ==> r[k] == d[k]
  {
    map k | k in d && k in QUORUM_OPTIONS :: d[k]
  }

  /** `get_quorum_options()`: only names from QUORUM_OPTIONS, each with the
      last value found across all `quorum` sections in document order. */
  function QuorumOptions(root: Section): (options: map<string, string>)
    ensures forall k :: k in options <==> k in QUORUM_OPTIONS && HasKey(QuorumAttributes(root), k)
    ensures forall k :: k in options ==> Some(options[k]) == LastValue(QuorumAttributes(root), k)
  {
    QuorumOnly(DictOf(QuorumAttributes(root)))
  }

  /* ---------------------------------------------------------------------
     has_quorum_device, get_quorum_device_settings
     --------------------------------------------------------------------- */

  function DeviceSections(root: Section): seq<Section> {
    Select(root.sections, DevicePath)
  }

  /** `has_quorum_device()`: some `quorum/device` section has a `model`. */
  predicate HasQuorumDevice(root: Section) {
    exists i :: 0 <= i < |DeviceSections(root)| && HasKey(DeviceSections(root)[i].attributes, "model")
  }

  /** `has_quorum_device()` only depends on the `model` attributes of the
      device sections taken together. */
  lemma HasQuorumDeviceByAttributes(root: Section)
    ensures HasQuorumDevice(root) <==> HasKey(AllAttributes(DeviceSections(root)), "model")
  {
    AnyHasKey(DeviceSections(root), "model");
  }

  lemma {:induction false} AnyHasKey(ss: seq<Section>, key: string)
    ensures (exists i :: 0 <= i < |ss| && HasKey(ss[i].attributes, key)) <==> HasKey(AllAttributes(ss), key)
  {
    if ss != [] {
      AnyHasKey(ss[1..], key);
      assert forall a :: a in AllAttributes(ss) <==> a in ss[0].attributes || a in AllAttributes(ss[1..]);
      if HasKey(AllAttributes(ss[1..]), key) {
        var i :| 0 <= i < |ss[1..]| && HasKey(ss[1..][i].attributes, key);
        assert HasKey(ss[i + 1].attributes, key);
      }
      if exists i :: 0 <= i < |ss| && HasKey(ss[i].attributes, key) {
        var i :| 0 <= i < |ss| && HasKey(ss[i].attributes, key);
        if i > 0 {
          assert HasKey(ss[1..][i - 1].attributes, key);
        }
      }
    }
  }

  /** `(model, model_options, generic_options)` */
  datatype DeviceSettings = DeviceSettings(
    model: Option<string>, modelOptions: map<string, string>, genericOptions: map<string, string>)

  /** The attributes of every section named `model` directly under a
      `quorum/device` section, in document order. */
  function ModelAttributes(root: Section, model: string): seq<Attr> {
    AllAttributes(Select(root.sections, DevicePath + [model]))
  }

  /** `get_quorum_device_settings()`: the last `model` of all device
      sections; every other device attribute as a generic option (later
      values override earlier ones); the options of all sections named after
      the model, merged the same way. */
  function QuorumDeviceSettings(root: Section): (r: DeviceSettings)
    ensures r.model == LastValue(AllAttributes(DeviceSections(root)), "model")
    ensures r.model.None? ==> r.modelOptions == map[]
    ensures r.model.Some? ==> r.modelOptions == DictOf(ModelAttributes(root, r.model.value))
    ensures "model" !in r.genericOptions
    ensures forall k :: k != "model" ==>
      (k in r.genericOptions <==> HasKey(AllAttributes(DeviceSections(root)), k))
    ensures forall k :: k in r.genericOptions ==> LastValue(AllAttributes(DeviceSections(root)), k) == Some(r.genericOptions[k])
  {
    var deviceAttrs := AllAttributes(DeviceSections(root));
    var model := LastValue(deviceAttrs, "model");
    DeviceSettings(
      model,
      if model.Some? then DictOf(ModelAttributes(root, model.value)) else map[],
      DictOf(deviceAttrs) - {"model"})
  }
}
