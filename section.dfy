/** The parsed corosync.conf document: a tree of named sections, each with an
    ordered list of `key: value` attributes (keys may repeat) and an ordered
    list of child sections (names may repeat, e.g. several `quorum` blocks).
    This is the part of `config_parser.Section` that the facade uses; the
    parser and the writer themselves are not part of this model.

    Sections are values here. Where the facade takes a list of section
    objects out of the tree and changes them in place, the model selects the
    same sections by their path of names (`Select`), transforms the list and
    writes it back at the same positions (`Replace`). */
module ConfigParser {
  import opened Util

  /** One `key: value` line of a section. */
  datatype Attr = Attr(key: string, value: string)

  datatype Section = Section(name: string, attributes: seq<Attr>, sections: seq<Section>)

  /* ---------------------------------------------------------------------
     Attribute lists
     --------------------------------------------------------------------- */

  /** The attributes with key `key`, in document order. */
  function AttrsNamed(attrs: seq<Attr>, key: string): (r: seq<Attr>)
  {
    if attrs == [] then []
    else (if attrs[0].key == key then [attrs[0]] else []) + AttrsNamed(attrs[1..], key)
  }

  /** The attributes whose key is not in `keys`, in document order. */
  function Drop(attrs: seq<Attr>, keys: set<string>): (r: seq<Attr>)
  {
    if attrs == [] then []
    else (if attrs[0].key in keys then [] else [attrs[0]]) + Drop(attrs[1..], keys)
  }

  predicate HasKey(attrs: seq<Attr>, key: string) {
    exists a :: a in attrs && a.key == key
  }

  /** The value of the last attribute with key `key`: what a reader that
      walks the attributes in order and keeps overwriting ends up with. */
  function LastValue(attrs: seq<Attr>, key: string): (r: Option<string>)
    ensures r.None? <==> !HasKey(attrs, key)
    ensures r.Some? ==> Attr(key, r.value) in attrs
  {
    var named := AttrsNamed(attrs, key);
    AttrsNamedMembers(attrs, key);
    if named == [] then None
    else
      assert named[|named| - 1] in named;
      Some(named[|named| - 1].value)
  }

  /** `set_attribute`. config_parser is not part of this model, so its
      behaviour on a repeated key is fixed here: the first attribute with the
      key takes the new value in place, later ones with the key are removed,
      and the attribute is appended when the key is absent. */
  function SetAttr(attrs: seq<Attr>, key: string, value: string): (r: seq<Attr>)
    ensures AttrsNamed(r, key) == [Attr(key, value)]
    ensures Drop(r, {key}) == Drop(attrs, {key})
  {
    if HasKey(attrs, key) then ReplaceFirst(attrs, key, value)
    else
      AttrsNamedAppend(attrs, [Attr(key, value)], key);
      DropAppend(attrs, [Attr(key, value)], {key});
      NoKeyNamed(attrs, key);
      attrs + [Attr(key, value)]
  }

  function ReplaceFirst(attrs: seq<Attr>, key: string, value: string): (r: seq<Attr>)
    requires HasKey(attrs, key)
    ensures AttrsNamed(r, key) == [Attr(key, value)]
    ensures Drop(r, {key}) == Drop(attrs, {key})
  {
    if attrs[0].key == key then
      var rest := Drop(attrs[1..], {key});
      DropTwice(attrs[1..], {key});
      DropMembers(attrs[1..], {key});
      NoKeyNamed(rest, key);
      [Attr(key, value)] + rest
    else
      assert exists a :: a in attrs[1..] && a.key == key by {
        var a :| a in attrs && a.key == key;
        assert a != attrs[0];
      }
      [attrs[0]] + ReplaceFirst(attrs[1..], key, value)
  }

  lemma {:induction false} AttrsNamedMembers(attrs: seq<Attr>, key: string)
    ensures forall a :: a in AttrsNamed(attrs, key) <==> a in attrs && a.key == key
  {
    if attrs != [] {
      AttrsNamedMembers(attrs[1..], key);
      assert forall a :: a in attrs <==> a == attrs[0] || a in attrs[1..];
    }
  }

  lemma {:induction false} DropMembers(attrs: seq<Attr>, keys: set<string>)
    ensures forall a :: a in Drop(attrs, keys) <==> a in attrs && a.key !in keys
  {
    if attrs != [] {
      DropMembers(attrs[1..], keys);
      assert forall a :: a in attrs <==> a == attrs[0] || a in attrs[1..];
    }
  }

  lemma {:induction false} AttrsNamedAppend(a: seq<Attr>, b: seq<Attr>, key: string)
    ensures AttrsNamed(a + b, key) == AttrsNamed(a, key) + AttrsNamed(b, key)
  {
    if a != [] {
      assert (a + b)[0] == a[0] && (a + b)[1..] == a[1..] + b;
      AttrsNamedAppend(a[1..], b, key);
    } else {
      assert a + b == b;
    }
  }

  lemma {:induction false} DropAppend(a: seq<Attr>, b: seq<Attr>, keys: set<string>)
    ensures Drop(a + b, keys) == Drop(a, keys) + Drop(b, keys)
  {
    if a != [] {
      assert (a + b)[0] == a[0] && (a + b)[1..] == a[1..] + b;
      DropAppend(a[1..], b, keys);
    } else {
      assert a + b == b;
    }
  }

  lemma {:induction false} DropTwice(attrs: seq<Attr>, keys: set<string>)
    ensures Drop(Drop(attrs, keys), keys) == Drop(attrs, keys)
  {
    if attrs != [] {
      DropTwice(attrs[1..], keys);
      var d := Drop(attrs[1..], keys);
      if attrs[0].key !in keys {
        assert Drop(attrs, keys) == [attrs[0]] + d;
        assert ([attrs[0]] + d)[0] == attrs[0] && ([attrs[0]] + d)[1..] == d;
      } else {
        assert Drop(attrs, keys) == [] + d == d;
      }
    }
  }

  /** Dropping no key changes nothing. */
  lemma {:induction false} DropNothing(attrs: seq<Attr>)
    ensures Drop(attrs, {}) == attrs
  {
    if attrs != [] {
      DropNothing(attrs[1..]);
      assert attrs == [attrs[0]] + attrs[1..];
    }
  }

  lemma {:induction false} NoKeyNamed(attrs: seq<Attr>, key: string)
    requires !HasKey(attrs, key)
    ensures AttrsNamed(attrs, key) == []
  {
    if attrs != [] {
      assert attrs[0] in attrs;
      assert forall a :: a in attrs[1..] ==> a in attrs;
      NoKeyNamed(attrs[1..], key);
    }
  }

  /** Dropping a key leaves the attributes of every other key as they were. */
  lemma {:induction false} AttrsNamedDrop(attrs: seq<Attr>, keys: set<string>, key: string)
    ensures AttrsNamed(Drop(attrs, keys), key) == if key in keys then [] else AttrsNamed(attrs, key)
  {
    if attrs != [] {
      AttrsNamedDrop(attrs[1..], keys, key);
      assert Drop(attrs, keys) == (if attrs[0].key in keys then [] else [attrs[0]]) + Drop(attrs[1..], keys);
      AttrsNamedAppend(if attrs[0].key in keys then [] else [attrs[0]], Drop(attrs[1..], keys), key);
    }
  }

  /** Dropping one set of keys and then another is dropping their union. */
  lemma {:induction false} DropDrop(attrs: seq<Attr>, a: set<string>, b: set<string>)
    ensures Drop(Drop(attrs, a), b) == Drop(attrs, a + b)
  {
    if attrs != [] {
      DropDrop(attrs[1..], a, b);
      assert Drop(attrs, a) == (if attrs[0].key in a then [] else [attrs[0]]) + Drop(attrs[1..], a);
      DropAppend(if attrs[0].key in a then [] else [attrs[0]], Drop(attrs[1..], a), b);
    }
  }

  lemma {:induction false} AttrsNamedTwice(attrs: seq<Attr>, key: string)
    ensures AttrsNamed(AttrsNamed(attrs, key), key) == AttrsNamed(attrs, key)
  {
    if attrs != [] {
      AttrsNamedTwice(attrs[1..], key);
      var n := AttrsNamed(attrs[1..], key);
      if attrs[0].key == key {
        assert AttrsNamed(attrs, key) == [attrs[0]] + n;
        assert ([attrs[0]] + n)[0] == attrs[0] && ([attrs[0]] + n)[1..] == n;
      } else {
        assert AttrsNamed(attrs, key) == [] + n == n;
      }
    }
  }

  /** The last value of a key depends only on the attributes with that key. */
  lemma LastValueNamed(attrs: seq<Attr>, key: string)
    ensures LastValue(attrs, key) == LastValue(AttrsNamed(attrs, key), key)
  {
    AttrsNamedTwice(attrs, key);
  }

  lemma LastValueAppend(a: seq<Attr>, b: seq<Attr>, key: string)
    ensures LastValue(a + b, key) == if LastValue(b, key).Some? then LastValue(b, key) else LastValue(a, key)
  {
    AttrsNamedAppend(a, b, key);
    var na, nb := AttrsNamed(a, key), AttrsNamed(b, key);
    if nb == [] {
      assert na + nb == na;
    } else {
      assert (na + nb)[|na + nb| - 1] == nb[|nb| - 1];
    }
  }

  /* ---------------------------------------------------------------------
     The Section API used by the facade
     --------------------------------------------------------------------- */

  /** `get_sections(name)`: the direct children called `name`, in order. */
  function GetSections(s: Section, name: string): (r: seq<Section>)
    ensures r == Select(s.sections, [name])
  {
    SelectIsFilter(s.sections, name);
    Select(s.sections, [name])
  }

  /** `get_attributes(name)` */
  function GetAttributes(s: Section, key: string): (r: seq<Attr>)
    ensures forall a :: a in r ==> a.key == key && a in s.attributes
  {
    AttrsNamedMembers(s.attributes, key);
    AttrsNamed(s.attributes, key)
  }

  /** `set_attribute(key, value)` */
  function SetAttribute(s: Section, key: string, value: string): (r: Section)
    ensures r.name == s.name && r.sections == s.sections
    ensures AttrsNamed(r.attributes, key) == [Attr(key, value)]
    ensures forall k :: k != key ==> AttrsNamed(r.attributes, k) == AttrsNamed(s.attributes, k)
  {
    var attrs := SetAttr(s.attributes, key, value);
    forall k | k != key
      ensures AttrsNamed(attrs, k) == AttrsNamed(s.attributes, k)
    {
      AttrsNamedDrop(attrs, {key}, k);
      AttrsNamedDrop(s.attributes, {key}, k);
    }
    s.(attributes := attrs)
  }

  /** `del_attributes_by_name(key)` */
  function DelAttributesByName(s: Section, key: string): (r: Section)
    ensures r.name == s.name && r.sections == s.sections
    ensures !HasKey(r.attributes, key)
    ensures forall k :: k != key ==> AttrsNamed(r.attributes, k) == AttrsNamed(s.attributes, k)
  {
    var attrs := Drop(s.attributes, {key});
    DropMembers(s.attributes, {key});
    forall k | k != key
      ensures AttrsNamed(attrs, k) == AttrsNamed(s.attributes, k)
    {
      AttrsNamedDrop(s.attributes, {key}, k);
    }
    s.(attributes := attrs)
  }

  /** `add_section(child)`: the child goes last. */
  function AddSection(s: Section, child: Section): (r: Section)
    ensures r.name == s.name && r.attributes == s.attributes
    ensures |r.sections| == |s.sections| + 1 && r.sections[|s.sections|] == child
    ensures r.sections[..|s.sections|] == s.sections
  {
    s.(sections := s.sections + [child])
  }

  /** `del_section(child)`: the child is removed by identity; with values,
      identity is its position among the children. */
  function DelSection(s: Section, i: nat): (r: Section)
    requires i < |s.sections|
    ensures r.name == s.name && r.attributes == s.attributes
    ensures |r.sections| == |s.sections| - 1
    ensures forall j :: 0 <= j < |r.sections| ==> r.sections[j] == s.sections[if j < i then j else j + 1]
  {
    s.(sections := s.sections[..i] + s.sections[i + 1..])
  }

  /** Walking the children with a count `|kept|` of those kept so far: the
      next one is either deleted with `del_section` or kept. */
  lemma DelSectionStep(s: Section, kept: seq<Section>, rest: seq<Section>, delete: bool)
    requires rest != [] && s.sections == kept + rest
    ensures var r := if delete then DelSection(s, |kept|) else s;
      && r.name == s.name && r.attributes == s.attributes
      && r.sections == (if delete then kept else kept + [rest[0]]) + rest[1..]
  {
    assert s.sections == kept + [rest[0]] + rest[1..] by {
      assert rest == [rest[0]] + rest[1..];
    }
    if delete {
      var r := DelSection(s, |kept|);
      forall j | 0 <= j < |r.sections|
        ensures r.sections[j] == (kept + rest[1..])[j]
      {
      }
    }
  }

  /** `empty`: no attributes and no child sections. */
  predicate Empty(s: Section) {
    s.attributes == [] && s.sections == []
  }

  /* ---------------------------------------------------------------------
     Selecting sections by a path of names, and writing them back
     --------------------------------------------------------------------- */

  /** The sections reached from the list `cs` by following the names in
      `path` (the first name matched against `cs` itself), in document
      order: `[s for q in cs if q.name == path[0] for s in ...]`. */
  function Select(cs: seq<Section>, path: seq<string>): (r: seq<Section>)
    requires path != []
    ensures forall s :: s in r ==> s.name == path[|path| - 1]
    decreases |path|, |cs|
  {
    if cs == [] then [] else SelectIn(cs[0], path) + Select(cs[1..], path)
  }

  /** The part of `Select` that lies in one section `c` (itself included). */
  function SelectIn(c: Section, path: seq<string>): (r: seq<Section>)
    requires path != []
    ensures forall s :: s in r ==> s.name == path[|path| - 1]
    decreases |path|, 0
  {
    if c.name != path[0] then []
    else if |path| == 1 then [c]
    else Select(c.sections, path[1..])
  }

  /** `cs` with the sections that `Select(cs, path)` picks replaced, in
      order, by `news`: the list of sections changed in place, put back. */
  function Replace(cs: seq<Section>, path: seq<string>, news: seq<Section>): (r: seq<Section>)
    requires path != [] && |news| == |Select(cs, path)|
    ensures |r| == |cs|
    decreases |path|, |cs|
  {
    if cs == [] then []
    else
      var k := |SelectIn(cs[0], path)|;
      [ReplaceIn(cs[0], path, news[..k])] + Replace(cs[1..], path, news[k..])
  }

  function ReplaceIn(c: Section, path: seq<string>, news: seq<Section>): (r: Section)
    requires path != [] && |news| == |SelectIn(c, path)|
    decreases |path|, 0
  {
    if c.name != path[0] then c
    else if |path| == 1 then news[0]
    else c.(sections := Replace(c.sections, path[1..], news))
  }

  predicate AllNamed(ss: seq<Section>, name: string) {
    forall i :: 0 <= i < |ss| ==> ss[i].name == name
  }

  lemma {:induction false} SelectAppend(a: seq<Section>, b: seq<Section>, path: seq<string>)
    requires path != []
    ensures Select(a + b, path) == Select(a, path) + Select(b, path)
  {
    if a != [] {
      assert (a + b)[0] == a[0] && (a + b)[1..] == a[1..] + b;
      SelectAppend(a[1..], b, path);
    } else {
      assert a + b == b;
    }
  }

  lemma SelectIsFilter(cs: seq<Section>, name: string)
    ensures forall s :: s in Select(cs, [name]) <==> s in cs && s.name == name
  {
    if cs != [] {
      SelectIsFilter(cs[1..], name);
      assert forall s :: s in cs <==> s == cs[0] || s in cs[1..];
    }
  }

  /** Writing back a selection replaces exactly that selection. */
  lemma {:induction false} SelectReplace(cs: seq<Section>, path: seq<string>, news: seq<Section>)
    requires path != [] && |news| == |Select(cs, path)|
    requires AllNamed(news, path[|path| - 1])
    ensures Select(Replace(cs, path, news), path) == news
    decreases |path|, |cs|
  {
    if cs != [] {
      var k := |SelectIn(cs[0], path)|;
      var head := ReplaceIn(cs[0], path, news[..k]);
      var tail := Replace(cs[1..], path, news[k..]);
      SelectReplace(cs[1..], path, news[k..]);
      SelectInReplaceIn(cs[0], path, news[..k]);
      assert Replace(cs, path, news) == [head] + tail;
      assert ([head] + tail)[0] == head && ([head] + tail)[1..] == tail;
      assert news == news[..k] + news[k..];
    }
  }

  lemma {:induction false} SelectInReplaceIn(c: Section, path: seq<string>, news: seq<Section>)
    requires path != [] && |news| == |SelectIn(c, path)|
    requires AllNamed(news, path[|path| - 1])
    ensures SelectIn(ReplaceIn(c, path, news), path) == news
    decreases |path|, 0
  {
    if c.name == path[0] && |path| > 1 {
      SelectReplace(c.sections, path[1..], news);
    }
  }

  /** Putting back what was selected changes nothing. */
  lemma {:induction false} ReplaceSelf(cs: seq<Section>, path: seq<string>)
    requires path != []
    ensures Replace(cs, path, Select(cs, path)) == cs
    decreases |path|, |cs|
  {
    if cs != [] {
      var sel := Select(cs, path);
      var k := |SelectIn(cs[0], path)|;
      assert sel[..k] == SelectIn(cs[0], path) && sel[k..] == Select(cs[1..], path);
      ReplaceSelf(cs[1..], path);
      if cs[0].name == path[0] && |path| > 1 {
        ReplaceSelf(cs[0].sections, path[1..]);
      }
      assert cs == [cs[0]] + cs[1..];
    }
  }

  /** Selecting along a path that leaves the replaced path at some name
      sees none of the replacement. */
  lemma {:induction false} SelectReplaceElsewhere(cs: seq<Section>, path: seq<string>, news: seq<Section>, other: seq<string>)
    requires path != [] && other != [] && |news| == |Select(cs, path)|
    requires AllNamed(news, path[|path| - 1])
    requires exists i :: 0 <= i < |path| && i < |other| && path[..i] == other[..i] && path[i] != other[i]
    ensures Select(Replace(cs, path, news), other) == Select(cs, other)
    decreases |path|, |cs|
  {
    if cs != [] {
      var k := |SelectIn(cs[0], path)|;
      SelectReplaceElsewhere(cs[1..], path, news[k..], other);
      SelectInReplaceInElsewhere(cs[0], path, news[..k], other);
    }
  }

  lemma {:induction false} SelectInReplaceInElsewhere(c: Section, path: seq<string>, news: seq<Section>, other: seq<string>)
    requires path != [] && other != [] && |news| == |SelectIn(c, path)|
    requires AllNamed(news, path[|path| - 1])
    requires exists i :: 0 <= i < |path| && i < |other| && path[..i] == other[..i] && path[i] != other[i]
    ensures SelectIn(ReplaceIn(c, path, news), other) == SelectIn(c, other)
    decreases |path|, 0
  {
    var i :| 0 <= i < |path| && i < |other| && path[..i] == other[..i] && path[i] != other[i];
    if c.name == path[0] && |path| > 1 {
      if i == 0 {
      } else {
        assert other[0] == other[..i][0] == path[..i][0] == path[0];
        assert path[1..][..i - 1] == other[1..][..i - 1] && path[1..][i - 1] != other[1..][i - 1];
        SelectReplaceElsewhere(c.sections, path[1..], news, other[1..]);
      }
    }
  }

  /** Sections that agree on name and attributes. */
  predicate SameHeads(a: seq<Section>, b: seq<Section>) {
    |a| == |b| && forall i :: 0 <= i < |a| ==> a[i].name == b[i].name && a[i].attributes == b[i].attributes
  }

  /** Replacing deeper sections leaves the sections above them, on a prefix
      of the path, with their names and attributes. */
  lemma {:induction false} SelectReplaceAbove(cs: seq<Section>, path: seq<string>, news: seq<Section>, prefix: seq<string>)
    requires prefix != [] && |prefix| < |path| && path[..|prefix|] == prefix
    requires |news| == |Select(cs, path)|
    ensures SameHeads(Select(Replace(cs, path, news), prefix), Select(cs, prefix))
    decreases |path|, |cs|
  {
    if cs != [] {
      var k := |SelectIn(cs[0], path)|;
      SelectReplaceAbove(cs[1..], path, news[k..], prefix);
      SelectInReplaceInAbove(cs[0], path, news[..k], prefix);
      var r := Replace(cs, path, news);
      assert r[0] == ReplaceIn(cs[0], path, news[..k]) && r[1..] == Replace(cs[1..], path, news[k..]);
    }
  }

  lemma {:induction false} SelectInReplaceInAbove(c: Section, path: seq<string>, news: seq<Section>, prefix: seq<string>)
    requires prefix != [] && |prefix| < |path| && path[..|prefix|] == prefix
    requires |news| == |SelectIn(c, path)|
    ensures SameHeads(SelectIn(ReplaceIn(c, path, news), prefix), SelectIn(c, prefix))
    decreases |path|, 0
  {
    assert prefix[0] == path[0];
    if c.name == path[0] && |prefix| > 1 {
      assert path[1..][..|prefix[1..]|] == prefix[1..];
      SelectReplaceAbove(c.sections, path[1..], news, prefix[1..]);
    }
  }

  /** One more attribute read: its value is the last one of its key. */
  lemma LastValueSnoc(a: seq<Attr>, x: Attr, key: string)
    ensures LastValue(a + [x], key) == if x.key == key then Some(x.value) else LastValue(a, key)
  {
    LastValueAppend(a, [x], key);
    assert AttrsNamed([x], key) == (if x.key == key then [x] else []) + AttrsNamed([], key);
  }

  /** `Select` along a longer path goes through the sections on its prefix. */
  function SelectBelow(ss: seq<Section>, rest: seq<string>): (r: seq<Section>)
    requires rest != []
  {
    if ss == [] then [] else Select(ss[0].sections, rest) + SelectBelow(ss[1..], rest)
  }

  lemma {:induction false} SelectBelowAppend(a: seq<Section>, b: seq<Section>, rest: seq<string>)
    requires rest != []
    ensures SelectBelow(a + b, rest) == SelectBelow(a, rest) + SelectBelow(b, rest)
  {
    if a != [] {
      assert (a + b)[0] == a[0] && (a + b)[1..] == a[1..] + b;
      SelectBelowAppend(a[1..], b, rest);
    } else {
      assert a + b == b;
    }
  }

  /** One more parent walked: its matching children come last. */
  lemma SelectBelowSnoc(ss: seq<Section>, i: int, rest: seq<string>)
    requires rest != [] && 0 <= i < |ss|
    ensures SelectBelow(ss[..i + 1], rest) == SelectBelow(ss[..i], rest) + Select(ss[i].sections, rest)
  {
    assert ss[..i + 1] == ss[..i] + [ss[i]];
    SelectBelowAppend(ss[..i], [ss[i]], rest);
    assert SelectBelow([ss[i]], rest) == Select(ss[i].sections, rest) + SelectBelow([], rest);
  }

  lemma {:induction false} SelectCompose(cs: seq<Section>, path: seq<string>, rest: seq<string>)
    requires path != [] && rest != []
    ensures Select(cs, path + rest) == SelectBelow(Select(cs, path), rest)
    decreases |path|, |cs|
  {
    if cs != [] {
      SelectCompose(cs[1..], path, rest);
      SelectInCompose(cs[0], path, rest);
      SelectBelowAppend(SelectIn(cs[0], path), Select(cs[1..], path), rest);
    }
  }

  lemma {:induction false} SelectInCompose(c: Section, path: seq<string>, rest: seq<string>)
    requires path != [] && rest != []
    ensures SelectIn(c, path + rest) == SelectBelow(SelectIn(c, path), rest)
    decreases |path|, 0
  {
    assert (path + rest)[0] == path[0];
    if c.name == path[0] {
      if |path| == 1 {
        assert (path + rest)[1..] == rest;
        assert SelectBelow([c], rest) == Select(c.sections, rest) + SelectBelow([], rest);
      } else {
        assert (path + rest)[1..] == path[1..] + rest;
        SelectCompose(c.sections, path[1..], rest);
      }
    }
  }

  /** Replacing sections by ones with the same children leaves every
      selection below them as it was. */
  lemma SelectReplaceBelow(cs: seq<Section>, path: seq<string>, news: seq<Section>, rest: seq<string>)
    requires path != [] && rest != [] && |news| == |Select(cs, path)|
    requires AllNamed(news, path[|path| - 1])
    requires forall i :: 0 <= i < |news| ==> news[i].sections == Select(cs, path)[i].sections
    ensures Select(Replace(cs, path, news), path + rest) == Select(cs, path + rest)
  {
    SelectReplace(cs, path, news);
    SelectCompose(Replace(cs, path, news), path, rest);
    SelectCompose(cs, path, rest);
    SelectBelowSameChildren(news, Select(cs, path), rest);
  }

  lemma {:induction false} SelectBelowSameChildren(a: seq<Section>, b: seq<Section>, rest: seq<string>)
    requires rest != [] && |a| == |b|
    requires forall i :: 0 <= i < |a| ==> a[i].sections == b[i].sections
    ensures SelectBelow(a, rest) == SelectBelow(b, rest)
  {
    if a != [] {
      SelectBelowSameChildren(a[1..], b[1..], rest);
    }
  }

  /* ---------------------------------------------------------------------
     Removing empty sections
     --------------------------------------------------------------------- */

  /** No section below `s` (at any depth) is empty. */
  predicate NoEmptyBelow(s: Section)
    decreases s
  {
    forall c :: c in s.sections ==> !Empty(c) && NoEmptyBelow(c)
  }

  /** `__remove_empty_sections`: children are cleaned first, then dropped
      when they have become empty. */
  function Prune(s: Section): (r: Section)
    ensures r.name == s.name && r.attributes == s.attributes
    ensures NoEmptyBelow(r)
    decreases s, 1
  {
    Section(s.name, s.attributes, PruneList(s.sections))
  }

  function PruneList(cs: seq<Section>): (r: seq<Section>)
    ensures forall c :: c in r ==> !Empty(c) && NoEmptyBelow(c)
    decreases cs, 0
  {
    if cs == [] then []
    else
      var p := Prune(cs[0]);
      (if Empty(p) then [] else [p]) + PruneList(cs[1..])
  }
}
