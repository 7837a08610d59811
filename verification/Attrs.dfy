/** Grouping flat log attributes with keys like `a>b>c` into a tree. */
module Attrs {
  import opened Strings

  /** A logged value: a group without members, which `slog.GroupValue` treats specially, or anything
      else, which is only carried along. */
  datatype Value<V> = EmptyGroup | Other(v: V)

  /** A flat attribute. */
  datatype Attr<V> = Attr(key: string, value: Value<V>)

  /** The grouped result: attributes, and groups made by the algorithm. */
  datatype Node<V> = Leaf(key: string, value: Value<V>) | Branch(key: string, children: seq<Node<V>>)

  predicate IsEmptyGroup<V>(n: Node<V>) {
    match n
    case Leaf(_, value) => value.EmptyGroup?
    case Branch(_, children) => children == []
  }

  /** `slog.GroupValue`: the members of a group, without those that are empty groups. */
  function GroupValue<V>(nodes: seq<Node<V>>): seq<Node<V>> {
    if nodes == [] then []
    else
      var before, last := GroupValue(nodes[..|nodes| - 1]), nodes[|nodes| - 1];
      if IsEmptyGroup(last) then before else before + [last]
  }

  lemma {:induction false} GroupValueMembers<V>(nodes: seq<Node<V>>)
    ensures forall i :: 0 <= i < |GroupValue(nodes)| ==>
              GroupValue(nodes)[i] in nodes && !IsEmptyGroup(GroupValue(nodes)[i])
  {
    if nodes != [] {
      GroupValueMembers(nodes[..|nodes| - 1]);
      assert nodes == nodes[..|nodes| - 1] + [nodes[|nodes| - 1]];
    }
  }

  predicate IsGrouped(key: string) {
    '>' in key
  }

  function Root(key: string): string
    requires IsGrouped(key)
  {
    Cut(key, '>').0
  }

  // ---------------------------------------------------------------- string order

  /** The order `sort.Strings` sorts by. */
  predicate Less(a: string, b: string) {
    b != "" && (a == "" || a[0] < b[0] || (a[0] == b[0] && Less(a[1..], b[1..])))
  }

  /** `a` and `b` agree before `k`, and there `a` ends or has the smaller character. */
  predicate FirstDifference(a: string, b: string, k: nat) {
    && k <= |a| && k < |b| && a[..k] == b[..k]
    && (k == |a| || a[k] < b[k])
  }

  /** The order is that of the first character in which the names differ; a proper prefix comes first. */
  lemma {:induction false} LessMeaning(a: string, b: string)
    ensures Less(a, b) <==> exists k: nat :: FirstDifference(a, b, k)
  {
    if b == "" {
    } else if a == "" {
      assert FirstDifference(a, b, 0);
    } else if a[0] != b[0] {
      assert a[0] < b[0] ==> FirstDifference(a, b, 0);
      forall k: nat | FirstDifference(a, b, k) ensures k == 0 {
        SameHead(a, b, k);
      }
    } else {
      LessMeaning(a[1..], b[1..]);
      forall k: nat | k < |a| && k < |b|
        ensures FirstDifference(a, b, k + 1) <==> FirstDifference(a[1..], b[1..], k)
      {
        SamePrefix(a, b, k);
      }
      assert !FirstDifference(a, b, 0);
      if exists k: nat :: FirstDifference(a, b, k) {
        var k: nat :| FirstDifference(a, b, k);
        assert FirstDifference(a[1..], b[1..], k - 1);
      }
      if exists k: nat :: FirstDifference(a[1..], b[1..], k) {
        var k: nat :| FirstDifference(a[1..], b[1..], k);
        assert FirstDifference(a, b, k + 1);
      }
    }
  }

  lemma SameHead(a: string, b: string, k: nat)
    requires a != "" && b != "" && k <= |a| && k < |b| && a[..k] == b[..k]
    ensures k > 0 ==> a[0] == b[0]
  {
    if k > 0 {
      assert a[0] == a[..k][0] && b[0] == b[..k][0];
    }
  }

  lemma SamePrefix(a: string, b: string, k: nat)
    requires a != "" && b != "" && a[0] == b[0] && k < |a| && k < |b|
    ensures a[..k + 1] == b[..k + 1] <==> a[1..][..k] == b[1..][..k]
  {
    assert a[..k + 1] == [a[0]] + a[1..][..k] && b[..k + 1] == [b[0]] + b[1..][..k];
    assert a[1..][..k] == a[..k + 1][1..] && b[1..][..k] == b[..k + 1][1..];
  }

  lemma {:induction false} LessTransitive(a: string, b: string, c: string)
    requires Less(a, b) && Less(b, c)
    ensures Less(a, c)
  {
    if a != "" && a[0] == b[0] == c[0] {
      LessTransitive(a[1..], b[1..], c[1..]);
    }
  }

  lemma {:induction false} LessTotal(a: string, b: string)
    ensures a == b || Less(a, b) || Less(b, a)
    ensures !(Less(a, b) && Less(b, a)) && !Less(a, a)
  {
    if a != "" {
      LessTotal(a[1..], a[1..]);
    }
    if a != "" && b != "" && a[0] == b[0] {
      LessTotal(a[1..], b[1..]);
      assert a[1..] == b[1..] ==> a == [a[0]] + a[1..] == b;
    }
  }

  ghost predicate StrictlySorted(s: seq<string>) {
    forall i, j :: 0 <= i < j < |s| ==> Less(s[i], s[j])
  }

  function Insert(x: string, s: seq<string>): seq<string> {
    if s == [] || Less(x, s[0]) then [x] + s else [s[0]] + Insert(x, s[1..])
  }

  lemma {:induction false} InsertSorts(x: string, s: seq<string>)
    requires StrictlySorted(s) && x !in s
    ensures StrictlySorted(Insert(x, s))
    ensures forall y :: y in Insert(x, s) <==> y == x || y in s
  {
    if s == [] {
    } else if Less(x, s[0]) {
      forall j | 0 <= j < |s| ensures Less(x, s[j]) {
        if j > 0 {
          LessTransitive(x, s[0], s[j]);
        }
      }
    } else {
      LessTotal(x, s[0]);
      InsertSorts(x, s[1..]);
      var r := Insert(x, s[1..]);
      forall j | 0 <= j < |r| ensures Less(s[0], r[j]) {
        assert r[j] in r;
        if r[j] != x {
          var k :| 0 <= k < |s[1..]| && s[1..][k] == r[j];
          assert s[k + 1] == r[j];
        }
      }
    }
  }

  /** A set of names has one strictly sorted listing. */
  lemma {:induction false} SortedOnce(a: seq<string>, b: seq<string>)
    requires StrictlySorted(a) && StrictlySorted(b)
    requires forall x :: x in a <==> x in b
    ensures a == b
  {
    assert a != [] ==> a[0] in b;
    assert b != [] ==> b[0] in a;
    if a != [] {
      FirstIsLeast(a, b);
      forall x ensures x in a[1..] <==> x in b[1..] {
        TailMembers(a, x);
        TailMembers(b, x);
      }
      SortedOnce(a[1..], b[1..]);
      assert a == [a[0]] + a[1..] && b == [b[0]] + b[1..];
    }
  }

  lemma TailMembers(a: seq<string>, x: string)
    requires StrictlySorted(a) && a != []
    ensures x in a[1..] <==> x in a && x != a[0]
  {
    LessTotal(x, x);
    assert x in a <==> x == a[0] || x in a[1..];
    if x in a[1..] {
      var k :| 0 <= k < |a[1..]| && a[1..][k] == x;
      assert Less(a[0], a[k + 1]);
    }
  }

  lemma FirstIsLeast(a: seq<string>, b: seq<string>)
    requires StrictlySorted(a) && StrictlySorted(b) && a != [] && b != []
    requires forall x :: x in a <==> x in b
    ensures a[0] == b[0]
  {
    assert a[0] in b && b[0] in a;
    var i :| 0 <= i < |b| && b[i] == a[0];
    var j :| 0 <= j < |a| && a[j] == b[0];
    LessTotal(a[0], b[0]);
  }

  // ---------------------------------------------------------------- what grouping means

  /** The attributes that stay at this level, in order. */
  function Leaves<V>(attrs: seq<Attr<V>>): seq<Node<V>> {
    if attrs == [] then []
    else
      var before, a := Leaves(attrs[..|attrs| - 1]), attrs[|attrs| - 1];
      if a.key == "" || IsGrouped(a.key) then before else before + [Leaf(a.key, a.value)]
  }

  /** The attributes of one group, in order. */
  function Members<V>(attrs: seq<Attr<V>>, root: string): seq<Attr<V>> {
    if attrs == [] then []
    else
      var before, a := Members(attrs[..|attrs| - 1], root), attrs[|attrs| - 1];
      if IsGrouped(a.key) && Root(a.key) == root then before + [a] else before
  }

  /** The same with the group's name cut off their keys. */
  function Under<V>(attrs: seq<Attr<V>>, root: string): seq<Attr<V>> {
    if attrs == [] then []
    else
      var before, a := Under(attrs[..|attrs| - 1], root), attrs[|attrs| - 1];
      if IsGrouped(a.key) && Root(a.key) == root then before + [Attr(Cut(a.key, '>').1, a.value)] else before
  }

  /** The group names, each once, sorted. */
  function Roots<V>(attrs: seq<Attr<V>>): seq<string> {
    if attrs == [] then []
    else
      var before, a := Roots(attrs[..|attrs| - 1]), attrs[|attrs| - 1];
      if IsGrouped(a.key) && Root(a.key) !in before then Insert(Root(a.key), before) else before
  }

  /** The total key length. */
  function Size<V>(attrs: seq<Attr<V>>): nat {
    if attrs == [] then 0 else Size(attrs[..|attrs| - 1]) + |attrs[|attrs| - 1].key|
  }

  lemma {:induction false} RootsSorted<V>(attrs: seq<Attr<V>>)
    ensures StrictlySorted(Roots(attrs))
    ensures forall r :: r in Roots(attrs) <==> Under(attrs, r) != []
  {
    if attrs != [] {
      var before, a := Roots(attrs[..|attrs| - 1]), attrs[|attrs| - 1];
      RootsSorted(attrs[..|attrs| - 1]);
      if IsGrouped(a.key) && Root(a.key) !in before {
        InsertSorts(Root(a.key), before);
      }
    }
  }

  /** Cutting off a group's name shortens the keys: the measure of the recursion. */
  lemma {:induction false} UnderShrinks<V>(attrs: seq<Attr<V>>, root: string)
    ensures Size(Under(attrs, root)) + |Under(attrs, root)| <= Size(attrs)
  {
    if attrs != [] {
      UnderShrinks(attrs[..|attrs| - 1], root);
      var rest, a := Under(attrs[..|attrs| - 1], root), attrs[|attrs| - 1];
      if IsGrouped(a.key) && Root(a.key) == root {
        var stripped := Attr(Cut(a.key, '>').1, a.value);
        assert (rest + [stripped])[..|rest + [stripped]| - 1] == rest;
        assert Size(Under(attrs, root)) == Size(rest) + |stripped.key|;
      }
    }
  }

  lemma UnderSmaller<V>(attrs: seq<Attr<V>>, root: string)
    requires Under(attrs, root) != []
    ensures Size(Under(attrs, root)) < Size(attrs)
  {
    UnderShrinks(attrs, root);
  }

  /** The tree: what stays, then one branch a group, by name. A group drops its empty groups; the top
      level keeps them. */
  function Grouped<V>(attrs: seq<Attr<V>>): seq<Node<V>>
    decreases Size(attrs), 1, 0
  {
    RootsSorted(attrs);
    Leaves(attrs) + Branches(attrs, Roots(attrs))
  }

  function Branches<V>(attrs: seq<Attr<V>>, roots: seq<string>): (r: seq<Node<V>>)
    requires forall x :: x in roots ==> Under(attrs, x) != []
    ensures |r| == |roots| && forall i :: 0 <= i < |roots| ==> r[i].Branch? && r[i].key == roots[i]
    decreases Size(attrs), 0, |roots|
  {
    if roots == [] then []
    else
      var before, root := roots[..|roots| - 1], roots[|roots| - 1];
      assert root in roots && forall x :: x in before ==> x in roots;
      UnderSmaller(attrs, root);
      var branches, last := Branches(attrs, before), Branch(root, GroupValue(Grouped(Under(attrs, root))));
      branches + [last]
  }

  // ---------------------------------------------------------------- looking up

  /** The values under exactly this key, in order. */
  function ValuesOf<V>(attrs: seq<Attr<V>>, key: string): seq<Value<V>> {
    if attrs == [] then []
    else
      var before, a := ValuesOf(attrs[..|attrs| - 1], key), attrs[|attrs| - 1];
      if a.key == key then before + [a.value] else before
  }

  /** The values at a path of names in the tree, in order. */
  function Lookup<V>(nodes: seq<Node<V>>, path: seq<string>): seq<Value<V>>
    requires path != []
    decreases |path|, |nodes|
  {
    if nodes == [] then []
    else Lookup(nodes[..|nodes| - 1], path) + LookupIn(nodes[|nodes| - 1], path)
  }

  function LookupIn<V>(node: Node<V>, path: seq<string>): seq<Value<V>>
    requires path != []
    decreases |path|, 0
  {
    match node
    case Leaf(key, value) => if path == [key] then [value] else []
    case Branch(key, children) => if |path| > 1 && path[0] == key then Lookup(children, path[1..]) else []
  }

  /** Values without the empty groups. */
  function NotEmpty<V>(values: seq<Value<V>>): seq<Value<V>> {
    if values == [] then []
    else
      var before, last := NotEmpty(values[..|values| - 1]), values[|values| - 1];
      if last.EmptyGroup? then before else before + [last]
  }

  lemma NotEmptyOne<V>(v: Value<V>)
    ensures NotEmpty([v]) == if v.EmptyGroup? then [] else [v]
  {
    assert [v][..0] == [];
  }

  lemma {:induction false} NotEmptyConcat<V>(a: seq<Value<V>>, b: seq<Value<V>>)
    ensures NotEmpty(a + b) == NotEmpty(a) + NotEmpty(b)
  {
    if b == [] {
      assert a + b == a;
    } else {
      NotEmptyConcat(a, b[..|b| - 1]);
      assert (a + b)[..|a + b| - 1] == a + b[..|b| - 1];
    }
  }

  /** A group forgets the empty groups directly in it and nothing that lies deeper. */
  lemma {:induction false} LookupGroupValue<V>(nodes: seq<Node<V>>, path: seq<string>)
    requires path != []
    ensures Lookup(GroupValue(nodes), path) ==
            if |path| == 1 then NotEmpty(Lookup(nodes, path)) else Lookup(nodes, path)
  {
    if nodes != [] {
      var before, last := nodes[..|nodes| - 1], nodes[|nodes| - 1];
      LookupGroupValue(before, path);
      NotEmptyConcat(Lookup(before, path), LookupIn(last, path));
      LookupInGroupValue(last, path);
      if !IsEmptyGroup(last) {
        assert (GroupValue(before) + [last])[..|GroupValue(before)|] == GroupValue(before);
      }
    }
  }

  lemma LookupInGroupValue<V>(n: Node<V>, path: seq<string>)
    requires path != []
    ensures IsEmptyGroup(n) && |path| > 1 ==> LookupIn(n, path) == []
    ensures |path| == 1 ==> NotEmpty(LookupIn(n, path)) == if IsEmptyGroup(n) then [] else LookupIn(n, path)
  {
    if n.Leaf? {
      NotEmptyOne(n.value);
    }
  }

  /** The keys that survive: not empty, and not ending in the delimiter. */
  predicate Kept(key: string) {
    key != "" && key[|key| - 1] != '>'
  }

  lemma {:induction false} LookupConcat<V>(a: seq<Node<V>>, b: seq<Node<V>>, path: seq<string>)
    requires path != []
    ensures Lookup(a + b, path) == Lookup(a, path) + Lookup(b, path)
    decreases |b|
  {
    if b == [] {
      assert a + b == a;
    } else {
      var init, last := b[..|b| - 1], b[|b| - 1];
      LookupConcat(a, init, path);
      assert b == init + [last] && a + b == (a + init) + [last];
      calc {
        Lookup(a + b, path);
        { LookupSnoc(a + init, last, path); }
        Lookup(a + init, path) + LookupIn(last, path);
        (Lookup(a, path) + Lookup(init, path)) + LookupIn(last, path);
        Lookup(a, path) + (Lookup(init, path) + LookupIn(last, path));
        { LookupSnoc(init, last, path); }
        Lookup(a, path) + Lookup(b, path);
      }
    }
  }

  lemma LookupSnoc<V>(nodes: seq<Node<V>>, last: Node<V>, path: seq<string>)
    requires path != []
    ensures Lookup(nodes + [last], path) == Lookup(nodes, path) + LookupIn(last, path)
  {
    assert (nodes + [last])[..|nodes|] == nodes;
  }

  lemma {:induction false} LookupLeaves<V>(attrs: seq<Attr<V>>, path: seq<string>)
    requires path != []
    ensures Lookup(Leaves(attrs), path) ==
            if |path| == 1 && path[0] != "" && '>' !in path[0] then ValuesOf(attrs, path[0]) else []
  {
    if attrs != [] {
      var before, a := attrs[..|attrs| - 1], attrs[|attrs| - 1];
      LookupLeaves(before, path);
      if a.key != "" && !IsGrouped(a.key) {
        LookupConcat(Leaves(before), [Leaf(a.key, a.value)], path);
        assert Lookup([Leaf(a.key, a.value)], path) == LookupIn(Leaf(a.key, a.value), path) by {
          assert [Leaf(a.key, a.value)][..0] == [];
        }
        assert path == [a.key] <==> |path| == 1 && path[0] == a.key;
      }
    }
  }

  lemma {:induction false} LookupBranches<V>(attrs: seq<Attr<V>>, roots: seq<string>, path: seq<string>)
    requires forall x :: x in roots ==> Under(attrs, x) != []
    requires StrictlySorted(roots) && path != []
    ensures Lookup(Branches(attrs, roots), path) ==
            if |path| > 1 && path[0] in roots then Lookup(GroupValue(Grouped(Under(attrs, path[0]))), path[1..]) else []
    decreases |roots|
  {
    if roots != [] {
      var before, root := roots[..|roots| - 1], roots[|roots| - 1];
      LookupBranches(attrs, before, path);
      LastIsNew(roots);
      LookupSnoc(Branches(attrs, before), Branch(root, GroupValue(Grouped(Under(attrs, root)))), path);
    }
  }

  lemma LastIsNew(roots: seq<string>)
    requires StrictlySorted(roots) && roots != []
    ensures var before, root := roots[..|roots| - 1], roots[|roots| - 1];
      root !in before && forall x :: x in roots <==> x in before || x == root
  {
    var before, root := roots[..|roots| - 1], roots[|roots| - 1];
    if root in before {
      var i :| 0 <= i < |before| && before[i] == root;
      LessTotal(roots[i], root);
    }
    assert roots == before + [root];
  }

  /** Cutting a group's name off every key loses no value of the group. */
  lemma {:induction false} ValuesUnder<V>(attrs: seq<Attr<V>>, root: string, rest: string)
    requires '>' !in root
    ensures ValuesOf(Under(attrs, root), rest) == ValuesOf(attrs, root + ">" + rest)
  {
    if attrs != [] {
      var before, a := attrs[..|attrs| - 1], attrs[|attrs| - 1];
      ValuesUnder(before, root, rest);
      KeyParts(a.key, root, rest);
      if IsGrouped(a.key) && Root(a.key) == root {
        var u, x := Under(before, root), Attr(Cut(a.key, '>').1, a.value);
        assert (u + [x])[..|u + [x]| - 1] == u;
      }
    }
  }

  lemma KeyParts(key: string, root: string, rest: string)
    requires '>' !in root
    ensures key == root + ">" + rest <==> IsGrouped(key) && Cut(key, '>') == (root, rest)
  {
    if key == root + ">" + rest {
      assert key[|root|] == '>';
      SplitConcat(root, rest, '>');
      CutUnique(root, rest);
    }
  }

  lemma {:induction false} CutUnique(root: string, rest: string)
    requires '>' !in root
    ensures '>' in root + ">" + rest && Cut(root + ">" + rest, '>') == (root, rest)
  {
    var key := root + ">" + rest;
    assert key[|root|] == '>';
    if root == "" {
      assert key[1..] == rest;
    } else {
      CutUnique(root[1..], rest);
      assert key[1..] == root[1..] + ">" + rest;
      assert root == [key[0]] + root[1..];
    }
  }

  /** What of the values under a key can be found: none if the key is empty or ends in the delimiter,
      and inside a group no empty groups. */
  function Surviving<V>(values: seq<Value<V>>, key: string): seq<Value<V>> {
    if !Kept(key) then [] else if IsGrouped(key) then NotEmpty(values) else values
  }

  /** The tree holds at the path of a key exactly the surviving values logged under that key, in the
      order logged. */
  lemma {:induction false} LookupAgrees<V>(attrs: seq<Attr<V>>, key: string)
    ensures Lookup(Grouped(attrs), Split(key, '>')) == Surviving(ValuesOf(attrs, key), key)
    decreases |key|
  {
    LookupParts(attrs, Split(key, '>'));
    if IsGrouped(key) {
      var (root, rest) := Cut(key, '>');
      PathParts(key);
      LookupAgrees(Under(attrs, root), rest);
      LookupGroupValue(Grouped(Under(attrs, root)), Split(rest, '>'));
      ValuesUnder(attrs, root, rest);
      SurvivingBelow(ValuesOf(attrs, key), key);
    } else {
      SplitFree(key, '>');
    }
  }

  /** What survives under a grouped key is what of the values under the rest of the key survives the
      group. */
  lemma SurvivingBelow<V>(values: seq<Value<V>>, key: string)
    requires IsGrouped(key)
    ensures var rest := Cut(key, '>').1;
      Surviving(values, key) == if IsGrouped(rest) then Surviving(values, rest) else NotEmpty(Surviving(values, rest))
  {
    assert Kept(key) <==> Kept(Cut(key, '>').1);
    assert NotEmpty<V>([]) == [];
  }

  lemma PathParts(key: string)
    requires IsGrouped(key)
    ensures var (root, rest) := Cut(key, '>');
      && Split(key, '>') == [root] + Split(rest, '>')
      && Split(key, '>')[1..] == Split(rest, '>')
      && (|Split(rest, '>')| == 1 <==> !IsGrouped(rest))
  {
    var (root, rest) := Cut(key, '>');
    SplitConcat(root, rest, '>');
    SplitFree(root, '>');
    if IsGrouped(rest) {
      var (root', rest') := Cut(rest, '>');
      SplitConcat(root', rest', '>');
    } else {
      SplitFree(rest, '>');
    }
  }

  lemma OneGrouped<V>(root: string, key: string, value: Value<V>)
    requires '>' !in root
    ensures var attrs := [Attr(root + ">" + key, value)];
      Leaves(attrs) == [] && Roots(attrs) == [root] && Under(attrs, root) == [Attr(key, value)]
  {
    CutUnique(root, key);
    var attrs := [Attr(root + ">" + key, value)];
    assert attrs[..0] == [];
    assert Insert(root, []) == [root];
  }

  lemma OnePlain<V>(key: string, value: Value<V>)
    requires '>' !in key && key != ""
    ensures Grouped([Attr(key, value)]) == [Leaf(key, value)]
  {
    var attrs := [Attr(key, value)];
    PlainGrouped(attrs);
    assert attrs[..0] == [];
  }

  /** One attribute in a group of its own. */
  lemma {:induction false} LoneAttr<V>(root: string, key: string, value: Value<V>)
    requires '>' !in root && '>' !in key && key != ""
    ensures Grouped([Attr(root + ">" + key, value)]) == [Branch(root, GroupValue([Leaf(key, value)]))]
  {
    var attrs := [Attr(root + ">" + key, value)];
    OneGrouped(root, key, value);
    OnePlain(key, value);
    assert [root][..0] == [] && Branches(attrs, []) == [];
  }

  lemma LoneEmptyGroup<V>(root: string, key: string, path: seq<string>)
    requires '>' !in root && '>' !in key && key != "" && path != []
    ensures var attrs: seq<Attr<V>> := [Attr(root + ">" + key, EmptyGroup)];
      Grouped(attrs) == [Branch(root, [])] && Lookup(Grouped(attrs), path) == []
  {
    LoneAttr<V>(root, key, EmptyGroup);
    var leaf, branch := Node<V>.Leaf(key, EmptyGroup), Node<V>.Branch(root, []);
    assert [leaf][..0] == [] && [branch][..0] == [];
    assert Lookup([branch], path) == LookupIn(branch, path);
  }

  /** An empty group logged below another leaves nothing but the outer group, empty. */
  lemma EmptyGroupIsLost<V>()
    ensures var attrs: seq<Attr<V>> := [Attr("req>headers", EmptyGroup)];
      && Grouped(attrs) == [Branch("req", [])]
      && Lookup(Grouped(attrs), Split("req>headers", '>')) == []
  {
    ReqHeaders();
    LoneEmptyGroup<V>("req", "headers", Split("req>headers", '>'));
  }

  lemma ReqHeaders()
    ensures "req>headers" == "req" + ">" + "headers" && '>' !in "req" && '>' !in "headers"
  {
  }

  /** Without delimiters grouping only drops the nameless. */
  lemma {:induction false} PlainGrouped<V>(attrs: seq<Attr<V>>)
    requires forall i :: 0 <= i < |attrs| ==> !IsGrouped(attrs[i].key)
    ensures Roots(attrs) == [] && Grouped(attrs) == Leaves(attrs)
  {
    PlainStays(attrs);
    assert Branches(attrs, []) == [];
  }

  /** A path of one name is looked up among the leaves, a longer one in the group it begins with. */
  lemma LookupParts<V>(attrs: seq<Attr<V>>, path: seq<string>)
    requires path != []
    ensures Lookup(Grouped(attrs), path) ==
            if |path| == 1 then (if path[0] != "" && '>' !in path[0] then ValuesOf(attrs, path[0]) else [])
            else Lookup(GroupValue(Grouped(Under(attrs, path[0]))), path[1..])
  {
    var roots := Roots(attrs);
    RootsSorted(attrs);
    assert Lookup(Grouped(attrs), path) == Lookup(Leaves(attrs), path) + Lookup(Branches(attrs, roots), path) by {
      LookupConcat(Leaves(attrs), Branches(attrs, roots), path);
    }
    LookupLeaves(attrs, path);
    LookupBranches(attrs, roots, path);
    assert path[0] in roots <==> Under(attrs, path[0]) != [];
  }

  // ---------------------------------------------------------------- canonical form

  /** At every depth leaves come before groups, group names are distinct and sorted, no name holds the
      delimiter, no leaf is nameless, and no group below the top holds an empty group. */
  ghost predicate Canonical<V>(nodes: seq<Node<V>>)
    decreases nodes
  {
    && (forall i :: 0 <= i < |nodes| ==> CanonicalNode(nodes[i]))
    && (forall i, j :: 0 <= i < j < |nodes| ==> InOrder(nodes[i], nodes[j]))
  }

  ghost predicate CanonicalNode<V>(n: Node<V>)
    decreases n
  {
    && '>' !in n.key
    && match n
       case Leaf(key, _) => key != ""
       case Branch(_, children) =>
         Canonical(children) && forall i :: 0 <= i < |children| ==> !IsEmptyGroup(children[i])
  }

  predicate InOrder<V>(n: Node<V>, next: Node<V>) {
    n.Branch? ==> next.Branch? && Less(n.key, next.key)
  }

  lemma CanonicalSnoc<V>(nodes: seq<Node<V>>, last: Node<V>)
    requires Canonical(nodes) && CanonicalNode(last)
    requires forall i :: 0 <= i < |nodes| ==> InOrder(nodes[i], last)
    ensures Canonical(nodes + [last])
  {
    var all := nodes + [last];
    assert all[|nodes|] == last && forall i :: 0 <= i < |nodes| ==> all[i] == nodes[i];
  }

  lemma {:induction false} GroupValueCanonical<V>(nodes: seq<Node<V>>)
    requires Canonical(nodes)
    ensures Canonical(GroupValue(nodes))
    ensures forall i :: 0 <= i < |GroupValue(nodes)| ==> !IsEmptyGroup(GroupValue(nodes)[i])
  {
    if nodes != [] {
      var before, last := nodes[..|nodes| - 1], nodes[|nodes| - 1];
      GroupValueCanonical(before);
      GroupValueMembers(before);
      if !IsEmptyGroup(last) {
        forall i | 0 <= i < |GroupValue(before)| ensures InOrder(GroupValue(before)[i], last) {
          assert GroupValue(before)[i] in before;
        }
        CanonicalSnoc(GroupValue(before), last);
      }
    }
  }

  lemma {:induction false} LeavesCanonical<V>(attrs: seq<Attr<V>>)
    ensures forall i :: 0 <= i < |Leaves(attrs)| ==>
      Leaves(attrs)[i].Leaf? && Leaves(attrs)[i].key != "" && '>' !in Leaves(attrs)[i].key
  {
    if attrs != [] {
      LeavesCanonical(attrs[..|attrs| - 1]);
    }
  }

  lemma {:induction false} RootsFree<V>(attrs: seq<Attr<V>>)
    ensures forall i :: 0 <= i < |Roots(attrs)| ==> '>' !in Roots(attrs)[i]
  {
    RootsSorted(attrs);
    forall i | 0 <= i < |Roots(attrs)| ensures '>' !in Roots(attrs)[i] {
      var r := Roots(attrs)[i];
      assert r in Roots(attrs);
      UnderFree(attrs, r);
    }
  }

  lemma {:induction false} UnderFree<V>(attrs: seq<Attr<V>>, root: string)
    requires Under(attrs, root) != []
    ensures '>' !in root
  {
    var before, a := attrs[..|attrs| - 1], attrs[|attrs| - 1];
    if !(IsGrouped(a.key) && Root(a.key) == root) {
      UnderFree(before, root);
    }
  }

  lemma {:induction false} GroupedCanonical<V>(attrs: seq<Attr<V>>)
    ensures Canonical(Grouped(attrs))
    decreases Size(attrs), 1, 0
  {
    var roots := Roots(attrs);
    RootsSorted(attrs);
    RootsFree(attrs);
    LeavesCanonical(attrs);
    BranchesCanonical(attrs, roots);
    JoinCanonical(Leaves(attrs), Branches(attrs, roots));
  }

  /** Names of groups that have members, sorted, none holding the delimiter. */
  ghost predicate ProperRoots<V>(attrs: seq<Attr<V>>, roots: seq<string>) {
    && StrictlySorted(roots)
    && (forall x :: x in roots ==> Under(attrs, x) != [])
    && (forall i :: 0 <= i < |roots| ==> '>' !in roots[i])
  }

  lemma ProperPrefix<V>(attrs: seq<Attr<V>>, roots: seq<string>)
    requires ProperRoots(attrs, roots) && roots != []
    ensures ProperRoots(attrs, roots[..|roots| - 1])
    ensures Under(attrs, roots[|roots| - 1]) != []
  {
    assert roots[|roots| - 1] in roots;
  }

  lemma {:induction false} BranchesCanonical<V>(attrs: seq<Attr<V>>, roots: seq<string>)
    requires ProperRoots(attrs, roots)
    ensures Canonical(Branches(attrs, roots))
    decreases Size(attrs), 0, |roots|
  {
    if roots != [] {
      var before, root := roots[..|roots| - 1], roots[|roots| - 1];
      ProperPrefix(attrs, roots);
      UnderShrinks(attrs, root);
      BranchesCanonical(attrs, before);
      GroupedCanonical(Under(attrs, root));
      GroupValueCanonical(Grouped(Under(attrs, root)));
      KeysBefore(attrs, roots);
      CanonicalSnoc(Branches(attrs, before), Branch(root, GroupValue(Grouped(Under(attrs, root)))));
    }
  }

  lemma KeysBefore<V>(attrs: seq<Attr<V>>, roots: seq<string>)
    requires ProperRoots(attrs, roots) && roots != []
    ensures ProperRoots(attrs, roots[..|roots| - 1])
    ensures var bs := Branches(attrs, roots[..|roots| - 1]);
      forall i :: 0 <= i < |bs| ==> bs[i].Branch? && Less(bs[i].key, roots[|roots| - 1])
  {
    ProperPrefix(attrs, roots);
    var before := roots[..|roots| - 1];
    assert forall i :: 0 <= i < |before| ==> before[i] == roots[i];
  }

  lemma JoinCanonical<V>(leaves: seq<Node<V>>, branches: seq<Node<V>>)
    requires forall i :: 0 <= i < |leaves| ==> leaves[i].Leaf? && leaves[i].key != "" && '>' !in leaves[i].key
    requires Canonical(branches) && forall i :: 0 <= i < |branches| ==> branches[i].Branch?
    ensures Canonical(leaves + branches)
  {
    var all := leaves + branches;
    forall i | 0 <= i < |all| ensures CanonicalNode(all[i]) {
      assert all[i] == if i < |leaves| then leaves[i] else branches[i - |leaves|];
    }
    forall i, j | 0 <= i < j < |all| ensures InOrder(all[i], all[j]) {
      if i >= |leaves| {
        assert all[i] == branches[i - |leaves|] && all[j] == branches[j - |leaves|];
      } else {
        assert all[i] == leaves[i];
      }
    }
  }

  // ---------------------------------------------------------------- flattening

  function Prefixed<V>(root: string, flat: seq<Attr<V>>): (r: seq<Attr<V>>)
    ensures |r| == |flat|
  {
    seq(|flat|, i requires 0 <= i < |flat| => Attr(root + ">" + flat[i].key, flat[i].value))
  }

  /** The tree read back as flat attributes, path segments joined by the delimiter. */
  function Flatten<V>(nodes: seq<Node<V>>): seq<Attr<V>>
    decreases nodes
  {
    if nodes == [] then []
    else
      var last := nodes[|nodes| - 1];
      Flatten(nodes[..|nodes| - 1]) +
      match last
      case Leaf(key, value) => [Attr(key, value)]
      case Branch(key, children) => Prefixed(key, Flatten(children))
  }

  lemma {:induction false} ValuesConcat<V>(a: seq<Attr<V>>, b: seq<Attr<V>>, key: string)
    ensures ValuesOf(a + b, key) == ValuesOf(a, key) + ValuesOf(b, key)
  {
    if b == [] {
      assert a + b == a;
    } else {
      ValuesConcat(a, b[..|b| - 1], key);
      assert (a + b)[..|a + b| - 1] == a + b[..|b| - 1];
    }
  }

  lemma {:induction false} ValuesPrefixed<V>(root: string, flat: seq<Attr<V>>, key: string)
    requires '>' !in root
    ensures ValuesOf(Prefixed(root, flat), key) ==
            if IsGrouped(key) && Root(key) == root then ValuesOf(flat, Cut(key, '>').1) else []
  {
    if flat != [] {
      var before, a := flat[..|flat| - 1], flat[|flat| - 1];
      ValuesPrefixed(root, before, key);
      assert Prefixed(root, flat)[..|flat| - 1] == Prefixed(root, before);
      KeyParts(key, root, a.key);
    }
  }

  /** Flattening and looking up tell the same about a key. */
  lemma {:induction false} FlattenLookup<V>(nodes: seq<Node<V>>, key: string)
    requires Canonical(nodes)
    ensures ValuesOf(Flatten(nodes), key) == Lookup(nodes, Split(key, '>'))
    decreases nodes
  {
    if nodes != [] {
      var before, last := nodes[..|nodes| - 1], nodes[|nodes| - 1];
      CanonicalPrefix(nodes);
      assert CanonicalNode(last);
      FlattenLookup(before, key);
      var path := Split(key, '>');
      JoinSplit(key, '>');
      match last
      case Leaf(k, v) =>
        ValuesConcat(Flatten(before), [Attr(k, v)], key);
        SplitFree(k, '>');
        SingleValue(k, v, key);
        assert path == [k] ==> key == k;
      case Branch(k, children) =>
        ValuesConcat(Flatten(before), Prefixed(k, Flatten(children)), key);
        ValuesPrefixed(k, Flatten(children), key);
        if IsGrouped(key) {
          var (root, rest) := Cut(key, '>');
          SplitConcat(root, rest, '>');
          SplitFree(root, '>');
          assert path[1..] == Split(rest, '>');
          if root == k {
            FlattenLookup(children, rest);
          }
        } else {
          SplitFree(key, '>');
        }
    }
  }

  lemma SingleValue<V>(k: string, v: Value<V>, key: string)
    ensures ValuesOf([Attr(k, v)], key) == if k == key then [v] else []
  {
    assert [Attr(k, v)][..0] == [];
  }

  lemma CanonicalPrefix<V>(nodes: seq<Node<V>>)
    requires Canonical(nodes) && nodes != []
    ensures Canonical(nodes[..|nodes| - 1])
  {
  }

  /** The attributes whose keys survive. */
  function KeptOnly<V>(attrs: seq<Attr<V>>): seq<Attr<V>> {
    if attrs == [] then []
    else
      var before, a := KeptOnly(attrs[..|attrs| - 1]), attrs[|attrs| - 1];
      if Kept(a.key) then before + [a] else before
  }

  /** An empty group survives at the top level only. */
  predicate Survives<V>(a: Attr<V>) {
    Kept(a.key) && (IsGrouped(a.key) ==> !a.value.EmptyGroup?)
  }

  function Survivors<V>(attrs: seq<Attr<V>>): seq<Attr<V>> {
    if attrs == [] then []
    else
      var before, a := Survivors(attrs[..|attrs| - 1]), attrs[|attrs| - 1];
      if Survives(a) then before + [a] else before
  }

  lemma {:induction false} ValuesSurviving<V>(attrs: seq<Attr<V>>, key: string)
    ensures ValuesOf(Survivors(attrs), key) == Surviving(ValuesOf(attrs, key), key)
  {
    if attrs == [] {
      assert NotEmpty<V>([]) == [];
    } else {
      var before, a := attrs[..|attrs| - 1], attrs[|attrs| - 1];
      ValuesSurviving(before, key);
      if a.key == key {
        SurvivingSnoc(ValuesOf(before, key), a);
      }
      if Survives(a) {
        ValuesConcat(Survivors(before), [a], key);
        SingleValue(a.key, a.value, key);
      }
    }
  }

  lemma SurvivingSnoc<V>(values: seq<Value<V>>, a: Attr<V>)
    ensures Surviving(values + [a.value], a.key) ==
            if Survives(a) then Surviving(values, a.key) + [a.value] else Surviving(values, a.key)
  {
    NotEmptyConcat(values, [a.value]);
    NotEmptyOne(a.value);
  }

  lemma {:induction false} SurvivorsOfKept<V>(attrs: seq<Attr<V>>)
    ensures |Survivors(attrs)| <= |KeptOnly(attrs)|
    ensures |Survivors(attrs)| == |KeptOnly(attrs)| <==> NoGroupedEmpty(attrs)
    ensures NoGroupedEmpty(attrs) ==> Survivors(attrs) == KeptOnly(attrs)
  {
    if attrs != [] {
      var before, a := attrs[..|attrs| - 1], attrs[|attrs| - 1];
      SurvivorsOfKept(before);
      assert NoGroupedEmpty(attrs) <==> NoGroupedEmpty(before) && (Kept(a.key) ==> Survives(a)) by {
        assert forall i :: 0 <= i < |before| ==> before[i] == attrs[i];
      }
    }
  }

  /** No empty group is logged below another group. */
  ghost predicate NoGroupedEmpty<V>(attrs: seq<Attr<V>>) {
    forall i :: 0 <= i < |attrs| ==> (Kept(attrs[i].key) ==> Survives(attrs[i]))
  }

  lemma {:induction false} CountByKey<V>(attrs: seq<Attr<V>>, key: string, value: Value<V>)
    ensures multiset(attrs)[Attr(key, value)] == multiset(ValuesOf(attrs, key))[value]
  {
    if attrs != [] {
      var before, a := attrs[..|attrs| - 1], attrs[|attrs| - 1];
      CountByKey(before, key, value);
      assert attrs == before + [a];
      assert a == Attr(key, value) <==> a.key == key && a.value == value;
    }
  }

  lemma ConservationByKey<V>(attrs: seq<Attr<V>>, key: string)
    ensures ValuesOf(Flatten(Grouped(attrs)), key) == ValuesOf(Survivors(attrs), key)
  {
    GroupedCanonical(attrs);
    FlattenLookup(Grouped(attrs), key);
    LookupAgrees(attrs, key);
    ValuesSurviving(attrs, key);
  }

  lemma SameByKey<V>(xs: seq<Attr<V>>, ys: seq<Attr<V>>)
    requires forall key :: ValuesOf(xs, key) == ValuesOf(ys, key)
    ensures multiset(xs) == multiset(ys)
  {
    forall a: Attr<V> ensures multiset(xs)[a] == multiset(ys)[a] {
      CountByKey(xs, a.key, a.value);
      CountByKey(ys, a.key, a.value);
    }
  }

  /** Flattening the tree gives back, those of one key in the order logged, exactly the inputs that
      survive: whose key is not empty and does not end in the delimiter, and which are not an empty
      group below another group. Nothing is duplicated or invented. */
  lemma {:induction false} Conservation<V>(attrs: seq<Attr<V>>)
    ensures multiset(Flatten(Grouped(attrs))) == multiset(Survivors(attrs))
    ensures forall key :: ValuesOf(Flatten(Grouped(attrs)), key) == ValuesOf(Survivors(attrs), key)
  {
    var flat, kept := Flatten(Grouped(attrs)), Survivors(attrs);
    forall key ensures ValuesOf(flat, key) == ValuesOf(kept, key) {
      ConservationByKey(attrs, key);
    }
    SameByKey(flat, kept);
  }

  /** Every input with a proper key comes back exactly when none of them is an empty group below another
      group. */
  lemma {:induction false} NothingLost<V>(attrs: seq<Attr<V>>)
    ensures multiset(Flatten(Grouped(attrs))) == multiset(KeptOnly(attrs)) <==> NoGroupedEmpty(attrs)
  {
    Conservation(attrs);
    SurvivorsOfKept(attrs);
    assert |multiset(Survivors(attrs))| == |Survivors(attrs)|;
    assert |multiset(KeptOnly(attrs))| == |KeptOnly(attrs)|;
  }

  // ---------------------------------------------------------------- order of the inputs

  /** The path of the group an attribute ends up in. */
  function Parent(key: string): seq<string> {
    var path := Split(key, '>');
    path[..|path| - 1]
  }

  lemma ParentUnder(key: string)
    requires IsGrouped(key)
    ensures Parent(key) == [Root(key)] + Parent(Cut(key, '>').1)
  {
    var (root, rest) := Cut(key, '>');
    SplitConcat(root, rest, '>');
    SplitFree(root, '>');
  }

  lemma RootsByUnder<V>(xs: seq<Attr<V>>, ys: seq<Attr<V>>)
    requires forall r :: Under(xs, r) == [] <==> Under(ys, r) == []
    ensures Roots(xs) == Roots(ys)
  {
    RootsSorted(xs);
    RootsSorted(ys);
    SortedOnce(Roots(xs), Roots(ys));
  }

  lemma {:induction false} SameBranches<V>(xs: seq<Attr<V>>, ys: seq<Attr<V>>, roots: seq<string>)
    requires forall r :: r in roots ==> Under(xs, r) != [] && Under(ys, r) != []
    requires forall r :: r in roots ==> Grouped(Under(xs, r)) == Grouped(Under(ys, r))
    ensures Branches(xs, roots) == Branches(ys, roots)
    decreases |roots|
  {
    if roots != [] {
      assert roots[|roots| - 1] in roots;
      SameBranches(xs, ys, roots[..|roots| - 1]);
    }
  }

  lemma SameTree<V>(xs: seq<Attr<V>>, ys: seq<Attr<V>>)
    requires Leaves(xs) == Leaves(ys)
    requires forall r :: (Under(xs, r) == [] <==> Under(ys, r) == []) && Grouped(Under(xs, r)) == Grouped(Under(ys, r))
    ensures Grouped(xs) == Grouped(ys)
  {
    RootsByUnder(xs, ys);
    RootsSorted(xs);
    RootsSorted(ys);
    SameBranches(xs, ys, Roots(xs));
  }

  /** The inputs that end up in one group, in order. */
  function Of<V>(attrs: seq<Attr<V>>, path: seq<string>): seq<Attr<V>> {
    if attrs == [] then []
    else
      var before, a := Of(attrs[..|attrs| - 1], path), attrs[|attrs| - 1];
      if Parent(a.key) == path then before + [a] else before
  }

  lemma {:induction false} OfConcat<V>(a: seq<Attr<V>>, b: seq<Attr<V>>, path: seq<string>)
    ensures Of(a + b, path) == Of(a, path) + Of(b, path)
  {
    if b == [] {
      assert a + b == a;
    } else {
      OfConcat(a, b[..|b| - 1], path);
      assert (a + b)[..|a + b| - 1] == a + b[..|b| - 1];
    }
  }

  lemma LeafParent(key: string)
    ensures Parent(key) == [] <==> !IsGrouped(key)
  {
    if IsGrouped(key) {
      ParentUnder(key);
    } else {
      SplitFree(key, '>');
    }
  }

  lemma {:induction false} LeavesOf<V>(attrs: seq<Attr<V>>)
    ensures Leaves(Of(attrs, [])) == Leaves(attrs)
  {
    if attrs != [] {
      var before, a := attrs[..|attrs| - 1], attrs[|attrs| - 1];
      LeavesOf(before);
      LeafParent(a.key);
      if Parent(a.key) == [] {
        LeavesSnoc(Of(before, []), a);
      }
    }
  }

  lemma UnderSnoc<V>(attrs: seq<Attr<V>>, a: Attr<V>, root: string)
    ensures Under(attrs + [a], root) ==
            if IsGrouped(a.key) && Root(a.key) == root then Under(attrs, root) + [Attr(Cut(a.key, '>').1, a.value)]
            else Under(attrs, root)
  {
    assert (attrs + [a])[..|attrs|] == attrs;
  }

  lemma OfSnoc<V>(attrs: seq<Attr<V>>, a: Attr<V>, path: seq<string>)
    ensures Of(attrs + [a], path) == if Parent(a.key) == path then Of(attrs, path) + [a] else Of(attrs, path)
  {
    assert (attrs + [a])[..|attrs|] == attrs;
  }

  /** Below a root the groups are those of the paths that begin with it. */
  lemma {:induction false} OfUnder<V>(attrs: seq<Attr<V>>, root: string, path: seq<string>)
    ensures Of(Under(attrs, root), path) == Under(Of(attrs, [root] + path), root)
  {
    if attrs != [] {
      var before, a := attrs[..|attrs| - 1], attrs[|attrs| - 1];
      OfUnder(before, root, path);
      LeafParent(a.key);
      if IsGrouped(a.key) {
        ParentUnder(a.key);
        var rest := Attr(Cut(a.key, '>').1, a.value);
        assert Parent(a.key) == [root] + path <==> Root(a.key) == root && Parent(rest.key) == path by {
          assert Parent(a.key)[0] == Root(a.key) && Parent(a.key)[1..] == Parent(rest.key);
          assert ([root] + path)[1..] == path;
        }
        OfSnoc(Under(before, root), rest, path);
        UnderSnoc(Of(before, [root] + path), a, root);
      }
    }
  }

  lemma Inhabited<V>(attrs: seq<Attr<V>>)
    requires attrs != []
    ensures Of(attrs, Parent(attrs[|attrs| - 1].key)) != []
  {
  }

  /** Only the order within each group matters: inputs that agree on that give the same tree. */
  lemma {:induction false} OrderWithinGroups<V>(xs: seq<Attr<V>>, ys: seq<Attr<V>>)
    requires forall path :: Of(xs, path) == Of(ys, path)
    ensures Grouped(xs) == Grouped(ys)
    decreases Size(xs)
  {
    LeavesOf(xs);
    LeavesOf(ys);
    forall r
      ensures Under(xs, r) == [] <==> Under(ys, r) == []
      ensures Grouped(Under(xs, r)) == Grouped(Under(ys, r))
    {
      SameWithin(xs, ys, r);
      if Under(xs, r) != [] {
        UnderSmaller(xs, r);
        OrderWithinGroups(Under(xs, r), Under(ys, r));
      }
    }
    SameTree(xs, ys);
  }

  lemma SameWithin<V>(xs: seq<Attr<V>>, ys: seq<Attr<V>>, root: string)
    requires forall path :: Of(xs, path) == Of(ys, path)
    ensures forall path :: Of(Under(xs, root), path) == Of(Under(ys, root), path)
    ensures Under(xs, root) == [] <==> Under(ys, root) == []
  {
    forall path ensures Of(Under(xs, root), path) == Of(Under(ys, root), path) {
      OfUnder(xs, root, path);
      OfUnder(ys, root, path);
    }
    if Under(xs, root) != [] {
      Inhabited(Under(xs, root));
    }
    if Under(ys, root) != [] {
      Inhabited(Under(ys, root));
    }
  }

  /** Swapping two adjacent inputs of different groups leaves the whole tree as it was. */
  lemma {:induction false} SwapAdjacent<V>(before: seq<Attr<V>>, a: Attr<V>, b: Attr<V>, after: seq<Attr<V>>)
    requires Parent(a.key) != Parent(b.key)
    ensures Grouped(before + [a, b] + after) == Grouped(before + [b, a] + after)
  {
    forall path ensures Of(before + [a, b] + after, path) == Of(before + [b, a] + after, path) {
      OfConcat(before + [a, b], after, path);
      OfConcat(before + [b, a], after, path);
      OfConcat(before, [a, b], path);
      OfConcat(before, [b, a], path);
      assert [a, b][..1] == [a] && [b, a][..1] == [b] && [a][..0] == [] && [b][..0] == [];
    }
    OrderWithinGroups(before + [a, b] + after, before + [b, a] + after);
  }

  // ---------------------------------------------------------------- grouping again

  /** A node as a value. */
  function NodeValue<V>(n: Node<V>): Value<Node<V>> {
    if IsEmptyGroup(n) then EmptyGroup else Other(n)
  }

  /** The result taken as input once more: every node an attribute, its value carried along. */
  function AsAttrs<V>(nodes: seq<Node<V>>): (r: seq<Attr<Node<V>>>)
    ensures |r| == |nodes|
  {
    seq(|nodes|, i requires 0 <= i < |nodes| => Attr(nodes[i].key, NodeValue(nodes[i])))
  }

  function Unchanged<V>(nodes: seq<Node<V>>): (r: seq<Node<Node<V>>>)
    ensures |r| == |nodes|
  {
    seq(|nodes|, i requires 0 <= i < |nodes| => Leaf(nodes[i].key, NodeValue(nodes[i])))
  }

  ghost predicate HasNameless<V>(nodes: seq<Node<V>>) {
    exists i :: 0 <= i < |nodes| && nodes[i].key == ""
  }

  lemma {:induction false} PlainStays<V>(attrs: seq<Attr<V>>)
    requires forall i :: 0 <= i < |attrs| ==> !IsGrouped(attrs[i].key)
    ensures Roots(attrs) == []
    ensures |Leaves(attrs)| <= |attrs|
    ensures |Leaves(attrs)| == |attrs| <==> forall i :: 0 <= i < |attrs| ==> attrs[i].key != ""
    ensures |Leaves(attrs)| == |attrs| ==>
              forall i :: 0 <= i < |attrs| ==> Leaves(attrs)[i] == Leaf(attrs[i].key, attrs[i].value)
  {
    if attrs != [] {
      PlainStays(attrs[..|attrs| - 1]);
    }
  }

  lemma {:induction false} NamelessRoot<V>(attrs: seq<Attr<V>>)
    ensures "" in Roots(attrs) <==> exists i :: 0 <= i < |attrs| && ">" <= attrs[i].key
  {
    RootsSorted(attrs);
    NamelessUnder(attrs);
  }

  lemma {:induction false} NamelessUnder<V>(attrs: seq<Attr<V>>)
    ensures Under(attrs, "") != [] <==> exists i :: 0 <= i < |attrs| && ">" <= attrs[i].key
  {
    if attrs != [] {
      var before, a := attrs[..|attrs| - 1], attrs[|attrs| - 1];
      NamelessUnder(before);
      assert forall i :: 0 <= i < |before| ==> attrs[i] == before[i];
      assert IsGrouped(a.key) && Root(a.key) == "" <==> ">" <= a.key;
    }
  }

  /** Grouping the result once more changes nothing exactly when no input key begins with the
      delimiter. */
  lemma {:induction false} RegroupFixpoint<V>(attrs: seq<Attr<V>>)
    ensures Grouped(AsAttrs(Grouped(attrs))) == Unchanged(Grouped(attrs)) <==>
            forall i :: 0 <= i < |attrs| ==> !(">" <= attrs[i].key)
  {
    var nodes := Grouped(attrs);
    GroupedCanonical(attrs);
    assert forall i :: 0 <= i < |nodes| ==> CanonicalNode(nodes[i]);
    RegroupPlain(nodes);
    NamelessRoot(attrs);
    NamelessNode(attrs);
  }

  lemma RegroupPlain<V>(nodes: seq<Node<V>>)
    requires forall i :: 0 <= i < |nodes| ==> '>' !in nodes[i].key
    ensures Grouped(AsAttrs(nodes)) == Unchanged(nodes) <==> !HasNameless(nodes)
  {
    var again := AsAttrs(nodes);
    PlainGrouped(again);
    PlainStays(again);
    assert forall i :: 0 <= i < |nodes| ==> again[i].key == nodes[i].key;
    if !HasNameless(nodes) {
      assert Leaves(again) == Unchanged(nodes);
    } else {
      assert |Leaves(again)| != |Unchanged(nodes)|;
    }
  }

  lemma NamelessNode<V>(attrs: seq<Attr<V>>)
    ensures "" in Roots(attrs) <==> HasNameless(Grouped(attrs))
  {
    var roots, leaves, nodes := Roots(attrs), Leaves(attrs), Grouped(attrs);
    RootsSorted(attrs);
    LeavesCanonical(attrs);
    var branches := Branches(attrs, roots);
    assert nodes == leaves + branches;
    forall i | 0 <= i < |nodes|
      ensures nodes[i].key == if i < |leaves| then leaves[i].key else roots[i - |leaves|]
    {
      if i >= |leaves| {
        assert nodes[i] == branches[i - |leaves|];
      }
    }
    NamelessAfter(leaves, roots, nodes);
  }

  lemma NamelessAfter<V>(leaves: seq<Node<V>>, roots: seq<string>, nodes: seq<Node<V>>)
    requires |nodes| == |leaves| + |roots|
    requires forall i :: 0 <= i < |leaves| ==> leaves[i].key != ""
    requires forall i :: 0 <= i < |nodes| ==>
               nodes[i].key == if i < |leaves| then leaves[i].key else roots[i - |leaves|]
    ensures "" in roots <==> HasNameless(nodes)
  {
    if "" in roots {
      var k :| 0 <= k < |roots| && roots[k] == "";
      assert nodes[|leaves| + k].key == "";
    }
  }

  // ---------------------------------------------------------------- the algorithm

  /** `sort.Strings`. */
  function SortStrings(s: seq<string>): seq<string> {
    if s == [] then [] else Insert(s[|s| - 1], SortStrings(s[..|s| - 1]))
  }

  ghost predicate Distinct(s: seq<string>) {
    forall i, j :: 0 <= i < j < |s| ==> s[i] != s[j]
  }

  lemma {:induction false} SortStringsSorts(s: seq<string>)
    requires Distinct(s)
    ensures StrictlySorted(SortStrings(s))
    ensures forall x :: x in SortStrings(s) <==> x in s
  {
    if s != [] {
      var before, x := s[..|s| - 1], s[|s| - 1];
      SortStringsSorts(before);
      assert x !in before;
      InsertSorts(x, SortStrings(before));
      assert forall y :: y in s <==> y in before || y == x;
    }
  }

  lemma {:induction false} UnderMembers<V>(attrs: seq<Attr<V>>, root: string)
    ensures |Under(attrs, root)| == |Members(attrs, root)|
    ensures forall i :: 0 <= i < |Members(attrs, root)| ==>
      var m := Members(attrs, root)[i];
      IsGrouped(m.key) && Under(attrs, root)[i] == Attr(Cut(m.key, '>').1, m.value)
  {
    if attrs != [] {
      UnderMembers(attrs[..|attrs| - 1], root);
    }
  }

  /** The groups built from these attributes, by root key. */
  ghost predicate ByRoot<V>(groups: map<string, seq<Attr<V>>>, attrs: seq<Attr<V>>) {
    && (forall r :: r in groups <==> Members(attrs, r) != [])
    && (forall r :: r in groups ==> groups[r] == Members(attrs, r))
  }

  function AddToGroup<V>(groups: map<string, seq<Attr<V>>>, a: Attr<V>): map<string, seq<Attr<V>>>
    requires IsGrouped(a.key)
  {
    var root := Root(a.key);
    groups[root := (if root in groups then groups[root] else []) + [a]]
  }

  lemma MembersSnoc<V>(attrs: seq<Attr<V>>, a: Attr<V>, root: string)
    ensures Members(attrs + [a], root) ==
            if IsGrouped(a.key) && Root(a.key) == root then Members(attrs, root) + [a] else Members(attrs, root)
  {
    assert (attrs + [a])[..|attrs|] == attrs;
  }

  lemma ByRootSnoc<V>(groups: map<string, seq<Attr<V>>>, attrs: seq<Attr<V>>, a: Attr<V>)
    requires ByRoot(groups, attrs)
    ensures ByRoot(if IsGrouped(a.key) then AddToGroup(groups, a) else groups, attrs + [a])
  {
    forall r
      ensures Members(attrs + [a], r) ==
              if IsGrouped(a.key) && Root(a.key) == r then Members(attrs, r) + [a] else Members(attrs, r)
    {
      MembersSnoc(attrs, a, r);
    }
  }

  lemma LeavesSnoc<V>(attrs: seq<Attr<V>>, a: Attr<V>)
    ensures Leaves(attrs + [a]) ==
            if a.key == "" || IsGrouped(a.key) then Leaves(attrs) else Leaves(attrs) + [Leaf(a.key, a.value)]
  {
    assert (attrs + [a])[..|attrs|] == attrs;
  }

  /** The first pass: attributes that stay, and the others by root key. */
  method Separate<V>(attrs: seq<Attr<V>>) returns (groups: map<string, seq<Attr<V>>>, ungrouped: seq<Node<V>>)
    ensures ungrouped == Leaves(attrs)
    ensures forall r :: r in groups <==> Under(attrs, r) != []
    ensures forall r :: r in groups ==> groups[r] == Members(attrs, r)
  {
    groups, ungrouped := map[], [];
    for i := 0 to |attrs|
      invariant ungrouped == Leaves(attrs[..i]) && ByRoot(groups, attrs[..i])
    {
      var attr := attrs[i];
      assert attrs[..i + 1] == attrs[..i] + [attr];
      LeavesSnoc(attrs[..i], attr);
      ByRootSnoc(groups, attrs[..i], attr);
      if attr.key == "" {
        continue;
      }
      if '>' in attr.key {
        var root := Cut(attr.key, '>').0;
        var group := if root in groups then groups[root] else [];
        groups := groups[root := group + [attr]];
      } else {
        ungrouped := ungrouped + [Leaf(attr.key, attr.value)];
      }
    }
    assert attrs[..|attrs|] == attrs;
    forall r ensures |Under(attrs, r)| == |Members(attrs, r)| {
      UnderMembers(attrs, r);
    }
  }

  /** The keys of a map, in whatever order the map yields them. */
  method KeysOf<T>(groups: map<string, T>) returns (keys: seq<string>)
    ensures Distinct(keys) && forall k :: k in keys <==> k in groups
  {
    keys := [];
    var rest := groups.Keys;
    while rest != {}
      invariant rest <= groups.Keys && Distinct(keys)
      invariant forall k :: k in keys <==> k in groups && k !in rest
    {
      var k :| k in rest;
      rest := rest - {k};
      keys := keys + [k];
    }
  }

  method Strip<V>(groupAttrs: seq<Attr<V>>) returns (stripped: seq<Attr<V>>)
    requires forall i :: 0 <= i < |groupAttrs| ==> '>' in groupAttrs[i].key
    ensures |stripped| == |groupAttrs|
    ensures forall i :: 0 <= i < |groupAttrs| ==>
      stripped[i] == Attr(Cut(groupAttrs[i].key, '>').1, groupAttrs[i].value)
  {
    stripped := [];
    for i := 0 to |groupAttrs|
      invariant |stripped| == i
      invariant forall j :: 0 <= j < i ==>
        stripped[j] == Attr(Cut(groupAttrs[j].key, '>').1, groupAttrs[j].value)
    {
      stripped := stripped + [Attr(Cut(groupAttrs[i].key, '>').1, groupAttrs[i].value)];
    }
  }

  /** The keys of the groups, sorted, are the roots whatever order the map gave them in. */
  lemma SortedKeysAreRoots<V>(attrs: seq<Attr<V>>, keys: seq<string>)
    requires Distinct(keys) && forall k :: k in keys <==> Under(attrs, k) != []
    ensures SortStrings(keys) == Roots(attrs)
  {
    SortStringsSorts(keys);
    RootsSorted(attrs);
    SortedOnce(SortStrings(keys), Roots(attrs));
  }

  /** One turn of the second pass. */
  method GroupRoot<V>(ghost attrs: seq<Attr<V>>, groupAttrs: seq<Attr<V>>, rootKey: string) returns (group: Node<V>)
    requires groupAttrs == Members(attrs, rootKey) && Under(attrs, rootKey) != []
    ensures group == Branch(rootKey, GroupValue(Grouped(Under(attrs, rootKey))))
    decreases Size(attrs), 0
  {
    UnderMembers(attrs, rootKey);
    var stripped := Strip(groupAttrs);
    assert stripped == Under(attrs, rootKey);
    UnderShrinks(attrs, rootKey);
    var children := GroupAttrsRecursive(stripped);
    group := Branch(rootKey, GroupValue(children));
  }

  /** The second pass. */
  method GroupRoots<V>(ghost attrs: seq<Attr<V>>, groups: map<string, seq<Attr<V>>>, keys: seq<string>)
    returns (branches: seq<Node<V>>)
    requires forall r :: r in keys ==> Under(attrs, r) != [] && r in groups && groups[r] == Members(attrs, r)
    ensures branches == Branches(attrs, keys)
    decreases Size(attrs), 1
  {
    branches := [];
    for i := 0 to |keys|
      invariant branches == Branches(attrs, keys[..i])
    {
      assert keys[..i + 1][..i] == keys[..i] && keys[i] in keys;
      var group := GroupRoot(attrs, groups[keys[i]], keys[i]);
      branches := branches + [group];
    }
    assert keys[..|keys|] == keys;
  }

  method GroupAttrsRecursive<V>(attrs: seq<Attr<V>>) returns (result: seq<Node<V>>)
    ensures result == Grouped(attrs)
    decreases Size(attrs), 2
  {
    if |attrs| == 0 {
      return [];
    }
    var groups, ungrouped := Separate(attrs);
    var keys := KeysOf(groups);
    SortedKeysAreRoots(attrs, keys);
    RootsSorted(attrs);
    if |keys| == 0 {
      return ungrouped;
    }
    keys := SortStrings(keys);
    var branches := GroupRoots(attrs, groups, keys);
    return ungrouped + branches;
  }
}
