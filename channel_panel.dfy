/**
 * The channel-selection and tree-building logic of gov/usgs/swarm/ChannelPanel.java,
 * without its Swing parts: the channel tree is a value, a selected tree path is the
 * node it ends in, and the group configuration file is a map from a channel to the
 * list of its groups.
 */
module Channels {

  import opened Wrappers
  import opened StringOrder

  /** The most channels one selection may open at once. */
  const MAX_CHANNELS_AT_ONCE: nat := 500

  /** A tree node: its label and its children; a node without children is a leaf. */
  datatype TreeNode = TreeNode(name: string, children: seq<TreeNode>)

  predicate IsLeaf(n: TreeNode)
  {
    |n.children| == 0
  }

  function Leaf(name: string): TreeNode
  {
    TreeNode(name, [])
  }

  predicate NoDuplicates(s: seq<string>)
  {
    forall i, j :: 0 <= i < j < |s| ==> s[i] != s[j]
  }

  function Min(a: nat, b: nat): nat
  {
    if a <= b then a else b
  }

  // ---------------------------------------------------------------------------------------
  // getSelectedLeaves: its specification

  /** The names of the children that are leaves, in child order. */
  function LeafChildNames(cs: seq<TreeNode>): seq<string>
  {
    if cs == [] then []
    else
      var last := cs[|cs| - 1];
      LeafChildNames(cs[..|cs| - 1]) + (if IsLeaf(last) then [last.name] else [])
  }

  /** What one selected node contributes: its own name if it is a leaf, else its leaf children's names. */
  function PathLeaves(n: TreeNode): seq<string>
  {
    if IsLeaf(n) then [n.name] else LeafChildNames(n.children)
  }

  /** All contributions of the selected nodes, in selection order, duplicates included. */
  function Candidates(paths: seq<TreeNode>): seq<string>
  {
    if paths == [] then []
    else Candidates(paths[..|paths| - 1]) + PathLeaves(paths[|paths| - 1])
  }

  /** The list a run of "add unless already contained" builds from s. */
  function Dedup(s: seq<string>): seq<string>
  {
    if s == [] then []
    else
      var d := Dedup(s[..|s| - 1]);
      if s[|s| - 1] in d then d else d + [s[|s| - 1]]
  }

  /** The first 500 distinct candidate names. */
  function SelectedLeaves(paths: seq<TreeNode>): seq<string>
  {
    var d := Dedup(Candidates(paths));
    d[..Min(|d|, MAX_CHANNELS_AT_ONCE)]
  }

  /** Node n, when selected, names x: x is n itself as a leaf, or one of n's direct leaf children. */
  predicate Names(n: TreeNode, x: string)
  {
    if IsLeaf(n) then n.name == x
    else exists k :: 0 <= k < |n.children| && IsLeaf(n.children[k]) && n.children[k].name == x
  }

  /** The position of the first occurrence of x in s, or |s| when there is none. */
  function IndexOf(s: seq<string>, x: string): (r: nat)
    ensures r <= |s|
    ensures r < |s| <==> x in s
    ensures r < |s| ==> s[r] == x
    ensures x !in s[..r]
  {
    if s == [] then 0
    else if s[0] == x then 0
    else
      var r := 1 + IndexOf(s[1..], x);
      assert s[..r] == [s[0]] + s[1..][..r - 1];
      r
  }

  // ---------------------------------------------------------------------------------------
  // getSelectedLeaves: properties of the specification

  lemma {:induction false} LeafChildNamesExact(cs: seq<TreeNode>, x: string)
    ensures x in LeafChildNames(cs) <==> exists k :: 0 <= k < |cs| && IsLeaf(cs[k]) && cs[k].name == x
  {
    if cs != [] {
      var init := cs[..|cs| - 1];
      LeafChildNamesExact(init, x);
      if x in LeafChildNames(init) {
        var k :| 0 <= k < |init| && IsLeaf(init[k]) && init[k].name == x;
        assert cs[k] == init[k];
      }
      if exists k :: 0 <= k < |cs| && IsLeaf(cs[k]) && cs[k].name == x {
        var k :| 0 <= k < |cs| && IsLeaf(cs[k]) && cs[k].name == x;
        if k < |init| {
          assert init[k] == cs[k];
        }
      }
    }
  }

  lemma PathLeavesExact(n: TreeNode, x: string)
    ensures x in PathLeaves(n) <==> Names(n, x)
  {
    if !IsLeaf(n) {
      LeafChildNamesExact(n.children, x);
    }
  }

  /** A name is a candidate exactly when some selected node names it; grandchildren never are. */
  lemma {:induction false} CandidatesExact(paths: seq<TreeNode>, x: string)
    ensures x in Candidates(paths) <==> exists i :: 0 <= i < |paths| && Names(paths[i], x)
  {
    if paths != [] {
      var init := paths[..|paths| - 1];
      var last := paths[|paths| - 1];
      CandidatesExact(init, x);
      PathLeavesExact(last, x);
      assert Candidates(paths) == Candidates(init) + PathLeaves(last);
      if exists i :: 0 <= i < |paths| && Names(paths[i], x) {
        var i :| 0 <= i < |paths| && Names(paths[i], x);
        assert i < |init| ==> init[i] == paths[i];
      }
      if x in Candidates(init) {
        var i :| 0 <= i < |init| && Names(init[i], x);
        assert paths[i] == init[i];
      }
    }
  }

  /** Dedup keeps exactly the elements of its input. */
  lemma {:induction false} DedupSameElements(s: seq<string>)
    ensures forall x :: x in Dedup(s) <==> x in s
  {
    if s != [] {
      var init := s[..|s| - 1];
      DedupSameElements(init);
      assert s == init + [s[|s| - 1]];
    }
  }

  /** Dedup never lists a name twice. */
  lemma {:induction false} DedupNoDuplicates(s: seq<string>)
    ensures NoDuplicates(Dedup(s))
  {
    if s != [] {
      DedupNoDuplicates(s[..|s| - 1]);
    }
  }

  lemma IndexOfSnoc(s: seq<string>, y: string, x: string)
    ensures x in s ==> IndexOf(s + [y], x) == IndexOf(s, x)
    ensures x !in s && x == y ==> IndexOf(s + [y], x) == |s|
  {
    var r := IndexOf(s, x);
    var r' := IndexOf(s + [y], x);
    if x in s {
      assert (s + [y])[r] == x;
      assert (s + [y])[..r] == s[..r];
    } else if x == y {
      assert (s + [y])[..|s|] == s;
    }
  }

  /** Dedup lists names in the order of their first occurrence in the input. */
  lemma {:induction false} DedupFirstOccurrenceOrder(s: seq<string>)
    ensures forall i, j :: 0 <= i < j < |Dedup(s)| ==> IndexOf(s, Dedup(s)[i]) < IndexOf(s, Dedup(s)[j])
  {
    if s != [] {
      var init := s[..|s| - 1];
      var y := s[|s| - 1];
      assert s == init + [y];
      DedupFirstOccurrenceOrder(init);
      DedupSameElements(init);
      var d := Dedup(init);
      forall x | x in d ensures IndexOf(s, x) == IndexOf(init, x) < |init| {
        IndexOfSnoc(init, y, x);
      }
      if y !in d {
        IndexOfSnoc(init, y, y);
        assert Dedup(s) == d + [y];
        forall i, j | 0 <= i < j < |Dedup(s)| ensures IndexOf(s, Dedup(s)[i]) < IndexOf(s, Dedup(s)[j]) {
          assert Dedup(s)[i] == d[i];
          if j < |d| {
            assert Dedup(s)[j] == d[j];
          }
        }
      }
    }
  }

  /** The selection is a prefix of the distinct candidates: all of them up to 500, else exactly the first 500. */
  lemma SelectedLeavesTruncation(paths: seq<TreeNode>)
    ensures var d := Dedup(Candidates(paths));
      && |SelectedLeaves(paths)| <= MAX_CHANNELS_AT_ONCE
      && (|d| <= MAX_CHANNELS_AT_ONCE ==> SelectedLeaves(paths) == d)
      && (|d| > MAX_CHANNELS_AT_ONCE ==> SelectedLeaves(paths) == d[..MAX_CHANNELS_AT_ONCE])
  {
  }

  /**
   * Everything the selection promises: no name twice, at most 500 names, each named by a
   * selected node, in first-occurrence order of the candidates.
   */
  lemma SelectedLeavesCorrect(paths: seq<TreeNode>)
    ensures NoDuplicates(SelectedLeaves(paths))
    ensures |SelectedLeaves(paths)| <= MAX_CHANNELS_AT_ONCE
    ensures forall x :: x in SelectedLeaves(paths) ==> exists i :: 0 <= i < |paths| && Names(paths[i], x)
    ensures forall i, j :: 0 <= i < j < |SelectedLeaves(paths)| ==>
      IndexOf(Candidates(paths), SelectedLeaves(paths)[i]) < IndexOf(Candidates(paths), SelectedLeaves(paths)[j])
  {
    var c := Candidates(paths);
    var d := Dedup(c);
    var r := SelectedLeaves(paths);
    DedupNoDuplicates(c);
    DedupSameElements(c);
    DedupFirstOccurrenceOrder(c);
    forall i | 0 <= i < |r| ensures r[i] == d[i] { }
    forall x | x in r ensures exists i :: 0 <= i < |paths| && Names(paths[i], x) {
      CandidatesExact(paths, x);
    }
  }

  // ---------------------------------------------------------------------------------------
  // populateTree: its specification

  /** ConfigFile.getList(c): the groups listed for channel c, none when the file or the entry is missing. */
  function Groups(groupFile: Option<map<string, seq<string>>>, c: string): seq<string>
  {
    if groupFile.Some? && c in groupFile.value then groupFile.value[c] else []
  }

  function ElementSet(s: seq<string>): set<string>
  {
    set x | x in s
  }

  /** Every group some item is listed in. */
  function AllGroups(items: seq<string>, groupFile: Option<map<string, seq<string>>>): set<string>
  {
    if items == [] then {}
    else AllGroups(items[..|items| - 1], groupFile) + ElementSet(Groups(groupFile, items[|items| - 1]))
  }

  function Count(s: seq<string>, x: string): nat
  {
    if s == [] then 0
    else Count(s[..|s| - 1], x) + (if s[|s| - 1] == x then 1 else 0)
  }

  function Repeat(x: string, n: nat): seq<string>
  {
    if n == 0 then [] else Repeat(x, n - 1) + [x]
  }

  /** The channels of group g, in item order, each once per listing of g among its groups. */
  function Members(items: seq<string>, groupFile: Option<map<string, seq<string>>>, g: string): seq<string>
  {
    if items == [] then []
    else
      var c := items[|items| - 1];
      Members(items[..|items| - 1], groupFile, g) + Repeat(c, Count(Groups(groupFile, c), g))
  }

  /** One leaf per name, in order. */
  function Leaves(names: seq<string>): seq<TreeNode>
  {
    if names == [] then [] else Leaves(names[..|names| - 1]) + [Leaf(names[|names| - 1])]
  }

  predicate AscendingNames(nodes: seq<TreeNode>)
  {
    forall i, j :: 0 <= i < j < |nodes| ==> LexLess(nodes[i].name, nodes[j].name)
  }

  /** Every node is a group's node and holds exactly that group's member leaves. */
  predicate HoldMembers(nodes: seq<TreeNode>, items: seq<string>, groupFile: Option<map<string, seq<string>>>)
  {
    forall i :: 0 <= i < |nodes| ==>
      nodes[i].name in AllGroups(items, groupFile)
      && nodes[i].children == Leaves(Members(items, groupFile, nodes[i].name))
  }

  /** Every group has a node. */
  predicate CoverGroups(nodes: seq<TreeNode>, items: seq<string>, groupFile: Option<map<string, seq<string>>>)
  {
    forall g :: g in AllGroups(items, groupFile) ==> exists i :: 0 <= i < |nodes| && nodes[i].name == g
  }

  /**
   * The tree populateTree builds: under "root", first "All" with one leaf per item in item
   * order, then one node per group in strictly ascending name order, every group present,
   * each holding the leaves of its members.
   */
  ghost predicate PopulatedTree(root: TreeNode, items: seq<string>, groupFile: Option<map<string, seq<string>>>)
  {
    && root.name == "root"
    && |root.children| >= 1
    && root.children[0] == TreeNode("All", Leaves(items))
    && AscendingNames(root.children[1..])
    && HoldMembers(root.children[1..], items, groupFile)
    && CoverGroups(root.children[1..], items, groupFile)
  }

  // ---------------------------------------------------------------------------------------
  // populateTree: properties of the specification

  lemma {:induction false} CountPositive(s: seq<string>, x: string)
    ensures Count(s, x) > 0 <==> x in s
  {
    if s != [] {
      CountPositive(s[..|s| - 1], x);
      assert s == s[..|s| - 1] + [s[|s| - 1]];
    }
  }

  lemma {:induction false} RepeatElements(x: string, n: nat, y: string)
    ensures y in Repeat(x, n) <==> n > 0 && y == x
  {
    if n > 0 {
      RepeatElements(x, n - 1, y);
    }
  }

  /** A channel belongs to group g exactly when it is an item that lists g among its groups. */
  lemma {:induction false} MembersExact(items: seq<string>, groupFile: Option<map<string, seq<string>>>, g: string, c: string)
    ensures c in Members(items, groupFile, g) <==> exists i :: 0 <= i < |items| && items[i] == c && g in Groups(groupFile, c)
  {
    if items != [] {
      var init := items[..|items| - 1];
      var last := items[|items| - 1];
      MembersExact(init, groupFile, g, c);
      RepeatElements(last, Count(Groups(groupFile, last), g), c);
      CountPositive(Groups(groupFile, last), g);
      if exists i :: 0 <= i < |items| && items[i] == c && g in Groups(groupFile, c) {
        var i :| 0 <= i < |items| && items[i] == c && g in Groups(groupFile, c);
        if i < |init| {
          assert init[i] == c;
        }
      }
      if c in Members(init, groupFile, g) {
        var i :| 0 <= i < |init| && init[i] == c && g in Groups(groupFile, c);
        assert items[i] == c;
      }
    }
  }

  /** The groups are exactly those with at least one member, so no group node is empty. */
  lemma {:induction false} AllGroupsNonEmpty(items: seq<string>, groupFile: Option<map<string, seq<string>>>, g: string)
    ensures g in AllGroups(items, groupFile) <==> |Members(items, groupFile, g)| > 0
  {
    if items != [] {
      var init := items[..|items| - 1];
      var last := items[|items| - 1];
      AllGroupsNonEmpty(init, groupFile, g);
      CountPositive(Groups(groupFile, last), g);
      assert |Repeat(last, Count(Groups(groupFile, last), g))| > 0 <==> Count(Groups(groupFile, last), g) > 0 by {
        RepeatElements(last, Count(Groups(groupFile, last), g), last);
      }
    }
  }

  function ChildNames(cs: seq<TreeNode>): (r: seq<string>)
    ensures |r| == |cs| && forall i :: 0 <= i < |cs| ==> r[i] == cs[i].name
  {
    if cs == [] then [] else [cs[0].name] + ChildNames(cs[1..])
  }

  /** The names of a populated tree's group nodes are the groups, in strictly ascending order. */
  lemma GroupNamesAscending(nodes: seq<TreeNode>, items: seq<string>, groupFile: Option<map<string, seq<string>>>)
    requires AscendingNames(nodes) && HoldMembers(nodes, items, groupFile) && CoverGroups(nodes, items, groupFile)
    ensures StrictlyAscending(ChildNames(nodes))
    ensures forall x :: x in ChildNames(nodes) <==> x in AllGroups(items, groupFile)
  {
    var names := ChildNames(nodes);
    forall x ensures x in names <==> x in AllGroups(items, groupFile) {
      if x in names {
        var k :| 0 <= k < |names| && names[k] == x;
        assert nodes[k].name == x;
      }
      if x in AllGroups(items, groupFile) {
        var i :| 0 <= i < |nodes| && nodes[i].name == x;
        assert names[i] == x;
      }
    }
  }

  /** The description of the populated tree admits exactly one tree. */
  lemma PopulatedTreeUnique(r1: TreeNode, r2: TreeNode, items: seq<string>, groupFile: Option<map<string, seq<string>>>)
    requires PopulatedTree(r1, items, groupFile) && PopulatedTree(r2, items, groupFile)
    ensures r1 == r2
  {
    var n1, n2 := r1.children[1..], r2.children[1..];
    GroupNamesAscending(n1, items, groupFile);
    GroupNamesAscending(n2, items, groupFile);
    AscendingUnique(ChildNames(n1), ChildNames(n2));
    forall i | 0 <= i < |n1| ensures n1[i] == n2[i] {
      assert ChildNames(n1)[i] == ChildNames(n2)[i];
    }
    assert n1 == n2;
    assert r1.children == [r1.children[0]] + n1 && r2.children == [r2.children[0]] + n2;
  }

  // ---------------------------------------------------------------------------------------
  // The methods

  lemma LeavesSnoc(names: seq<string>, c: string)
    ensures Leaves(names + [c]) == Leaves(names) + [Leaf(c)]
  {
    assert (names + [c])[..|names|] == names;
  }

  lemma DedupSnoc(a: seq<string>, x: string)
    ensures Dedup(a + [x]) == if x in Dedup(a) then Dedup(a) else Dedup(a) + [x]
  {
    assert (a + [x])[..|a|] == a;
  }

  /** The inner loop of getSelectedLeaves: adds the leaf children of a selected node not already listed. */
  method AddLeafChildren(channels: seq<string>, ghost before: seq<string>, children: seq<TreeNode>)
    returns (result: seq<string>)
    requires channels == Dedup(before)
    ensures result == Dedup(before + LeafChildNames(children))
  {
    result := channels;
    var j := 0;
    assert before + LeafChildNames(children[..0]) == before;
    while j < |children|
      invariant 0 <= j <= |children|
      invariant result == Dedup(before + LeafChildNames(children[..j]))
    {
      var node2 := children[j];
      assert children[..j + 1][..j] == children[..j];
      ghost var upTo := before + LeafChildNames(children[..j]);
      if IsLeaf(node2) {
        assert before + LeafChildNames(children[..j + 1]) == upTo + [node2.name];
        DedupSnoc(upTo, node2.name);
        if node2.name !in result {
          result := result + [node2.name];
        }
      } else {
        assert before + LeafChildNames(children[..j + 1]) == upTo;
      }
      j := j + 1;
    }
    assert children[..j] == children;
  }

  /** getSelectedLeaves: null for no selection, else the first 500 distinct names the selection covers. */
  method GetSelectedLeaves(paths: Option<seq<TreeNode>>) returns (r: Option<seq<string>>)
    ensures r.None? <==> paths.None?
    ensures paths.Some? ==> r.value == SelectedLeaves(paths.value)
    ensures r.Some? ==> NoDuplicates(r.value) && |r.value| <= MAX_CHANNELS_AT_ONCE
    ensures r.Some? ==> forall x :: x in r.value ==> exists i :: 0 <= i < |paths.value| && Names(paths.value[i], x)
  {
    if paths.None? {
      return None;
    }
    var ps := paths.value;
    var channels: seq<string> := [];
    var i := 0;
    while i < |ps|
      invariant 0 <= i <= |ps|
      invariant channels == Dedup(Candidates(ps[..i]))
    {
      var node := ps[i];
      assert ps[..i + 1][..i] == ps[..i];
      ghost var before := Candidates(ps[..i]);
      if IsLeaf(node) {
        DedupSnoc(before, node.name);
        if node.name !in channels {
          channels := channels + [node.name];
        }
      } else {
        channels := AddLeafChildren(channels, before, node.children);
      }
      i := i + 1;
    }
    assert ps[..i] == ps;
    var cnt := |channels|;
    if cnt > MAX_CHANNELS_AT_ONCE {
      cnt := MAX_CHANNELS_AT_ONCE;
    }
    var sc := new string[cnt];
    var k := 0;
    while k < cnt
      invariant 0 <= k <= cnt
      invariant sc[..k] == channels[..k]
    {
      sc[k] := channels[k];
      k := k + 1;
    }
    r := Some(sc[..]);
    SelectedLeavesCorrect(ps);
  }

  lemma {:induction false} LeavesAppend(a: seq<string>, b: seq<string>)
    ensures Leaves(a + b) == Leaves(a) + Leaves(b)
  {
    if b != [] {
      var init := b[..|b| - 1];
      assert a + b == (a + init) + [b[|b| - 1]];
      LeavesSnoc(a + init, b[|b| - 1]);
      LeavesAppend(a, init);
      assert b == init + [b[|b| - 1]];
      LeavesSnoc(init, b[|b| - 1]);
    } else {
      assert a + b == a;
    }
  }

  /** The node of each group a map holds is labelled with that group. */
  predicate LabelledByKey(rootMap: map<string, TreeNode>)
  {
    forall g :: g in rootMap ==> rootMap[g].name == g
  }

  lemma CountSnoc(s: seq<string>, y: string, x: string)
    ensures Count(s + [y], x) == Count(s, x) + (if y == x then 1 else 0)
  {
    assert (s + [y])[..|s|] == s;
  }

  /** The leaves a group's node held before the current channel was added. */
  function Before(rootMap: map<string, TreeNode>, g: string): seq<TreeNode>
  {
    if g in rootMap then rootMap[g].children else []
  }

  lemma OneMoreLeaf(before: seq<TreeNode>, c: string, n: nat)
    ensures before + Leaves(Repeat(c, n)) + [Leaf(c)] == before + Leaves(Repeat(c, n + 1))
  {
    LeavesSnoc(Repeat(c, n), c);
  }

  /** Each group node of m holds what it held in rootMap plus one leaf for c per listing of its group in gs. */
  predicate AddedPerListing(m: map<string, TreeNode>, rootMap: map<string, TreeNode>, c: string, gs: seq<string>)
  {
    forall g :: g in m ==> m[g] == TreeNode(g, Before(rootMap, g) + Leaves(Repeat(c, Count(gs, g))))
  }

  lemma AddedPerListingEmpty(rootMap: map<string, TreeNode>, c: string)
    requires LabelledByKey(rootMap)
    ensures AddedPerListing(rootMap, rootMap, c, [])
  {
    forall g | g in rootMap ensures rootMap[g] == TreeNode(g, Before(rootMap, g) + Leaves(Repeat(c, Count([], g)))) {
      assert Before(rootMap, g) + [] == rootMap[g].children;
    }
  }

  lemma AddedPerListingLabelled(m: map<string, TreeNode>, rootMap: map<string, TreeNode>, c: string, gs: seq<string>)
    requires AddedPerListing(m, rootMap, c, gs)
    ensures LabelledByKey(m)
  {
  }

  lemma AddedPerListingStep(m: map<string, TreeNode>, rootMap: map<string, TreeNode>, c: string, gs: seq<string>, g: string, node: TreeNode)
    requires AddedPerListing(m, rootMap, c, gs)
    requires node == TreeNode(g, Before(rootMap, g) + Leaves(Repeat(c, Count(gs, g) + 1)))
    ensures AddedPerListing(m[g := node], rootMap, c, gs + [g])
  {
    forall h | h in m[g := node]
      ensures m[g := node][h] == TreeNode(h, Before(rootMap, h) + Leaves(Repeat(c, Count(gs + [g], h))))
    {
      CountSnoc(gs, g, h);
      if h == g {
        assert m[g := node][h] == node;
      } else {
        assert m[g := node][h] == m[h];
        assert Count(gs + [g], h) == Count(gs, h);
      }
    }
  }

  /**
   * The inner loop of populateTree: for each listed group of channel c (a repeated group
   * once per listing), fetch or create its node and append a leaf for c.
   */
  method AddToGroups(rootMap: map<string, TreeNode>, c: string, groups: seq<string>) returns (m: map<string, TreeNode>)
    requires LabelledByKey(rootMap)
    ensures LabelledByKey(m)
    ensures forall g :: g in m <==> g in rootMap || g in groups
    ensures AddedPerListing(m, rootMap, c, groups)
  {
    m := rootMap;
    var j := 0;
    assert groups[..0] == [];
    AddedPerListingEmpty(rootMap, c);
    while j < |groups|
      invariant 0 <= j <= |groups|
      invariant forall g :: g in m <==> g in rootMap || g in groups[..j]
      invariant AddedPerListing(m, rootMap, c, groups[..j])
    {
      var g := groups[j];
      assert groups[..j + 1] == groups[..j] + [g];
      var rn := if g in m then m[g] else TreeNode(g, []);
      assert rn.name == g;
      ghost var n := Count(groups[..j], g);
      if g !in m {
        CountPositive(groups[..j], g);
        assert n == 0 && Before(rootMap, g) == [];
        assert rn.children == Before(rootMap, g) + Leaves(Repeat(c, n));
      } else {
        assert rn.children == Before(rootMap, g) + Leaves(Repeat(c, n));
      }
      OneMoreLeaf(Before(rootMap, g), c, n);
      AddedPerListingStep(m, rootMap, c, groups[..j], g, TreeNode(rn.name, rn.children + [Leaf(c)]));
      m := m[g := TreeNode(rn.name, rn.children + [Leaf(c)])];
      j := j + 1;
    }
    assert groups[..j] == groups;
    AddedPerListingLabelled(m, rootMap, c, groups);
  }

  /** After the items `done`, the TreeMap holds one node per group, labelled with it, holding its members' leaves. */
  predicate GroupMapFor(rootMap: map<string, TreeNode>, done: seq<string>, groupFile: Option<map<string, seq<string>>>)
  {
    && LabelledByKey(rootMap)
    && rootMap.Keys == AllGroups(done, groupFile)
    && forall g :: g in rootMap ==> rootMap[g].children == Leaves(Members(done, groupFile, g))
  }

  lemma AllGroupsSnoc(done: seq<string>, groupFile: Option<map<string, seq<string>>>, c: string)
    ensures AllGroups(done + [c], groupFile) == AllGroups(done, groupFile) + ElementSet(Groups(groupFile, c))
  {
    assert (done + [c])[..|done|] == done;
  }

  lemma MembersSnoc(done: seq<string>, groupFile: Option<map<string, seq<string>>>, c: string, g: string)
    ensures Leaves(Members(done + [c], groupFile, g))
      == Leaves(Members(done, groupFile, g)) + Leaves(Repeat(c, Count(Groups(groupFile, c), g)))
  {
    assert (done + [c])[..|done|] == done;
    LeavesAppend(Members(done, groupFile, g), Repeat(c, Count(Groups(groupFile, c), g)));
  }

  lemma GroupChildStep(before: map<string, TreeNode>, done: seq<string>,
                       groupFile: Option<map<string, seq<string>>>, c: string, g: string)
    requires GroupMapFor(before, done, groupFile)
    ensures Before(before, g) + Leaves(Repeat(c, Count(Groups(groupFile, c), g)))
      == Leaves(Members(done + [c], groupFile, g))
  {
    MembersSnoc(done, groupFile, c, g);
    if g !in before {
      AllGroupsNonEmpty(done, groupFile, g);
    }
  }

  lemma GroupMapStep(before: map<string, TreeNode>, after: map<string, TreeNode>, done: seq<string>,
                     groupFile: Option<map<string, seq<string>>>, c: string)
    requires GroupMapFor(before, done, groupFile)
    requires LabelledByKey(after)
    requires forall g :: g in after <==> g in before || g in Groups(groupFile, c)
    requires AddedPerListing(after, before, c, Groups(groupFile, c))
    ensures GroupMapFor(after, done + [c], groupFile)
  {
    AllGroupsSnoc(done, groupFile, c);
    assert after.Keys == AllGroups(done + [c], groupFile);
    forall g | g in after
      ensures after[g].children == Leaves(Members(done + [c], groupFile, g))
    {
      GroupChildStep(before, done, groupFile, c, g);
    }
  }

  /** Nodes taken from a complete TreeMap, one per key, describe the groups' nodes. */
  lemma GroupNodesFromMap(items: seq<string>, groupFile: Option<map<string, seq<string>>>,
                          rootMap: map<string, TreeNode>, groupNodes: seq<TreeNode>)
    requires GroupMapFor(rootMap, items, groupFile)
    requires forall i :: 0 <= i < |groupNodes| ==> groupNodes[i].name in rootMap && groupNodes[i] == rootMap[groupNodes[i].name]
    requires forall g :: g in rootMap ==> exists i :: 0 <= i < |groupNodes| && groupNodes[i].name == g
    ensures HoldMembers(groupNodes, items, groupFile) && CoverGroups(groupNodes, items, groupFile)
  {
  }

  /** The tree-building body of populateTree, with groupFile.getList(c) read from groupFile. */
  method BuildTree(items: seq<string>, groupFile: Option<map<string, seq<string>>>) returns (root: TreeNode)
    ensures PopulatedTree(root, items, groupFile)
  {
    var rootMap: map<string, TreeNode> := map[];
    var allChildren: seq<TreeNode> := [];
    var i := 0;
    while i < |items|
      invariant 0 <= i <= |items|
      invariant allChildren == Leaves(items[..i])
      invariant GroupMapFor(rootMap, items[..i], groupFile)
    {
      var c := items[i];
      assert items[..i + 1] == items[..i] + [c];
      LeavesSnoc(items[..i], c);
      allChildren := allChildren + [Leaf(c)];
      ghost var before := rootMap;
      rootMap := AddToGroups(rootMap, c, Groups(groupFile, c));
      GroupMapStep(before, rootMap, items[..i], groupFile, c);
      i := i + 1;
    }
    assert items[..i] == items;
    var groupNodes := NodesInKeyOrder(rootMap);
    GroupNodesFromMap(items, groupFile, rootMap, groupNodes);
    root := TreeNode("root", [TreeNode("All", allChildren)] + groupNodes);
    assert root.children[1..] == groupNodes;
  }

  /** The nodes taken so far are ascending, and each is below every key still to come. */
  predicate OrderedSoFar(nodes: seq<TreeNode>, remaining: set<string>)
  {
    && AscendingNames(nodes)
    && forall i, x :: 0 <= i < |nodes| && x in remaining ==> LexLess(nodes[i].name, x)
  }

  /** The nodes taken so far are exactly the map's nodes for the keys no longer remaining. */
  predicate TakenSoFar(rootMap: map<string, TreeNode>, nodes: seq<TreeNode>, remaining: set<string>)
  {
    && (forall i :: 0 <= i < |nodes| ==>
          nodes[i].name in rootMap && nodes[i].name !in remaining && nodes[i] == rootMap[nodes[i].name])
    && (forall g :: g in rootMap && g !in remaining ==> exists i :: 0 <= i < |nodes| && nodes[i].name == g)
  }

  lemma OrderedStep(nodes: seq<TreeNode>, remaining: set<string>, k: string, node: TreeNode)
    requires OrderedSoFar(nodes, remaining) && IsLeast(k, remaining) && node.name == k
    ensures OrderedSoFar(nodes + [node], remaining - {k})
  {
    var next := nodes + [node];
    forall i, j | 0 <= i < j < |next| ensures LexLess(next[i].name, next[j].name) {
      if j == |nodes| {
        assert next[i] == nodes[i];
      }
    }
    forall i, x | 0 <= i < |next| && x in remaining - {k} ensures LexLess(next[i].name, x) {
      if i == |nodes| {
        assert LexLessEq(k, x);
      } else {
        assert next[i] == nodes[i];
      }
    }
  }

  lemma TakenStep(rootMap: map<string, TreeNode>, nodes: seq<TreeNode>, remaining: set<string>, k: string)
    requires LabelledByKey(rootMap) && remaining <= rootMap.Keys && k in remaining
    requires TakenSoFar(rootMap, nodes, remaining)
    ensures TakenSoFar(rootMap, nodes + [rootMap[k]], remaining - {k})
  {
    var next := nodes + [rootMap[k]];
    forall g | g in rootMap && g !in remaining - {k} ensures exists i :: 0 <= i < |next| && next[i].name == g {
      if g == k {
        assert next[|nodes|].name == g;
      } else {
        var i :| 0 <= i < |nodes| && nodes[i].name == g;
        assert next[i] == nodes[i];
      }
    }
  }

  /** The values of the TreeMap rootMap, in ascending key order, as its key-set iterator yields them. */
  method NodesInKeyOrder(rootMap: map<string, TreeNode>) returns (nodes: seq<TreeNode>)
    requires LabelledByKey(rootMap)
    ensures AscendingNames(nodes)
    ensures forall i :: 0 <= i < |nodes| ==> nodes[i].name in rootMap && nodes[i] == rootMap[nodes[i].name]
    ensures forall g :: g in rootMap ==> exists i :: 0 <= i < |nodes| && nodes[i].name == g
  {
    nodes := [];
    var remaining := rootMap.Keys;
    while remaining != {}
      invariant remaining <= rootMap.Keys
      invariant OrderedSoFar(nodes, remaining)
      invariant TakenSoFar(rootMap, nodes, remaining)
      decreases remaining
    {
      LeastExists(remaining);
      var k :| IsLeast(k, remaining);
      OrderedStep(nodes, remaining, k, rootMap[k]);
      TakenStep(rootMap, nodes, remaining, k);
      nodes := nodes + [rootMap[k]];
      remaining := remaining - {k};
    }
  }

  /** The panel's state that populateTree writes: the source name and the helicorder tree's model. */
  class ChannelPanel {
    var source: Option<string>
    var heliTree: TreeNode
    const groupFile: Option<map<string, seq<string>>>

    constructor (groupFile: Option<map<string, seq<string>>>)
      ensures this.groupFile == groupFile && source.None? && heliTree == TreeNode("root", [])
    {
      this.groupFile := groupFile;
      source := None;
      heliTree := TreeNode("root", []);
    }

    /** Rebuilds the tree from the items and records their source; with no items, nothing changes. */
    method PopulateTree(s: string, items: Option<seq<string>>)
      modifies this
      ensures items.None? ==> source == old(source) && heliTree == old(heliTree)
      ensures items.Some? ==> source == Some(s) && PopulatedTree(heliTree, items.value, groupFile)
    {
      if items.None? {
        return;
      }
      source := Some(s);
      heliTree := BuildTree(items.value, groupFile);
    }
  }
}
