/**
  The element table of a snapshot: per-frame sibling counters, and child frames
  spliced in behind the root frame under one dense numbering.
 */
module SnapshotTable {
  import opened Text
  import Identity

  /** An AX node as the engine reads it: ids may be missing, and the first match is the parent. Role and name
      are UTF-8 bytes, empty when absent. */
  datatype AxNode = AxNode(id: Option<string>, parent: Option<string>, role: seq<Byte>, name: seq<Byte>)

  datatype Key = Key(role: seq<Byte>, parentRole: seq<Byte>)

  datatype Element = Element(index: nat, ref: string, role: seq<Byte>, name: seq<Byte>, stableInput: StableInput)

  /** The arguments of `stable_id_hash`. */
  datatype StableInput = StableInput(key: Key, name: seq<Byte>, siblingIdx: nat)

  function RefOf(i: nat): string {
    "e" + Decimal(i)
  }

  function ParentRole(nodes: seq<AxNode>, pid: string): seq<Byte> {
    if nodes == [] then []
    else if nodes[0].id == Some(pid) then nodes[0].role
    else ParentRole(nodes[1..], pid)
  }

  function KeyOf(nodes: seq<AxNode>, n: AxNode): Key {
    Key(n.role, if n.parent.None? then [] else ParentRole(nodes, n.parent.value))
  }

  /** How many of the first `i` nodes have the key. */
  function Earlier(nodes: seq<AxNode>, key: Key, i: nat): nat
    requires i <= |nodes|
  {
    if i == 0 then 0
    else Earlier(nodes, key, i - 1) + (if KeyOf(nodes, nodes[i - 1]) == key then 1 else 0)
  }

  lemma EarlierStep(nodes: seq<AxNode>, i: nat)
    requires i < |nodes|
    ensures forall k :: Earlier(nodes, k, i + 1)
                        == Earlier(nodes, k, i) + (if KeyOf(nodes, nodes[i]) == k then 1 else 0)
  {
  }

  lemma EarlierNone(nodes: seq<AxNode>)
    ensures forall k :: Earlier(nodes, k, 0) == 0
  {
  }

  /** Position `i` holds index `i` and ref `e<i>`. */
  predicate Dense(es: seq<Element>) {
    forall i :: 0 <= i < |es| ==> es[i].index == i && es[i].ref == RefOf(i)
  }

  /** What node `i` is identified by: its key, its name, and how many nodes before it share the key. */
  function InputAt(nodes: seq<AxNode>, i: nat): StableInput
    requires i < |nodes|
  {
    var key := KeyOf(nodes, nodes[i]);
    StableInput(key, nodes[i].name, Earlier(nodes, key, i))
  }

  /** The element loop of `snapshot_parts_for_session`. */
  method SnapshotParts(nodes: seq<AxNode>) returns (es: seq<Element>)
    ensures |es| == |nodes| && Dense(es)
    ensures forall i :: 0 <= i < |es| ==> es[i].role == nodes[i].role && es[i].name == nodes[i].name
    ensures forall i :: 0 <= i < |es| ==> es[i].stableInput == InputAt(nodes, i)
  {
    hide RefOf, KeyOf, Earlier;
    assert forall k :: Earlier(nodes, k, 0) == 0 by { EarlierNone(nodes); }
    es := [];
    var counter: map<Key, nat> := map[];
    var i := 0;
    while i < |nodes|
      invariant 0 <= i <= |nodes| && |es| == i && Dense(es)
      invariant forall k :: k in counter ==> counter[k] == Earlier(nodes, k, i)
      invariant forall k :: k !in counter ==> Earlier(nodes, k, i) == 0
      invariant forall j :: 0 <= j < i ==> es[j].role == nodes[j].role && es[j].name == nodes[j].name
      invariant forall j :: 0 <= j < i ==> es[j].stableInput == InputAt(nodes, j)
    {
      var n := nodes[i];
      var key := KeyOf(nodes, n);
      EarlierStep(nodes, i);
      var siblingIdx := if key in counter then counter[key] else 0;
      counter := counter[key := siblingIdx + 1];
      es := es + [Element(i, RefOf(i), n.role, n.name, StableInput(key, n.name, siblingIdx))];
      i := i + 1;
    }
  }

  lemma {:induction false} EarlierGrows(nodes: seq<AxNode>, key: Key, i: nat, j: nat)
    requires i < j <= |nodes| && KeyOf(nodes, nodes[i]) == key
    ensures Earlier(nodes, key, i) < Earlier(nodes, key, j)
    decreases j
  {
    if i < j - 1 {
      EarlierGrows(nodes, key, i, j - 1);
    }
  }

  /** Role, parent role and sibling index tell any two elements of one frame apart. */
  lemma PlacesAreDistinct(nodes: seq<AxNode>, i: nat, j: nat)
    requires i < j < |nodes|
    ensures KeyOf(nodes, nodes[i]) != KeyOf(nodes, nodes[j])
         || Earlier(nodes, KeyOf(nodes, nodes[i]), i) != Earlier(nodes, KeyOf(nodes, nodes[j]), j)
  {
    if KeyOf(nodes, nodes[i]) == KeyOf(nodes, nodes[j]) {
      EarlierGrows(nodes, KeyOf(nodes, nodes[i]), i, j);
    }
  }

  /** The parent role is that of the first node that carries the parent's id, and empty if none does. */
  lemma {:induction false} ParentRoleIsFirst(nodes: seq<AxNode>, pid: string, k: nat)
    requires k <= |nodes| && (forall i :: 0 <= i < k ==> nodes[i].id != Some(pid))
    requires k < |nodes| ==> nodes[k].id == Some(pid)
    ensures ParentRole(nodes, pid) == if k < |nodes| then nodes[k].role else []
    decreases k
  {
    if k > 0 {
      assert nodes[1..][k - 1..] == nodes[k..];
      ParentRoleIsFirst(nodes[1..], pid, k - 1);
    }
  }

  /** What counts as a sibling of node `i`: a node with the same role under a parent of the same role. */
  lemma KeyMeans(nodes: seq<AxNode>, n: AxNode, k: nat)
    requires n.parent.Some? ==>
               && k <= |nodes| && (forall i :: 0 <= i < k ==> nodes[i].id != n.parent)
               && (k < |nodes| ==> nodes[k].id == n.parent)
    ensures KeyOf(nodes, n).role == n.role
    ensures KeyOf(nodes, n).parentRole == if n.parent.Some? && k < |nodes| then nodes[k].role else []
  {
    if n.parent.Some? {
      ParentRoleIsFirst(nodes, n.parent.value, k);
    }
  }

  /** A ref is the letter e and the index, so it names one element. */
  lemma RefNamesIndex(i: nat)
    ensures RefOf(i)[0] == 'e' && AllDigits(RefOf(i)[1..]) && Value(RefOf(i)[1..]) == i
  {
    DecimalValue(i);
    assert RefOf(i)[1..] == Decimal(i);
  }

  /** What `stable_id_hash` hashes for node `i`. */
  function PreimageAt(nodes: seq<AxNode>, i: nat): seq<Byte>
    requires i < |nodes|
  {
    var s := InputAt(nodes, i);
    Identity.Preimage(s.key.role, s.name, s.key.parentRole, s.siblingIdx)
  }

  lemma {:induction false} ParentRoleIsARole(nodes: seq<AxNode>, pid: string)
    ensures ParentRole(nodes, pid) == [] || exists n :: n in nodes && n.role == ParentRole(nodes, pid)
  {
    if nodes != [] && nodes[0].id != Some(pid) {
      ParentRoleIsARole(nodes[1..], pid);
    }
  }

  lemma KeyIsSepFree(nodes: seq<AxNode>, n: AxNode)
    requires n in nodes && forall m :: m in nodes ==> Identity.SepFree(m.role)
    ensures Identity.SepFree(KeyOf(nodes, n).role) && Identity.SepFree(KeyOf(nodes, n).parentRole)
  {
    if n.parent.Some? {
      ParentRoleIsARole(nodes, n.parent.value);
    }
  }

  /** With separator-free roles, whatever the names hold, no two elements of one frame share the bytes their
      stable ids are the hash of. */
  lemma PreimagesAreDistinct(nodes: seq<AxNode>, i: nat, j: nat)
    requires i < j < |nodes| && forall n :: n in nodes ==> Identity.SepFree(n.role)
    ensures PreimageAt(nodes, i) != PreimageAt(nodes, j)
  {
    PlacesAreDistinct(nodes, i, j);
    KeyIsSepFree(nodes, nodes[i]);
    KeyIsSepFree(nodes, nodes[j]);
    hide Identity.Preimage, KeyOf, Earlier;
    var a, b := InputAt(nodes, i), InputAt(nodes, j);
    if PreimageAt(nodes, i) == PreimageAt(nodes, j) {
      Identity.PreimageIsInjective(a.key.role, a.name, a.key.parentRole, a.siblingIdx,
                                   b.key.role, b.name, b.key.parentRole, b.siblingIdx);
    }
  }

  /** With a separator in a role two elements can share them. */
  lemma SeparatorInRoleShares(a: seq<Byte>, b: seq<Byte>) returns (nodes: seq<AxNode>)
    ensures |nodes| == 2 && nodes[0].role == a + [Identity.SEP] + b && nodes[1].role == a
    ensures PreimageAt(nodes, 0) == PreimageAt(nodes, 1)
  {
    nodes := [AxNode(None, None, a + [Identity.SEP] + b, []), AxNode(None, None, a, b + [Identity.SEP] + [])];
    assert |nodes[0].role| != |nodes[1].role|;
    assert Earlier(nodes, KeyOf(nodes, nodes[0]), 0) == 0;
    assert Earlier(nodes, KeyOf(nodes, nodes[1]), 1) == 0;
    Identity.SeparatorInRoleCollides(a, b, [], [], 0);
  }

  // ----- Splicing child frames ------------------------------------------------------------

  predicate SameButNumbering(a: Element, b: Element) {
    a == b.(index := a.index, ref := a.ref)
  }

  /** `splice_snapshot_elements`. */
  method Splice(parent: seq<Element>, child: seq<Element>) returns (all: seq<Element>)
    requires Dense(parent)
    ensures Dense(all) && |all| == |parent| + |child| && all[..|parent|] == parent
    ensures forall i :: 0 <= i < |child| ==> SameButNumbering(all[|parent| + i], child[i])
  {
    var base := |parent|;
    all := parent;
    var i := 0;
    while i < |child|
      invariant 0 <= i <= |child| && |all| == base + i
      invariant Dense(all) && all[..base] == parent
      invariant forall j :: 0 <= j < i ==> SameButNumbering(all[base + j], child[j])
    {
      all := all + [child[i].(index := base + i, ref := RefOf(base + i))];
      i := i + 1;
    }
  }

  /** The frame loop of `do_snapshot`: the children that could be captured, one after another. */
  method SpliceAll(root: seq<Element>, children: seq<seq<Element>>) returns (all: seq<Element>)
    requires Dense(root)
    ensures Dense(all) && |all| == |root + Flatten(children)|
    ensures forall i :: 0 <= i < |all| ==> SameButNumbering(all[i], (root + Flatten(children))[i])
  {
    all := root;
    ghost var source := root;
    var k := 0;
    assert root + Flatten(children) == source + Flatten(children[0..]) by { assert children[0..] == children; }
    while k < |children|
      invariant 0 <= k <= |children| && Dense(all) && |all| == |source|
      invariant root + Flatten(children) == source + Flatten(children[k..])
      invariant forall i :: 0 <= i < |all| ==> SameButNumbering(all[i], source[i])
    {
      assert children[k..][0] == children[k] && children[k..][1..] == children[k + 1..];
      var longer := Splice(all, children[k]);
      forall i | 0 <= i < |longer| ensures SameButNumbering(longer[i], (source + children[k])[i]) {
        if i < |all| {
          assert longer[i] == longer[..|all|][i] == all[i];
        } else {
          assert longer[i] == longer[|all| + (i - |all|)];
        }
      }
      assert source + (children[k] + Flatten(children[k + 1..])) == (source + children[k]) + Flatten(children[k + 1..]);
      all, source := longer, source + children[k];
      k := k + 1;
    }
    assert children[k..] == [];
    assert source + [] == source;
  }
}
