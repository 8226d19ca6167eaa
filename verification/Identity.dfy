/**
  Element identity in the accessibility tree: the rank of a node among its
  same-role siblings, and the byte string its stable id is the hash of.
 */
module Identity {
  import opened Text

  const SEP: Byte := 0x1F

  /** An AX node with an id; role and name are UTF-8 bytes, empty when absent. */
  datatype Node = Node(id: string, parent: Option<string>, role: seq<Byte>, name: seq<Byte>, children: seq<string>)

  datatype Place = Place(parentRole: seq<Byte>, rank: nat)

  /** The node an id names: the last one that carries it. */
  function Find(nodes: seq<Node>, id: string): (n: Option<Node>)
    ensures n.Some? ==> n.value in nodes && n.value.id == id
    ensures n.None? ==> forall m :: m in nodes ==> m.id != id
  {
    if nodes == [] then None
    else if nodes[|nodes| - 1].id == id then Some(nodes[|nodes| - 1])
    else Find(nodes[..|nodes| - 1], id)
  }

  predicate HasRole(nodes: seq<Node>, id: string, role: seq<Byte>) {
    Find(nodes, id).Some? && Find(nodes, id).value.role == role
  }

  /** Same-role children listed before `id`. */
  function CountBefore(nodes: seq<Node>, children: seq<string>, id: string, role: seq<Byte>): nat {
    if children == [] || children[0] == id then 0
    else (if HasRole(nodes, children[0], role) then 1 else 0) + CountBefore(nodes, children[1..], id, role)
  }

  function ParentOf(nodes: seq<Node>, n: Node): Option<Node> {
    if n.parent.None? then None else Find(nodes, n.parent.value)
  }

  function PlaceOf(nodes: seq<Node>, n: Node): Place {
    match ParentOf(nodes, n)
    case None => Place([], 0)
    case Some(p) => Place(p.role, CountBefore(nodes, p.children, n.id, n.role))
  }

  /** The inner loop: walk the parent's child list up to the node itself. */
  method RankAmong(nodes: seq<Node>, children: seq<string>, id: string, role: seq<Byte>) returns (idx: nat)
    ensures idx == CountBefore(nodes, children, id, role)
  {
    hide HasRole;
    idx := 0;
    var j := 0;
    assert children[j..] == children;
    while j < |children| && children[j] != id
      invariant 0 <= j <= |children|
      invariant CountBefore(nodes, children, id, role) == idx + CountBefore(nodes, children[j..], id, role)
    {
      assert children[j..][0] == children[j] && children[j..][1..] == children[j + 1..];
      if HasRole(nodes, children[j], role) {
        idx := idx + 1;
      }
      j := j + 1;
    }
    assert j < |children| ==> children[j..][0] == id;
  }

  /** `compute_sibling_indices`. */
  method ComputeSiblingIndices(nodes: seq<Node>) returns (out: map<string, Place>)
    ensures forall id :: id in out <==> Find(nodes, id).Some?
    ensures forall id :: id in out ==> out[id] == PlaceOf(nodes, Find(nodes, id).value)
  {
    hide Find, PlaceOf;
    out := map[];
    var i := 0;
    FindNothing();
    while i < |nodes|
      invariant 0 <= i <= |nodes|
      invariant forall id :: id in out <==> Find(nodes[..i], id).Some?
      invariant forall id :: id in out ==> out[id] == PlaceOf(nodes, Find(nodes[..i], id).value)
    {
      var n := nodes[i];
      var parent := ParentOf(nodes, n);
      var idx := 0;
      if parent.Some? {
        idx := RankAmong(nodes, parent.value.children, n.id, n.role);
      }
      var place := Place(if parent.Some? then parent.value.role else [], idx);
      PlaceIs(nodes, n, place);
      out := out[n.id := place];
      FindOneMore(nodes, i);
      i := i + 1;
    }
    assert nodes[..i] == nodes;
  }

  lemma FindNothing()
    ensures forall id :: Find([], id).None?
  {
  }

  lemma FindOneMore(nodes: seq<Node>, i: nat)
    requires i < |nodes|
    ensures forall id :: Find(nodes[..i + 1], id) == if id == nodes[i].id then Some(nodes[i]) else Find(nodes[..i], id)
  {
    var s := nodes[..i + 1];
    assert s[..i] == nodes[..i] && s[i] == nodes[i];
    forall id ensures Find(s, id) == if id == nodes[i].id then Some(nodes[i]) else Find(nodes[..i], id) {
      assert Find(s, id) == if s[i].id == id then Some(s[i]) else Find(s[..i], id);
    }
  }

  lemma PlaceIs(nodes: seq<Node>, n: Node, place: Place)
    requires
      var parent := ParentOf(nodes, n);
      place == if parent.None? then Place([], 0)
               else Place(parent.value.role, CountBefore(nodes, parent.value.children, n.id, n.role))
    ensures place == PlaceOf(nodes, n)
  {
  }

  // ----- Ranks are dense ----------------------------------------------------------------

  /** The children of one role, in order. */
  function SameRole(nodes: seq<Node>, children: seq<string>, role: seq<Byte>): seq<string> {
    if children == [] then []
    else (if HasRole(nodes, children[0], role) then [children[0]] else []) + SameRole(nodes, children[1..], role)
  }

  lemma {:induction false} SameRoleMembers(nodes: seq<Node>, children: seq<string>, role: seq<Byte>)
    ensures forall id :: id in SameRole(nodes, children, role) ==> id in children && HasRole(nodes, id, role)
  {
    hide HasRole;
    if children != [] {
      SameRoleMembers(nodes, children[1..], role);
    }
  }

  predicate Distinct(ids: seq<string>) {
    forall i, j :: 0 <= i < j < |ids| ==> ids[i] != ids[j]
  }

  lemma {:induction false} RankIsPosition(nodes: seq<Node>, children: seq<string>, role: seq<Byte>, i: nat)
    requires Distinct(children) && i < |SameRole(nodes, children, role)|
    ensures CountBefore(nodes, children, SameRole(nodes, children, role)[i], role) == i
  {
    hide HasRole;
    var ids := SameRole(nodes, children, role);
    var rest := SameRole(nodes, children[1..], role);
    SameRoleMembers(nodes, children[1..], role);
    if HasRole(nodes, children[0], role) {
      if i > 0 {
        assert ids[i] == rest[i - 1] && rest[i - 1] in children[1..];
        RankIsPosition(nodes, children[1..], role, i - 1);
      }
    } else {
      assert ids == rest;
      assert ids[i] in children[1..];
      RankIsPosition(nodes, children[1..], role, i);
    }
  }

  /** A tree: ids are unique, every child list is free of repeats, and a parent lists its children. */
  ghost predicate WellFormed(nodes: seq<Node>) {
    && (forall a, b :: a in nodes && b in nodes && a.id == b.id ==> a == b)
    && (forall n :: n in nodes ==> Distinct(n.children))
    && (forall n :: n in nodes && ParentOf(nodes, n).Some? ==> n.id in ParentOf(nodes, n).value.children)
    && (forall p, id :: p in nodes && id in p.children && Find(nodes, id).Some? ==>
          Find(nodes, id).value.parent == Some(p.id))
  }

  /** Under one parent, the nodes of one role are ranked 0, 1, 2, ... in order. */
  lemma RanksAreDense(nodes: seq<Node>, p: Node, role: seq<Byte>, i: nat)
    requires WellFormed(nodes) && p in nodes && i < |SameRole(nodes, p.children, role)|
    ensures
      var n := Find(nodes, SameRole(nodes, p.children, role)[i]);
      n.Some? && n.value.role == role && PlaceOf(nodes, n.value) == Place(p.role, i)
  {
    var id := SameRole(nodes, p.children, role)[i];
    SameRoleMembers(nodes, p.children, role);
    assert id in SameRole(nodes, p.children, role);
    RankIsPosition(nodes, p.children, role, i);
    var n := Find(nodes, id).value;
    assert n.parent == Some(p.id);
    assert Find(nodes, p.id).Some?;
  }

  lemma {:induction false} IsAmongSameRole(nodes: seq<Node>, children: seq<string>, id: string, role: seq<Byte>)
    requires id in children && HasRole(nodes, id, role)
    ensures id in SameRole(nodes, children, role)
  {
    if children[0] != id {
      IsAmongSameRole(nodes, children[1..], id, role);
    }
  }

  // ----- The preimage is stable -------------------------------------------------------------

  lemma DecimalIsAscii(n: nat)
    ensures IsAscii(Decimal(n))
  {
    DecimalValue(n);
    assert forall i :: 0 <= i < |Decimal(n)| ==> IsDigit(Decimal(n)[i]);
  }

  /** What `StableId::compute` hashes. */
  function Preimage(role: seq<Byte>, name: seq<Byte>, parentRole: seq<Byte>, rank: nat): seq<Byte> {
    DecimalIsAscii(rank);
    role + [SEP] + name + [SEP] + parentRole + [SEP] + Ascii(Decimal(rank))
  }

  function StableInput(nodes: seq<Node>, n: Node): seq<Byte> {
    var p := PlaceOf(nodes, n);
    Preimage(n.role, n.name, p.parentRole, p.rank)
  }

  /** Where each field lies in the hashed bytes. */
  lemma PreimageLayout(role: seq<Byte>, name: seq<Byte>, parentRole: seq<Byte>, rank: nat)
    ensures IsAscii(Decimal(rank))
    ensures
      var b := Preimage(role, name, parentRole, rank);
      var i, j := |role|, |role| + 1 + |name|;
      var k := j + 1 + |parentRole|;
      && |b| == k + 1 + |Decimal(rank)|
      && b[..i] == role && b[i] == SEP && b[i + 1..j] == name && b[j] == SEP && b[j + 1..k] == parentRole
      && b[k] == SEP && b[k + 1..] == Ascii(Decimal(rank))
  {
    DecimalIsAscii(rank);
  }

  /** A node whose parent is not in the tree is identified under an empty parent role, as the first. */
  lemma RootInput(nodes: seq<Node>, n: Node)
    requires n.parent.None? || forall m :: m in nodes ==> m.id != n.parent.value
    ensures StableInput(nodes, n) == Preimage(n.role, n.name, [], 0)
  {
    hide Preimage;
    if n.parent.Some? && Find(nodes, n.parent.value).Some? {
      assert false;
    }
  }

  /** Whatever else two trees differ in: a node with the same role and name, under a parent of the same role
      that lists the same same-role children in the same order, keeps its preimage. */
  lemma IdentityIsStable(nodes: seq<Node>, n: Node, p: Node, nodes': seq<Node>, n': Node, p': Node)
    requires WellFormed(nodes) && n in nodes && ParentOf(nodes, n) == Some(p)
    requires WellFormed(nodes') && n' in nodes' && ParentOf(nodes', n') == Some(p')
    requires n'.id == n.id && n'.role == n.role && n'.name == n.name && p'.role == p.role
    requires SameRole(nodes', p'.children, n.role) == SameRole(nodes, p.children, n.role)
    ensures StableInput(nodes', n') == StableInput(nodes, n)
  {
    var ids := SameRole(nodes, p.children, n.role);
    assert Find(nodes, n.id) == Some(n) && Find(nodes', n.id) == Some(n');
    IsAmongSameRole(nodes, p.children, n.id, n.role);
    var i :| 0 <= i < |ids| && ids[i] == n.id;
    RankIsPosition(nodes, p.children, n.role, i);
    RankIsPosition(nodes', p'.children, n.role, i);
  }

  // ----- Editing the tree -------------------------------------------------------------------

  /** One change to a child list. */
  datatype Edit = Insert(at: nat, id: string) | Remove(at: nat) | Move(from: nat, to: nat)

  predicate Fits(children: seq<string>, e: Edit) {
    match e
    case Insert(at, _) => at <= |children|
    case Remove(at) => at < |children|
    case Move(from, to) => from < |children| && to < |children|
  }

  function Without(children: seq<string>, at: nat): seq<string>
    requires at < |children|
  {
    children[..at] + children[at + 1..]
  }

  function With(children: seq<string>, at: nat, id: string): seq<string>
    requires at <= |children|
  {
    children[..at] + [id] + children[at..]
  }

  function Edited(children: seq<string>, e: Edit): seq<string>
    requires Fits(children, e)
  {
    match e
    case Insert(at, id) => With(children, at, id)
    case Remove(at) => Without(children, at)
    case Move(from, to) => With(Without(children, from), to, children[from])
  }

  /** The child an edit adds, takes away or moves. */
  function Touched(children: seq<string>, e: Edit): string
    requires Fits(children, e)
  {
    match e
    case Insert(_, id) => id
    case Remove(at) => children[at]
    case Move(from, _) => children[from]
  }

  /** `edits`, one after the other, lead from `children` to `children'`, and touch only ids in `others`. */
  ghost predicate Leads(children: seq<string>, edits: seq<Edit>, children': seq<string>, others: set<string>)
    decreases |edits|
  {
    if edits == [] then children' == children
    else
      && Fits(children, edits[0]) && Touched(children, edits[0]) in others
      && Leads(Edited(children, edits[0]), edits[1..], children', others)
  }

  lemma SameRoleStep(nodes: seq<Node>, children: seq<string>, role: seq<Byte>)
    requires children != []
    ensures SameRole(nodes, children, role)
         == if HasRole(nodes, children[0], role) then [children[0]] + SameRole(nodes, children[1..], role)
            else SameRole(nodes, children[1..], role)
  {
    hide HasRole;
  }

  /** Adding or taking away a sibling of another role leaves the same-role children alone. */
  lemma {:induction false} InsertOtherRole(
    nodes: seq<Node>, a: seq<string>, id: string, b: seq<string>, role: seq<Byte>)
    requires !HasRole(nodes, id, role)
    ensures SameRole(nodes, a + [id] + b, role) == SameRole(nodes, a + b, role)
  {
    hide HasRole, SameRole;
    var x, y := a + [id] + b, a + b;
    SameRoleStep(nodes, x, role);
    if a == [] {
      assert x[1..] == b && y == b && x[0] == id;
    } else {
      InsertOtherRole(nodes, a[1..], id, b, role);
      assert x[1..] == a[1..] + [id] + b && y[1..] == a[1..] + b && x[0] == y[0];
      SameRoleStep(nodes, y, role);
    }
  }

  lemma WithOtherRole(nodes: seq<Node>, children: seq<string>, at: nat, id: string, role: seq<Byte>)
    requires at <= |children| && !HasRole(nodes, id, role)
    ensures SameRole(nodes, With(children, at, id), role) == SameRole(nodes, children, role)
  {
    hide HasRole, SameRole;
    InsertOtherRole(nodes, children[..at], id, children[at..], role);
    assert children[..at] + children[at..] == children;
  }

  lemma EditOtherRole(nodes: seq<Node>, children: seq<string>, e: Edit, role: seq<Byte>)
    requires Fits(children, e) && !HasRole(nodes, Touched(children, e), role)
    ensures SameRole(nodes, Edited(children, e), role) == SameRole(nodes, children, role)
  {
    if e.Insert? {
      WithOtherRole(nodes, children, e.at, e.id, role);
    } else {
      var at := if e.Remove? then e.at else e.from;
      WithOtherRole(nodes, Without(children, at), at, children[at], role);
      assert With(Without(children, at), at, children[at]) == children;
      if e.Move? {
        WithOtherRole(nodes, Without(children, at), e.to, children[at], role);
      }
    }
  }

  lemma EditKeepsOrTouches(children: seq<string>, e: Edit, id: string)
    requires Fits(children, e)
    ensures id in Edited(children, e) ==> id in children || id == Touched(children, e)
  {
  }

  lemma {:induction false} EditsOtherRole(
    nodes: seq<Node>, children: seq<string>, edits: seq<Edit>, children': seq<string>, others: set<string>,
    role: seq<Byte>)
    requires Leads(children, edits, children', others)
    requires forall id :: id in others ==> !HasRole(nodes, id, role)
    ensures SameRole(nodes, children', role) == SameRole(nodes, children, role)
    ensures forall id :: id in children' ==> id in children || id in others
    decreases |edits|
  {
    if edits != [] {
      var e := edits[0];
      EditOtherRole(nodes, children, e, role);
      EditsOtherRole(nodes, Edited(children, e), edits[1..], children', others, role);
      forall id | id in children' ensures id in children || id in others {
        EditKeepsOrTouches(children, e, id);
      }
    }
  }

  lemma {:induction false} SameRoleAgrees(nodes: seq<Node>, nodes': seq<Node>, children: seq<string>, role: seq<Byte>)
    requires forall id :: id in children ==> (HasRole(nodes, id, role) <==> HasRole(nodes', id, role))
    ensures SameRole(nodes, children, role) == SameRole(nodes', children, role)
  {
    if children != [] {
      SameRoleAgrees(nodes, nodes', children[1..], role);
    }
  }

  /** Any edit of a tree keeps a node's preimage as long as, under that node's parent, children of other
      roles are all that is added, taken away or moved, and the children that were there keep their roles.
      Anything may happen to the rest of the tree. */
  lemma EditKeepsIdentity(
    nodes: seq<Node>, n: Node, p: Node, nodes': seq<Node>, n': Node, p': Node, edits: seq<Edit>, others: set<string>)
    requires WellFormed(nodes) && n in nodes && ParentOf(nodes, n) == Some(p)
    requires WellFormed(nodes') && n' in nodes' && ParentOf(nodes', n') == Some(p')
    requires n'.id == n.id && n'.role == n.role && n'.name == n.name && p'.role == p.role
    requires Leads(p.children, edits, p'.children, others)
    requires forall id :: id in others ==> !HasRole(nodes, id, n.role) && !HasRole(nodes', id, n.role)
    requires forall id :: id in p.children && id in p'.children && id !in others ==>
               (HasRole(nodes, id, n.role) <==> HasRole(nodes', id, n.role))
    ensures StableInput(nodes', n') == StableInput(nodes, n)
  {
    EditsOtherRole(nodes, p.children, edits, p'.children, others, n.role);
    SameRoleAgrees(nodes, nodes', p'.children, n.role);
    IdentityIsStable(nodes, n, p, nodes', n', p');
  }

  // ----- The preimage is injective ------------------------------------------------------------

  predicate SepFree(s: seq<Byte>) {
    SEP !in s
  }

  lemma FirstSepSplits(a: seq<Byte>, r: seq<Byte>, b: seq<Byte>, s: seq<Byte>)
    requires SepFree(a) && SepFree(b) && a + [SEP] + r == b + [SEP] + s
    ensures a == b && r == s
  {
    var x, y := a + [SEP] + r, b + [SEP] + s;
    assert x[|a|] == SEP && y[|b|] == SEP;
    assert |a| == |b|;
    assert a == x[..|a|] && b == y[..|b|] && r == x[|a| + 1..] && s == y[|b| + 1..];
  }

  lemma LastSepSplits(r: seq<Byte>, a: seq<Byte>, s: seq<Byte>, b: seq<Byte>)
    requires SepFree(a) && SepFree(b) && r + [SEP] + a == s + [SEP] + b
    ensures a == b && r == s
  {
    var x, y := r + [SEP] + a, s + [SEP] + b;
    assert x[|r|] == SEP && y[|s|] == SEP;
    assert |r| == |s|;
    assert r == x[..|r|] && s == y[..|s|] && a == x[|r| + 1..] && b == y[|s| + 1..];
  }

  lemma RankTextIsSepFree(n: nat)
    ensures IsAscii(Decimal(n)) && SepFree(Ascii(Decimal(n)))
  {
    DecimalIsAscii(n);
    DecimalValue(n);
    var d := Decimal(n);
    assert forall i :: 0 <= i < |d| ==> IsDigit(d[i]) && Ascii(d)[i] == d[i] as int;
  }

  lemma DecimalIsInjective(m: nat, n: nat)
    requires IsAscii(Decimal(m)) && IsAscii(Decimal(n)) && Ascii(Decimal(m)) == Ascii(Decimal(n))
    ensures m == n
  {
    var a, b := Decimal(m), Decimal(n);
    assert |a| == |Ascii(a)| == |Ascii(b)| == |b|;
    forall i | 0 <= i < |a| ensures a[i] == b[i] {
      assert Ascii(a)[i] == Ascii(b)[i];
    }
    assert a == b;
    DecimalValue(m);
    DecimalValue(n);
  }

  /** The separators keep the four fields apart whenever the roles are free of them, whatever the names hold. */
  lemma PreimageIsInjective(role: seq<Byte>, name: seq<Byte>, parentRole: seq<Byte>, rank: nat,
                            role': seq<Byte>, name': seq<Byte>, parentRole': seq<Byte>, rank': nat)
    requires SepFree(role) && SepFree(parentRole) && SepFree(role') && SepFree(parentRole')
    requires Preimage(role, name, parentRole, rank) == Preimage(role', name', parentRole', rank')
    ensures role == role' && name == name' && parentRole == parentRole' && rank == rank'
  {
    RankTextIsSepFree(rank);
    RankTextIsSepFree(rank');
    var d, d' := Ascii(Decimal(rank)), Ascii(Decimal(rank'));
    LastSepSplits(role + [SEP] + name + [SEP] + parentRole, d, role' + [SEP] + name' + [SEP] + parentRole', d');
    LastSepSplits(role + [SEP] + name, parentRole, role' + [SEP] + name', parentRole');
    FirstSepSplits(role, name, role', name');
    DecimalIsInjective(rank, rank');
  }

  /** A separator in a role can be read as the one that ends it. */
  lemma SeparatorInRoleCollides(a: seq<Byte>, b: seq<Byte>, name: seq<Byte>, parentRole: seq<Byte>, rank: nat)
    ensures Preimage(a + [SEP] + b, name, parentRole, rank) == Preimage(a, b + [SEP] + name, parentRole, rank)
  {
    assert a + [SEP] + b + [SEP] + name == a + [SEP] + (b + [SEP] + name);
  }

  /** And one in a parent role as the one before it. */
  lemma SeparatorInParentCollides(role: seq<Byte>, name: seq<Byte>, a: seq<Byte>, b: seq<Byte>, rank: nat)
    ensures Preimage(role, name, a + [SEP] + b, rank) == Preimage(role, name + [SEP] + a, b, rank)
  {
    assert role + [SEP] + name + [SEP] + (a + [SEP] + b) == role + [SEP] + (name + [SEP] + a) + [SEP] + b;
  }

  lemma SplitAtSep(s: seq<Byte>) returns (a: seq<Byte>, b: seq<Byte>)
    requires !SepFree(s)
    ensures s == a + [SEP] + b
  {
    var i :| 0 <= i < |s| && s[i] == SEP;
    a, b := s[..i], s[i + 1..];
  }

  ghost predicate OnlyPreimage(role: seq<Byte>, name: seq<Byte>, parentRole: seq<Byte>, rank: nat) {
    forall role': seq<Byte>, name': seq<Byte>, parentRole': seq<Byte>, rank': nat ::
      Preimage(role', name', parentRole', rank') == Preimage(role, name, parentRole, rank) ==>
        role' == role && name' == name && parentRole' == parentRole && rank' == rank
  }

  lemma SepCount(role: seq<Byte>, name: seq<Byte>, parentRole: seq<Byte>, rank: nat)
    ensures multiset(Preimage(role, name, parentRole, rank))[SEP]
         == multiset(role)[SEP] + multiset(name)[SEP] + multiset(parentRole)[SEP] + 3
  {
    RankTextIsSepFree(rank);
  }

  /** Exactly the elements whose role, name and parent role are free of the separator have a preimage that no
      other element, whatever its fields hold, can share. */
  lemma PreimageIsUnique(role: seq<Byte>, name: seq<Byte>, parentRole: seq<Byte>, rank: nat)
    ensures OnlyPreimage(role, name, parentRole, rank) <==> SepFree(role) && SepFree(name) && SepFree(parentRole)
  {
    hide Preimage;
    if !SepFree(role) {
      var a, b := SplitAtSep(role);
      SeparatorInRoleCollides(a, b, name, parentRole, rank);
      assert a != role;
    } else if !SepFree(name) {
      var a, b := SplitAtSep(name);
      SeparatorInRoleCollides(role, a, b, parentRole, rank);
      assert b != name;
    } else if !SepFree(parentRole) {
      var a, b := SplitAtSep(parentRole);
      SeparatorInParentCollides(role, name, a, b, rank);
      assert b != parentRole;
    } else {
      forall role': seq<Byte>, name': seq<Byte>, parentRole': seq<Byte>, rank': nat
        | Preimage(role', name', parentRole', rank') == Preimage(role, name, parentRole, rank)
        ensures role' == role && name' == name && parentRole' == parentRole && rank' == rank
      {
        SepCount(role, name, parentRole, rank);
        SepCount(role', name', parentRole', rank');
        PreimageIsInjective(role, name, parentRole, rank, role', name', parentRole', rank');
      }
    }
  }
}
