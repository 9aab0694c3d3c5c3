/**
 * Flattening the KEGG BRITE compound hierarchy
 * (metabolite_properties/kegg_brite_parsing.py).  A JSON node with a
 * 'children' key is an inner node; any other node is a leaf whose name is
 * collected.  The JSON document is a parameter (the file read is left out).
 */
module KeggBrite {
  import opened Base

  /** A node of the hierarchy: a compound, or a group with its sub-nodes in document order. */
  datatype Node = Leaf(name: string) | Inner(name: string, children: seq<Node>)

  /** The names of the leaves below n, depth first and left to right. */
  function Leaves(n: Node): seq<string>
    decreases n
  {
    match n
    case Leaf(name) => [name]
    case Inner(_, cs) => Flatten(seq(|cs|, i requires 0 <= i < |cs| => Leaves(cs[i])))
  }

  /** The leaf names of the first k children of an inner node. */
  function ChildLeaves(cs: seq<Node>, k: nat): seq<seq<string>>
    requires k <= |cs|
  {
    seq(k, i requires 0 <= i < k => Leaves(cs[i]))
  }

  /** A reference definition of membership: x names some leaf of n. */
  predicate HasLeaf(n: Node, x: string)
    decreases n
  {
    match n
    case Leaf(name) => name == x
    case Inner(_, cs) => exists i :: 0 <= i < |cs| && HasLeaf(cs[i], x)
  }

  /** The flattened list holds exactly the leaf names; inner nodes add nothing of their own. */
  lemma {:induction false} LeavesAreLeafNames(n: Node, x: string)
    ensures x in Leaves(n) <==> HasLeaf(n, x)
    decreases n
  {
    match n
    case Leaf(_) =>
    case Inner(_, cs) =>
      var ss := ChildLeaves(cs, |cs|);
      assert Leaves(n) == Flatten(ss);
      if x in Leaves(n) {
        FlattenMemberInv(ss, x);
        var k :| 0 <= k < |ss| && x in ss[k];
        LeavesAreLeafNames(cs[k], x);
      }
      if HasLeaf(n, x) {
        var k :| 0 <= k < |cs| && HasLeaf(cs[k], x);
        LeavesAreLeafNames(cs[k], x);
        FlattenMember(ss, k, x);
      }
  }

  /** b holds a as a block starting at position i. */
  predicate SegmentAt(a: seq<string>, b: seq<string>, i: int)
  {
    0 <= i <= |b| - |a| && b[i..i + |a|] == a
  }

  /** b holds a as a contiguous block. */
  ghost predicate IsSegment(a: seq<string>, b: seq<string>)
  {
    exists i :: SegmentAt(a, b, i)
  }

  lemma SegmentTransitive(a: seq<string>, b: seq<string>, c: seq<string>)
    requires IsSegment(a, b) && IsSegment(b, c)
    ensures IsSegment(a, c)
  {
    var i :| SegmentAt(a, b, i);
    var j :| SegmentAt(b, c, j);
    var s := c[j + i..j + i + |a|];
    forall k | 0 <= k < |a| ensures s[k] == a[k] {
      assert s[k] == c[j..j + |b|][i + k] == b[i..i + |a|][k];
    }
    assert SegmentAt(a, c, j + i);
  }

  /** The leaves of one child form a contiguous block of the leaves of its parent. */
  lemma ChildLeavesSegment(n: Node, k: nat)
    requires n.Inner? && k < |n.children|
    ensures IsSegment(Leaves(n.children[k]), Leaves(n))
  {
    var cs := n.children;
    var ss := ChildLeaves(cs, |cs|);
    assert ss == ss[..k] + [ss[k]] + ss[k + 1..];
    FlattenAppend(ss[..k] + [ss[k]], ss[k + 1..]);
    FlattenAppend(ss[..k], [ss[k]]);
    assert Flatten([ss[k]]) == ss[k] by {
      assert [ss[k]][..0] == [];
    }
    var pre := Flatten(ss[..k]);
    assert Leaves(n) == pre + ss[k] + Flatten(ss[k + 1..]);
    assert SegmentAt(ss[k], Leaves(n), |pre|);
  }

  /**
   * The node reached by following `children[p0]['children'][p1]...` from n:
   * KeyError when a step meets a leaf, IndexError when a position is past the end.
   */
  function Select(n: Node, path: seq<nat>): (r: Result<Node>)
    decreases |path|
  {
    if |path| == 0 then Ok(n)
    else
      match n
      case Leaf(_) => Err("KeyError: 'children'")
      case Inner(_, cs) =>
        if path[0] < |cs| then Select(cs[path[0]], path[1..]) else Err("IndexError: list index out of range")
  }

  /** Following p then q is following p + q. */
  lemma {:induction false} SelectConcat(n: Node, p: seq<nat>, q: seq<nat>)
    ensures Select(n, p + q) == (if Select(n, p).Ok? then Select(Select(n, p).value, q) else Select(n, p))
    decreases |p|
  {
    if |p| == 0 {
      assert p + q == q;
    } else {
      assert (p + q)[0] == p[0] && (p + q)[1..] == p[1..] + q;
      if n.Inner? && p[0] < |n.children| {
        SelectConcat(n.children[p[0]], p[1..], q);
      }
    }
  }

  /** The leaves below any reachable node form a contiguous block of the leaves below n. */
  lemma {:induction false} SelectedLeavesSegment(n: Node, path: seq<nat>)
    requires Select(n, path).Ok?
    ensures IsSegment(Leaves(Select(n, path).value), Leaves(n))
    decreases |path|
  {
    if |path| == 0 {
      assert SegmentAt(Leaves(n), Leaves(n), 0);
    } else {
      var c := n.children[path[0]];
      SelectedLeavesSegment(c, path[1..]);
      ChildLeavesSegment(n, path[0]);
      SegmentTransitive(Leaves(Select(n, path).value), Leaves(c), Leaves(n));
    }
  }

  /** A list the walk appends to, passed by reference as in the source. */
  class NameList {
    var items: seq<string>

    constructor ()
      ensures items == []
    {
      items := [];
    }
  }

  /** `dig_into_kegg_dicts`: appends the leaf names below d to the list, keeping what it held. */
  method DigIntoKeggDicts(list: NameList, d: Node)
    modifies list
    ensures list.items == old(list.items) + Leaves(d)
    decreases d
  {
    match d {
      case Leaf(name) =>
        list.items := list.items + [name];
      case Inner(_, cs) =>
        var i := 0;
        while i < |cs|
          invariant i <= |cs|
          invariant list.items == old(list.items) + Flatten(ChildLeaves(cs, i))
        {
          assert ChildLeaves(cs, i + 1) == ChildLeaves(cs, i) + [Leaves(cs[i])];
          FlattenAppend(ChildLeaves(cs, i), [Leaves(cs[i])]);
          assert Flatten([Leaves(cs[i])]) == Leaves(cs[i]) by {
            assert [Leaves(cs[i])][..0] == [];
          }
          DigIntoKeggDicts(list, cs[i]);
          i := i + 1;
        }
        assert ChildLeaves(cs, |cs|) == seq(|cs|, i requires 0 <= i < |cs| => Leaves(cs[i]));
    }
  }

  /** The leaf names of the subtree at `path`, collected by the walk into a fresh list. */
  method LeavesAt(compounds: Node, path: seq<nat>) returns (r: Result<seq<string>>)
    ensures r.Ok? <==> Select(compounds, path).Ok?
    ensures r.Ok? ==> r.value == Leaves(Select(compounds, path).value)
  {
    var sel := Select(compounds, path);
    if sel.Err? {
      return Err(sel.error);
    }
    var list := new NameList();
    DigIntoKeggDicts(list, sel.value);
    return Ok(list.items);
  }

  const AlkaloidPath: seq<nat> := [0]
  const SteroidPath: seq<nat> := [4, 6]
  const CardenolidePath: seq<nat> := [4, 6, 3]

  /** `get_alkaloids_from_kegg_brite`: the leaves of the first top-level group. */
  method GetAlkaloidsFromKeggBrite(compounds: Node) returns (r: Result<seq<string>>)
    ensures r.Ok? <==> Select(compounds, AlkaloidPath).Ok?
    ensures r.Ok? ==> forall x :: x in r.value <==> HasLeaf(Select(compounds, AlkaloidPath).value, x)
  {
    r := LeavesAt(compounds, AlkaloidPath);
    if r.Ok? {
      forall x ensures x in r.value <==> HasLeaf(Select(compounds, AlkaloidPath).value, x) {
        LeavesAreLeafNames(Select(compounds, AlkaloidPath).value, x);
      }
    }
  }

  /** `get_steroids_from_kegg_brite`: the leaves of group 6 of top-level group 4. */
  method GetSteroidsFromKeggBrite(compounds: Node) returns (r: Result<seq<string>>)
    ensures r.Ok? <==> Select(compounds, SteroidPath).Ok?
    ensures r.Ok? ==> r.value == Leaves(Select(compounds, SteroidPath).value)
  {
    r := LeavesAt(compounds, SteroidPath);
  }

  /** `get_cardenolides_from_kegg_brite`: the leaves of group 3 inside the steroid group. */
  method GetCardenolidesFromKeggBrite(compounds: Node) returns (r: Result<seq<string>>)
    ensures r.Ok? <==> Select(compounds, CardenolidePath).Ok?
    ensures r.Ok? ==> r.value == Leaves(Select(compounds, CardenolidePath).value)
  {
    r := LeavesAt(compounds, CardenolidePath);
  }

  /**
   * The cardenolide subtree lies inside the steroid subtree: whenever the
   * cardenolides can be read, so can the steroids, and the cardenolide list
   * is a contiguous block of the steroid list.
   */
  lemma CardenolidesAreSteroids(compounds: Node)
    requires Select(compounds, CardenolidePath).Ok?
    ensures Select(compounds, SteroidPath).Ok?
    ensures IsSegment(Leaves(Select(compounds, CardenolidePath).value), Leaves(Select(compounds, SteroidPath).value))
  {
    assert CardenolidePath == SteroidPath + [3];
    SelectConcat(compounds, SteroidPath, [3]);
    SelectedLeavesSegment(Select(compounds, SteroidPath).value, [3]);
  }
}
