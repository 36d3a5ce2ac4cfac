/** The intrusive doubly-linked list of ListNode.hpp. Pointers are addresses (or descriptor indices);
    the m_next/m_prev fields of all nodes of one type live in one ListNodes object. */
module ListNode {

  datatype Ptr = Null | At(addr: nat)

  /** The two link fields of a node. */
  datatype Node = Node(next: Ptr, prev: Ptr)

  const UNLINKED := Node(Null, Null)

  /** The list head that belongs to a node sequence. */
  function Head(s: seq<nat>): Ptr
  {
    if s == [] then Null else At(s[0])
  }

  function LinksAt(s: seq<nat>, i: nat): Node
    requires i < |s|
  {
    Node(if i + 1 < |s| then At(s[i + 1]) else Null, if i > 0 then At(s[i - 1]) else Null)
  }

  ghost predicate Distinct(s: seq<nat>)
  {
    forall i, j | 0 <= i < j < |s| :: s[i] != s[j]
  }

  /** The nodes of s form a well-formed doubly-linked list in this order. */
  ghost predicate Linked(nodes: map<nat, Node>, s: seq<nat>)
  {
    && Distinct(s)
    && (forall x | x in s :: x in nodes)
    && forall i {:trigger LinksAt(s, i)} | 0 <= i < |s| :: nodes[s[i]] == LinksAt(s, i)
  }

  ghost function IndexOf(s: seq<nat>, p: nat): (k: nat)
    requires p in s
    ensures k < |s| && s[k] == p
  {
    var k :| 0 <= k < |s| && s[k] == p;
    k
  }

  /** s without its element p. */
  ghost function Without(s: seq<nat>, p: nat): seq<nat>
    requires p in s
  {
    s[..IndexOf(s, p)] + s[IndexOf(s, p) + 1..]
  }

  lemma WithoutFacts(s: seq<nat>, p: nat)
    requires Distinct(s) && p in s
    ensures Distinct(Without(s, p)) && |Without(s, p)| == |s| - 1
    ensures forall x :: x in Without(s, p) <==> x in s && x != p
    ensures s[0] == p ==> Without(s, p) == s[1..]
  {
    var k := IndexOf(s, p);
    var t := Without(s, p);
    forall x ensures x in t <==> x in s && x != p {
      if x in s && x != p {
        var i :| 0 <= i < |s| && s[i] == x;
        assert t[if i < k then i else i - 1] == x;
      }
      if x in t {
        var i :| 0 <= i < |t| && t[i] == x;
        assert s[if i < k then i else i + 1] == x;
      }
    }
  }

  lemma NextInList(nodes: map<nat, Node>, s: seq<nat>, j: nat)
    requires Linked(nodes, s) && j < |s|
    ensures s[j] in s && s[j] in nodes
    ensures nodes[s[j]].next == if j + 1 < |s| then At(s[j + 1]) else Null
  {
    assert nodes[s[j]] == LinksAt(s, j);
  }

  /** A list only depends on the links of its own nodes. */
  lemma LinkedFrame(nodes: map<nat, Node>, nodes': map<nat, Node>, s: seq<nat>)
    requires Linked(nodes, s)
    requires forall x | x in s && x in nodes :: x in nodes' && nodes'[x] == nodes[x]
    ensures Linked(nodes', s)
  {
    forall i | 0 <= i < |s| ensures nodes'[s[i]] == LinksAt(s, i) {
      assert s[i] in s;
    }
  }

  lemma LinkedIsDistinct(nodes: map<nat, Node>, s: seq<nat>)
    requires Linked(nodes, s)
    ensures Distinct(s)
  {
  }

  class ListNodes {
    var nodes: map<nat, Node>

    constructor ()
      ensures nodes == map[]
    {
      nodes := map[];
    }

    method InitListNode(p: nat)
      modifies this
      ensures nodes == old(nodes)[p := UNLINKED]
    {
      nodes := nodes[p := UNLINKED];
    }

    /** Pushes node p in front of the list; returns the new list head. */
    method AddToList(p: nat, list: Ptr, ghost s: seq<nat>) returns (head: Ptr)
      requires Linked(nodes, s) && list == Head(s)
      requires p in nodes && nodes[p] == UNLINKED && p !in s
      modifies this
      ensures Linked(nodes, [p] + s) && head == Head([p] + s)
      ensures nodes.Keys == old(nodes).Keys
      ensures forall q | q in nodes && q !in [p] + s :: nodes[q] == old(nodes)[q]
    {
      if list.At? {
        var first := list.addr;
        assert first == s[0];
        nodes := nodes[p := Node(list, nodes[p].prev)];
        nodes := nodes[first := Node(nodes[first].next, At(p))];
      }
      head := At(p);
      ghost var t := [p] + s;
      forall i | 0 <= i < |t| ensures nodes[t[i]] == LinksAt(t, i) {
        if i > 0 {
          assert s[i - 1] in s;
          assert old(nodes)[s[i - 1]] == LinksAt(s, i - 1);
        }
      }
    }

    /** Unlinks node p from the list s; returns the new list head. */
    method RemoveFromList(p: nat, list: Ptr, ghost s: seq<nat>) returns (head: Ptr)
      requires Linked(nodes, s) && list == Head(s) && p in s
      modifies this
      ensures Linked(nodes, Without(s, p)) && head == Head(Without(s, p))
      ensures p in nodes && nodes[p] == UNLINKED
      ensures nodes.Keys == old(nodes).Keys
      ensures forall q | q in nodes && q !in s :: nodes[q] == old(nodes)[q]
    {
      ghost var k := IndexOf(s, p);
      assert nodes[p] == LinksAt(s, k);
      var next, prev := nodes[p].next, nodes[p].prev;
      if next.At? {
        assert s[k + 1] in s && nodes[s[k + 1]] == LinksAt(s, k + 1);
        nodes := nodes[next.addr := Node(nodes[next.addr].next, prev)];
      }
      if prev.At? {
        assert s[k - 1] in s && old(nodes)[s[k - 1]] == LinksAt(s, k - 1);
        nodes := nodes[prev.addr := Node(next, nodes[prev.addr].prev)];
      }
      head := if list == At(p) then next else list;
      nodes := nodes[p := UNLINKED];
      Unlinked(old(nodes), nodes, s, k);
    }
  }

  /** Bypassing node k of a list leaves the list without it. */
  lemma Unlinked(nodes: map<nat, Node>, nodes': map<nat, Node>, s: seq<nat>, k: nat)
    requires Linked(nodes, s) && k < |s| && k == IndexOf(s, s[k])
    requires nodes'.Keys == nodes.Keys
    requires forall i {:trigger LinksAt(s, i)} | 0 <= i < |s| && i != k ::
      nodes'[s[i]] == Node(if i + 1 == k then nodes[s[k]].next else nodes[s[i]].next,
                           if i == k + 1 then nodes[s[k]].prev else nodes[s[i]].prev)
    ensures Linked(nodes', Without(s, s[k]))
  {
    var t := Without(s, s[k]);
    WithoutFacts(s, s[k]);
    assert nodes[s[k]] == LinksAt(s, k);
    forall j | 0 <= j < |t| ensures nodes'[t[j]] == LinksAt(t, j) {
      var i := if j < k then j else j + 1;
      WithoutLinks(s, k, j);
      assert t[j] == s[i];
      assert nodes[s[i]] == LinksAt(s, i);
    }
  }

  lemma WithoutLinks(s: seq<nat>, k: nat, j: nat)
    requires k < |s| && k == IndexOf(s, s[k]) && j < |s| - 1
    ensures |Without(s, s[k])| == |s| - 1
    ensures var i := if j < k then j else j + 1;
      && Without(s, s[k])[j] == s[i]
      && LinksAt(Without(s, s[k]), j) == Node(if i + 1 == k then LinksAt(s, k).next else LinksAt(s, i).next,
                                              if i == k + 1 then LinksAt(s, k).prev else LinksAt(s, i).prev)
  {
    var t := Without(s, s[k]);
    assert forall x | 0 <= x < |t| :: t[x] == if x < k then s[x] else s[x + 1];
  }
}
