/** The linked lists of liblst: nodes, and the list_t * locations that hold them. */
module Lists {

  /** list_t.  The constructor is ft_lstnew: a fresh node with a copy of the content. */
  class Node<T> {
    var content: T
    var next: Node?<T>

    constructor (c: T)
      ensures content == c && next == null
    {
      content, next := c, null;
    }
  }

  /** A list_t ** argument: the list's own head pointer, or the next field of a node. */
  datatype Slot<T> = AtHead | AtNext(node: Node<T>)

  ghost function ContentsOf<T>(nodes: seq<Node<T>>): (s: seq<T>)
    reads nodes
    ensures |s| == |nodes|
    ensures forall i :: 0 <= i < |nodes| ==> s[i] == nodes[i].content
  {
    seq(|nodes|, i requires 0 <= i < |nodes| reads nodes => nodes[i].content)
  }

  /** s without its element k. */
  function RemoveAt<T>(s: seq<T>, k: nat): (r: seq<T>)
    requires k < |s|
    ensures |r| == |s| - 1
  {
    s[..k] + s[k + 1..]
  }

  lemma RemoveAtSlices<T>(s: seq<T>, k: nat)
    requires k < |s|
    ensures RemoveAt(s, k)[..k] == s[..k] && RemoveAt(s, k)[k..] == s[k + 1..]
  {
  }

  /** The i-th node, null just past the end. */
  ghost function NodeAt<T>(nodes: seq<Node<T>>, i: nat): Node?<T>
  {
    if i < |nodes| then nodes[i] else null
  }

  /** Each node links to the one after it, and no node occurs twice. */
  ghost predicate Linked<T>(nodes: seq<Node<T>>)
    reads nodes
  {
    && (forall i {:trigger nodes[i].next} :: 0 <= i < |nodes| ==> nodes[i].next == NodeAt(nodes, i + 1))
    && (forall i, j :: 0 <= i < j < |nodes| ==> nodes[i] != nodes[j])
  }

  /** A head pointer (list_t *) with the nodes it reaches, in order. */
  class List<T> {
    var head: Node?<T>
    ghost var spine: seq<Node<T>>

    ghost predicate Valid()
      reads this, spine
    {
      head == NodeAt(spine, 0) && Linked(spine)
    }

    ghost function Contents(): seq<T>
      reads this, spine
    {
      ContentsOf(spine)
    }

    ghost function Nodes(): set<Node<T>>
      reads this
    {
      set n | n in spine
    }

    constructor ()
      ensures Valid() && spine == []
    {
      head, spine := null, [];
    }

    /** ft_lstback: the last node. */
    method Back() returns (last: Node<T>)
      requires Valid() && head != null
      ensures last == spine[|spine| - 1]
    {
      last := head;
      ghost var i := 0;
      while last.next != null
        invariant i < |spine| && last == spine[i]
        decreases |spine| - i
      {
        last := last.next;
        i := i + 1;
      }
    }

    /** ft_lstpush: link a single node behind the last one. */
    method Push(n: Node<T>)
      requires Valid()
      requires n !in spine && n.next == null
      modifies this, if head == null then {} else {spine[|spine| - 1]}
      ensures Valid()
      ensures spine == old(spine) + [n]
      ensures Contents() == old(Contents()) + [n.content]
    {
      if head == null {
        head := n;
      } else {
        var last := Back();
        last.next := n;
      }
      spine := spine + [n];
    }

    /** ft_lstnew followed by ft_lstpush. */
    method Append(c: T)
      requires Valid()
      modifies this, if head == null then {} else {spine[|spine| - 1]}
      ensures Valid()
      ensures |spine| == |old(spine)| + 1 && spine[..|old(spine)|] == old(spine)
      ensures fresh(spine[|old(spine)|])
      ensures Contents() == old(Contents()) + [c]
    {
      var n := new Node(c);
      Push(n);
    }

    /** ft_lstdelone(&list, del) on a nonempty list. */
    method DelHead()
      requires Valid() && head != null
      modifies this
      ensures Valid()
      ensures spine == old(spine)[1..]
    {
      assert head == spine[0] && head.next == NodeAt(spine, 1);
      head := head.next;
      spine := spine[1..];
      assert forall i :: 0 <= i < |spine| ==> spine[i] == old(spine)[i + 1];
    }

    /** ft_lstdelone(&n->next, del) when n has a successor. */
    method DelNext(n: Node<T>, ghost at: nat)
      requires Valid() && 0 < at < |spine| && n == spine[at - 1]
      modifies this, n
      ensures Valid()
      ensures n.content == old(n.content)
      ensures spine == RemoveAt(old(spine), at)
    {
      ghost var s := spine;
      assert n.next == s[at] && s[at].next == NodeAt(s, at + 1);
      n.next := n.next.next;
      spine := RemoveAt(s, at);
      assert forall i :: 0 <= i < at ==> spine[i] == s[i];
      assert forall i :: at <= i < |spine| ==> spine[i] == s[i + 1];
    }

    /** ft_lstdelone: unlink the node the slot points at, if there is one. */
    method DelOne(slot: Slot<T>, ghost at: nat)
      requires Valid()
      requires slot.AtHead? ==> at == 0
      requires slot.AtNext? ==> 0 < at <= |spine| && slot.node == spine[at - 1]
      modifies this, if slot.AtHead? then {} else {slot.node}
      ensures Valid()
      ensures at < |old(spine)| ==> spine == RemoveAt(old(spine), at)
      ensures at < |old(spine)| ==> Contents() == RemoveAt(old(Contents()), at)
      ensures at == |old(spine)| ==> spine == old(spine) && Contents() == old(Contents())
    {
      match slot
      case AtHead =>
        if head != null {
          DelHead();
          assert spine == RemoveAt(old(spine), 0);
        }
      case AtNext(n) =>
        if n.next != null {
          DelNext(n, at);
        }
    }
  }

  /** Following next from one node of a list. */
  lemma NextNode<T>(l: List<T>, i: nat)
    requires l.Valid() && i < |l.spine|
    ensures l.spine[i].content == l.Contents()[i]
    ensures l.spine[i].next == NodeAt(l.spine, i + 1)
    ensures i + 1 < |l.spine| ==> l.spine[i + 1].content == l.Contents()[i + 1]
  {
  }
}
