/** The list and the hash table as one thread sees them: nodes relinked in place. */
module HashTable {
  import opened HashMachine

  datatype Pair = Pair(key: Key, element: int)

  // ----- A list of pairs, newest first -----

  function Remove(c: seq<Pair>, k: Key): seq<Pair> {
    if c == [] then []
    else if c[0].key == k then c[1..]
    else [c[0]] + Remove(c[1..], k)
  }

  function Find(c: seq<Pair>, k: Key): int {
    if c == [] then NO_ELEMENT else if c[0].key == k then c[0].element else Find(c[1..], k)
  }

  /** The elements a key stands for: lookup sees the first, insert shadows it, delete uncovers the next. */
  function Under(c: seq<Pair>, k: Key): seq<int> {
    if c == [] then [] else (if c[0].key == k then [c[0].element] else []) + Under(c[1..], k)
  }

  lemma {:induction false} RemovePops(c: seq<Pair>, k: Key, j: Key)
    ensures Under(Remove(c, k), j) == if j == k && Under(c, k) != [] then Under(c, k)[1..] else Under(c, j)
  {
    if c != [] && c[0].key != k {
      RemovePops(c[1..], k, j);
      assert Remove(c, k)[1..] == Remove(c[1..], k);
    }
  }

  lemma {:induction false} FindIsTop(c: seq<Pair>, k: Key)
    ensures Find(c, k) == if Under(c, k) == [] then NO_ELEMENT else Under(c, k)[0]
  {
    if c != [] && c[0].key != k {
      FindIsTop(c[1..], k);
    }
  }

  function AfterList(c: seq<Pair>, op: Op): seq<Pair> {
    match op
    case Insert(k, e) => [Pair(k, e)] + c
    case Delete(k) => Remove(c, k)
    case Lookup(_) => c
  }

  function AfterTable(t: seq<seq<Pair>>, op: Op): seq<seq<Pair>>
    requires |t| > 0
  {
    t[op.key % |t| := AfterList(t[op.key % |t|], op)]
  }

  function ListRun(ops: seq<Op>): seq<Pair> {
    if ops == [] then [] else AfterList(ListRun(ops[..|ops| - 1]), ops[|ops| - 1])
  }

  function TableRun(ops: seq<Op>, buckets: nat): (t: seq<seq<Pair>>)
    requires buckets > 0
    ensures |t| == buckets
  {
    if ops == [] then seq(buckets, _ => []) else AfterTable(TableRun(ops[..|ops| - 1], buckets), ops[|ops| - 1])
  }

  lemma ListEffect(c: seq<Pair>, op: Op, k: Key)
    ensures Under(AfterList(c, op), k) == Effected(op, Under(c, k), k)
  {
    if op.Delete? {
      RemovePops(c, op.key, k);
    } else if op.Insert? {
      assert AfterList(c, op)[1..] == c;
    }
  }

  lemma {:induction false} TableLikeList(ops: seq<Op>, buckets: nat, k: Key)
    requires buckets > 0
    ensures Under(TableRun(ops, buckets)[k % buckets], k) == Under(ListRun(ops), k)
  {
    if ops != [] {
      var before, op := ops[..|ops| - 1], ops[|ops| - 1];
      TableLikeList(before, buckets, k);
      ListEffect(ListRun(before), op, k);
      ListEffect(TableRun(before, buckets)[k % buckets], op, k);
    }
  }

  /** Whatever the number of buckets, the table answers as one list given the same operations. */
  lemma TableAnswersLikeList(ops: seq<Op>, buckets: nat, k: Key)
    requires buckets > 0
    ensures Find(TableRun(ops, buckets)[k % buckets], k) == Find(ListRun(ops), k)
  {
    TableLikeList(ops, buckets, k);
    FindIsTop(TableRun(ops, buckets)[k % buckets], k);
    FindIsTop(ListRun(ops), k);
  }

  /** An insert is undone by a delete of its key, for every key, shadowed elements included. */
  lemma DeleteUndoesInsert(c: seq<Pair>, k: Key, e: int)
    ensures Find(AfterList(c, Insert(k, e)), k) == e
    ensures AfterList(AfterList(c, Insert(k, e)), Delete(k)) == c
  {
  }

  /** The log of the concurrent table means what one list given the logged operations holds. */
  lemma {:induction false} LogLikeList(log: seq<Entry>, k: Key)
    ensures Stack(log, k) == Under(ListRun(seq(|log|, i requires 0 <= i < |log| => log[i].op)), k)
    ensures Answer(log, Lookup(k)) == Find(ListRun(seq(|log|, i requires 0 <= i < |log| => log[i].op)), k)
  {
    var ops := seq(|log|, i requires 0 <= i < |log| => log[i].op);
    if log != [] {
      var front := log[..|log| - 1];
      LogLikeList(front, k);
      assert ops[..|ops| - 1] == seq(|front|, i requires 0 <= i < |front| => front[i].op);
      ListEffect(ListRun(ops[..|ops| - 1]), ops[|ops| - 1], k);
    }
    FindIsTop(ListRun(ops), k);
  }

  // ----- The nodes -----

  class ListNode {
    const key: Key
    const element: int
    var next: ListNode?

    constructor (key: Key, element: int)
      ensures this.key == key && this.element == element && next == null
    {
      this.key := key;
      this.element := element;
      next := null;
    }
  }

  function PairsOf(nodes: seq<ListNode>): (c: seq<Pair>)
    ensures |c| == |nodes| && forall i :: 0 <= i < |c| ==> c[i] == Pair(nodes[i].key, nodes[i].element)
  {
    seq(|nodes|, i requires 0 <= i < |nodes| => Pair(nodes[i].key, nodes[i].element))
  }

  function NodeAt(nodes: seq<ListNode>, i: int): ListNode? {
    if 0 <= i < |nodes| then nodes[i] else null
  }

  /** With no such key among the first i pairs, search and removal go on from there. */
  lemma {:induction false} PassedOver(c: seq<Pair>, k: Key, i: nat)
    requires i <= |c| && forall j :: 0 <= j < i ==> c[j].key != k
    ensures Find(c, k) == Find(c[i..], k)
    ensures Remove(c, k) == c[..i] + Remove(c[i..], k)
  {
    if i == 0 {
      assert c[0..] == c;
    } else {
      PassedOver(c[1..], k, i - 1);
      assert c[1..][i - 1..] == c[i..];
      assert c[..i] == [c[0]] + c[1..][..i - 1];
    }
  }

  lemma StoppedAt(c: seq<Pair>, k: Key, i: nat)
    requires i <= |c| && (forall j :: 0 <= j < i ==> c[j].key != k) && (i < |c| ==> c[i].key == k)
    ensures i < |c| ==> Find(c, k) == c[i].element && Remove(c, k) == c[..i] + c[i + 1..]
    ensures i == |c| ==> Find(c, k) == NO_ELEMENT && Remove(c, k) == c
  {
    PassedOver(c, k, i);
  }

  function Cut(nodes: seq<ListNode>, i: nat): (r: seq<ListNode>)
    requires i < |nodes|
    ensures |r| == |nodes| - 1 && forall j :: 0 <= j < |r| ==> r[j] == nodes[if j < i then j else j + 1]
  {
    nodes[..i] + nodes[i + 1..]
  }

  lemma CutPairs(nodes: seq<ListNode>, i: nat)
    requires i < |nodes|
    ensures PairsOf(Cut(nodes, i)) == PairsOf(nodes)[..i] + PairsOf(nodes)[i + 1..]
  {
  }

  lemma NodeAtIs(nodes: seq<ListNode>, i: int)
    ensures NodeAt(nodes, i) == if 0 <= i < |nodes| then nodes[i] else null
  {
  }

  lemma CutNodeAt(nodes: seq<ListNode>, i: nat, j: nat)
    requires i < |nodes|
    ensures NodeAt(Cut(nodes, i), j) == NodeAt(nodes, if j < i then j else j + 1)
  {
  }

  class List {
    var head: ListNode?
    ghost var nodes: seq<ListNode>

    ghost predicate Valid()
      reads this, nodes
    {
      && head == NodeAt(nodes, 0)
      && (forall i :: 0 <= i < |nodes| ==> nodes[i].next == NodeAt(nodes, i + 1))
      && (forall i, j :: 0 <= i < j < |nodes| ==> nodes[i] != nodes[j])
    }

    ghost function Contents(): seq<Pair>
      reads this
    {
      PairsOf(nodes)
    }

    constructor ()
      ensures Valid() && nodes == [] && head == null
    {
      head := null;
      nodes := [];
    }

    method Insert(element: int, key: Key)
      requires Valid()
      modifies this
      ensures Valid() && Contents() == AfterList(old(Contents()), HashMachine.Insert(key, element))
      ensures |nodes| == |old(nodes)| + 1 && fresh(nodes[0]) && nodes[1..] == old(nodes)
    {
      var node := new ListNode(key, element);
      node.next := head;
      head := node;
      nodes := [node] + nodes;
    }

    /** The search of List_Delete, which trails one node behind. */
    method Locate(key: Key) returns (currentNode: ListNode?, oldNode: ListNode?, ghost i: nat)
      requires Valid()
      ensures i <= |nodes| && currentNode == NodeAt(nodes, i) && oldNode == NodeAt(nodes, i - 1)
      ensures i < |nodes| ==> Contents()[i].key == key && Find(Contents(), key) == nodes[i].element
                              && Remove(Contents(), key) == Contents()[..i] + Contents()[i + 1..]
      ensures i == |nodes| ==> Find(Contents(), key) == NO_ELEMENT && Remove(Contents(), key) == Contents()
    {
      hide Remove, Find;
      currentNode, oldNode := head, null;
      i := 0;
      while currentNode != null && currentNode.key != key
        invariant 0 <= i <= |nodes| && currentNode == NodeAt(nodes, i) && oldNode == NodeAt(nodes, i - 1)
        invariant forall j :: 0 <= j < i ==> nodes[j].key != key
        decreases |nodes| - i
      {
        oldNode := currentNode;
        currentNode := currentNode.next;
        i := i + 1;
      }
      StoppedAt(Contents(), key, i);
    }

    method Delete(key: Key)
      requires Valid()
      modifies this, nodes
      ensures Valid() && Contents() == AfterList(old(Contents()), HashMachine.Delete(key))
      ensures forall n :: n in nodes ==> n in old(nodes)
    {
      hide Remove, Find;
      var currentNode, oldNode;
      ghost var i;
      currentNode, oldNode, i := Locate(key);
      if currentNode != null {
        CutPairs(nodes, i);
        TakeOut(currentNode, oldNode, i);
      }
    }

    /** The node at place i leaves the list. */
    method TakeOut(currentNode: ListNode, oldNode: ListNode?, ghost i: nat)
      requires Valid() && i < |nodes| && currentNode == nodes[i] && oldNode == NodeAt(nodes, i - 1)
      modifies this, oldNode
      ensures Valid() && nodes == Cut(old(nodes), i)
    {
      hide Cut, PairsOf, NodeAt;
      ghost var was := nodes;
      CutNodeAt(was, i, 0);
      NodeAtIs(was, i - 1);
      if oldNode == null {
        head := currentNode.next;
      } else {
        oldNode.next := currentNode.next;
      }
      nodes := Cut(was, i);
      forall j | 0 <= j < |nodes| ensures nodes[j].next == NodeAt(nodes, j + 1) {
        CutNodeAt(was, i, j + 1);
        if j == i - 1 {
          assert nodes[j] == oldNode;
        } else {
          assert nodes[j] == was[if j < i then j else j + 1] && nodes[j] != oldNode;
        }
      }
    }

    method Lookup(key: Key) returns (element: int)
      requires Valid()
      ensures element == Find(Contents(), key)
    {
      var currentNode := head;
      ghost var i := 0;
      while currentNode != null && currentNode.key != key
        invariant 0 <= i <= |nodes| && currentNode == NodeAt(nodes, i)
        invariant forall j :: 0 <= j < i ==> nodes[j].key != key
        decreases |nodes| - i
      {
        currentNode := currentNode.next;
        i := i + 1;
      }
      StoppedAt(Contents(), key, i);
      element := if currentNode != null then currentNode.element else NO_ELEMENT;
    }
  }

  /** Initialises the buckets from the last one down. */
  method EmptyLists(size: nat) returns (lists: array<List>)
    ensures fresh(lists) && lists.Length == size
    ensures forall b :: 0 <= b < size ==> fresh(lists[b]) && lists[b].Valid() && lists[b].nodes == []
    ensures forall b, c :: 0 <= b < size && 0 <= c < size && b != c ==> lists[b] != lists[c]
  {
    hide List.Valid;
    var empty := new List();
    lists := new List[size](_ => empty);
    var n := size;
    while n > 0
      invariant 0 <= n <= size
      invariant forall b :: n <= b < size ==> fresh(lists[b]) && lists[b].Valid() && lists[b].nodes == []
      invariant forall b, c :: n <= b < size && n <= c < size && b != c ==> lists[b] != lists[c]
    {
      n := n - 1;
      lists[n] := new List();
    }
  }

  lemma HeadOrTail(nodes: seq<ListNode>)
    requires nodes != []
    ensures forall n :: n in nodes ==> n == nodes[0] || n in nodes[1..]
  {
  }

  class Table {
    const buckets: array<List>
    ghost var all: set<ListNode>

    ghost predicate Valid()
      reads this, buckets, buckets[..], all
    {
      && buckets.Length > 0
      && (forall b :: 0 <= b < buckets.Length ==> Holds(buckets[b]))
      && (forall b, c :: 0 <= b < buckets.Length && 0 <= c < buckets.Length && b != c ==> Apart(buckets[b], buckets[c]))
    }

    ghost predicate Holds(l: List)
      reads this, l, all
    {
      (forall n :: n in l.nodes ==> n in all) && l.Valid()
    }

    ghost predicate Apart(l: List, m: List)
      reads l, m
    {
      l != m && forall n :: n in l.nodes ==> n !in m.nodes
    }

    ghost function Contents(): seq<seq<Pair>>
      reads this, buckets, buckets[..]
    {
      seq(buckets.Length, b requires 0 <= b < buckets.Length reads this, buckets, buckets[..] => buckets[b].Contents())
    }

    constructor (size: nat)
      requires size > 0
      ensures Valid() && Contents() == TableRun([], size)
    {
      var lists := EmptyLists(size);
      buckets := lists;
      all := {};
      new;
      assert Contents() == seq(size, _ => []);
    }

    method Insert(element: int, key: Key)
      requires Valid()
      modifies this, buckets[key % buckets.Length]
      ensures Valid() && Contents() == AfterTable(old(Contents()), HashMachine.Insert(key, element))
    {
      hide AfterList, Remove, Find, PairsOf, List.Valid;
      var list := buckets[key % buckets.Length];
      list.Insert(element, key);
      ghost var added := {list.nodes[0]};
      all := all + added;
      HeadOrTail(list.nodes);
      forall b | 0 <= b < buckets.Length && buckets[b] != list
        ensures Holds(buckets[b]) && Apart(buckets[b], list) && Apart(list, buckets[b]) {
        assert old(Holds(buckets[b])) && old(Apart(buckets[b], list)) && unchanged(buckets[b]);
        assert forall n: ListNode :: n in old(buckets[b].nodes) ==> unchanged(n);
        assert added !! old(all);
      }
      assert Contents() == AfterTable(old(Contents()), HashMachine.Insert(key, element));
    }

    method Delete(key: Key)
      requires Valid()
      modifies buckets[key % buckets.Length], buckets[key % buckets.Length].nodes
      ensures Valid() && Contents() == AfterTable(old(Contents()), HashMachine.Delete(key))
    {
      hide AfterList, Remove, Find, PairsOf, List.Valid;
      var list := buckets[key % buckets.Length];
      list.Delete(key);
      forall b | 0 <= b < buckets.Length && buckets[b] != list
        ensures Holds(buckets[b]) && Apart(buckets[b], list) && Apart(list, buckets[b]) {
        assert old(Holds(buckets[b])) && old(Apart(buckets[b], list)) && old(Apart(list, buckets[b]));
        ghost var nodes := buckets[b].nodes;
        assert nodes == old(buckets[b].nodes) && unchanged(buckets[b]);
        forall i | 0 <= i < |nodes| ensures unchanged(nodes[i]) {
          assert nodes[i] in nodes;
        }
      }
      assert Contents() == AfterTable(old(Contents()), HashMachine.Delete(key));
    }

    method Lookup(key: Key) returns (element: int)
      requires Valid()
      ensures element == Find(Contents()[key % buckets.Length], key)
    {
      element := buckets[key % buckets.Length].Lookup(key);
    }
  }
}
