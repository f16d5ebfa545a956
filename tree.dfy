/** The Huffman tree builder of tree.c: the frequency-sorted linked list used as
    a priority queue (`insertSorted`, `getMin`) and the greedy merge loop
    (`buildHuffmanTree`). Tree nodes are values: a node is never changed once
    its children are attached, and every parent owns its two children. */
module Tree {
  import opened Bytes

  /** `struct letter`: a symbol and how often it occurs. */
  datatype Letter = Letter(letter: byte, frequency: nat)

  /** `struct treeNode`. A leaf carries a symbol; an internal node carries
      the summed frequency of its two children (the C node also stores the
      placeholder symbol '$', which nothing ever reads). */
  datatype TreeNode =
    | Leaf(value: byte, frequency: nat)
    | Internal(frequency: nat, left: TreeNode, right: TreeNode)

  /** `createNode(letter, frequency)` for an input letter. */
  function LeafOf(l: Letter): TreeNode
  {
    Leaf(l.letter, l.frequency)
  }

  // ---------------------------------------------------------------------
  // The sorted list

  ghost predicate Sorted(q: seq<TreeNode>)
  {
    forall i, j :: 0 <= i < j < |q| ==> q[i].frequency <= q[j].frequency
  }

  /** Where `insertSorted` links a new node in: in front of the first node
      whose frequency is at least the new node's, or at the end. */
  function InsertPos(q: seq<TreeNode>, t: TreeNode): (k: nat)
    ensures k <= |q|
    ensures forall i :: 0 <= i < k ==> q[i].frequency < t.frequency
    ensures k < |q| ==> q[k].frequency >= t.frequency
  {
    if q == [] || q[0].frequency >= t.frequency then 0 else 1 + InsertPos(q[1..], t)
  }

  /** The list after `insertSorted(&head, t)`. */
  function Insert(q: seq<TreeNode>, t: TreeNode): (r: seq<TreeNode>)
    ensures |r| == |q| + 1
  {
    var k := InsertPos(q, t);
    q[..k] + [t] + q[k..]
  }

  /** `insertSorted` keeps the list non-decreasing by frequency. */
  lemma InsertKeepsSorted(q: seq<TreeNode>, t: TreeNode)
    requires Sorted(q)
    ensures Sorted(Insert(q, t))
  {
    var k, r := InsertPos(q, t), Insert(q, t);
    assert forall i :: 0 <= i < k ==> r[i] == q[i];
    assert r[k] == t;
    assert forall i :: k < i < |r| ==> r[i] == q[i - 1];
    forall i, j | 0 <= i < j < |r|
      ensures r[i].frequency <= r[j].frequency
    {
      if j == k {
      } else if i == k {
        assert q[k].frequency <= q[j - 1].frequency;
      } else if i < k < j {
        assert q[k].frequency <= q[j - 1].frequency;
      }
    }
  }

  /** Tie rule and stability: the new node lands in front of every node of
      equal (or greater) frequency and behind every smaller one, and removing
      it again gives back the old list, so the other nodes keep their order. */
  lemma InsertPlacement(q: seq<TreeNode>, t: TreeNode)
    requires Sorted(q)
    ensures var k := InsertPos(q, t);
      && Insert(q, t)[k] == t
      && Insert(q, t)[..k] + Insert(q, t)[k + 1..] == q
      && (forall j :: 0 <= j < |q| && q[j].frequency >= t.frequency ==> k <= j)
      && (forall j :: 0 <= j < |q| && q[j].frequency < t.frequency ==> j < k)
  {
    var k, r := InsertPos(q, t), Insert(q, t);
    assert r[..k] == q[..k];
    assert r[k + 1..] == q[k..];
    assert q[..k] + q[k..] == q;
  }

  /** The linked list `struct NodeList` used as the priority queue: its nodes
      are `items`, head first. */
  class PriorityQueue {
    var items: seq<TreeNode>

    ghost predicate Valid()
      reads this
    {
      Sorted(items)
    }

    /** `struct NodeList* priorityQueue = NULL`. */
    constructor ()
      ensures Valid() && items == []
    {
      items := [];
    }

    /** `insertSorted(&priorityQueue, newNode)`: either the new node becomes
        the head, or the walk advances `current` while the next node is
        strictly lighter and links the new node after `current`. */
    method InsertSorted(newNode: TreeNode)
      requires Valid()
      modifies this
      ensures Valid()
      ensures items == Insert(old(items), newNode)
    {
      InsertKeepsSorted(items, newNode);
      if items == [] || items[0].frequency >= newNode.frequency {
        items := [newNode] + items;
      } else {
        var current := 0;
        while current + 1 < |items| && items[current + 1].frequency < newNode.frequency
          invariant 0 <= current < |items|
          invariant forall i :: 0 <= i <= current ==> items[i].frequency < newNode.frequency
          decreases |items| - current
        {
          current := current + 1;
        }
        assert InsertPos(items, newNode) == current + 1;
        items := items[..current + 1] + [newNode] + items[current + 1..];
      }
    }

    /** `getMin(&priorityQueue)`: NULL on an empty list, otherwise the head
        node, which is a lightest one, and the list loses its head. */
    method GetMin() returns (m: Option<TreeNode>)
      requires Valid()
      modifies this
      ensures Valid()
      ensures old(items) == [] ==> m == None && items == []
      ensures old(items) != [] ==> m == Some(old(items)[0]) && items == old(items)[1..]
      ensures m.Some? ==> forall x :: x in items ==> m.value.frequency <= x.frequency
    {
      if items == [] {
        return None;
      }
      m := Some(items[0]);
      items := items[1..];
    }
  }

  // ---------------------------------------------------------------------
  // buildHuffmanTree

  /** The queue after the first loop of `buildHuffmanTree`: the letters
      inserted one by one, in the order given. */
  function InsertAll(letters: seq<Letter>): (q: seq<TreeNode>)
    ensures |q| == |letters|
  {
    if letters == [] then []
    else Insert(InsertAll(letters[..|letters| - 1]), LeafOf(letters[|letters| - 1]))
  }

  /** The node that the merge step builds from the two nodes it popped. */
  function Merge(left: TreeNode, right: TreeNode): TreeNode
  {
    Internal(left.frequency + right.frequency, left, right)
  }

  /** The merge loop run on queue `q`, followed by the final `getMin`. */
  function MergeLoop(q: seq<TreeNode>): Option<TreeNode>
    decreases |q|
  {
    if |q| == 0 then None
    else if |q| == 1 then Some(q[0])
    else MergeLoop(Insert(q[2..], Merge(q[0], q[1])))
  }

  /** What `buildHuffmanTree(letters, size)` returns, `size` being the
      number of letters. */
  function BuildSpec(letters: seq<Letter>): Option<TreeNode>
  {
    MergeLoop(InsertAll(letters))
  }

  /** `buildHuffmanTree`: insert every letter as a leaf; while the list has
      two nodes, pop the first as the left child and the second as the right
      child and insert their parent; return what `getMin` gives. The ghost
      `merges` counts the iterations of the merge loop. */
  method BuildHuffmanTree(letters: seq<Letter>) returns (root: Option<TreeNode>, ghost merges: nat)
    ensures root == BuildSpec(letters)
    ensures merges == if |letters| == 0 then 0 else |letters| - 1
  {
    var priorityQueue := new PriorityQueue();
    for i := 0 to |letters|
      invariant priorityQueue.Valid()
      invariant priorityQueue.items == InsertAll(letters[..i])
    {
      assert letters[..i + 1][..i] == letters[..i];
      priorityQueue.InsertSorted(LeafOf(letters[i]));
    }
    assert letters[..|letters|] == letters;
    merges := 0;
    while |priorityQueue.items| >= 2
      invariant priorityQueue.Valid()
      invariant MergeLoop(priorityQueue.items) == BuildSpec(letters)
      invariant merges + |priorityQueue.items| == |letters|
      invariant |letters| > 0 ==> |priorityQueue.items| >= 1
      decreases |priorityQueue.items|
    {
      var left := priorityQueue.GetMin();
      var right := priorityQueue.GetMin();
      var parentNode := Merge(left.value, right.value);
      priorityQueue.InsertSorted(parentNode);
      merges := merges + 1;
    }
    root := priorityQueue.GetMin();
  }

  // ---------------------------------------------------------------------
  // Shape of the result

  /** The leaves of a tree, left to right, as letters. */
  function LeafLetters(t: TreeNode): seq<Letter>
  {
    match t
    case Leaf(v, f) => [Letter(v, f)]
    case Internal(_, l, r) => LeafLetters(l) + LeafLetters(r)
  }

  function InternalCount(t: TreeNode): nat
  {
    match t
    case Leaf(_, _) => 0
    case Internal(_, l, r) => 1 + InternalCount(l) + InternalCount(r)
  }

  /** Every internal node weighs the sum of its two children. */
  ghost predicate WellWeighted(t: TreeNode)
  {
    match t
    case Leaf(_, _) => true
    case Internal(f, l, r) => f == l.frequency + r.frequency && WellWeighted(l) && WellWeighted(r)
  }

  function SumFreq(letters: seq<Letter>): nat
  {
    if letters == [] then 0 else SumFreq(letters[..|letters| - 1]) + letters[|letters| - 1].frequency
  }

  /** A full binary tree with n leaves has n - 1 internal nodes. */
  lemma {:induction false} FullTreeCount(t: TreeNode)
    ensures InternalCount(t) + 1 == |LeafLetters(t)|
  {
    match t
    case Leaf(_, _) =>
    case Internal(_, l, r) => FullTreeCount(l); FullTreeCount(r);
  }

  /** A well-weighted tree weighs the sum of its leaves. */
  lemma {:induction false} WeightIsLeafSum(t: TreeNode)
    requires WellWeighted(t)
    ensures t.frequency == SumFreq(LeafLetters(t))
  {
    match t
    case Leaf(_, _) =>
    case Internal(_, l, r) =>
      WeightIsLeafSum(l);
      WeightIsLeafSum(r);
      SumFreqAppend(LeafLetters(l), LeafLetters(r));
  }

  lemma {:induction false} SumFreqAppend(a: seq<Letter>, b: seq<Letter>)
    ensures SumFreq(a + b) == SumFreq(a) + SumFreq(b)
  {
    if b != [] {
      assert (a + b)[..|a + b| - 1] == a + b[..|b| - 1];
      SumFreqAppend(a, b[..|b| - 1]);
    } else {
      assert a + b == a;
    }
  }

  /** All leaves of all trees in a queue, head first. */
  function QueueLeaves(q: seq<TreeNode>): seq<Letter>
  {
    if q == [] then [] else LeafLetters(q[0]) + QueueLeaves(q[1..])
  }

  ghost predicate AllWellWeighted(q: seq<TreeNode>)
  {
    forall i :: 0 <= i < |q| ==> WellWeighted(q[i])
  }

  lemma {:induction false} QueueLeavesAppend(a: seq<TreeNode>, b: seq<TreeNode>)
    ensures QueueLeaves(a + b) == QueueLeaves(a) + QueueLeaves(b)
  {
    if a != [] {
      assert (a + b)[1..] == a[1..] + b;
      QueueLeavesAppend(a[1..], b);
    } else {
      assert a + b == b;
    }
  }

  /** Inserting a tree adds exactly its leaves to the queue's leaves. */
  lemma InsertLeaves(q: seq<TreeNode>, t: TreeNode)
    ensures multiset(QueueLeaves(Insert(q, t))) == multiset(QueueLeaves(q)) + multiset(LeafLetters(t))
  {
    var k := InsertPos(q, t);
    QueueLeavesAppend(q[..k] + [t], q[k..]);
    QueueLeavesAppend(q[..k], [t]);
    QueueLeavesAppend(q[..k], q[k..]);
    assert q[..k] + q[k..] == q;
    assert QueueLeaves([t]) == LeafLetters(t) + QueueLeaves([]);
  }

  lemma InsertWellWeighted(q: seq<TreeNode>, t: TreeNode)
    requires AllWellWeighted(q) && WellWeighted(t)
    ensures AllWellWeighted(Insert(q, t))
  {
    var k, r := InsertPos(q, t), Insert(q, t);
    assert forall i :: 0 <= i < |r| ==> r[i] == t || r[i] in q;
  }

  /** The queue built from the letters holds exactly their leaves. */
  lemma {:induction false} InsertAllFacts(letters: seq<Letter>)
    ensures Sorted(InsertAll(letters))
    ensures AllWellWeighted(InsertAll(letters))
    ensures multiset(QueueLeaves(InsertAll(letters))) == multiset(letters)
  {
    if letters != [] {
      var init, last := letters[..|letters| - 1], letters[|letters| - 1];
      InsertAllFacts(init);
      InsertKeepsSorted(InsertAll(init), LeafOf(last));
      InsertWellWeighted(InsertAll(init), LeafOf(last));
      InsertLeaves(InsertAll(init), LeafOf(last));
      assert letters == init + [last];
    }
  }

  /** The merge loop ends with one tree holding exactly the queue's leaves,
      every internal node the sum of its children. */
  lemma {:induction false} MergeLoopFacts(q: seq<TreeNode>)
    requires AllWellWeighted(q)
    ensures MergeLoop(q).None? <==> q == []
    ensures MergeLoop(q).Some? ==>
      && WellWeighted(MergeLoop(q).value)
      && multiset(LeafLetters(MergeLoop(q).value)) == multiset(QueueLeaves(q))
    decreases |q|
  {
    if |q| == 1 {
      assert QueueLeaves(q) == LeafLetters(q[0]) + QueueLeaves([]);
    } else if |q| >= 2 {
      var m := Merge(q[0], q[1]);
      InsertWellWeighted(q[2..], m);
      InsertLeaves(q[2..], m);
      MergeLoopFacts(Insert(q[2..], m));
      assert q[1..][1..] == q[2..];
      assert QueueLeaves(q) == LeafLetters(q[0]) + (LeafLetters(q[1]) + QueueLeaves(q[2..]));
    }
  }

  /** `buildHuffmanTree` returns NULL for no letters, the sole leaf for one
      letter, and otherwise a full binary tree whose leaves are exactly the
      input letters and whose root weighs the sum of their frequencies. */
  lemma BuildSpecShape(letters: seq<Letter>)
    ensures BuildSpec(letters).None? <==> letters == []
    ensures |letters| == 1 ==> BuildSpec(letters) == Some(LeafOf(letters[0]))
    ensures BuildSpec(letters).Some? ==>
      var t := BuildSpec(letters).value;
      && WellWeighted(t)
      && multiset(LeafLetters(t)) == multiset(letters)
      && t.frequency == SumFreq(letters)
      && InternalCount(t) + 1 == |letters|
  {
    InsertAllFacts(letters);
    MergeLoopFacts(InsertAll(letters));
    if |letters| == 1 {
      assert letters[..0] == [];
    }
    if BuildSpec(letters).Some? {
      var t := BuildSpec(letters).value;
      WeightIsLeafSum(t);
      SumFreqPermutation(LeafLetters(t), letters);
      FullTreeCount(t);
      assert |LeafLetters(t)| == |multiset(LeafLetters(t))| == |letters|;
    }
  }

  /** Sums do not depend on the order of the letters. */
  lemma {:induction false} SumFreqPermutation(a: seq<Letter>, b: seq<Letter>)
    requires multiset(a) == multiset(b)
    ensures SumFreq(a) == SumFreq(b)
    decreases |a|
  {
    if a != [] {
      var last := a[|a| - 1];
      assert last in multiset(b);
      var j :| 0 <= j < |b| && b[j] == last;
      var b' := b[..j] + b[j + 1..];
      assert b == b[..j] + [last] + b[j + 1..];
      assert a == a[..|a| - 1] + [last];
      calc {
        multiset(b);
        multiset(b[..j] + [last] + b[j + 1..]);
        multiset(b[..j]) + multiset{last} + multiset(b[j + 1..]);
        multiset(b') + multiset{last};
      }
      assert multiset(a) == multiset(a[..|a| - 1]) + multiset{last};
      assert multiset(a[..|a| - 1]) == multiset(a) - multiset{last};
      assert multiset(b') == multiset(b) - multiset{last};
      SumFreqPermutation(a[..|a| - 1], b');
      SumFreqAppend(b[..j] + [last], b[j + 1..]);
      SumFreqAppend(b[..j], [last]);
      SumFreqAppend(b[..j], b[j + 1..]);
      assert SumFreq([last]) == SumFreq([]) + last.frequency;
    } else {
      assert |b| == |multiset(b)| == 0;
    }
  }
}
