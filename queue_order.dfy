/** Why the encoder and the decoder build the same tree. The encoder hands
    `buildHuffmanTree` the letters in `terribleSort` order (heaviest first,
    equal frequencies by ascending symbol), the decoder in ascending symbol
    order. `insertSorted` puts a new node in front of every node of equal
    frequency, so whenever equal-frequency letters arrive in ascending symbol
    order, the queue ends up ordered by frequency and, within a frequency, by
    descending symbol; there is only one such arrangement of a given set of
    letters. */
module QueueOrder {
  import opened Bytes
  import opened Tree
  import opened Codes

  /** Letters of equal frequency come in ascending symbol order. */
  ghost predicate TiesAscending(letters: seq<Letter>)
  {
    forall i, j :: 0 <= i < j < |letters| && letters[i].frequency == letters[j].frequency ==>
      letters[i].letter < letters[j].letter
  }

  /** The order of two leaves in the queue built from tie-ascending letters:
      lighter first, and among equal frequencies the larger symbol first. */
  ghost predicate Precedes(a: TreeNode, b: TreeNode)
  {
    a.Leaf? && b.Leaf? &&
    (a.frequency < b.frequency || (a.frequency == b.frequency && a.value > b.value))
  }

  ghost predicate KeySorted(q: seq<TreeNode>)
  {
    forall i, j :: 0 <= i < j < |q| ==> Precedes(q[i], q[j])
  }

  /** The queue holds exactly the leaves of the letters. */
  lemma {:induction false} InsertAllElements(letters: seq<Letter>)
    ensures forall y :: y in InsertAll(letters) <==> exists i :: 0 <= i < |letters| && y == LeafOf(letters[i])
  {
    if letters != [] {
      var init, last := letters[..|letters| - 1], letters[|letters| - 1];
      InsertAllElements(init);
      var q := InsertAll(init);
      var k := InsertPos(q, LeafOf(last));
      assert InsertAll(letters) == q[..k] + [LeafOf(last)] + q[k..];
      assert q == q[..k] + q[k..];
      forall y ensures y in InsertAll(letters) <==> exists i :: 0 <= i < |letters| && y == LeafOf(letters[i]) {
        if y in q {
          var i :| 0 <= i < |init| && y == LeafOf(init[i]);
          assert y == LeafOf(letters[i]);
        }
        if exists i :: 0 <= i < |letters| && y == LeafOf(letters[i]) {
          var i :| 0 <= i < |letters| && y == LeafOf(letters[i]);
          if i < |init| { assert y == LeafOf(init[i]); }
        }
      }
    }
  }

  /** Inserting tie-ascending letters one by one yields the queue ordered by
      frequency and, within a frequency, by descending symbol. */
  lemma {:induction false} InsertAllKeySorted(letters: seq<Letter>)
    requires TiesAscending(letters)
    ensures KeySorted(InsertAll(letters))
  {
    if letters != [] {
      var init, last := letters[..|letters| - 1], letters[|letters| - 1];
      var x := LeafOf(last);
      InsertAllKeySorted(init);
      InsertAllElements(init);
      var q := InsertAll(init);
      var k := InsertPos(q, x);
      var r := Insert(q, x);
      assert forall i :: 0 <= i < k ==> r[i] == q[i];
      assert forall i :: k < i < |r| ==> r[i] == q[i - 1];
      // every queued node from position k on must come after the new leaf
      forall j | k <= j < |q|
        ensures Precedes(x, q[j])
      {
        if k < j { assert Precedes(q[k], q[j]); }
        assert q[j] in q;
        var m :| 0 <= m < |init| && q[j] == LeafOf(init[m]);
        if q[j].frequency == x.frequency {
          assert letters[m] == init[m];
        }
      }
      forall i, j | 0 <= i < j < |r|
        ensures Precedes(r[i], r[j])
      {
        if i < k && j == k {
          assert q[i] in q;
          var m :| 0 <= m < |init| && q[i] == LeafOf(init[m]);
        } else if i < k && k < j {
          assert q[i] in q;
          var m :| 0 <= m < |init| && q[i] == LeafOf(init[m]);
          assert Precedes(x, q[j - 1]);
        } else if i == k {
          assert Precedes(x, q[j - 1]);
        }
      }
    }
  }

  /** Only one strictly ordered arrangement holds a given set of leaves. */
  lemma {:induction false} KeySortedUnique(p: seq<TreeNode>, q: seq<TreeNode>)
    requires KeySorted(p) && KeySorted(q)
    requires forall y :: y in p <==> y in q
    ensures p == q
    decreases |p|
  {
    assert p != [] ==> p[0] in q;
    assert q != [] ==> q[0] in p;
    if p != [] {
      assert q != [];
      assert q[0] in p;
      assert p[0] == q[0];
      assert p == [p[0]] + p[1..] && q == [q[0]] + q[1..];
      forall y ensures y in p[1..] <==> y in q[1..] {
        if y in p[1..] {
          var j :| 0 <= j < |p[1..]| && p[1..][j] == y;
          assert Precedes(p[0], p[j + 1]);
          assert y in q && y != q[0];
        }
        if y in q[1..] {
          var j :| 0 <= j < |q[1..]| && q[1..][j] == y;
          assert Precedes(q[0], q[j + 1]);
          assert y in p && y != p[0];
        }
      }
      KeySortedUnique(p[1..], q[1..]);
      assert p == [p[0]] + p[1..] && q == [q[0]] + q[1..];
    }
  }

  /** Two tie-ascending listings of the same letters give the same initial
      queue, hence the same tree and the same code table. */
  lemma SameInitialQueue(xs: seq<Letter>, ys: seq<Letter>)
    requires TiesAscending(xs) && TiesAscending(ys)
    requires forall l :: l in xs <==> l in ys
    ensures InsertAll(xs) == InsertAll(ys)
    ensures BuildSpec(xs) == BuildSpec(ys)
    ensures CodeTableOf(BuildSpec(xs)) == CodeTableOf(BuildSpec(ys))
  {
    InsertAllKeySorted(xs);
    InsertAllKeySorted(ys);
    InsertAllElements(xs);
    InsertAllElements(ys);
    var p, q := InsertAll(xs), InsertAll(ys);
    forall y ensures y in p <==> y in q {
      if y in p {
        var i :| 0 <= i < |xs| && y == LeafOf(xs[i]);
        assert xs[i] in ys;
        var j :| 0 <= j < |ys| && ys[j] == xs[i];
      }
      if y in q {
        var j :| 0 <= j < |ys| && y == LeafOf(ys[j]);
        assert ys[j] in xs;
        var i :| 0 <= i < |xs| && xs[i] == ys[j];
      }
    }
    KeySortedUnique(p, q);
  }
}
