/** Code generation of tree.c (`generateCodes`): a depth-first walk that
    writes '0' for every left edge and '1' for every right edge into a shared
    path buffer and, at each leaf, stores a copy of the path as that leaf's
    code in the 256-slot `huffman_codes` table. */
module Codes {
  import opened Bytes
  import opened Tree

  /** A 256-slot code table; `None` is a NULL slot. */
  type CodeTable = s: seq<Option<string>> | |s| == 256 witness EmptyTable()

  /** The table straight from `calloc(256, sizeof(char*))`. */
  function EmptyTable(): seq<Option<string>>
  {
    seq(256, _ => None)
  }

  function Symbols(t: TreeNode): set<byte>
  {
    match t
    case Leaf(v, _) => {v}
    case Internal(_, l, r) => Symbols(l) + Symbols(r)
  }

  /** No symbol sits on two leaves. */
  ghost predicate Distinct(t: TreeNode)
  {
    match t
    case Leaf(_, _) => true
    case Internal(_, l, r) => Symbols(l) !! Symbols(r) && Distinct(l) && Distinct(r)
  }

  function Height(t: TreeNode): nat
  {
    match t
    case Leaf(_, _) => 0
    case Internal(_, l, r) => 1 + if Height(l) < Height(r) then Height(r) else Height(l)
  }

  /** The root-to-leaf path of symbol `b`: '0' for left, '1' for right. */
  function PathTo(t: TreeNode, b: byte): (p: string)
    requires b in Symbols(t)
    ensures |p| <= Height(t)
  {
    match t
    case Leaf(_, _) => ""
    case Internal(_, l, r) => if b in Symbols(l) then "0" + PathTo(l, b) else "1" + PathTo(r, b)
  }

  /** What `generateCodes(t, path, depth, codes)` leaves in `codes` when
      `path` holds `prefix` in its first `depth` slots. A later leaf with
      the same symbol would overwrite an earlier one, as `strdup` into the
      same slot does. */
  function CodeWalk(t: TreeNode, prefix: string, table: CodeTable): CodeTable
  {
    match t
    case Leaf(v, _) => table[v as int := Some(prefix)]
    case Internal(_, l, r) => CodeWalk(r, prefix + "1", CodeWalk(l, prefix + "0", table))
  }

  /** The code table of a whole tree, as `generateCodes(root, path, 0,
      calloc'd table)` builds it; a NULL root leaves every slot NULL. */
  function CodeTableOf(root: Option<TreeNode>): CodeTable
  {
    if root.None? then EmptyTable() else CodeWalk(root.value, "", EmptyTable())
  }

  /** The characters `strdup` copies: everything before the first NUL. */
  function UpToNul(s: seq<char>): (r: seq<char>)
    ensures |r| <= |s|
    ensures r == s[..|r|] && '\0' !in r
    ensures |r| < |s| ==> s[|r|] == '\0'
  {
    if s == [] || s[0] == '\0' then [] else [s[0]] + UpToNul(s[1..])
  }

  /** `generateCodes`: NULL does nothing; a leaf terminates the path at
      `depth` and stores a copy of it; an internal node writes '0' at `depth`
      and walks left, then overwrites it with '1' and walks right. The path
      buffer must be long enough for the deepest leaf. */
  method GenerateCodes(root: Option<TreeNode>, path: array<char>, depth: nat, huffmanCodes: array<Option<string>>)
    requires huffmanCodes.Length == 256
    requires depth <= path.Length
    requires forall i :: 0 <= i < depth ==> path[i] != '\0'
    requires root.Some? ==> depth + Height(root.value) < path.Length
    modifies path, huffmanCodes
    ensures path[..depth] == old(path[..depth])
    ensures huffmanCodes[..] ==
      if root.None? then old(huffmanCodes[..]) else CodeWalk(root.value, old(path[..depth]), old(huffmanCodes[..]))
    decreases if root.None? then 0 else 1 + Height(root.value)
  {
    if root.None? {
      return;
    }
    match root.value
    case Leaf(v, _) =>
      path[depth] := '\0';
      assert UpToNul(path[..]) == path[..depth] by { NulTerminated(path[..], depth); }
      huffmanCodes[v as int] := Some(UpToNul(path[..]));
    case Internal(_, l, r) =>
      ghost var prefix := path[..depth];
      ghost var table := huffmanCodes[..];
      path[depth] := '0';
      assert path[..depth + 1] == prefix + "0";
      GenerateCodes(Some(l), path, depth + 1, huffmanCodes);
      ghost var table' := huffmanCodes[..];
      assert table' == CodeWalk(l, prefix + "0", table);
      path[depth] := '1';
      assert path[..depth + 1] == prefix + "1";
      GenerateCodes(Some(r), path, depth + 1, huffmanCodes);
      assert path[..depth] == prefix;
  }

  lemma {:induction false} NulTerminated(s: seq<char>, n: nat)
    requires n < |s| && s[n] == '\0'
    requires forall i :: 0 <= i < n ==> s[i] != '\0'
    ensures UpToNul(s) == s[..n]
  {
    if n > 0 {
      NulTerminated(s[1..], n - 1);
    }
  }

  // ---------------------------------------------------------------------
  // What the codes are

  /** With distinct symbols, every leaf's slot receives exactly its
      root-to-leaf path after the prefix, and symbols that are not leaves
      (internal nodes in particular) receive nothing. */
  lemma {:induction false} CodeWalkAt(t: TreeNode, prefix: string, table: CodeTable, b: byte)
    requires Distinct(t)
    ensures CodeWalk(t, prefix, table)[b] ==
      if b in Symbols(t) then Some(prefix + PathTo(t, b)) else table[b]
  {
    match t
    case Leaf(_, _) =>
      assert prefix + "" == prefix;
    case Internal(_, l, r) =>
      var mid := CodeWalk(l, prefix + "0", table);
      CodeWalkAt(l, prefix + "0", table, b);
      CodeWalkAt(r, prefix + "1", mid, b);
      if b in Symbols(l) {
        assert prefix + "0" + PathTo(l, b) == prefix + ("0" + PathTo(l, b));
      } else if b in Symbols(r) {
        assert prefix + "1" + PathTo(r, b) == prefix + ("1" + PathTo(r, b));
      }
  }

  /** The table of a tree: slot b holds b's path when b is a leaf symbol
      and stays NULL otherwise; a tree that is a single leaf gives that
      symbol the empty code "". */
  lemma CodeTableAt(root: Option<TreeNode>, b: byte)
    requires root.Some? ==> Distinct(root.value)
    ensures CodeTableOf(root)[b] ==
      if root.Some? && b in Symbols(root.value) then Some(PathTo(root.value, b)) else None
    ensures root.Some? && root.value.Leaf? ==> CodeTableOf(root)[root.value.value] == Some("")
  {
    if root.Some? {
      CodeWalkAt(root.value, "", EmptyTable(), b);
      if b in Symbols(root.value) {
        assert "" + PathTo(root.value, b) == PathTo(root.value, b);
      }
    }
  }

  ghost predicate IsPrefix(u: string, v: string)
  {
    |u| <= |v| && v[..|u|] == u
  }

  /** Prefix-freeness: no leaf's path starts another leaf's path. */
  lemma {:induction false} PathsPrefixFree(t: TreeNode, b: byte, c: byte)
    requires Distinct(t)
    requires b in Symbols(t) && c in Symbols(t) && b != c
    ensures !IsPrefix(PathTo(t, b), PathTo(t, c))
  {
    match t
    case Leaf(_, _) =>
    case Internal(_, l, r) =>
      if b in Symbols(l) && c in Symbols(l) {
        PathsPrefixFree(l, b, c);
        PrefixCons('0', PathTo(l, b), PathTo(l, c));
      } else if b in Symbols(r) && c in Symbols(r) {
        PathsPrefixFree(r, b, c);
        PrefixCons('1', PathTo(r, b), PathTo(r, c));
      } else {
        assert PathTo(t, b)[0] != PathTo(t, c)[0];
      }
  }

  lemma PrefixCons(x: char, u: string, v: string)
    ensures IsPrefix([x] + u, [x] + v) ==> IsPrefix(u, v)
  {
    if IsPrefix([x] + u, [x] + v) {
      assert ([x] + v)[1..][..|u|] == ([x] + v)[..|u| + 1][1..];
    }
  }

  /** The bits a code string stands for: '1' is a one bit, anything else a
      zero bit (the packing loop tests only for '1'). */
  function CodeBits(code: string): (bits: seq<bool>)
    ensures |bits| == |code|
  {
    seq(|code|, i requires 0 <= i < |code| => code[i] == '1')
  }

  /** Walking the tree from `t` along `bits` (false = left, true = right)
      until a leaf: the leaf's symbol and the bits left over, or None when
      the bits run out first. A single-leaf tree yields its symbol without
      consuming any bit. */
  function Descend(t: TreeNode, bits: seq<bool>): Option<(byte, seq<bool>)>
  {
    match t
    case Leaf(v, _) => Some((v, bits))
    case Internal(_, l, r) =>
      if bits == [] then None else Descend(if bits[0] then r else l, bits[1..])
  }

  /** Following a leaf's code from the root reaches exactly that leaf and
      consumes exactly the code. */
  lemma {:induction false} DescendPath(t: TreeNode, b: byte, rest: seq<bool>)
    requires Distinct(t) && b in Symbols(t)
    ensures Descend(t, CodeBits(PathTo(t, b)) + rest) == Some((b, rest))
  {
    match t
    case Leaf(_, _) =>
      assert CodeBits("") + rest == rest;
    case Internal(_, l, r) =>
      var bits := CodeBits(PathTo(t, b)) + rest;
      if b in Symbols(l) {
        DescendPath(l, b, rest);
        assert bits[1..] == CodeBits(PathTo(l, b)) + rest;
      } else {
        DescendPath(r, b, rest);
        assert bits[1..] == CodeBits(PathTo(r, b)) + rest;
      }
  }

  // ---------------------------------------------------------------------
  // Trees built from distinct letters

  /** The symbols of a list of letters. */
  function SymbolsOf(letters: seq<Letter>): set<byte>
  {
    set i | 0 <= i < |letters| :: letters[i].letter
  }

  /** No symbol occurs twice in a list of letters. */
  ghost predicate DistinctLetters(letters: seq<Letter>)
  {
    forall i, j :: 0 <= i < j < |letters| ==> letters[i].letter != letters[j].letter
  }

  lemma {:induction false} SymbolsAreLeafSymbols(t: TreeNode)
    ensures Symbols(t) == SymbolsOf(LeafLetters(t))
  {
    match t
    case Leaf(v, f) =>
      assert LeafLetters(t)[0].letter == v;
    case Internal(_, l, r) =>
      SymbolsAreLeafSymbols(l);
      SymbolsAreLeafSymbols(r);
      SymbolsOfAppend(LeafLetters(l), LeafLetters(r));
  }

  lemma SymbolsOfAppend(a: seq<Letter>, b: seq<Letter>)
    ensures SymbolsOf(a + b) == SymbolsOf(a) + SymbolsOf(b)
  {
    forall x | x in SymbolsOf(a + b) ensures x in SymbolsOf(a) + SymbolsOf(b) {
      var i :| 0 <= i < |a + b| && (a + b)[i].letter == x;
      if i >= |a| { assert b[i - |a|].letter == x; } else { assert a[i].letter == x; }
    }
    forall x | x in SymbolsOf(a) ensures x in SymbolsOf(a + b) {
      var i :| 0 <= i < |a| && a[i].letter == x;
      assert (a + b)[i].letter == x;
    }
    forall x | x in SymbolsOf(b) ensures x in SymbolsOf(a + b) {
      var i :| 0 <= i < |b| && b[i].letter == x;
      assert (a + b)[|a| + i].letter == x;
    }
  }

  lemma {:induction false} DistinctLettersCount(letters: seq<Letter>)
    requires DistinctLetters(letters)
    ensures |SymbolsOf(letters)| == |letters|
  {
    if letters != [] {
      var init, last := letters[..|letters| - 1], letters[|letters| - 1];
      DistinctLettersCount(init);
      assert letters == init + [last];
      SymbolsOfAppend(init, [last]);
      assert SymbolsOf([last]) == {last.letter};
      assert last.letter !in SymbolsOf(init);
    }
  }

  lemma {:induction false} SymbolCountBound(t: TreeNode)
    ensures |Symbols(t)| <= |LeafLetters(t)|
    ensures |Symbols(t)| == |LeafLetters(t)| ==> Distinct(t)
  {
    match t
    case Leaf(_, _) =>
    case Internal(_, l, r) =>
      SymbolCountBound(l);
      SymbolCountBound(r);
      assert |Symbols(l) + Symbols(r)| + |Symbols(l) * Symbols(r)| == |Symbols(l)| + |Symbols(r)|;
      if |Symbols(t)| == |LeafLetters(t)| {
        assert Symbols(l) * Symbols(r) == {};
      }
  }

  /** A tree whose leaves are a permutation of distinct letters has distinct
      symbols, exactly those letters' symbols. */
  lemma DistinctTree(t: TreeNode, letters: seq<Letter>)
    requires DistinctLetters(letters)
    requires multiset(LeafLetters(t)) == multiset(letters)
    ensures Distinct(t) && Symbols(t) == SymbolsOf(letters)
  {
    SymbolsAreLeafSymbols(t);
    var leaves := LeafLetters(t);
    SymbolsOfPermutation(leaves, letters);
    SymbolsOfPermutation(letters, leaves);
    DistinctLettersCount(letters);
    assert |leaves| == |multiset(leaves)| == |letters|;
    SymbolCountBound(t);
  }

  lemma SymbolsOfPermutation(a: seq<Letter>, b: seq<Letter>)
    requires multiset(a) == multiset(b)
    ensures SymbolsOf(a) <= SymbolsOf(b)
  {
    forall x | x in SymbolsOf(a) ensures x in SymbolsOf(b) {
      var i :| 0 <= i < |a| && a[i].letter == x;
      assert a[i] in multiset(b);
      var j :| 0 <= j < |b| && b[j] == a[i];
    }
  }

  /** A full binary tree is shallower than its leaf count. */
  lemma {:induction false} HeightBound(t: TreeNode)
    ensures Height(t) < |LeafLetters(t)|
  {
    match t
    case Leaf(_, _) =>
    case Internal(_, l, r) => HeightBound(l); HeightBound(r);
  }
}
