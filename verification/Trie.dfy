/** compression_opt.c, decoding side: the trie built from the dictionary, as a
    linked structure on the heap and as the walk it stands for. */
module Trie {
  import opened Bits
  import opened Wrappers
  import opened PrefixCode

  // ---------- the walk, as a function of the table ----------

  /** The byte of the last of the first n entries whose code is p. */
  function LastMatch(d: Dictionary, p: bits, n: nat): (r: Option<byte>)
    requires n <= |d|
  {
    if n == 0 then None
    else if d[n - 1].code == p then Some(d[n - 1].byte)
    else LastMatch(d, p, n - 1)
  }

  /** p is a node of the trie made from the first n entries. */
  ghost predicate OnPath(d: Dictionary, p: bits, n: nat)
    requires n <= |d|
  {
    p == [] || exists i :: 0 <= i < n && p <= d[i].code
  }

  /** One bit of the walk; None once a child is missing. */
  ghost function Descend(d: Dictionary, w: Option<Scanner>, b: bool): (r: Option<Scanner>) {
    match w
    case None => None
    case Some(s) =>
      var p := s.pending + [b];
      if !OnPath(d, p, |d|) then None
      else match LastMatch(d, p, |d|)
           case Some(e) => Some(Scanner(s.output + [e], []))
           case None => Some(Scanner(s.output, p))
  }

  ghost function Walk(d: Dictionary, w: Option<Scanner>, bs: bits): (r: Option<Scanner>) {
    if bs == [] then w else Descend(d, Walk(d, w, bs[..|bs| - 1]), bs[|bs| - 1])
  }

  lemma WalkSnoc(d: Dictionary, w: Option<Scanner>, bs: bits, b: bool)
    ensures Walk(d, w, bs + [b]) == Descend(d, Walk(d, w, bs), b)
  {
    assert (bs + [b])[..|bs|] == bs;
  }

  lemma {:induction false} WalkAppend(d: Dictionary, w: Option<Scanner>, a: bits, b: bits)
    ensures Walk(d, w, a + b) == Walk(d, Walk(d, w, a), b)
  {
    if b == [] {
      assert a + b == a;
    } else {
      var init := b[..|b| - 1];
      WalkAppend(d, w, a, init);
      WalkSnoc(d, w, a + init, b[|b| - 1]);
      assert a + init + [b[|b| - 1]] == a + b;
    }
  }

  // ---------- the walk refines the table scan ----------

  lemma {:induction false} LastMatchNone(d: Dictionary, p: bits, n: nat)
    requires n <= |d|
    ensures LastMatch(d, p, n) == None <==> forall i :: 0 <= i < n ==> d[i].code != p
  {
    if n > 0 {
      LastMatchNone(d, p, n - 1);
    }
  }

  lemma {:induction false} LastMatchSome(d: Dictionary, p: bits, n: nat) returns (i: nat)
    requires n <= |d| && LastMatch(d, p, n).Some?
    ensures i < n && d[i].code == p && LastMatch(d, p, n) == Some(d[i].byte)
    ensures forall j :: i < j < n ==> d[j].code != p
  {
    if d[n - 1].code == p {
      i := n - 1;
    } else {
      i := LastMatchSome(d, p, n - 1);
    }
  }

  /** With distinct codes the last entry with a code is also the first. */
  lemma FirstIsLast(d: Dictionary, p: bits)
    requires WellFormed(d) && DistinctCodes(d)
    ensures FirstMatch(d, p, 0) == LastMatch(d, p, 256)
  {
    FirstMatchNone(d, p, 0);
    LastMatchNone(d, p, 256);
    if FirstMatch(d, p, 0).Some? {
      var i := FirstMatchSome(d, p, 0);
      var j := LastMatchSome(d, p, 256);
    }
  }

  lemma DescendRefinesFeed(d: Dictionary, s: Scanner, b: bool)
    requires WellFormed(d) && DistinctCodes(d)
    ensures Descend(d, Some(s), b) == if OnPath(d, s.pending + [b], 256) then Some(Feed(d, s, b)) else None
  {
    FirstIsLast(d, s.pending + [b]);
  }

  /** A walk that meets no missing child has emitted what the table scan emits and
      stands at the node of the bits that the scan holds. */
  lemma {:induction false} WalkRefinesScan(d: Dictionary, s: Scanner, bs: bits)
    requires WellFormed(d) && DistinctCodes(d)
    ensures Walk(d, Some(s), bs).Some? ==> Walk(d, Some(s), bs) == Some(Scan(d, s, bs))
  {
    if bs != [] {
      var init, b := bs[..|bs| - 1], bs[|bs| - 1];
      WalkRefinesScan(d, s, init);
      if Walk(d, Some(s), init).Some? {
        DescendRefinesFeed(d, Scan(d, s, init), b);
      }
    }
  }

  /** The walk survives exactly as long as the bits the scan holds lead to a node. */
  lemma {:induction false} WalkSurvives(d: Dictionary, s: Scanner, bs: bits)
    requires WellFormed(d) && DistinctCodes(d) && OnPath(d, s.pending, 256)
    ensures Walk(d, Some(s), bs).Some? <==>
            forall n :: 0 <= n <= |bs| ==> OnPath(d, Scan(d, s, bs[..n]).pending, 256)
  {
    hide Feed, OnPath, DistinctCodes;
    if bs == [] {
      assert bs[..0] == [];
    } else {
      var init, b := bs[..|bs| - 1], bs[|bs| - 1];
      WalkSurvives(d, s, init);
      WalkRefinesScan(d, s, init);
      forall n | 0 <= n <= |init| ensures init[..n] == bs[..n] {
      }
      assert bs[..|bs|] == bs;
      SurvivesOneMore(d, Scan(d, s, init), b);
      if Walk(d, Some(s), init).Some? {
        DescendRefinesFeed(d, Scan(d, s, init), b);
      }
    }
  }

  lemma SurvivesOneMore(d: Dictionary, s: Scanner, b: bool)
    requires WellFormed(d) && DistinctCodes(d)
    ensures OnPath(d, Feed(d, s, b).pending, 256) <==> OnPath(d, s.pending + [b], 256)
  {
    var p := s.pending + [b];
    if FirstMatch(d, p, 0).Some? {
      var i := FirstMatchSome(d, p, 0);
      assert p <= d[i].code;
    }
  }

  // ---------- the linked trie ----------

  class TrieNode {
    var zero: TrieNode?
    var one: TrieNode?
    var byte: byte
    var isLeaf: bool
    /** The bits that lead from the root to this node. */
    ghost const path: bits

    /** calloc: no children, not a leaf. */
    constructor (ghost path: bits)
      ensures zero == null && one == null && byte == 0 && !isLeaf && this.path == path
    {
      zero, one, byte, isLeaf := null, null, 0, false;
      this.path := path;
    }

    /** `children[bit]` */
    function Child(bit: bool): (r: TrieNode?)
      reads this
    {
      if bit then one else zero
    }
  }

  class Tree {
    const root: TrieNode
    /** The node that each path from the root leads to. */
    ghost var nodes: map<bits, TrieNode>

    ghost function NodeAt(p: bits): (r: TrieNode?)
      reads this
    {
      if p in nodes then nodes[p] else null
    }

    /** The node at p is p's own, hangs below its parent, and its children are the
        nodes one bit further. */
    ghost predicate NodeValid(p: bits)
      requires p in nodes
      reads this, nodes.Values
    {
      && nodes[p].path == p
      && (p != [] ==> p[..|p| - 1] in nodes)
      && nodes[p].zero == NodeAt(p + [false])
      && nodes[p].one == NodeAt(p + [true])
    }

    ghost predicate Valid()
      reads this, nodes.Values
    {
      && [] in nodes && nodes[[]] == root
      && forall p {:trigger NodeValid(p)} :: p in nodes ==> NodeValid(p)
    }

    /** The byte stored at p when p leads to a leaf. */
    ghost function LeafAt(p: bits): (r: Option<byte>)
      reads this, nodes.Values
    {
      if p in nodes && nodes[p].isLeaf then Some(nodes[p].byte) else None
    }

    constructor ()
      ensures Valid() && fresh(nodes.Values) && nodes.Keys == {[]} && LeafAt([]) == None
    {
      root := new TrieNode([]);
      new;
      nodes := map[[] := root];
    }

    method AddChild(current: TrieNode, bit: bool)
      requires Valid() && current.path in nodes && nodes[current.path] == current
      requires current.path + [bit] !in nodes
      modifies this`nodes, current`zero, current`one
      ensures Valid() && current.path + [bit] in nodes
      ensures nodes == old(nodes)[current.path + [bit] := nodes[current.path + [bit]]]
      ensures fresh(nodes[current.path + [bit]]) && !nodes[current.path + [bit]].isLeaf
    {
      ghost var p, q := current.path, current.path + [bit];
      NoGrandchild(q, false);
      NoGrandchild(q, true);
      var node := new TrieNode(q);
      if bit {
        current.one := node;
      } else {
        current.zero := node;
      }
      nodes := nodes[q := node];
      forall r | r in nodes ensures NodeValid(r) {
        assert r != q ==> old(NodeValid(r));
        if r == q {
          assert q[..|q| - 1] == p;
        } else {
          AppendInjective(r, false, p, bit);
          AppendInjective(r, true, p, bit);
        }
      }
    }

    /** Nothing hangs below a path that is not in the tree. */
    lemma NoGrandchild(q: bits, b: bool)
      requires Valid() && q !in nodes
      ensures q + [b] !in nodes
    {
      assert (q + [b])[..|q + [b]| - 1] == q;
      assert q + [b] in nodes ==> NodeValid(q + [b]);
    }

    static lemma AppendInjective(r: bits, a: bool, p: bits, b: bool)
      ensures r + [a] == p + [b] <==> r == p && a == b
    {
      if r + [a] == p + [b] {
        assert (r + [a])[..|r|] == r && (p + [b])[..|p|] == p;
        assert (r + [a])[|r|] == a && (p + [b])[|p|] == b;
      }
    }

    static ghost function Prefixes(code: bits, n: nat): (r: set<bits>)
      requires n <= |code|
    {
      set k | 0 <= k <= n :: code[..k]
    }

    /** A tree with the paths `before` has got all prefixes of at most n bits. */
    static ghost predicate Grown(before: set<bits>, after: set<bits>, code: bits, n: nat)
      requires n <= |code|
    {
      after == before + Prefixes(code, n)
    }

    static lemma NoPrefixes(tree: Tree, code: bits)
      requires tree.Valid()
      ensures code[..0] in tree.nodes && tree.nodes[code[..0]] == tree.root
      ensures Grown(tree.nodes.Keys, tree.nodes.Keys, code, 0)
    {
      assert code[..0] == [];
    }

    static lemma PrefixesNext(code: bits, n: nat)
      requires n < |code|
      ensures Prefixes(code, n + 1) == Prefixes(code, n) + {code[..n + 1]}
    {
    }

    static lemma GrownNext(start: set<bits>, before: set<bits>, after: set<bits>, code: bits, i: nat)
      requires i < |code| && Grown(start, before, code, i) && after == before + {code[..i + 1]}
      ensures Grown(start, after, code, i + 1)
    {
      hide Prefixes;
      PrefixesNext(code, i);
    }

    static lemma AllPrefixes(code: bits, p: bits)
      ensures p in Prefixes(code, |code|) <==> p <= code
    {
      if p <= code {
        assert p == code[..|p|];
      }
    }

    static lemma GrownKeys(before: set<bits>, after: set<bits>, code: bits)
      requires Grown(before, after, code, |code|)
      ensures forall p :: p in after <==> p in before || p <= code
    {
      hide Prefixes;
      forall p ensures p in after <==> p in before || p <= code {
        AllPrefixes(code, p);
      }
    }

    /** The child of `current` on `bit`, created if it is missing. */
    method EnsureChild(current: TrieNode, bit: bool) returns (child: TrieNode)
      requires Valid() && current.path in nodes && nodes[current.path] == current
      modifies this`nodes, current`zero, current`one
      ensures Valid() && fresh(nodes.Values - old(nodes.Values))
      ensures current.path + [bit] in nodes && child == nodes[current.path + [bit]]
      ensures nodes.Keys == old(nodes.Keys) + {current.path + [bit]}
      ensures forall p :: LeafAt(p) == old(LeafAt(p))
    {
      assert NodeValid(current.path);
      if current.Child(bit) == null {
        AddChild(current, bit);
        assert NodeValid(current.path);
      }
      child := current.Child(bit);
    }

    /** The node for the first i + 1 bits, from the node for the first i. */
    method Follow(current: TrieNode, code: bits, i: nat) returns (child: TrieNode)
      requires Valid() && i < |code| && code[..i] in nodes && nodes[code[..i]] == current
      modifies this`nodes, current`zero, current`one
      ensures Valid() && fresh(nodes.Values - old(nodes.Values))
      ensures code[..i + 1] in nodes && nodes[code[..i + 1]] == child
      ensures nodes.Keys == old(nodes.Keys) + {code[..i + 1]}
      ensures forall p :: LeafAt(p) == old(LeafAt(p))
    {
      hide LeafAt;
      assert NodeValid(code[..i]);
      assert code[..i + 1] == code[..i] + [code[i]];
      child := EnsureChild(current, code[i]);
    }

    lemma PathAt(p: bits)
      requires Valid() && p in nodes
      ensures nodes[p].path == p
    {
      assert NodeValid(p);
    }

    method MarkLeaf(node: TrieNode, byte: byte)
      requires Valid() && node.path in nodes && nodes[node.path] == node
      modifies node`isLeaf, node`byte
      ensures Valid()
      ensures forall p :: LeafAt(p) == if p == node.path then Some(byte) else old(LeafAt(p))
    {
      node.isLeaf := true;
      node.byte := byte;
      forall p | p in nodes ensures NodeValid(p) {
        assert old(NodeValid(p));
      }
    }

    /** The node of a code, created with all nodes above it that are missing. */
    method Grow(code: bits) returns (node: TrieNode)
      requires Valid()
      modifies this`nodes, nodes.Values
      ensures Valid() && fresh(nodes.Values - old(nodes.Values))
      ensures Grown(old(nodes.Keys), nodes.Keys, code, |code|)
      ensures code in nodes && nodes[code] == node
      ensures forall p :: LeafAt(p) == old(LeafAt(p))
    {
      hide LeafAt, Grown, Valid;
      node := root;
      NoPrefixes(this, code);
      var i := 0;
      while i < |code|
        invariant 0 <= i <= |code| && Valid() && fresh(nodes.Values - old(nodes.Values))
        invariant code[..i] in nodes && nodes[code[..i]] == node
        invariant Grown(old(nodes.Keys), nodes.Keys, code, i)
        invariant forall p :: LeafAt(p) == old(LeafAt(p))
      {
        ghost var before := nodes.Keys;
        node := Follow(node, code, i);
        GrownNext(old(nodes.Keys), before, nodes.Keys, code, i);
        i := i + 1;
      }
      assert code[..i] == code;
    }

    method Insert(code: bits, byte: byte)
      requires Valid()
      modifies this`nodes, nodes.Values
      ensures Valid() && fresh(nodes.Values - old(nodes.Values))
      ensures forall p :: p in nodes <==> p in old(nodes) || p <= code
      ensures forall p :: LeafAt(p) == if p == code then Some(byte) else old(LeafAt(p))
    {
      hide LeafAt, Grown, Valid;
      var current := Grow(code);
      PathAt(code);
      GrownKeys(old(nodes.Keys), nodes.Keys, code);
      MarkLeaf(current, byte);
    }
  }
}
