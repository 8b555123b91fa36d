// The decoding tree, built one code at a time in a growing vector of nodes.
module HuffmanTree {
  import opened Wrappers
  import opened Bits
  import opened HuffmanTable
  import opened HuffmanCode

  datatype HuffNode = HuffNode(
    left: nat,
    right: nat,
    symbol: Option<Symbol>,
    allOnesDepth: nat,
    prefixOfEos: bool)

  function TrailingOnes(p: seq<bool>): nat {
    if p == [] || !p[|p| - 1] then 0 else 1 + TrailingOnes(p[..|p| - 1])
  }

  // ---- what a tree means: the paths from the root, with the symbol at the end of each ----

  type Paths = map<seq<bool>, Option<Symbol>>

  // The prefixes of b are paths, and s is at the end of b.
  ghost function Insert(m: Paths, b: seq<bool>, s: Symbol): (r: Paths) {
    map p | p in m.Keys + Prefixes(b, |b|) ::
      if p == b then Some(s) else if p in m then m[p] else None
  }

  ghost function Prefixes(b: seq<bool>, n: nat): set<seq<bool>>
    requires n <= |b|
  {
    set i | 0 <= i <= n :: b[..i]
  }

  // The paths of the first n codes.
  ghost function Inserted(n: nat): Paths
    requires n <= 257
  {
    if n == 0 then map[[] := None] else Insert(Inserted(n - 1), CodeBits(n - 1), n - 1)
  }

  lemma {:induction false} InsertedPaths(n: nat, p: seq<bool>)
    requires n <= 257
    ensures p in Inserted(n) <==> p == [] || exists s: Symbol :: s < n && p <= CodeBits(s)
  {
    hide CodeBits;
    if n != 0 {
      InsertedPaths(n - 1, p);
      var b := CodeBits(n - 1);
      if p <= b {
        assert p == b[..|p|];
      }
    }
  }

  lemma {:induction false} InsertedSymbols(n: nat, p: seq<bool>, s: Symbol)
    requires n <= 257 && p in Inserted(n)
    ensures Inserted(n)[p] == Some(s) <==> s < n && p == CodeBits(s)
  {
    hide CodeBits;
    if n != 0 {
      var t: Symbol := n - 1;
      if p == CodeBits(t) {
        if s < n && p == CodeBits(s) {
          PrefixFree(s, t);
        }
      } else if p in Inserted(n - 1) {
        InsertedSymbols(n - 1, p, s);
      } else if s < n - 1 && p == CodeBits(s) {
        InsertedPaths(n - 1, p);
      }
    } else {
      CodeNonempty(s);
    }
  }

  lemma CodeNonempty(s: Symbol)
    ensures CodeBits(s) != []
  {
    hide Entry;
    EntryFits(s);
  }

  // The finished tree: codes end at their own symbols, every other path is inside
  // a code and can be continued with either bit.
  lemma FullTree(p: seq<bool>)
    requires p in Inserted(257)
    ensures match Inserted(257)[p]
      case Some(s) => p == CodeBits(s) && forall bit :: p + [bit] !in Inserted(257)
      case None => (exists s: Symbol :: ProperPrefix(p, CodeBits(s))) && forall bit :: p + [bit] in Inserted(257)
  {
    hide CodeBits, Inserted;
    InsertedPaths(257, p);
    match Inserted(257)[p]
    case Some(s) =>
      InsertedSymbols(257, p, s);
      forall bit ensures p + [bit] !in Inserted(257) {
        InsertedPaths(257, p + [bit]);
        if s': Symbol :| p + [bit] <= CodeBits(s') {
          assert p == (p + [bit])[..|p|] == CodeBits(s')[..|p|];
          PrefixFree(s, s');
        }
      }
    case None =>
      var s := InsideSome(p);
      forall bit ensures p + [bit] in Inserted(257) {
        var s' := Complete(p, s, bit);
        InsertedPaths(257, p + [bit]);
      }
  }

  // Walking a code from the root passes no symbol before reaching its own.
  lemma CodeWalk(s: Symbol, i: nat)
    requires i <= |CodeBits(s)|
    ensures CodeBits(s)[..i] in Inserted(257)
    ensures Inserted(257)[CodeBits(s)[..i]] == if i == |CodeBits(s)| then Some(s) else None
  {
    hide CodeBits, Inserted;
    var p := CodeBits(s)[..i];
    InsertedPaths(257, p);
    if i == |CodeBits(s)| {
      assert p == CodeBits(s);
      InsertedSymbols(257, p, s);
    } else if t: Symbol :| Inserted(257)[p] == Some(t) {
      InsertedSymbols(257, p, t);
      PrefixFree(t, s);
    }
  }

  lemma InsideSome(p: seq<bool>) returns (s: Symbol)
    requires p in Inserted(257) && Inserted(257)[p] == None
    ensures ProperPrefix(p, CodeBits(s))
  {
    hide CodeBits, Inserted;
    InsertedPaths(257, p);
    if p == [] {
      s := 0;
      CodeNonempty(0);
    } else {
      s :| p <= CodeBits(s);
      if |p| == |CodeBits(s)| {
        assert p == CodeBits(s);
        InsertedSymbols(257, p, s);
      }
    }
  }

  // ---- the vector of nodes ----

  ghost function Child(index: map<seq<bool>, nat>, p: seq<bool>, bit: bool): nat {
    if p + [bit] in index then index[p + [bit]] else 0
  }

  ghost predicate InRange(nodes: seq<HuffNode>, index: map<seq<bool>, nat>) {
    forall p :: p in index ==> index[p] < |nodes|
  }

  ghost predicate NodeOk(nodes: seq<HuffNode>, index: map<seq<bool>, nat>, p: seq<bool>)
    requires p in index && index[p] < |nodes|
  {
    (p != [] ==> index[p] != 0 && p[..|p| - 1] in index) &&
    var node := nodes[index[p]];
    node.left == Child(index, p, false) &&
    node.right == Child(index, p, true) &&
    node.allOnesDepth == TrailingOnes(p) &&
    node.prefixOfEos == AllOnes(p)
  }

  // index maps each path to the node it leads to.
  ghost predicate Shaped(nodes: seq<HuffNode>, index: map<seq<bool>, nat>) {
    InRange(nodes, index) &&
    [] in index && index[[]] == 0 &&
    (forall p :: p in index ==> NodeOk(nodes, index, p)) &&
    (forall p, q :: p in index && q in index && index[p] == index[q] ==> p == q)
  }

  ghost function Contents(nodes: seq<HuffNode>, index: map<seq<bool>, nat>): (m: Paths)
    requires InRange(nodes, index)
    ensures m.Keys == index.Keys
  {
    map p | p in index :: nodes[index[p]].symbol
  }

  lemma SnocInjective(p: seq<bool>, a: bool, q: seq<bool>, b: bool)
    ensures p + [a] == q + [b] <==> p == q && a == b
  {
    if p + [a] == q + [b] {
      assert (p + [a])[..|p|] == p;
      assert (q + [b])[..|q|] == q;
      assert (p + [a])[|p|] == a;
    }
  }

  // What one node says about its path.
  lemma Lookup(nodes: seq<HuffNode>, index: map<seq<bool>, nat>, p: seq<bool>)
    requires Shaped(nodes, index) && p in index
    ensures index[p] < |nodes|
    ensures nodes[index[p]].left == Child(index, p, false) && nodes[index[p]].right == Child(index, p, true)
    ensures forall bit :: p + [bit] in index ==> index[p + [bit]] != 0
    ensures nodes[index[p]].allOnesDepth == TrailingOnes(p) && nodes[index[p]].prefixOfEos == AllOnes(p)
  {
    hide TrailingOnes, AllOnes, Child;
    assert NodeOk(nodes, index, p);
    forall bit | p + [bit] in index ensures index[p + [bit]] != 0 {
      assert NodeOk(nodes, index, p + [bit]);
    }
  }

  lemma OnesStep(p: seq<bool>)
    ensures TrailingOnes(p + [true]) == TrailingOnes(p) + 1 && TrailingOnes(p + [false]) == 0
    ensures AllOnes(p + [true]) == AllOnes(p) && !AllOnes(p + [false])
  {
    var q, r := p + [true], p + [false];
    assert q[..|q| - 1] == p && q[|p|] && !r[|p|];
    assert forall i :: 0 <= i < |p| ==> q[i] == p[i];
  }

  lemma ParentIn(nodes: seq<HuffNode>, index: map<seq<bool>, nat>, p: seq<bool>, b: bool)
    requires Shaped(nodes, index) && p + [b] in index
    ensures p in index
  {
    assert NodeOk(nodes, index, p + [b]);
    assert (p + [b])[..|p + [b]| - 1] == p;
  }

  // A new last node becomes the child of the node at the end of path.
  ghost predicate Growing(nodes: seq<HuffNode>, index: map<seq<bool>, nat>, path: seq<bool>, bit: bool,
                          parent: HuffNode, child: HuffNode)
  {
    InRange(nodes, index) && path in index && path + [bit] !in index &&
    parent == (if bit then nodes[index[path]].(right := |nodes|) else nodes[index[path]].(left := |nodes|)) &&
    child.left == child.right == 0 && child.symbol == None &&
    child.allOnesDepth == TrailingOnes(path + [bit]) && child.prefixOfEos == AllOnes(path + [bit])
  }

  lemma GrowOld(nodes: seq<HuffNode>, index: map<seq<bool>, nat>, path: seq<bool>, bit: bool,
                parent: HuffNode, child: HuffNode, p: seq<bool>)
    requires Growing(nodes, index, path, bit, parent, child)
    requires p in index && NodeOk(nodes, index, p) && (index[p] == index[path] ==> p == path)
    ensures NodeOk(nodes[index[path] := parent] + [child], index[path + [bit] := |nodes|], p)
  {
    hide TrailingOnes, AllOnes;
    SnocInjective(p, false, path, bit);
    SnocInjective(p, true, path, bit);
  }

  lemma GrowNew(nodes: seq<HuffNode>, index: map<seq<bool>, nat>, path: seq<bool>, bit: bool,
                parent: HuffNode, child: HuffNode)
    requires Growing(nodes, index, path, bit, parent, child) && |nodes| > 0
    requires forall b :: path + [bit] + [b] !in index
    ensures NodeOk(nodes[index[path] := parent] + [child], index[path + [bit] := |nodes|], path + [bit])
  {
    hide TrailingOnes, AllOnes;
    var p := path + [bit];
    assert p[..|p| - 1] == path;
    assert forall b :: |p + [b]| != |p|;
  }

  lemma Grow(nodes: seq<HuffNode>, index: map<seq<bool>, nat>, path: seq<bool>, bit: bool,
             parent: HuffNode, child: HuffNode)
    requires Growing(nodes, index, path, bit, parent, child) && Shaped(nodes, index)
    ensures Shaped(nodes[index[path] := parent] + [child], index[path + [bit] := |nodes|])
  {
    hide NodeOk;
    var nodes' := nodes[index[path] := parent] + [child];
    var index' := index[path + [bit] := |nodes|];
    forall p | p in index' ensures NodeOk(nodes', index', p) {
      if p in index {
        GrowOld(nodes, index, path, bit, parent, child, p);
      } else {
        forall b ensures p + [b] !in index {
          if p + [b] in index {
            ParentIn(nodes, index, p, b);
          }
        }
        GrowNew(nodes, index, path, bit, parent, child);
      }
    }
  }

  lemma GrowContents(nodes: seq<HuffNode>, index: map<seq<bool>, nat>, path: seq<bool>, bit: bool,
                     parent: HuffNode, child: HuffNode)
    requires InRange(nodes, index) && path in index && path + [bit] !in index
    requires parent.symbol == nodes[index[path]].symbol && child.symbol == None
    ensures InRange(nodes[index[path] := parent] + [child], index[path + [bit] := |nodes|])
    ensures Contents(nodes[index[path] := parent] + [child], index[path + [bit] := |nodes|])
         == Contents(nodes, index)[path + [bit] := None]
  {
  }

  ghost function Walked(m: Paths, b: seq<bool>, n: nat): Paths
    requires n <= |b|
  {
    map p | p in m.Keys + Prefixes(b, n) :: if p in m then m[p] else None
  }

  lemma WalkedStep(m: Paths, b: seq<bool>, n: nat)
    requires n < |b|
    ensures Walked(m, b, n + 1)
         == if b[..n + 1] in Walked(m, b, n) then Walked(m, b, n) else Walked(m, b, n)[b[..n + 1] := None]
  {
    assert Prefixes(b, n + 1) == Prefixes(b, n) + {b[..n + 1]};
  }

  lemma WalkedWhole(m: Paths, b: seq<bool>, s: Symbol)
    ensures Walked(m, b, |b|)[b := Some(s)] == Insert(m, b, s)
  {
    assert b == b[..|b|];
  }

  lemma WalkedNone(m: Paths, b: seq<bool>)
    requires [] in m
    ensures Walked(m, b, 0) == m
  {
    assert b[..0] == [];
  }

  lemma SetSymbolShaped(nodes: seq<HuffNode>, index: map<seq<bool>, nat>, path: seq<bool>, s: Symbol)
    requires Shaped(nodes, index) && path in index
    ensures Shaped(nodes[index[path] := nodes[index[path]].(symbol := Some(s))], index)
  {
    hide TrailingOnes, AllOnes, Child;
    var nodes' := nodes[index[path] := nodes[index[path]].(symbol := Some(s))];
    forall p | p in index ensures NodeOk(nodes', index, p) {
      assert NodeOk(nodes, index, p);
    }
  }

  lemma SetSymbolContents(nodes: seq<HuffNode>, index: map<seq<bool>, nat>, path: seq<bool>, s: Symbol)
    requires InRange(nodes, index) && path in index
    requires forall p :: p in index && p != path ==> index[p] != index[path]
    ensures InRange(nodes[index[path] := nodes[index[path]].(symbol := Some(s))], index)
    ensures Contents(nodes[index[path] := nodes[index[path]].(symbol := Some(s))], index)
         == Contents(nodes, index)[path := Some(s)]
  {
  }

  class Tree {
    var nodes: seq<HuffNode>
    ghost var index: map<seq<bool>, nat>

    ghost predicate Valid()
      reads this
    {
      Shaped(nodes, index)
    }

    ghost function Paths(): Paths
      requires Valid()
      reads this
    {
      Contents(nodes, index)
    }

    // The root alone.
    constructor ()
      ensures Valid() && Paths() == Inserted(0)
    {
      nodes := [HuffNode(0, 0, None, 0, true)];
      index := map[[] := 0];
    }

    // One step of the walk in InsertSymbol: follow the bit, adding a node where there is none.
    method Descend(idx: nat, bit: bool, ghost path: seq<bool>) returns (next: nat)
      requires Valid() && path in index && idx == index[path]
      modifies this
      ensures Valid() && path + [bit] in index && next == index[path + [bit]]
      ensures path in index && index[path] == idx
      ensures Paths() == if path + [bit] in old(index) then old(Paths()) else old(Paths())[path + [bit] := None]
    {
      Lookup(nodes, index, path);
      OnesStep(path);
      hide NodeOk, Shaped, Contents, TrailingOnes, AllOnes;
      var parentAllOnesDepth := nodes[idx].allOnesDepth;
      var parentPrefixEos := nodes[idx].prefixOfEos;
      if !bit {
        if nodes[idx].left != 0 {
          next := nodes[idx].left;
        } else {
          next := Push(idx, nodes[idx].(left := |nodes|), HuffNode(0, 0, None, 0, false), path, bit);
        }
      } else if nodes[idx].right != 0 {
        next := nodes[idx].right;
      } else {
        next := Push(idx, nodes[idx].(right := |nodes|),
                     HuffNode(0, 0, None, parentAllOnesDepth + 1, parentPrefixEos), path, bit);
      }
    }

    // Push a new node and point its parent to it.
    method Push(idx: nat, parent: HuffNode, child: HuffNode, ghost path: seq<bool>, ghost bit: bool)
      returns (newIdx: nat)
      requires Valid() && Growing(nodes, index, path, bit, parent, child) && idx == index[path]
      modifies this
      ensures Valid() && index == old(index)[path + [bit] := newIdx]
      ensures Paths() == old(Paths())[path + [bit] := None]
    {
      Grow(nodes, index, path, bit, parent, child);
      GrowContents(nodes, index, path, bit, parent, child);
      hide NodeOk, Contents, TrailingOnes, AllOnes;
      newIdx := |nodes|;
      nodes := nodes[idx := parent] + [child];
      index := index[path + [bit] := newIdx];
    }

    method InsertSymbol(code: nat, codeLen: nat, symbol: Symbol)
      requires Valid()
      modifies this
      ensures Valid()
      ensures Paths() == Insert(old(Paths()), BitsOf(code, codeLen), symbol)
    {
      hide Contents, Walked, Insert, NodeOk, Prefixes;
      var idx := 0;
      ghost var bits := BitsOf(code, codeLen);
      ghost var before := Paths();
      var i := codeLen;
      assert bits[..0] == [];
      WalkedNone(before, bits);
      while i > 0
        invariant 0 <= i <= codeLen && Valid()
        invariant bits[..codeLen - i] in index && idx == index[bits[..codeLen - i]]
        invariant Paths() == Walked(before, bits, codeLen - i)
      {
        i := i - 1;
        var bit := Shr(code, i) % 2 == 1;
        BitsOfAt(code, codeLen, codeLen - 1 - i);
        ghost var n := codeLen - 1 - i;
        assert bits[..n + 1] == bits[..n] + [bit];
        WalkedStep(before, bits, n);
        idx := Descend(idx, bit, bits[..n]);
      }
      assert bits[..codeLen] == bits;
      WalkedWhole(before, bits, symbol);
      SetSymbolShaped(nodes, index, bits, symbol);
      SetSymbolContents(nodes, index, bits, symbol);
      nodes := nodes[idx := nodes[idx].(symbol := Some(symbol))];
    }
  }
}
