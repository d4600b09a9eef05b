/** The Huffman trie of the decoder: the node array `ht[0..htmax)` that
    `gz_buildht` fills, the insertion of one code into it, and the walk of
    `gz_huffdec`. Pointers become indices into the array. */
module Trie {
  import opened Base
  import opened BitStream

  /** `gz_huffn`: `code < 0` marks an inner node. A child index 0 is the C's NULL;
      index 0 holds the root, which is never anybody's child. */
  datatype Node = Node(code: int, zero: nat, one: nat)

  /** A slot as `gz_memset(ht, 0, ...)` leaves it. */
  const Zeroed: Node := Node(0, 0, 0)

  /** A node the insertion loop hands out: `code = -1`, no children yet. */
  const Fresh: Node := Node(-1, 0, 0)

  function Child(n: Node, b: bit): nat {
    if b == 1 then n.one else n.zero
  }

  function SetChild(n: Node, b: bit, c: nat): (r: Node)
    ensures Child(r, b) == c && Child(r, 1 - b) == Child(n, 1 - b) && r.code == n.code
  {
    if b == 1 then n.(one := c) else n.(zero := c)
  }

  /** Every child sits after its parent inside the array. */
  ghost predicate Linked(ht: seq<Node>) {
    forall n :: 0 <= n < |ht| ==> LinkOk(ht, n, ht[n].zero) && LinkOk(ht, n, ht[n].one)
  }

  ghost predicate LinkOk(ht: seq<Node>, n: nat, c: nat) {
    c == 0 || n < c < |ht|
  }

  /** No node is the child of two edges. */
  ghost predicate UniqueParents(ht: seq<Node>) {
    && (forall n, m :: 0 <= n < |ht| && 0 <= m < |ht| && ht[n].zero != 0 && ht[n].zero == ht[m].zero ==> n == m)
    && (forall n, m :: 0 <= n < |ht| && 0 <= m < |ht| && ht[n].one != 0 && ht[n].one == ht[m].one ==> n == m)
    && (forall n, m :: 0 <= n < |ht| && 0 <= m < |ht| && ht[n].zero != 0 ==> ht[n].zero != ht[m].one)
  }

  /** The node reached from `n` along `path`, if every edge on the way exists. */
  ghost function Walk(ht: seq<Node>, n: nat, path: seq<bit>): (r: Option<nat>)
    requires Linked(ht) && n < |ht|
    ensures r.Some? ==> n <= r.value < |ht|
    ensures r.Some? && |path| > 0 ==> n < r.value
    decreases |path|
  {
    if path == [] then Some(n)
    else
      var c := Child(ht[n], path[0]);
      if c == 0 then None else Walk(ht, c, path[1..])
  }

  /** How many leading steps of `path` already exist below `n`. */
  ghost function Depth(ht: seq<Node>, n: nat, path: seq<bit>): (d: nat)
    requires Linked(ht) && n < |ht|
    ensures d <= |path|
    ensures d == |path| <==> Walk(ht, n, path).Some?
    decreases |path|
  {
    if path == [] then 0
    else
      var c := Child(ht[n], path[0]);
      if c == 0 then 0 else 1 + Depth(ht, c, path[1..])
  }

  /** The node array and `huffcount`, the number of slots handed out so far. */
  datatype Arena = Arena(ht: seq<Node>, hc: nat)

  /** What the insertion loop keeps true of the array: slots `[0, hc)` form a
      trie rooted at 0 whose root is inner, every edge points into `[1, hc)`,
      and slots from `hc` on are still zeroed. */
  ghost predicate Good(a: Arena) {
    && 1 <= a.hc <= |a.ht|
    && Linked(a.ht) && UniqueParents(a.ht)
    && a.ht[0].code == -1
    && (forall n :: 0 <= n < |a.ht| ==> a.ht[n].zero < a.hc && a.ht[n].one < a.hc)
    && (forall n :: a.hc <= n < |a.ht| ==> a.ht[n] == Zeroed)
  }

  /** The array after `gz_memset` and the allocation of the root. */
  function NewArena(htmax: nat): (a: Arena)
    requires htmax >= 1
    ensures Good(a) && |a.ht| == htmax && a.hc == 1
  {
    Arena(seq(htmax, i => if i == 0 then Fresh else Zeroed), 1)
  }

  /** Hang a fresh node `ht[huffcount++]` under `n` at bit `b`. */
  function Grow(a: Arena, n: nat, b: bit): (r: Arena)
    requires Good(a) && n < a.hc < |a.ht| && Child(a.ht[n], b) == 0
    ensures Good(r) && |r.ht| == |a.ht| && r.hc == a.hc + 1
    ensures Child(r.ht[n], b) == a.hc && r.ht[a.hc] == Fresh
    ensures forall x :: 0 <= x < a.hc ==> r.ht[x].code == a.ht[x].code
  {
    var ht := a.ht[n := SetChild(a.ht[n], b, a.hc)][a.hc := Fresh];
    GrowGood(a, n, b, ht);
    Arena(ht, a.hc + 1)
  }

  lemma GrowGood(a: Arena, n: nat, b: bit, ht: seq<Node>)
    requires Good(a) && n < a.hc < |a.ht| && Child(a.ht[n], b) == 0
    requires ht == a.ht[n := SetChild(a.ht[n], b, a.hc)][a.hc := Fresh]
    ensures Good(Arena(ht, a.hc + 1))
  {
    GrowEdges(a, n, b, ht);
    GrowLinked(a, n, b, ht);
    GrowUnique(a, n, b, ht);
  }

  /** After growing, the only edge that changed is the new one into `a.hc`. */
  lemma GrowEdges(a: Arena, n: nat, b: bit, ht: seq<Node>)
    requires Good(a) && n < a.hc < |a.ht| && Child(a.ht[n], b) == 0
    requires ht == a.ht[n := SetChild(a.ht[n], b, a.hc)][a.hc := Fresh]
    ensures |ht| == |a.ht| && ht[0].code == -1
    ensures forall x :: 0 <= x < |ht| ==>
      ht[x].zero == (if x == a.hc then 0 else if x == n && b == 0 then a.hc else a.ht[x].zero)
    ensures forall x :: 0 <= x < |ht| ==>
      ht[x].one == (if x == a.hc then 0 else if x == n && b == 1 then a.hc else a.ht[x].one)
    ensures forall x :: a.hc + 1 <= x < |ht| ==> ht[x] == Zeroed
  {
  }

  lemma GrowLinked(a: Arena, n: nat, b: bit, ht: seq<Node>)
    requires Good(a) && n < a.hc < |a.ht| && Child(a.ht[n], b) == 0
    requires ht == a.ht[n := SetChild(a.ht[n], b, a.hc)][a.hc := Fresh]
    ensures Linked(ht)
    ensures forall x :: 0 <= x < |ht| ==> ht[x].zero < a.hc + 1 && ht[x].one < a.hc + 1
  {
    GrowEdges(a, n, b, ht);
    forall x | 0 <= x < |ht|
      ensures LinkOk(ht, x, ht[x].zero) && LinkOk(ht, x, ht[x].one)
    {
      assert LinkOk(a.ht, x, a.ht[x].zero) && LinkOk(a.ht, x, a.ht[x].one);
    }
  }

  lemma GrowUnique(a: Arena, n: nat, b: bit, ht: seq<Node>)
    requires Good(a) && n < a.hc < |a.ht| && Child(a.ht[n], b) == 0
    requires ht == a.ht[n := SetChild(a.ht[n], b, a.hc)][a.hc := Fresh]
    ensures UniqueParents(ht)
  {
    GrowEdges(a, n, b, ht);
    var h := a.hc;
    forall x, y | 0 <= x < |ht| && 0 <= y < |ht| && ht[x].zero != 0 && ht[x].zero == ht[y].zero
      ensures x == y
    {
      assert a.ht[x].zero < h && a.ht[y].zero < h;
    }
    forall x, y | 0 <= x < |ht| && 0 <= y < |ht| && ht[x].one != 0 && ht[x].one == ht[y].one
      ensures x == y
    {
      assert a.ht[x].one < h && a.ht[y].one < h;
    }
    forall x, y | 0 <= x < |ht| && 0 <= y < |ht| && ht[x].zero != 0
      ensures ht[x].zero != ht[y].one
    {
      assert a.ht[x].zero < h && a.ht[y].one < h;
    }
  }

  /** Putting a symbol on a free node other than the root changes no edge. */
  lemma SetCodeGood(a: Arena, n: nat, sym: nat)
    requires Good(a) && 0 < n < a.hc
    ensures Good(Arena(a.ht[n := a.ht[n].(code := sym)], a.hc))
  {
    var ht := a.ht[n := a.ht[n].(code := sym)];
    assert forall x :: 0 <= x < |ht| ==> ht[x].zero == a.ht[x].zero && ht[x].one == a.ht[x].one;
    assert forall x :: 0 <= x < |ht| && x != n ==> ht[x] == a.ht[x];
  }

  /** Whether inserting `path` below `n` fails: it would need more fresh nodes
      than remain, or it ends on a node that already carries a symbol. */
  ghost predicate InsertFails(a: Arena, n: nat, path: seq<bit>)
    requires Linked(a.ht) && n < |a.ht|
  {
    var d := Depth(a.ht, n, path);
    || |path| - d > |a.ht| - a.hc
    || (d == |path| && a.ht[Walk(a.ht, n, path).value].code != -1)
  }

  /** The insertion loop of `gz_buildht` for one symbol: follow the code bits
      from `n`, allocating a fresh node wherever a child is missing, then put
      `sym` on the last node. `None` is the C's `return 0` when `huffcount`
      reaches `htmax` or the last node already carries a symbol. */
  function InsertPath(a: Arena, n: nat, path: seq<bit>, sym: nat): (r: Option<Arena>)
    requires Good(a) && n < a.hc
    requires n > 0 || |path| > 0
    ensures r.Some? ==> Good(r.value) && |r.value.ht| == |a.ht|
    decreases |path|
  {
    if path == [] then
      if a.ht[n].code != -1 then None
      else
        SetCodeGood(a, n, sym);
        Some(Arena(a.ht[n := a.ht[n].(code := sym)], a.hc))
    else
      var c := Child(a.ht[n], path[0]);
      if c != 0 then InsertPath(a, c, path[1..], sym)
      else if a.hc >= |a.ht| then None
      else InsertPath(Grow(a, n, path[0]), a.hc, path[1..], sym)
  }

  /** Insertion fails exactly when the missing steps need more fresh nodes than
      remain or the path ends on a node with a symbol; otherwise it allocates
      one node per missing step. */
  lemma {:induction false} InsertPathOutcome(a: Arena, n: nat, path: seq<bit>, sym: nat)
    requires Good(a) && n < a.hc
    requires n > 0 || |path| > 0
    ensures InsertPath(a, n, path, sym).None? <==> InsertFails(a, n, path)
    ensures InsertPath(a, n, path, sym).Some? ==>
      InsertPath(a, n, path, sym).value.hc == a.hc + (|path| - Depth(a.ht, n, path))
    decreases |path|
  {
    if path != [] {
      var c := Child(a.ht[n], path[0]);
      if c != 0 {
        InsertPathOutcome(a, c, path[1..], sym);
        assert InsertPath(a, n, path, sym) == InsertPath(a, c, path[1..], sym);
        assert Depth(a.ht, n, path) == 1 + Depth(a.ht, c, path[1..]);
        assert Walk(a.ht, n, path) == Walk(a.ht, c, path[1..]);
      } else if a.hc < |a.ht| {
        var a2 := Grow(a, n, path[0]);
        InsertPathOutcome(a2, a.hc, path[1..], sym);
        assert InsertPath(a, n, path, sym) == InsertPath(a2, a.hc, path[1..], sym);
        assert Depth(a.ht, n, path) == 0;
        assert Depth(a2.ht, a.hc, path[1..]) == 0 by {
          assert a2.ht[a.hc] == Fresh;
        }
      }
    }
  }

  // ---------------------------------------------------------------------------
  // Walks

  /** Extending a walk by one bit takes one more edge. */
  lemma {:induction false} WalkSnoc(ht: seq<Node>, n: nat, u: seq<bit>, b: bit)
    requires Linked(ht) && n < |ht|
    ensures Walk(ht, n, u + [b]) ==
      (if Walk(ht, n, u).None? then None
       else if Child(ht[Walk(ht, n, u).value], b) == 0 then None
       else Some(Child(ht[Walk(ht, n, u).value], b)))
    decreases |u|
  {
    if u == [] {
      assert u + [b] == [b];
      assert [b][1..] == [];
    } else {
      assert (u + [b])[1..] == u[1..] + [b];
      var c := Child(ht[n], u[0]);
      if c != 0 {
        WalkSnoc(ht, c, u[1..], b);
      }
    }
  }

  /** Every prefix of a walk that exists exists too. */
  lemma {:induction false} WalkPrefix(ht: seq<Node>, n: nat, u: seq<bit>, i: nat)
    requires Linked(ht) && n < |ht|
    requires Walk(ht, n, u).Some? && i <= |u|
    ensures Walk(ht, n, u[..i]).Some?
    decreases |u|
  {
    if i > 0 {
      var c := Child(ht[n], u[0]);
      assert u[..i][1..] == u[1..][..i - 1];
      WalkPrefix(ht, c, u[1..], i - 1);
    }
  }

  /** Two distinct paths from the root never meet. */
  lemma {:induction false} WalkInjective(ht: seq<Node>, u: seq<bit>, v: seq<bit>)
    requires |ht| > 0 && Linked(ht) && UniqueParents(ht)
    requires Walk(ht, 0, u).Some? && Walk(ht, 0, u) == Walk(ht, 0, v)
    ensures u == v
    decreases |u| + |v|
  {
    if u == [] && v == [] {
    } else if u == [] || v == [] {
      // The root is nobody's child.
      assert false;
    } else {
      var u0, ub := u[..|u| - 1], u[|u| - 1];
      var v0, vb := v[..|v| - 1], v[|v| - 1];
      assert u == u0 + [ub] && v == v0 + [vb];
      WalkSnoc(ht, 0, u0, ub);
      WalkSnoc(ht, 0, v0, vb);
      var y, z := Walk(ht, 0, u0).value, Walk(ht, 0, v0).value;
      assert Child(ht[y], ub) == Child(ht[z], vb) != 0;
      assert y == z && ub == vb;
      WalkInjective(ht, u0, v0);
    }
  }

  /** Walks depend only on the children, never on the codes. */
  lemma {:induction false} WalkSameShape(ht1: seq<Node>, ht2: seq<Node>, m: nat, u: seq<bit>)
    requires Linked(ht1) && Linked(ht2) && |ht1| == |ht2| && m < |ht1|
    requires forall x :: 0 <= x < |ht1| ==> ht1[x].zero == ht2[x].zero && ht1[x].one == ht2[x].one
    ensures Walk(ht1, m, u) == Walk(ht2, m, u)
    decreases |u|
  {
    if u != [] {
      var c := Child(ht1[m], u[0]);
      if c != 0 {
        WalkSameShape(ht1, ht2, c, u[1..]);
      }
    }
  }

  /** In a good arena every walk ends inside the handed-out slots. */
  lemma {:induction false} WalkBelowCount(a: Arena, m: nat, u: seq<bit>)
    requires Good(a) && m < a.hc
    requires Walk(a.ht, m, u).Some?
    ensures Walk(a.ht, m, u).value < a.hc
    decreases |u|
  {
    if u != [] {
      WalkBelowCount(a, Child(a.ht[m], u[0]), u[1..]);
    }
  }

  /** Growing keeps every existing walk. */
  lemma {:induction false} GrowKeepsWalk(a: Arena, n: nat, b: bit, m: nat, u: seq<bit>)
    requires Good(a) && n < a.hc < |a.ht| && Child(a.ht[n], b) == 0
    requires m < a.hc && Walk(a.ht, m, u).Some?
    ensures Walk(Grow(a, n, b).ht, m, u) == Walk(a.ht, m, u)
    decreases |u|
  {
    var g := Grow(a, n, b);
    if u != [] {
      var c := Child(a.ht[m], u[0]);
      assert Child(g.ht[m], u[0]) == c;
      GrowKeepsWalk(a, n, b, c, u[1..]);
    }
  }

  /** A walk after growing that ends on an old node was a walk before. */
  lemma {:induction false} GrowWalkBack(a: Arena, n: nat, b: bit, m: nat, u: seq<bit>)
    requires Good(a) && n < a.hc < |a.ht| && Child(a.ht[n], b) == 0
    requires m < a.hc
    requires Walk(Grow(a, n, b).ht, m, u).Some? && Walk(Grow(a, n, b).ht, m, u).value < a.hc
    ensures Walk(a.ht, m, u) == Walk(Grow(a, n, b).ht, m, u)
    decreases |u|
  {
    var g := Grow(a, n, b);
    if u != [] {
      var c := Child(g.ht[m], u[0]);
      if m == n && u[0] == b {
        // The walk would continue from the fresh node, past `a.hc`.
        assert false;
      } else {
        assert c == Child(a.ht[m], u[0]);
        GrowWalkBack(a, n, b, c, u[1..]);
      }
    }
  }

  // ---------------------------------------------------------------------------
  // What one insertion does

  /** Insertion keeps every walk that existed. */
  lemma {:induction false} InsertKeepsWalk(a: Arena, n: nat, path: seq<bit>, sym: nat, m: nat, u: seq<bit>)
    requires Good(a) && n < a.hc && (n > 0 || |path| > 0)
    requires InsertPath(a, n, path, sym).Some?
    requires m < a.hc && Walk(a.ht, m, u).Some?
    ensures Walk(InsertPath(a, n, path, sym).value.ht, m, u) == Walk(a.ht, m, u)
    decreases |path|
  {
    var r := InsertPath(a, n, path, sym).value;
    if path == [] {
      WalkSameShape(r.ht, a.ht, m, u);
    } else {
      var c := Child(a.ht[n], path[0]);
      if c != 0 {
        InsertKeepsWalk(a, c, path[1..], sym, m, u);
      } else {
        var a2 := Grow(a, n, path[0]);
        GrowKeepsWalk(a, n, path[0], m, u);
        InsertKeepsWalk(a2, a.hc, path[1..], sym, m, u);
      }
    }
  }

  /** After insertion, a walk ending on an old node was a walk before. */
  lemma {:induction false} InsertWalkBack(a: Arena, n: nat, path: seq<bit>, sym: nat, m: nat, u: seq<bit>)
    requires Good(a) && n < a.hc && (n > 0 || |path| > 0)
    requires InsertPath(a, n, path, sym).Some?
    requires m < a.hc
    requires Walk(InsertPath(a, n, path, sym).value.ht, m, u).Some?
    requires Walk(InsertPath(a, n, path, sym).value.ht, m, u).value < a.hc
    ensures Walk(a.ht, m, u) == Walk(InsertPath(a, n, path, sym).value.ht, m, u)
    decreases |path|
  {
    var r := InsertPath(a, n, path, sym).value;
    if path == [] {
      WalkSameShape(r.ht, a.ht, m, u);
    } else {
      var c := Child(a.ht[n], path[0]);
      if c != 0 {
        InsertWalkBack(a, c, path[1..], sym, m, u);
      } else {
        var a2 := Grow(a, n, path[0]);
        InsertWalkBack(a2, a.hc, path[1..], sym, m, u);
        GrowWalkBack(a, n, path[0], m, u);
      }
    }
  }

  /** Insertion ends on a node `f` that `path` reaches, that now carries `sym`
      and was free before; every other node keeps its code, and the nodes it
      allocated are inner. */
  lemma {:induction false} InsertTarget(a: Arena, n: nat, path: seq<bit>, sym: nat) returns (f: nat)
    requires Good(a) && n < a.hc && (n > 0 || |path| > 0)
    requires InsertPath(a, n, path, sym).Some?
    ensures var r := InsertPath(a, n, path, sym).value;
      && Walk(r.ht, n, path) == Some(f)
      && r.ht[f].code == sym
      && (f >= a.hc || a.ht[f].code == -1)
      && (forall x :: 0 <= x < a.hc && x != f ==> r.ht[x].code == a.ht[x].code)
      && (forall x :: a.hc <= x < r.hc && x != f ==> r.ht[x].code == -1)
    decreases |path|, 1
  {
    if path == [] {
      f := n;
    } else if Child(a.ht[n], path[0]) != 0 {
      f := InsertTargetFollow(a, n, path, sym);
    } else {
      f := InsertTargetGrow(a, n, path, sym);
    }
  }

  /** The first step of `path` follows an existing edge. */
  lemma {:induction false} InsertTargetFollow(a: Arena, n: nat, path: seq<bit>, sym: nat) returns (f: nat)
    requires Good(a) && n < a.hc && |path| > 0 && Child(a.ht[n], path[0]) != 0
    requires InsertPath(a, n, path, sym).Some?
    ensures var r := InsertPath(a, n, path, sym).value;
      && Walk(r.ht, n, path) == Some(f)
      && r.ht[f].code == sym
      && (f >= a.hc || a.ht[f].code == -1)
      && (forall x :: 0 <= x < a.hc && x != f ==> r.ht[x].code == a.ht[x].code)
      && (forall x :: a.hc <= x < r.hc && x != f ==> r.ht[x].code == -1)
    decreases |path|, 0
  {
    var r := InsertPath(a, n, path, sym).value;
    var c := Child(a.ht[n], path[0]);
    f := InsertTarget(a, c, path[1..], sym);
    InsertKeepsWalk(a, c, path[1..], sym, n, [path[0]]);
    assert Walk(a.ht, n, [path[0]]) == Some(c) by {
      assert [path[0]][1..] == [];
    }
    assert Walk(r.ht, n, [path[0]]) == Some(c);
    assert Child(r.ht[n], path[0]) == c by {
      assert [path[0]][1..] == [];
    }
  }

  /** The first step of `path` needs a fresh node. */
  lemma {:induction false} InsertTargetGrow(a: Arena, n: nat, path: seq<bit>, sym: nat) returns (f: nat)
    requires Good(a) && n < a.hc && |path| > 0 && Child(a.ht[n], path[0]) == 0
    requires InsertPath(a, n, path, sym).Some?
    ensures var r := InsertPath(a, n, path, sym).value;
      && Walk(r.ht, n, path) == Some(f)
      && r.ht[f].code == sym
      && (f >= a.hc || a.ht[f].code == -1)
      && (forall x :: 0 <= x < a.hc && x != f ==> r.ht[x].code == a.ht[x].code)
      && (forall x :: a.hc <= x < r.hc && x != f ==> r.ht[x].code == -1)
    decreases |path|, 0
  {
    var r := InsertPath(a, n, path, sym).value;
    var a2 := Grow(a, n, path[0]);
    f := InsertTarget(a2, a.hc, path[1..], sym);
    assert Walk(a2.ht, n, [path[0]]) == Some(a.hc) by {
      assert [path[0]][1..] == [];
    }
    InsertKeepsWalk(a2, a.hc, path[1..], sym, n, [path[0]]);
    assert Child(r.ht[n], path[0]) == a.hc by {
      assert [path[0]][1..] == [];
    }
    assert forall x :: 0 <= x < a.hc ==> a2.ht[x].code == a.ht[x].code;
  }

  // ---------------------------------------------------------------------------
  // The table as a whole

  /** A symbol and the code bits it is inserted under, most significant first. */
  datatype Entry = Entry(path: seq<bit>, sym: nat)

  /** `ht` is a trie holding exactly `es`: each entry's path reaches a node
      carrying its symbol, and every node carrying a symbol is reached by the
      path of some entry. */
  ghost predicate Decodes(ht: seq<Node>, es: set<Entry>) {
    && |ht| > 0 && Linked(ht) && UniqueParents(ht) && ht[0].code == -1
    && (forall e :: e in es ==> Walk(ht, 0, e.path).Some? && ht[Walk(ht, 0, e.path).value].code == e.sym)
    && (forall u :: Walk(ht, 0, u).Some? && ht[Walk(ht, 0, u).value].code >= 0 ==>
          exists e :: e in es && e.path == u)
  }

  lemma EmptyDecodesNothing(htmax: nat)
    requires htmax >= 1
    ensures Decodes(NewArena(htmax).ht, {})
  {
    var ht := NewArena(htmax).ht;
    forall u | Walk(ht, 0, u).Some?
      ensures ht[Walk(ht, 0, u).value].code < 0
    {
      if u != [] {
        // The root has no children yet.
        assert false;
      }
    }
  }

  /** One successful insertion adds exactly its entry to the table. */
  lemma InsertAddsEntry(a: Arena, es: set<Entry>, path: seq<bit>, sym: nat)
    requires Good(a) && Decodes(a.ht, es) && |path| > 0
    requires InsertPath(a, 0, path, sym).Some?
    ensures Decodes(InsertPath(a, 0, path, sym).value.ht, es + {Entry(path, sym)})
  {
    var r := InsertPath(a, 0, path, sym).value;
    var f := InsertTarget(a, 0, path, sym);
    var es2 := es + {Entry(path, sym)};
    forall e | e in es2
      ensures Walk(r.ht, 0, e.path).Some? && r.ht[Walk(r.ht, 0, e.path).value].code == e.sym
    {
      if e in es {
        var x := Walk(a.ht, 0, e.path).value;
        WalkBelowCount(a, 0, e.path);
        InsertKeepsWalk(a, 0, path, sym, 0, e.path);
        assert x != f;
      }
    }
    forall u | Walk(r.ht, 0, u).Some? && r.ht[Walk(r.ht, 0, u).value].code >= 0
      ensures exists e :: e in es2 && e.path == u
    {
      var x := Walk(r.ht, 0, u).value;
      if x == f {
        WalkInjective(r.ht, u, path);
        assert Entry(path, sym) in es2;
      } else {
        WalkBelowCount(r, 0, u);
        assert x < a.hc;
        InsertWalkBack(a, 0, path, sym, 0, u);
        assert Walk(a.ht, 0, u) == Some(x);
        assert a.ht[x].code >= 0;
        var e :| e in es && e.path == u;
        assert e in es2;
      }
    }
  }

  // ---------------------------------------------------------------------------
  // When insertion succeeds

  /** The bit strings a trie holding `es` must have nodes for: the empty one
      (the root) and every prefix of an entry's path. */
  ghost function Prefixes(es: set<Entry>): set<seq<bit>> {
    {[]} + set e, k | e in es && 0 <= k <= |e.path| :: e.path[..k]
  }

  /** Every slot is inner (-1), carries a symbol, or is still zeroed. */
  ghost predicate NoStrayCodes(ht: seq<Node>) {
    forall x :: 0 <= x < |ht| ==> ht[x].code >= -1
  }

  /** A walkable prefix of `path` is no longer than the part that exists. */
  lemma {:induction false} WalkWithinDepth(ht: seq<Node>, n: nat, path: seq<bit>, k: nat)
    requires Linked(ht) && n < |ht| && k <= |path|
    ensures Walk(ht, n, path[..k]).Some? ==> k <= Depth(ht, n, path)
    decreases k
  {
    if k > 0 {
      var c := Child(ht[n], path[0]);
      if c != 0 {
        assert path[..k][1..] == path[1..][..k - 1];
        WalkWithinDepth(ht, c, path[1..], k - 1);
      }
    }
  }

  /** The prefixes of `path` longer than `d` and at most `hi` long. */
  ghost function LongPrefixes(path: seq<bit>, d: nat, hi: nat): set<seq<bit>>
    requires hi <= |path|
  {
    set k | d < k <= hi :: path[..k]
  }

  lemma {:induction false} LongPrefixesCount(path: seq<bit>, d: nat, hi: nat)
    requires d <= hi <= |path|
    ensures |LongPrefixes(path, d, hi)| == hi - d
    decreases hi - d
  {
    if hi > d {
      var s := LongPrefixes(path, d, hi - 1);
      LongPrefixesCount(path, d, hi - 1);
      assert LongPrefixes(path, d, hi) == s + {path[..hi]};
      forall u | u in s
        ensures |u| < hi
      {
      }
    }
  }

  lemma PrefixIn(es: set<Entry>, e: Entry, k: nat)
    requires k <= |e.path|
    ensures e in es ==> e.path[..k] in Prefixes(es)
  {
  }

  /** A nonempty prefix comes from some entry's path. */
  lemma PrefixOf(es: set<Entry>, u: seq<bit>) returns (e: Entry, k: nat)
    requires u in Prefixes(es) && u != []
    ensures e in es && k <= |e.path| && u == e.path[..k]
  {
    e, k :| e in es && 0 <= k <= |e.path| && u == e.path[..k];
  }

  lemma PrefixesGrow(es: set<Entry>, e: Entry)
    ensures Prefixes(es) <= Prefixes(es + {e})
  {
    forall u | u in Prefixes(es)
      ensures u in Prefixes(es + {e})
    {
      if u != [] {
        var e1, k :| e1 in es && 0 <= k <= |e1.path| && u == e1.path[..k];
        PrefixIn(es + {e}, e1, k);
      }
    }
  }

  lemma SubsetCard<T>(s: set<T>, t: set<T>)
    requires s <= t
    ensures |s| <= |t|
  {
    assert t == s + (t - s);
  }

  /** The prefixes of `path` past its existing part are not walkable, so no
      entry already has them. */
  lemma AddedAreNew(a: Arena, es: set<Entry>, path: seq<bit>)
    requires Good(a)
    requires forall u :: u in Prefixes(es) ==> Walk(a.ht, 0, u).Some?
    ensures Prefixes(es) * LongPrefixes(path, Depth(a.ht, 0, path), |path|) == {}
  {
    var d := Depth(a.ht, 0, path);
    forall u | u in LongPrefixes(path, d, |path|)
      ensures u !in Prefixes(es)
    {
      var k :| d < k <= |path| && u == path[..k];
      WalkWithinDepth(a.ht, 0, path, k);
    }
  }

  lemma AddedArePrefixes(es: set<Entry>, path: seq<bit>, sym: nat, d: nat)
    requires d <= |path|
    ensures LongPrefixes(path, d, |path|) <= Prefixes(es + {Entry(path, sym)})
  {
    forall u | u in LongPrefixes(path, d, |path|)
      ensures u in Prefixes(es + {Entry(path, sym)})
    {
      var k :| d < k <= |path| && u == path[..k];
      PrefixIn(es + {Entry(path, sym)}, Entry(path, sym), k);
    }
  }

  /** The nodes a new path needs are prefixes no earlier entry has, so the
      fresh nodes fit when all the prefixes do. */
  lemma InsertRoom(a: Arena, es: set<Entry>, path: seq<bit>, sym: nat)
    requires Good(a)
    requires forall u :: u in Prefixes(es) ==> Walk(a.ht, 0, u).Some?
    ensures |Prefixes(es)| + (|path| - Depth(a.ht, 0, path)) <= |Prefixes(es + {Entry(path, sym)})|
  {
    var d := Depth(a.ht, 0, path);
    var p, p2 := Prefixes(es), Prefixes(es + {Entry(path, sym)});
    var added := LongPrefixes(path, d, |path|);
    LongPrefixesCount(path, d, |path|);
    AddedAreNew(a, es, path);
    AddedArePrefixes(es, path, sym, d);
    PrefixesGrow(es, Entry(path, sym));
    SubsetCard(p + added, p2);
  }

  /** The prefixes of the enlarged table are the old ones and those of the
      new path. */
  lemma PrefixesOfNew(es: set<Entry>, path: seq<bit>, sym: nat, u: seq<bit>)
    requires u in Prefixes(es + {Entry(path, sym)}) && u !in Prefixes(es)
    ensures |u| <= |path| && u == path[..|u|]
  {
    var e, k :| e in es + {Entry(path, sym)} && 0 <= k <= |e.path| && u == e.path[..k];
    PrefixIn(es, e, k);
  }

  /** Inserting into a table with no stray codes leaves none. */
  lemma InsertNoStray(a: Arena, path: seq<bit>, sym: nat)
    requires Good(a) && NoStrayCodes(a.ht) && |path| > 0
    requires InsertPath(a, 0, path, sym).Some?
    ensures NoStrayCodes(InsertPath(a, 0, path, sym).value.ht)
  {
    var r := InsertPath(a, 0, path, sym).value;
    var f := InsertTarget(a, 0, path, sym);
    forall x | 0 <= x < |r.ht|
      ensures r.ht[x].code >= -1
    {
      if x >= r.hc {
        assert r.ht[x] == Zeroed;
      }
    }
  }

  /** An insertion into a table whose walks cover the prefixes of its
      entries, with room for the prefixes of one more path that no entry
      already has, succeeds and keeps that cover. */
  lemma InsertCovers(a: Arena, es: set<Entry>, path: seq<bit>, sym: nat)
    requires Good(a) && Decodes(a.ht, es) && NoStrayCodes(a.ht) && |path| > 0
    requires forall e :: e in es ==> e.path != path
    requires forall u :: u in Prefixes(es) ==> Walk(a.ht, 0, u).Some?
    requires a.hc <= |Prefixes(es)|
    requires |Prefixes(es + {Entry(path, sym)})| <= |a.ht|
    ensures InsertPath(a, 0, path, sym).Some?
    ensures var r := InsertPath(a, 0, path, sym).value;
      && NoStrayCodes(r.ht)
      && (forall u :: u in Prefixes(es + {Entry(path, sym)}) ==> Walk(r.ht, 0, u).Some?)
      && r.hc <= |Prefixes(es + {Entry(path, sym)})|
  {
    InsertSucceeds(a, es, path, sym);
    InsertNoStray(a, path, sym);
    var r := InsertPath(a, 0, path, sym).value;
    var f := InsertTarget(a, 0, path, sym);
    forall u | u in Prefixes(es + {Entry(path, sym)})
      ensures Walk(r.ht, 0, u).Some?
    {
      if u in Prefixes(es) {
        InsertKeepsWalk(a, 0, path, sym, 0, u);
      } else {
        PrefixesOfNew(es, path, sym, u);
        WalkPrefix(r.ht, 0, path, |u|);
      }
    }
  }

  /** A path no entry has ends, if it exists at all, on an inner node. */
  lemma UntakenEnd(ht: seq<Node>, es: set<Entry>, path: seq<bit>)
    requires Decodes(ht, es) && NoStrayCodes(ht)
    requires forall e :: e in es ==> e.path != path
    ensures Walk(ht, 0, path).Some? ==> ht[Walk(ht, 0, path).value].code == -1
  {
  }

  /** Insertion succeeds when the missing nodes fit below `room` and the path
      does not end on a node with a symbol. */
  lemma InsertFits(a: Arena, path: seq<bit>, sym: nat, room: nat)
    requires Good(a) && |path| > 0
    requires Walk(a.ht, 0, path).Some? ==> a.ht[Walk(a.ht, 0, path).value].code == -1
    requires a.hc + (|path| - Depth(a.ht, 0, path)) <= room <= |a.ht|
    ensures InsertPath(a, 0, path, sym).Some?
    ensures InsertPath(a, 0, path, sym).value.hc <= room
  {
    InsertPathOutcome(a, 0, path, sym);
  }

  /** The success half of `InsertCovers`, with the count it allocates. */
  lemma InsertSucceeds(a: Arena, es: set<Entry>, path: seq<bit>, sym: nat)
    requires Good(a) && Decodes(a.ht, es) && NoStrayCodes(a.ht) && |path| > 0
    requires forall e :: e in es ==> e.path != path
    requires forall u :: u in Prefixes(es) ==> Walk(a.ht, 0, u).Some?
    requires a.hc <= |Prefixes(es)|
    requires |Prefixes(es + {Entry(path, sym)})| <= |a.ht|
    ensures InsertPath(a, 0, path, sym).Some?
    ensures InsertPath(a, 0, path, sym).value.hc <= |Prefixes(es + {Entry(path, sym)})|
  {
    InsertRoom(a, es, path, sym);
    UntakenEnd(a.ht, es, path);
    InsertFits(a, path, sym, |Prefixes(es + {Entry(path, sym)})|);
  }

  // ---------------------------------------------------------------------------
  // Decoding

  /** A decoded symbol (-1 for "no symbol") and the reader after it. */
  datatype Decoded = Decoded(sym: int, cur: Cursor)

  /** `gz_huffdec`: from the root, take one bit per edge until a node with a
      symbol is reached; a missing child ends the walk with -1, and so does a
      root that is itself a leaf (the loop never starts). */
  function HuffDec(ht: seq<Node>, c: Cursor): (r: Decoded)
    requires |ht| > 0 && Linked(ht) && c.Valid()
    ensures Follows(c, r.cur)
    ensures r.sym >= -1
  {
    if ht[0].code >= 0 then Decoded(-1, c) else HuffWalk(ht, 0, c)
  }

  function HuffWalk(ht: seq<Node>, n: nat, c: Cursor): (r: Decoded)
    requires Linked(ht) && n < |ht| && c.Valid()
    ensures Follows(c, r.cur)
    ensures r.sym >= -1
    decreases |ht| - n
  {
    var b := NextBit(c);
    var next := Child(ht[n], b.value);
    if next == 0 then Decoded(-1, b.cur)
    else if ht[next].code >= 0 then Decoded(ht[next].code, b.cur)
    else HuffWalk(ht, next, b.cur)
  }

  /** No entry's code is a prefix of another's. */
  ghost predicate PrefixFree(es: set<Entry>) {
    forall e1, e2 :: e1 in es && e2 in es && e1 != e2 ==> !(e1.path <= e2.path)
  }

  /** In a prefix-free table, every node strictly inside an entry's path is
      inner: a symbol there would belong to an entry whose path is a prefix. */
  lemma InnerBeforeEnd(ht: seq<Node>, es: set<Entry>, e: Entry, j: nat)
    requires Decodes(ht, es) && PrefixFree(es)
    requires e in es && j < |e.path| && Walk(ht, 0, e.path[..j]).Some?
    ensures ht[Walk(ht, 0, e.path[..j]).value].code < 0
  {
    var u := e.path[..j];
    assert u <= e.path && |u| < |e.path|;
    assert forall e2 :: e2 in es && e2.path == u ==> e2 != e && e2.path <= e.path;
    assert !exists e2 :: e2 in es && e2.path == u;
  }

  /** Bits that follow inner nodes from the root and then take an edge that
      does not exist stop the decoder with -1, right after that last bit,
      however deep in the trie the edge is missing. */
  lemma MissingChildFails(ht: seq<Node>, path: seq<bit>, c: Cursor)
    requires |ht| > 0 && Linked(ht) && |path| > 0
    requires InnerAlong(ht, path) && Walk(ht, 0, path).None?
    requires c.Valid() && BitsAt(c, path)
    ensures HuffDec(ht, c) == Decoded(-1, c.(pos := c.pos + |path|))
  {
    assert path[..0] == [] && path[0..] == path;
    HuffWalkMissing(ht, path, 0, 0, c);
  }

  /** The walk from the `i`-th node of such a path returns -1 after the
      remaining bits. */
  lemma {:induction false} HuffWalkMissing(ht: seq<Node>, path: seq<bit>, i: nat, n: nat, c: Cursor)
    requires Linked(ht) && n < |ht| && i < |path|
    requires InnerAlong(ht, path) && Walk(ht, 0, path).None?
    requires Walk(ht, 0, path[..i]) == Some(n)
    requires c.Valid() && BitsAt(c, path[i..])
    ensures HuffWalk(ht, n, c) == Decoded(-1, c.(pos := c.pos + |path| - i))
    decreases |path| - i
  {
    var b := NextBit(c);
    BitsAtFirst(c, path[i..]);
    assert path[i..][0] == path[i] && path[i..][1..] == path[i + 1..];
    assert path[..i + 1] == path[..i] + [path[i]];
    WalkSnoc(ht, 0, path[..i], path[i]);
    if i + 1 < |path| {
      var next := Child(ht[n], path[i]);
      assert Walk(ht, 0, path[..i + 1]) == Some(next);
      HuffWalkMissing(ht, path, i + 1, next, b.cur);
    } else {
      assert path[..i + 1] == path;
    }
  }

  /** Fed the code bits of a symbol of a prefix-free table, the decoder returns
      that symbol after consuming exactly those bits. */
  lemma HuffDecRoundTrip(ht: seq<Node>, es: set<Entry>, e: Entry, c: Cursor)
    requires Decodes(ht, es) && PrefixFree(es)
    requires e in es && |e.path| > 0
    requires c.Valid() && BitsAt(c, e.path)
    ensures HuffDec(ht, c) == Decoded(e.sym, c.(pos := c.pos + |e.path|))
  {
    forall j | 0 <= j < |e.path|
      ensures Walk(ht, 0, e.path[..j]).Some? && ht[Walk(ht, 0, e.path[..j]).value].code < 0
    {
      WalkPrefix(ht, 0, e.path, j);
      InnerBeforeEnd(ht, es, e, j);
    }
    assert e.path[..0] == [] && e.path[0..] == e.path;
    HuffWalkRoundTrip(ht, e.path, e.sym, 0, 0, c);
  }

  /** Every proper prefix of `path` leads from the root to an inner node. */
  ghost predicate InnerAlong(ht: seq<Node>, path: seq<bit>)
    requires Linked(ht) && |ht| > 0
  {
    forall j :: 0 <= j < |path| ==> Walk(ht, 0, path[..j]).Some? && ht[Walk(ht, 0, path[..j]).value].code < 0
  }

  /** The walk from the `i`-th node of a path whose proper prefixes are inner and
      whose end carries `sym` returns `sym` after the remaining bits. */
  lemma {:induction false} HuffWalkRoundTrip(ht: seq<Node>, path: seq<bit>, sym: nat, i: nat, n: nat, c: Cursor)
    requires Linked(ht) && n < |ht| && i < |path|
    requires InnerAlong(ht, path)
    requires Walk(ht, 0, path).Some? && ht[Walk(ht, 0, path).value].code == sym
    requires Walk(ht, 0, path[..i]) == Some(n)
    requires c.Valid() && BitsAt(c, path[i..])
    ensures HuffWalk(ht, n, c) == Decoded(sym, c.(pos := c.pos + |path| - i))
    decreases |path| - i, 1
  {
    if i + 1 == |path| {
      HuffWalkLast(ht, path, sym, i, n, c);
    } else {
      HuffWalkInner(ht, path, sym, i, n, c);
    }
  }

  /** The last bit of the path reaches the node carrying `sym`. */
  lemma HuffWalkLast(ht: seq<Node>, path: seq<bit>, sym: nat, i: nat, n: nat, c: Cursor)
    requires Linked(ht) && n < |ht| && i < |path|
    requires InnerAlong(ht, path)
    requires Walk(ht, 0, path).Some? && ht[Walk(ht, 0, path).value].code == sym
    requires Walk(ht, 0, path[..i]) == Some(n)
    requires c.Valid() && BitsAt(c, path[i..])
    requires i + 1 == |path|
    ensures HuffWalk(ht, n, c) == Decoded(sym, c.(pos := c.pos + |path| - i))
  {
    var b := NextBit(c);
    BitsAtFirst(c, path[i..]);
    assert path[i..][0] == path[i];
    var next := NextOnPath(ht, path, i, n);
    assert path[..i + 1] == path;
  }

  /** A bit inside the path reaches an inner node, from which the walk goes on. */
  lemma {:induction false} HuffWalkInner(ht: seq<Node>, path: seq<bit>, sym: nat, i: nat, n: nat, c: Cursor)
    requires Linked(ht) && n < |ht| && i < |path|
    requires InnerAlong(ht, path)
    requires Walk(ht, 0, path).Some? && ht[Walk(ht, 0, path).value].code == sym
    requires Walk(ht, 0, path[..i]) == Some(n)
    requires c.Valid() && BitsAt(c, path[i..])
    requires i + 1 < |path|
    ensures HuffWalk(ht, n, c) == Decoded(sym, c.(pos := c.pos + |path| - i))
    decreases |path| - i, 0
  {
    var b := NextBit(c);
    BitsAtFirst(c, path[i..]);
    assert path[i..][0] == path[i] && path[i..][1..] == path[i + 1..];
    var next := NextOnPath(ht, path, i, n);
    assert ht[next].code < 0;
    HuffWalkRoundTrip(ht, path, sym, i + 1, next, b.cur);
  }

  /** Along a path that exists every edge exists: the next step of the walk. */
  lemma NextOnPath(ht: seq<Node>, path: seq<bit>, i: nat, n: nat) returns (next: nat)
    requires Linked(ht) && |ht| > 0 && i < |path| && Walk(ht, 0, path).Some?
    requires Walk(ht, 0, path[..i]) == Some(n)
    ensures next == Child(ht[n], path[i]) && next != 0
    ensures Walk(ht, 0, path[..i + 1]) == Some(next)
  {
    next := Child(ht[n], path[i]);
    WalkPrefix(ht, 0, path, i + 1);
    assert path[..i + 1] == path[..i] + [path[i]];
    WalkSnoc(ht, 0, path[..i], path[i]);
  }
}
