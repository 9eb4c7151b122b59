/**
 The second half of the Huffman builder: a walk over the finished tree, with an explicit
 stack, that stores the depth of every leaf and counts the leaves at each depth.
 */
module HuffmanWalk {
  import opened HuffmanHeap
  import opened HuffmanTree
  import opened HuffmanCost
  import opened HuffmanBuild

  // a symbol and the length of its code
  datatype Coded = Coded(sym: nat, len: nat)

  // the leaves of t from left to right, t being at depth d
  function LeafList(t: Tree, d: nat): (r: seq<Coded>)
    ensures |r| > 0
  {
    match t
    case Leaf(s, _) => [Coded(s, d)]
    case Node(_, l, r) => LeafList(l, d + 1) + LeafList(r, d + 1)
  }

  // v with the lengths of e stored at the symbols
  function Overwritten(v: seq<nat>, e: seq<Coded>): (r: seq<nat>)
    ensures |r| == |v|
  {
    if e == [] then v
    else
      var c := e[|e| - 1];
      var w := Overwritten(v, e[..|e| - 1]);
      if c.sym < |w| then w[c.sym := c.len] else w
  }

  // how many symbols of e have length l
  function CountAt(e: seq<Coded>, l: nat): (n: nat)
    ensures n <= |e|
  {
    if e == [] then 0 else CountAt(e[..|e| - 1], l) + if e[|e| - 1].len == l then 1 else 0
  }

  //////////////////////////////////////////////////////////////////////////////
  // The walk
  //////////////////////////////////////////////////////////////////////////////

  // an ancestor on the stack; right: its right child is being visited
  datatype Frame = Frame(node: Tree, right: bool)

  // what is still to be visited above a subtree at depth |f|
  function Rest(f: seq<Frame>): seq<Coded>
    requires forall i :: 0 <= i < |f| ==> f[i].node.Node?
  {
    if f == [] then []
    else
      var top := f[|f| - 1];
      (if top.right then [] else LeafList(top.node.r, |f|)) + Rest(f[..|f| - 1])
  }

  // flag and number of a reference, without the height
  function Code(ref: nat): nat {
    ref / 0x8000 * 0x8000 + ref % 0x800
  }

  predicate NodeOk(n: Tree, ts: seq<ChTab>) {
    n.Node? && n.slot < 0x800 && Fits(n.l) && Fits(n.r) && Stored(ts, 1, n)
  }

  function FrameCode(f: Frame): nat
    requires f.node.Node?
  {
    f.node.slot + if f.right then 0x4000 else 0
  }

  ghost predicate StackOk(st: seq<nat>, f: seq<Frame>, ts: seq<ChTab>) {
    && |f| < |st|
    && (forall i :: 0 <= i < |f| ==> NodeOk(f[i].node, ts) && i + Height(f[i].node) <= 15)
    && (forall i :: 0 <= i < |f| ==> st[i + 1] == FrameCode(f[i]))
  }

  lemma {:induction false} LeafListBounds(t: Tree, d: nat, c: Coded)
    requires c in LeafList(t, d)
    ensures c.sym in Syms(t) && d <= c.len <= d + Height(t)
    ensures t.Node? ==> d < c.len
  {
    if t.Node? {
      if c in LeafList(t.l, d + 1) { LeafListBounds(t.l, d + 1, c); } else { LeafListBounds(t.r, d + 1, c); }
    }
  }

  lemma CodeOf(t: Tree)
    requires Fits(t)
    ensures Code(Ref(t)) == if t.Node? then 0x8000 + t.slot else t.sym
    ensures t.Node? <==> Code(Ref(t)) >= 0x8000
    ensures (if t.Node? then t.slot else t.sym) < 0x800
  {
  }

  // the children of a stored node, as references read from the table
  lemma Children(n: Tree, ts: seq<ChTab>)
    requires NodeOk(n, ts)
    ensures 1 <= n.slot < |ts| && ts[n.slot] == ChTab(Ref(n.r), Ref(n.l))
    ensures n.l.Node? ==> NodeOk(n.l, ts)
    ensures n.r.Node? ==> NodeOk(n.r, ts)
    ensures Height(n.l) < Height(n) && Height(n.r) < Height(n)
  {
  }

  // the lengths and counts noted for the leaves e
  ghost predicate Noted(lens: array<nat>, off: nat, n: nat, blcn: array<nat>, v: seq<nat>, e: seq<Coded>)
    reads lens, blcn
  {
    && off + n <= lens.Length && lens != blcn
    && lens[off..off + n] == Overwritten(v, e)
    && forall k :: 0 <= k < blcn.Length ==> blcn[k] == CountAt(e, k)
  }

  // Notes the leaf l at depth blen.
  method Note(lens: array<nat>, off: nat, n: nat, blcn: array<nat>, l: nat, blen: nat,
              ghost v: seq<nat>, ghost e: seq<Coded>, ghost pending: seq<Coded>, ghost all: seq<Coded>)
    returns (ghost e': seq<Coded>)
    requires Noted(lens, off, n, blcn, v, e)
    requires forall c :: c in all ==> c.sym < n && c.len < blcn.Length
    requires e + ([Coded(l, blen)] + pending) == all
    modifies lens, blcn
    ensures Noted(lens, off, n, blcn, v, e') && e' + pending == all && |e'| == |e| + 1
    ensures lens[..off] == old(lens[..off]) && lens[off + n..] == old(lens[off + n..])
  {
    ghost var c := Coded(l, blen);
    assert c in all by { assert all[|e|] == c; }
    e' := e + [c];
    assert e'[..|e|] == e;
    lens[off + l] := blen;
    blcn[blen] := blcn[blen] + 1;
    assert lens[off..off + n] == Overwritten(v, e)[l := blen];
  }

  // the frames f stand on the stack but the last, whose code is still in k
  ghost predicate Entering(st: seq<nat>, k: nat, f: seq<Frame>, cur: Tree, ts: seq<ChTab>) {
    && NodeOk(cur, ts) && |f| + Height(cur) <= 15 && |st| == 18
    && (f != [] ==> NodeOk(f[|f| - 1].node, ts) && |f| - 1 + Height(f[|f| - 1].node) <= 15 && k == FrameCode(f[|f| - 1]))
    && (f != [] ==> StackOk(st, f[..|f| - 1], ts))
  }

  // inside node, with everything above it on the stack
  ghost predicate Inside(st: seq<nat>, k: nat, f: seq<Frame>, node: Tree, ts: seq<ChTab>) {
    NodeOk(node, ts) && |f| + Height(node) <= 15 && k == node.slot && StackOk(st, f, ts) && |st| == 18
  }

  lemma EnteringRest(st: seq<nat>, k: nat, f: seq<Frame>, cur: Tree, ts: seq<ChTab>)
    requires Entering(st, k, f, cur, ts)
    ensures forall i :: 0 <= i < |f| ==> f[i].node.Node?
    ensures |f| <= 15
  {
    assert forall i :: 0 <= i < |f| - 1 ==> f[i] == f[..|f| - 1][i];
  }

  // storing k completes the stack
  lemma Push(st: seq<nat>, k: nat, f: seq<Frame>, cur: Tree, ts: seq<ChTab>)
    requires Entering(st, k, f, cur, ts)
    ensures |f| <= 15 && |st| == 18 && cur.Node? && Inside(st[|f| := k], cur.slot, f, cur, ts)
  {
    EnteringRest(st, k, f, cur, ts);
    forall i | 0 <= i < |f| ensures NodeOk(f[i].node, ts) && i + Height(f[i].node) <= 15 && st[|f| := k][i + 1] == FrameCode(f[i]) {
      if i < |f| - 1 { assert f[..|f| - 1][i] == f[i]; }
    }
  }

  // entering a child of node
  lemma Enter(st: seq<nat>, k: nat, f: seq<Frame>, node: Tree, right: bool, ts: seq<ChTab>)
    requires Inside(st, k, f, node, ts) && (if right then node.r else node.l).Node?
    ensures Entering(st, if right then k + 0x4000 else k, f + [Frame(node, right)], if right then node.r else node.l, ts)
  {
    Children(node, ts);
    assert (f + [Frame(node, right)])[..|f|] == f;
  }

  lemma RestPush(f: seq<Frame>, node: Tree, right: bool)
    requires node.Node? && forall i :: 0 <= i < |f| ==> f[i].node.Node?
    ensures Rest(f + [Frame(node, right)]) == (if right then [] else LeafList(node.r, |f| + 1)) + Rest(f)
  {
    assert (f + [Frame(node, right)])[..|f|] == f;
  }

  // From the inner node cur down to its leftmost leaf l, left child of node.
  method Descend(t: array<ChTab>, st: array<nat>, k0: nat, ref: nat, blen0: nat, ghost f0: seq<Frame>, ghost cur0: Tree)
    returns (k: nat, l: nat, blen: nat, ghost f: seq<Frame>, ghost node: Tree)
    requires Entering(st[..], k0, f0, cur0, t[..]) && cur0.Node? && ref % 0x800 == cur0.slot && blen0 == |f0|
    requires forall i :: 0 <= i < |f0| ==> f0[i].node.Node?
    modifies st
    ensures Inside(st[..], k, f, node, t[..]) && blen == |f| + 1 && node.Node?
    ensures node.l.Leaf? && l == node.l.sym
    ensures forall i :: 0 <= i < |f| ==> f[i].node.Node?
    ensures LeafList(cur0, |f0|) + Rest(f0) == [Coded(l, blen)] + (LeafList(node.r, blen) + Rest(f))
  {
    hide NodeOk, StackOk, Height, Fits, Ref, Rest, LeafList, Entering, Inside;
    k, l, blen, f, node := k0, ref, blen0, f0, cur0;
    while true
      invariant Entering(st[..], k, f, node, t[..]) && blen == |f| && node.Node? && l % 0x800 == node.slot
      invariant forall i :: 0 <= i < |f| ==> f[i].node.Node?
      invariant LeafList(cur0, |f0|) + Rest(f0) == LeafList(node, |f|) + Rest(f)
      decreases node
    {
      Push(st[..], k, f, node, t[..]);
      InsideFacts(st[..][|f| := k], node.slot, f, node, t[..]);
      st[blen] := k;
      blen := blen + 1;
      k := l % 0x800;
      l := Code(t[k].ch);
      ListNode(node, |f|);
      if l < 0x8000 {
        ListLeaf(node.l, blen);
        return;
      }
      Enter(st[..], k, f, node, false, t[..]);
      RestPush(f, node, false);
      f, node := f + [Frame(node, false)], node.l;
    }
  }

  lemma InsideFacts(st: seq<nat>, k: nat, f: seq<Frame>, node: Tree, ts: seq<ChTab>)
    requires Inside(st, k, f, node, ts)
    ensures k == node.slot < |ts| && |f| <= 15 && |st| == 18 && node.Node?
    ensures ts[k] == ChTab(Ref(node.r), Ref(node.l))
    ensures Code(Ref(node.l)) == if node.l.Node? then 0x8000 + node.l.slot else node.l.sym
    ensures Code(Ref(node.r)) == if node.r.Node? then 0x8000 + node.r.slot else node.r.sym
    ensures node.l.Node? <==> Code(Ref(node.l)) >= 0x8000
    ensures node.r.Node? <==> Code(Ref(node.r)) >= 0x8000
    ensures node.l.Node? ==> node.l.slot < 0x800
    ensures node.r.Node? ==> node.r.slot < 0x800
    ensures k < 0x800
  {
    Children(node, ts);
    CodeOf(node.l);
    CodeOf(node.r);
  }

  lemma ListNode(t: Tree, d: nat)
    requires t.Node?
    ensures LeafList(t, d) == LeafList(t.l, d + 1) + LeafList(t.r, d + 1)
  {
  }

  lemma ListLeaf(t: Tree, d: nat)
    requires t.Leaf?
    ensures LeafList(t, d) == [Coded(t.sym, d)]
  {
  }

  // Leaves finished right children behind, up to an ancestor whose right child is still to come.
  method Pop(t: array<ChTab>, st: array<nat>, blen0: nat, ghost f0: seq<Frame>)
    returns (done: bool, k: nat, blen: nat, ghost f: seq<Frame>, ghost node: Tree)
    requires StackOk(st[..], f0, t[..]) && blen0 == |f0| + 1 && st.Length == 18
    requires forall i :: 0 <= i < |f0| ==> f0[i].node.Node?
    ensures done ==> Rest(f0) == []
    ensures forall i :: 0 <= i < |f| ==> f[i].node.Node?
    ensures !done ==> Inside(st[..], k, f, node, t[..]) && blen == |f| + 1 && node.Node?
    ensures !done ==> Rest(f0) == LeafList(node.r, blen) + Rest(f)
  {
    hide LeafList, NodeOk, Height;
    blen, f := blen0, f0;
    while true
      invariant StackOk(st[..], f, t[..]) && blen == |f| + 1
      invariant forall i :: 0 <= i < |f| ==> f[i].node.Node?
      invariant Rest(f) == Rest(f0)
      decreases |f|
    {
      blen := blen - 1;
      if blen == 0 { return true, 0, blen, f, Leaf(0, 0); }
      k := st[blen];
      ghost var top := f[|f| - 1];
      SlotSmall(top.node, t[..]);
      f := f[..|f| - 1];
      if k < 0x4000 {
        node := top.node;
        done := false;
        return;
      }
    }
  }

  lemma SlotSmall(n: Tree, ts: seq<ChTab>)
    requires NodeOk(n, ts)
    ensures n.Node? && n.slot < 0x800
  {
  }

  // where the walk stands before it enters cur, the flag on k still to be set
  ghost predicate Ahead(st: array<nat>, t: array<ChTab>, k: nat, l: nat, blen: nat, f: seq<Frame>, cur: Tree, e: seq<Coded>, all: seq<Coded>)
    reads st, t
  {
    && Entering(st[..], k + 0x4000, f, cur, t[..]) && cur.Node? && l % 0x800 == cur.slot && blen == |f|
    && (forall i :: 0 <= i < |f| ==> f[i].node.Node?)
    && e + (LeafList(cur, |f|) + Rest(f)) == all && |e| <= |all|
  }

  // Descends and notes left leaves until a right leaf l turns up.
  method GoDown(t: array<ChTab>, st: array<nat>, lens: array<nat>, off: nat, n: nat, blcn: array<nat>,
                k0: nat, l0: nat, blen0: nat, ghost f0: seq<Frame>, ghost cur0: Tree,
                ghost v: seq<nat>, ghost e0: seq<Coded>, ghost all: seq<Coded>)
    returns (l: nat, blen: nat, ghost f: seq<Frame>, ghost e: seq<Coded>)
    requires st != lens && st != blcn && st.Length == 18 && off + n <= lens.Length
    requires Noted(lens, off, n, blcn, v, e0) && Ahead(st, t, k0, l0, blen0, f0, cur0, e0, all)
    requires forall c :: c in all ==> c.sym < n && c.len < blcn.Length
    modifies st, lens, blcn
    ensures Noted(lens, off, n, blcn, v, e) && |e| > |e0|
    ensures lens[..off] == old(lens[..off]) && lens[off + n..] == old(lens[off + n..])
    ensures StackOk(st[..], f, t[..]) && blen == |f| + 1
    ensures forall i :: 0 <= i < |f| ==> f[i].node.Node?
    ensures e + ([Coded(l, blen)] + Rest(f)) == all
  {
    hide Entering, Inside, LeafList, Rest, Noted, NodeOk, StackOk;
    var k := k0;
    l, blen, f, e := l0, blen0, f0, e0;
    ghost var cur := cur0;
    while true
      invariant Noted(lens, off, n, blcn, v, e) && Ahead(st, t, k, l, blen, f, cur, e, all) && |e| >= |e0|
      invariant lens[..off] == old(lens[..off]) && lens[off + n..] == old(lens[off + n..])
      invariant |e| <= |all|
      decreases |all| - |e|
    {
      ghost var node;
      k, l, blen, f, node := Descend(t, st, k + 0x4000, l, blen, f, cur);
      e := Note(lens, off, n, blcn, l, blen, v, e, LeafList(node.r, blen) + Rest(f), all);
      InsideFacts(st[..], k, f, node, t[..]);
      l := Code(t[k].cn);
      if l < 0x8000 {
        ListLeaf(node.r, blen);
        InsideStack(st[..], k, f, node, t[..]);
        return;
      }
      Enter(st[..], k, f, node, true, t[..]);
      RestPush(f, node, true);
      f, cur := f + [Frame(node, true)], node.r;
    }
  }

  lemma InsideStack(st: seq<nat>, k: nat, f: seq<Frame>, node: Tree, ts: seq<ChTab>)
    requires Inside(st, k, f, node, ts)
    ensures StackOk(st, f, ts)
  {
  }

  // Notes the right leaf l and further right leaves on the way up.
  method GoUp(t: array<ChTab>, st: array<nat>, lens: array<nat>, off: nat, n: nat, blcn: array<nat>,
              l0: nat, blen0: nat, ghost f0: seq<Frame>, ghost v: seq<nat>, ghost e0: seq<Coded>, ghost all: seq<Coded>)
    returns (done: bool, k: nat, l: nat, blen: nat, ghost f: seq<Frame>, ghost cur: Tree, ghost e: seq<Coded>)
    requires st != lens && st != blcn && st.Length == 18 && off + n <= lens.Length
    requires Noted(lens, off, n, blcn, v, e0) && StackOk(st[..], f0, t[..]) && blen0 == |f0| + 1
    requires forall i :: 0 <= i < |f0| ==> f0[i].node.Node?
    requires e0 + ([Coded(l0, blen0)] + Rest(f0)) == all
    requires forall c :: c in all ==> c.sym < n && c.len < blcn.Length
    modifies lens, blcn
    ensures Noted(lens, off, n, blcn, v, e) && |e| > |e0|
    ensures lens[..off] == old(lens[..off]) && lens[off + n..] == old(lens[off + n..])
    ensures done ==> e == all
    ensures !done ==> Ahead(st, t, k, l, blen, f, cur, e, all)
  {
    hide Entering, Inside, LeafList, Rest, Noted, NodeOk, StackOk;
    done, k := false, 0;
    l, blen, f, e, cur := l0, blen0, f0, e0, Leaf(0, 0);
    while true
      invariant Noted(lens, off, n, blcn, v, e) && StackOk(st[..], f, t[..]) && blen == |f| + 1
      invariant forall i :: 0 <= i < |f| ==> f[i].node.Node?
      invariant e + ([Coded(l, blen)] + Rest(f)) == all && |e| >= |e0|
      invariant lens[..off] == old(lens[..off]) && lens[off + n..] == old(lens[off + n..])
      decreases |all| - |e|
    {
      e := Note(lens, off, n, blcn, l, blen, v, e, Rest(f), all);
      ghost var node;
      done, k, blen, f, node := Pop(t, st, blen, f);
      if done { return; }
      InsideFacts(st[..], k, f, node, t[..]);
      l := Code(t[k].cn);
      if l >= 0x8000 {
        Enter(st[..], k, f, node, true, t[..]);
        RestPush(f, node, true);
        f, cur := f + [Frame(node, true)], node.r;
        return;
      }
      ListLeaf(node.r, blen);
      InsideStack(st[..], k, f, node, t[..]);
    }
  }

  // The walk over the whole tree.
  method Walk(t: array<ChTab>, lens: array<nat>, off: nat, n: nat, blcn: array<nat>, ghost root: Tree, ghost cnt: map<nat, nat>)
    requires Built(root, t[..], cnt) && off + n <= lens.Length && blcn.Length >= 16 && lens != blcn
    requires forall x :: x in cnt ==> x < n
    modifies lens, blcn
    ensures lens[off..off + n] == Overwritten(old(lens[off..off + n]), LeafList(root, 0))
    ensures lens[..off] == old(lens[..off]) && lens[off + n..] == old(lens[off + n..])
    ensures forall k :: 0 <= k < blcn.Length ==> blcn[k] == CountAt(LeafList(root, 0), k)
  {
    hide Entering, Inside, LeafList, Rest, NodeOk, StackOk, Overwritten, CountAt;
    ghost var all, v := LeafList(root, 0), lens[off..off + n];
    AllBounds(root, t[..], cnt, n);
    var i := 0;
    while i < blcn.Length
      invariant i <= blcn.Length && (forall k :: 0 <= k < i ==> blcn[k] == 0) && lens[..] == old(lens[..])
    {
      blcn[i] := 0;
      i := i + 1;
    }
    NothingNoted(v);
    var st := new nat[18](_ => 0);
    var k: nat, l: nat, blen: nat := 0, 1, 0;
    ghost var f: seq<Frame>, cur, e: seq<Coded> := [], root, [];
    assert lens[off..off + n] == v;
    RootAhead(st, t, root, cnt);
    while true
      invariant Noted(lens, off, n, blcn, v, e) && Ahead(st, t, k, l, blen, f, cur, e, all)
      invariant lens[..off] == old(lens[..off]) && lens[off + n..] == old(lens[off + n..])
      decreases |all| - |e|
    {
      ghost var f';
      l, blen, f', e := GoDown(t, st, lens, off, n, blcn, k, l, blen, f, cur, v, e, all);
      var done;
      done, k, l, blen, f, cur, e := GoUp(t, st, lens, off, n, blcn, l, blen, f', v, e, all);
      if done { return; }
    }
  }

  lemma NothingNoted(v: seq<nat>)
    ensures Overwritten(v, []) == v && forall k :: CountAt([], k) == 0
  {
  }

  lemma AllBounds(root: Tree, ts: seq<ChTab>, cnt: map<nat, nat>, n: nat)
    requires Built(root, ts, cnt) && forall x :: x in cnt ==> x < n
    ensures forall c :: c in LeafList(root, 0) ==> c.sym in cnt && c.sym < n && 1 <= c.len <= 15
  {
    forall c | c in LeafList(root, 0) ensures c.sym in cnt && 1 <= c.len <= 15 {
      LeafListBounds(root, 0, c);
    }
  }

  lemma RootAhead(st: array<nat>, t: array<ChTab>, root: Tree, cnt: map<nat, nat>)
    requires Built(root, t[..], cnt) && st.Length == 18
    ensures Ahead(st, t, 0, 1, 0, [], root, [], LeafList(root, 0))
  {
    assert Rest([]) == [];
  }
}
