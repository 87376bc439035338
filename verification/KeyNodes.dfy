// The key tree as linked nodes (tty-keys.c), edited in place and proved against
// the functions of KeyTree.
module KeyNodes {
  import opened Common
  import opened KeyTree

  class TtyKey {
    var ch: int
    var key: int
    var left: TtyKey?
    var right: TtyKey?
    var next: TtyKey?

    constructor (ch: int)
      ensures this.ch == ch && key == KEYC_NONE && left == null && right == null && next == null
    {
      this.ch := ch;
      key := KEYC_NONE;
      left, right, next := null, null, null;
    }
  }

  /** The nodes below a link, as a value. */
  datatype Shape = Empty | Shape(node: TtyKey, left: Shape, right: Shape, next: Shape)

  ghost function Nodes(sh: Shape): set<TtyKey> {
    if sh.Empty? then {} else {sh.node} + Nodes(sh.left) + Nodes(sh.right) + Nodes(sh.next)
  }

  /** No node occurs twice. */
  ghost predicate Distinct(sh: Shape) {
    sh.Shape? ==>
      && Distinct(sh.left) && Distinct(sh.right) && Distinct(sh.next)
      && sh.node !in Nodes(sh.left) && sh.node !in Nodes(sh.right) && sh.node !in Nodes(sh.next)
      && Nodes(sh.left) !! Nodes(sh.right) && Nodes(sh.left) !! Nodes(sh.next) && Nodes(sh.right) !! Nodes(sh.next)
  }

  /** The links agree with the shape. */
  ghost predicate Linked(sh: Shape, tk: TtyKey?)
    reads Nodes(sh)`left, Nodes(sh)`right, Nodes(sh)`next
    decreases sh
  {
    match sh
    case Empty => tk == null
    case Shape(node, left, right, next) =>
      tk == node && Linked(left, node.left) && Linked(right, node.right) && Linked(next, node.next)
  }

  ghost function TreeOf(sh: Shape): Tree
    reads Nodes(sh)`ch, Nodes(sh)`key
    decreases sh
  {
    match sh
    case Empty => Nil
    case Shape(node, left, right, next) => Node(node.ch, node.key, TreeOf(left), TreeOf(right), TreeOf(next))
  }

  lemma AllAllocated(sh: Shape)
    ensures forall n :: n in Nodes(sh) ==> allocated(n)
  {
    if sh.Shape? {
      AllAllocated(sh.left);
      AllAllocated(sh.right);
      AllAllocated(sh.next);
    }
  }

  // ----- tty_keys_find1

  /** The node of the shape that Find comes to in its tree t. */
  ghost function NodeOf(sh: Shape, t: Tree, buf: Str): TtyKey?
    requires buf != []
    decreases sh
  {
    if sh.Empty? || t.Nil? then null
    else if buf[0] == t.ch then
      if |buf| == 1 || (t.next.Nil? && t.key != KEYC_NONE) then sh.node else NodeOf(sh.next, t.next, buf[1..])
    else if buf[0] < t.ch then NodeOf(sh.left, t.left, buf)
    else NodeOf(sh.right, t.right, buf)
  }

  method Find1(tk: TtyKey?, buf: Str, ghost sh: Shape) returns (r: TtyKey?, size: nat)
    requires Linked(sh, tk) && buf != []
    ensures r == NodeOf(sh, TreeOf(sh), buf) && (r != null ==> r in Nodes(sh))
    ensures Find(TreeOf(sh), buf) == if r == null then None else Some(Found(r.key, size))
    decreases sh
  {
    if tk == null {
      return null, 0;
    }
    if tk.ch == buf[0] {
      if |buf| == 1 || (tk.next == null && tk.key != KEYC_NONE) {
        return tk, 1;
      }
      r, size := Find1(tk.next, buf[1..], sh.next);
      size := size + 1;
    } else if buf[0] < tk.ch {
      r, size := Find1(tk.left, buf, sh.left);
    } else {
      r, size := Find1(tk.right, buf, sh.right);
    }
  }

  // ----- tty_keys_add1

  /** What a node and the shapes below it say. */
  ghost predicate Built(n: TtyKey, l: Shape, r: Shape, x: Shape)
    reads n`left, n`right, n`next
    reads Nodes(l)`left, Nodes(l)`right, Nodes(l)`next
    reads Nodes(r)`left, Nodes(r)`right, Nodes(r)`next
    reads Nodes(x)`left, Nodes(x)`right, Nodes(x)`next
  {
    && Linked(l, n.left) && Linked(r, n.right) && Linked(x, n.next)
    && Distinct(l) && Distinct(r) && Distinct(x)
    && n !in Nodes(l) && n !in Nodes(r) && n !in Nodes(x)
    && Nodes(l) !! Nodes(r) && Nodes(l) !! Nodes(x) && Nodes(r) !! Nodes(x)
  }

  lemma Open(sh: Shape, tk: TtyKey?)
    requires Linked(sh, tk) && Distinct(sh)
    ensures tk == null <==> sh.Empty?
    ensures sh.Shape? ==>
              && sh.node == tk && Built(sh.node, sh.left, sh.right, sh.next)
              && Nodes(sh) == {sh.node} + Nodes(sh.left) + Nodes(sh.right) + Nodes(sh.next)
              && TreeOf(sh) == Node(sh.node.ch, sh.node.key, TreeOf(sh.left), TreeOf(sh.right), TreeOf(sh.next))
    ensures sh.Empty? ==> TreeOf(sh) == Nil && Nodes(sh) == {}
    ensures forall n :: n in Nodes(sh) ==> allocated(n)
  {
    AllAllocated(sh);
  }

  lemma Build(n: TtyKey, l: Shape, r: Shape, x: Shape)
    requires Built(n, l, r, x)
    ensures var sh := Shape(n, l, r, x);
            && Linked(sh, n) && Distinct(sh)
            && Nodes(sh) == {n} + Nodes(l) + Nodes(r) + Nodes(x)
            && TreeOf(sh) == Node(n.ch, n.key, TreeOf(l), TreeOf(r), TreeOf(x))
  {}

  lemma NoNodes()
    ensures Linked(Empty, null) && Distinct(Empty) && Nodes(Empty) == {} && TreeOf(Empty) == Nil
  {}

  lemma InsertStep(t: Tree, s: Str, key: int)
    requires s != []
    ensures var n := if t.Nil? then Fresh(s[0]) else t;
            Insert(t, s, key) ==
            if s[0] == n.ch then (if |s| == 1 then n.(key := key) else n.(next := Insert(n.next, s[1..], key)))
            else if s[0] < n.ch then n.(left := Insert(n.left, s, key))
            else n.(right := Insert(n.right, s, key))
  {}

  /** Gives what the link to the subtree is to hold. */
  method Add1(slot: TtyKey?, s: Str, key: int, ghost sh: Shape) returns (tk: TtyKey, ghost r: Shape)
    requires Linked(sh, slot) && Distinct(sh) && s != []
    modifies Nodes(sh)`left, Nodes(sh)`right, Nodes(sh)`next, Nodes(sh)`key
    ensures Linked(r, tk) && Distinct(r) && TreeOf(r) == Insert(old(TreeOf(sh)), s, key)
    ensures Nodes(sh) <= Nodes(r) && fresh(Nodes(r) - Nodes(sh))
    decreases |s|, sh
  {
    hide Linked, Distinct, TreeOf, Nodes, Insert;
    Open(sh, slot);
    NoNodes();
    InsertStep(TreeOf(sh), s, key);
    ghost var l, g, x := Empty, Empty, Empty;
    if slot == null {
      tk := new TtyKey(s[0]);
    } else {
      tk := slot;
      l, g, x := sh.left, sh.right, sh.next;
    }
    if s[0] == tk.ch {
      if |s| == 1 {
        tk.key := key;
      } else {
        var child;
        child, x := Add1(tk.next, s[1..], key, x);
        tk.next := child;
      }
    } else if s[0] < tk.ch {
      var child;
      child, l := Add1(tk.left, s, key, l);
      tk.left := child;
    } else {
      var child;
      child, g := Add1(tk.right, s, key, g);
      tk.right := child;
    }
    Build(tk, l, g, x);
    r := Shape(tk, l, g, x);
    AllAllocated(r);
  }

  // ----- tty_keys_add

  /** The tree is t but for the key of one node. */
  ghost predicate ExceptKey(sh: Shape, n: TtyKey, t: Tree)
    reads Nodes(sh)`ch, (Nodes(sh) - {n})`key
    decreases sh
  {
    match sh
    case Empty => t.Nil?
    case Shape(node, left, right, next) =>
      && t.Node? && t.ch == node.ch && (node != n ==> t.key == node.key)
      && ExceptKey(left, n, t.left) && ExceptKey(right, n, t.right) && ExceptKey(next, n, t.next)
  }

  lemma {:induction false} ExceptSelf(sh: Shape, n: TtyKey)
    ensures ExceptKey(sh, n, TreeOf(sh))
  {
    if sh.Shape? {
      ExceptSelf(sh.left, n);
      ExceptSelf(sh.right, n);
      ExceptSelf(sh.next, n);
    }
  }

  lemma {:induction false} ExceptAbsent(sh: Shape, n: TtyKey, t: Tree)
    requires ExceptKey(sh, n, t) && n !in Nodes(sh)
    ensures TreeOf(sh) == t
  {
    if sh.Shape? {
      ExceptAbsent(sh.left, n, t.left);
      ExceptAbsent(sh.right, n, t.right);
      ExceptAbsent(sh.next, n, t.next);
    }
  }

  lemma {:induction false} NodeOfIn(sh: Shape, t: Tree, s: Str)
    requires s != [] && NodeOf(sh, t, s) != null
    ensures NodeOf(sh, t, s) in Nodes(sh)
  {
    if sh.Shape? && t.Node? {
      if s[0] == t.ch {
        if !(|s| == 1 || (t.next.Nil? && t.key != KEYC_NONE)) { NodeOfIn(sh.next, t.next, s[1..]); }
      } else if s[0] < t.ch {
        NodeOfIn(sh.left, t.left, s);
      } else {
        NodeOfIn(sh.right, t.right, s);
      }
    }
  }

  /** Changing the key of the node Find came to is SetFound. */
  lemma {:induction false} KeyChanged(sh: Shape, n: TtyKey, t: Tree, s: Str)
    requires s != [] && Distinct(sh) && ExceptKey(sh, n, t) && NodeOf(sh, t, s) == n && Find(t, s).Some?
    ensures TreeOf(sh) == SetFound(t, s, n.key)
    decreases sh
  {
    NodeOfIn(sh, t, s);
    if s[0] == t.ch {
      if |s| == 1 || (t.next.Nil? && t.key != KEYC_NONE) {
        ExceptAbsent(sh.next, n, t.next);
      } else {
        NodeOfIn(sh.next, t.next, s[1..]);
        KeyChanged(sh.next, n, t.next, s[1..]);
      }
      ExceptAbsent(sh.left, n, t.left);
      ExceptAbsent(sh.right, n, t.right);
    } else if s[0] < t.ch {
      NodeOfIn(sh.left, t.left, s);
      KeyChanged(sh.left, n, t.left, s);
      ExceptAbsent(sh.right, n, t.right);
      ExceptAbsent(sh.next, n, t.next);
    } else {
      NodeOfIn(sh.right, t.right, s);
      KeyChanged(sh.right, n, t.right, s);
      ExceptAbsent(sh.left, n, t.left);
      ExceptAbsent(sh.next, n, t.next);
    }
  }

  class Tty {
    var keyTree: TtyKey?
    ghost var shape: Shape

    ghost predicate Valid()
      reads this, Nodes(shape)
    {
      Linked(shape, keyTree) && Distinct(shape)
    }

    ghost function Value(): Tree
      reads this, Nodes(shape)
    {
      TreeOf(shape)
    }

    constructor ()
      ensures Valid() && Value() == Nil
    {
      keyTree := null;
      shape := Empty;
    }

    // tty_keys_find
    method FindKey(buf: Str) returns (tk: TtyKey?, size: nat)
      requires Valid() && buf != []
      ensures tk == NodeOf(shape, Value(), buf) && (tk != null ==> tk in Nodes(shape))
      ensures Find(Value(), buf) == if tk == null then None else Some(Found(tk.key, size))
    {
      tk, size := Find1(keyTree, buf, shape);
    }

    // tty_keys_add
    method AddKey(s: Str, key: int)
      requires Valid() && s != []
      modifies this, Nodes(shape)
      ensures Valid() && Value() == Add(old(Value()), s, key)
      ensures fresh(Nodes(shape) - old(Nodes(shape)))
    {
      hide Linked, Distinct, TreeOf, Nodes, Insert, SetFound, Find, NodeOf;
      AllAllocated(shape);
      ghost var t := Value();
      var tk, size := FindKey(s);
      if tk == null {
        keyTree, shape := Add1(keyTree, s, key, shape);
      } else {
        ExceptSelf(shape, tk);
        tk.key := key;
        KeyChanged(shape, tk, t, s);
      }
    }

    // tty_keys_init for a table of sequences, given without their ESC.
    method AddKeys(es: seq<Entry>)
      requires Valid() && Value() == Nil && forall e :: e in es ==> e.0 != []
      modifies this, Nodes(shape)
      ensures Valid() && Value() == AddAll(Nil, es)
    {
      hide Linked, Distinct, TreeOf, Nodes, Add;
      AllAllocated(shape);
      var i := 0;
      assert es[0..] == es;
      while i < |es|
        invariant i <= |es| && Valid() && AddAll(Value(), es[i..]) == AddAll(Nil, es)
        invariant fresh(Nodes(shape) - old(Nodes(shape)))
      {
        assert es[i..][0] == es[i] && es[i..][1..] == es[i + 1..];
        AddKey(es[i].0, es[i].1);
        AllAllocated(shape);
        i := i + 1;
      }
    }
  }
}
