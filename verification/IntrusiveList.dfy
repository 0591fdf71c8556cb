/** The circular doubly linked list. A list is a ring of nodes of which one, the head, is a sentinel;
    every operation is shown to be the matching operation on the sequence of the other nodes. */
module IntrusiveList {
  import opened Common

  class Node {
    var next: Node
    var prev: Node

    /** LIST_HEAD_INIT. */
    constructor ()
      ensures Ring([this])
    {
      next, prev := this, this;
    }
  }

  function After(s: seq<Node>, i: nat): Node
    requires i < |s|
  {
    if i + 1 < |s| then s[i + 1] else s[0]
  }

  function Before(s: seq<Node>, i: nat): Node
    requires i < |s|
  {
    if i > 0 then s[i - 1] else s[|s| - 1]
  }

  /** Following `next` from the first node gives these nodes in order and then the first again;
      following `prev` gives them backwards. */
  ghost predicate Ring(s: seq<Node>)
    reads s
  {
    && |s| > 0
    && NoRepeats(s)
    && (forall i {:trigger s[i].next} | 0 <= i < |s| :: s[i].next == After(s, i))
    && (forall i {:trigger s[i].prev} | 0 <= i < |s| :: s[i].prev == Before(s, i))
  }

  ghost predicate IsList(head: Node, elems: seq<Node>)
    reads head, elems
  {
    Ring([head] + elems)
  }

  /** INIT_LIST_HEAD. */
  method Init(list: Node)
    modifies list
    ensures Ring([list])
  {
    list.next := list;
    list.prev := list;
  }

  /** __list_add, between two neighbours of a ring: the last and the first node of `s`. */
  method Link(n: Node, prev: Node, next: Node, ghost s: seq<Node>)
    requires Ring(s) && n !in s && next == s[0] && prev == s[|s| - 1]
    modifies n, prev, next
    ensures Ring(s + [n])
  {
    next.prev := n;
    n.next := next;
    n.prev := prev;
    prev.next := n;
  }

  /** A ring can be read from any of its nodes. */
  lemma Rotated(s: seq<Node>, k: nat)
    requires Ring(s) && k <= |s|
    ensures Ring(s[k..] + s[..k])
  {
    var t := s[k..] + s[..k];
    forall i | 0 <= i < |t| ensures t[i].next == After(t, i) && t[i].prev == Before(t, i) {
      var j := if i + k < |s| then i + k else i + k - |s|;
      assert t[i] == s[j];
      assert s[j].next == After(s, j) && s[j].prev == Before(s, j);
    }
  }

  /** list_add. */
  method Add(n: Node, head: Node, ghost elems: seq<Node>)
    requires IsList(head, elems) && n != head && n !in elems
    modifies n, head, head.next
    ensures IsList(head, [n] + elems)
  {
    Neighbours(head, elems);
    HeadLast(head, elems);
    Link(n, head, head.next, elems + [head]);
    assert elems + [head] + [n] == elems + ([head] + [n]);
    HeadFirst(head, elems, [n]);
  }

  /** list_add_tail. */
  method AddTail(n: Node, head: Node, ghost elems: seq<Node>)
    requires IsList(head, elems) && n != head && n !in elems
    modifies n, head, head.prev
    ensures IsList(head, elems + [n])
  {
    ghost var s := [head] + elems;
    assert s[0].prev == Before(s, 0);
    Link(n, head.prev, head, s);
    assert s + [n] == [head] + (elems + [n]);
  }

  /** __list_del_entry: the first node of `s` leaves the ring of the others; its own pointers stay. */
  method Unlink(entry: Node, ghost s: seq<Node>)
    requires Ring(s) && entry == s[0]
    modifies entry.prev, entry.next
    ensures |s| > 1 ==> Ring(s[1..]) && entry.prev == s[|s| - 1] && entry.next == s[1]
    ensures |s| == 1 ==> Ring(s)
  {
    assert s[0].next == After(s, 0) && s[0].prev == Before(s, 0);
    var prev, next := entry.prev, entry.next;
    next.prev := prev;
    prev.next := next;
    if |s| > 1 {
      ghost var t := s[1..];
      forall i | 0 <= i < |t| ensures t[i].next == After(t, i) && t[i].prev == Before(t, i) {
        assert t[i] == s[i + 1];
        assert old(s[i + 1].next) == After(s, i + 1) && old(s[i + 1].prev) == Before(s, i + 1);
      }
    }
  }

  /** The nodes that follow element `k` around the ring. */
  function Others(head: Node, elems: seq<Node>, k: nat): seq<Node>
    requires k < |elems|
  {
    elems[k + 1..] + ([head] + elems[..k])
  }

  /** A list, read from its element `k`. */
  lemma EntryFirst(head: Node, elems: seq<Node>, k: nat) returns (t: seq<Node>)
    requires IsList(head, elems) && k < |elems|
    ensures t == [elems[k]] + Others(head, elems, k) && t[1..] == Others(head, elems, k)
    ensures Ring(t) && elems[k] !in t[1..]
    ensures elems[k].prev == t[|t| - 1] && elems[k].next == t[1]
  {
    var s := [head] + elems;
    t := [elems[k]] + Others(head, elems, k);
    assert s[k + 1..] + s[..k + 1] == t;
    Rotated(s, k + 1);
    assert t[0].prev == Before(t, 0) && t[0].next == After(t, 0);
  }

  /** A list, read from its first element. */
  lemma HeadLast(head: Node, elems: seq<Node>)
    requires IsList(head, elems)
    ensures Ring(elems + [head])
  {
    var s := [head] + elems;
    Rotated(s, 1);
    assert s[1..] + s[..1] == elems + [head];
  }

  /** A ring, read from the head. */
  lemma HeadFirst(head: Node, a: seq<Node>, b: seq<Node>)
    requires Ring(a + ([head] + b))
    ensures IsList(head, b + a)
  {
    var t := a + ([head] + b);
    Rotated(t, |a|);
    assert t[|a|..] + t[..|a|] == [head] + (b + a);
  }

  /** list_del and list_del_init. */
  method Delete(entry: Node, head: Node, ghost elems: seq<Node>, ghost k: nat)
    requires IsList(head, elems) && k < |elems| && entry == elems[k]
    modifies entry, entry.prev, entry.next
    ensures IsList(head, RemoveAt(elems, k)) && Ring([entry])
  {
    ghost var t := EntryFirst(head, elems, k);
    Unlink(entry, t);
    label Unlinked:
    Init(entry);
    Undisturbed@Unlinked(t[1..]);
    HeadFirst(head, elems[k + 1..], elems[..k]);
  }

  /** list_replace: the new node takes the place of the first node of `s`, even if that is alone. */
  method Replace(was: Node, n: Node, ghost s: seq<Node>)
    requires Ring(s) && was == s[0] && n !in s
    modifies was, n, was.next, was.prev
    ensures Ring([n] + s[1..])
    ensures |s| > 1 ==> was.next == old(was.next) && was.prev == old(was.prev)
  {
    assert s[0].next == After(s, 0) && s[0].prev == Before(s, 0);
    n.next := was.next;
    n.next.prev := n;
    n.prev := was.prev;
    n.prev.next := n;
    ghost var t := [n] + s[1..];
    forall i | 0 <= i < |t| ensures t[i].next == After(t, i) && t[i].prev == Before(t, i) {
      assert i > 0 ==> t[i] == s[i] && old(s[i].next) == After(s, i) && old(s[i].prev) == Before(s, i);
    }
  }

  /** list_replace_init, in any ring. */
  method ReplaceInit(was: Node, n: Node, ghost s: seq<Node>)
    requires Ring(s) && was == s[0] && n !in s
    modifies was, n, was.next, was.prev
    ensures Ring([n] + s[1..]) && Ring([was])
  {
    Replace(was, n, s);
    label Replaced:
    Init(was);
    Undisturbed@Replaced([n] + s[1..]);
  }

  /** The same for element `k` of a list. */
  method ReplaceElement(was: Node, n: Node, head: Node, ghost elems: seq<Node>, ghost k: nat)
    requires IsList(head, elems) && k < |elems| && was == elems[k] && n != head && n !in elems
    modifies was, n, was.next, was.prev
    ensures IsList(head, elems[k := n]) && Ring([was])
  {
    ghost var t := EntryFirst(head, elems, k);
    ReplaceInit(was, n, t);
    ReplacedList(n, head, elems, k);
  }

  lemma ReplacedList(n: Node, head: Node, elems: seq<Node>, k: nat)
    requires k < |elems| && Ring([n] + Others(head, elems, k))
    ensures IsList(head, elems[k := n])
  {
    assert [n] + Others(head, elems, k) == ([n] + elems[k + 1..]) + ([head] + elems[..k]);
    HeadFirst(head, [n] + elems[k + 1..], elems[..k]);
    assert elems[..k] + ([n] + elems[k + 1..]) == elems[k := n];
  }

  /** Two lists with no node in common. */
  ghost predicate Separate(a: Node, xs: seq<Node>, b: Node, ys: seq<Node>) {
    a != b && a !in ys && b !in xs && forall i, j | 0 <= i < |xs| && 0 <= j < |ys| :: xs[i] != ys[j]
  }

  /** list_move. The entry may come from another list or from the same one. */
  method Move(entry: Node, head: Node, ghost src: Node, ghost from: seq<Node>, ghost k: nat,
              ghost to: seq<Node>)
    requires k < |from| && entry == from[k] && IsList(src, from) && IsList(head, to)
    requires if src == head then to == from else Separate(src, from, head, to)
    modifies src, from, head, to
    ensures if src == head then IsList(head, [entry] + RemoveAt(from, k))
            else IsList(head, [entry] + to) && IsList(src, RemoveAt(from, k))
  {
    UnlinkFrom(entry, src, from, k);
    ghost var rest := if src == head then RemoveAt(from, k) else to;
    if src != head {
      Undisturbed([head] + to);
    }
    Neighbours(head, rest);
    label Unlinked:
    Add(entry, head, rest);
    if src != head {
      Undisturbed@Unlinked([src] + RemoveAt(from, k));
    }
  }

  /** list_move_tail. */
  method MoveTail(entry: Node, head: Node, ghost src: Node, ghost from: seq<Node>, ghost k: nat,
                  ghost to: seq<Node>)
    requires k < |from| && entry == from[k] && IsList(src, from) && IsList(head, to)
    requires if src == head then to == from else Separate(src, from, head, to)
    modifies src, from, head, to
    ensures if src == head then IsList(head, RemoveAt(from, k) + [entry])
            else IsList(head, to + [entry]) && IsList(src, RemoveAt(from, k))
  {
    UnlinkFrom(entry, src, from, k);
    ghost var rest := if src == head then RemoveAt(from, k) else to;
    if src != head {
      Undisturbed([head] + to);
    }
    Neighbours(head, rest);
    label Unlinked:
    AddTail(entry, head, rest);
    if src != head {
      Undisturbed@Unlinked([src] + RemoveAt(from, k));
    }
  }

  /** A ring stays a ring while none of its nodes is written. */
  twostate lemma Undisturbed(s: seq<Node>)
    requires old(Ring(s))
    requires forall i | 0 <= i < |s| :: s[i].next == old(s[i].next) && s[i].prev == old(s[i].prev)
    ensures Ring(s)
  {
  }

  lemma Neighbours(head: Node, elems: seq<Node>)
    requires IsList(head, elems)
    ensures head.next == (if elems == [] then head else elems[0])
    ensures head.prev == (if elems == [] then head else elems[|elems| - 1])
    ensures head !in elems && NoRepeats(elems)
  {
    var s := [head] + elems;
    assert s[0].next == After(s, 0) && s[0].prev == Before(s, 0);
    forall i | 0 <= i < |elems| ensures elems[i] != head {
      assert s[i + 1] == elems[i];
    }
    forall i, j | 0 <= i < j < |elems| ensures elems[i] != elems[j] {
      assert s[i + 1] == elems[i] && s[j + 1] == elems[j];
    }
  }

  /** The nodes of a ring determine its pointers. */
  twostate lemma SamePointers(s: seq<Node>)
    requires old(Ring(s)) && Ring(s)
    ensures forall i | 0 <= i < |s| :: s[i].next == old(s[i].next) && s[i].prev == old(s[i].prev)
  {
    forall i | 0 <= i < |s| ensures s[i].next == old(s[i].next) && s[i].prev == old(s[i].prev) {
      assert s[i].next == After(s, i) && s[i].prev == Before(s, i);
      assert old(s[i].next) == After(s, i) && old(s[i].prev) == Before(s, i);
    }
  }

  /** __list_del_entry, as an operation on the list of `src`. */
  method UnlinkFrom(entry: Node, ghost src: Node, ghost from: seq<Node>, ghost k: nat)
    requires k < |from| && entry == from[k] && IsList(src, from)
    modifies src, from
    ensures IsList(src, RemoveAt(from, k)) && entry != src && entry !in RemoveAt(from, k)
    ensures |from| > 1 ==> entry.prev == old(entry.prev) && entry.next == old(entry.next)
  {
    ghost var t := EntryFirst(src, from, k);
    Neighbours(src, from);
    Unlink(entry, t);
    HeadFirst(src, from[k + 1..], from[..k]);
    assert t[1..][|from| - k - 1] == src;
    forall i | 0 <= i < |from| && i != k ensures from[i] != entry {
    }
  }

  // ---------------------------------------------------------------- questions

  /** list_empty and list_empty_careful. */
  method Empty(head: Node, ghost elems: seq<Node>) returns (empty: bool)
    requires IsList(head, elems)
    ensures empty <==> elems == []
    ensures empty <==> head.prev == head
  {
    ghost var s := [head] + elems;
    assert s[0].next == After(s, 0) && s[0].prev == Before(s, 0);
    empty := head.next == head;
  }

  /** list_is_singular. */
  method IsSingular(head: Node, ghost elems: seq<Node>) returns (singular: bool)
    requires IsList(head, elems)
    ensures singular <==> |elems| == 1
  {
    ghost var s := [head] + elems;
    assert s[0].next == After(s, 0) && s[0].prev == Before(s, 0);
    var empty := Empty(head, elems);
    singular := !empty && head.next == head.prev;
  }

  /** list_is_last. */
  method IsLast(list: Node, head: Node, ghost elems: seq<Node>, ghost k: nat) returns (last: bool)
    requires IsList(head, elems) && k < |elems| && list == elems[k]
    ensures last <==> k == |elems| - 1
  {
    ghost var s := [head] + elems;
    assert s[k + 1].next == After(s, k + 1) && s[0] == head;
    assert k + 2 < |s| ==> s[k + 2] != s[0];
    last := list.next == head;
  }

  /** list_rotate_left. */
  method RotateLeft(head: Node, ghost elems: seq<Node>)
    requires IsList(head, elems)
    modifies head, elems
    ensures IsList(head, if elems == [] then [] else elems[1..] + [elems[0]])
  {
    ghost var s := [head] + elems;
    assert s[0].next == After(s, 0) && s[0].prev == Before(s, 0);
    assert elems != [] ==> s[1].next == After(s, 1) && s[1].prev == Before(s, 1);
    var empty := Empty(head, elems);
    if !empty {
      var first := head.next;
      MoveTail(first, head, head, elems, 0, elems);
      assert RemoveAt(elems, 0) == elems[1..];
    }
  }

  // ---------------------------------------------------------------- cutting and splicing

  /** A ring, and a chain to be linked in behind its last node. */
  datatype Seam = Seam(s: seq<Node>, xs: seq<Node>)

  /** Only the pointers across the two seams have changed. */
  twostate predicate EndsLinked(p: Seam)
    requires p.s != [] && p.xs != []
    reads p.s, p.xs
  {
    var s, xs := p.s, p.xs;
    && xs[0].prev == s[|s| - 1] && s[|s| - 1].next == xs[0]
    && xs[|xs| - 1].next == s[0] && s[0].prev == xs[|xs| - 1]
    && (forall i | 0 <= i < |s| - 1 :: s[i].next == old(s[i].next))
    && (forall i | 0 < i < |s| :: s[i].prev == old(s[i].prev))
    && (forall i | 0 <= i < |xs| - 1 :: xs[i].next == old(xs[i].next))
    && (forall i | 0 < i < |xs| :: xs[i].prev == old(xs[i].prev))
  }

  /** Nodes linked to each other in order, whatever the first and the last are linked to. */
  ghost predicate Chain(s: seq<Node>)
    reads s
  {
    && NoRepeats(s)
    && (forall i | 0 <= i < |s| - 1 :: s[i].next == s[i + 1])
    && (forall i | 0 < i < |s| :: s[i].prev == s[i - 1])
  }

  /** A part of a ring is a chain. */
  lemma RingChain(r: seq<Node>, lo: nat, hi: nat)
    requires Ring(r) && lo <= hi <= |r|
    ensures Chain(r[lo..hi])
  {
    var s := r[lo..hi];
    forall i | 0 <= i < |s|
      ensures i + 1 < |s| ==> s[i].next == s[i + 1]
      ensures i > 0 ==> s[i].prev == s[i - 1]
    {
      assert s[i] == r[lo + i] && r[lo + i].next == After(r, lo + i) && r[lo + i].prev == Before(r, lo + i);
    }
  }

  /** Two chains linked at both ends are a ring. */
  lemma ChainsRing(s: seq<Node>, xs: seq<Node>)
    requires Chain(s) && Chain(xs) && s != [] && xs != []
    requires forall i, j | 0 <= i < |xs| && 0 <= j < |s| :: xs[i] != s[j]
    requires xs[0].prev == s[|s| - 1] && s[|s| - 1].next == xs[0]
    requires xs[|xs| - 1].next == s[0] && s[0].prev == xs[|xs| - 1]
    ensures Ring(s + xs)
  {
    var t := s + xs;
    forall i | 0 <= i < |t| ensures t[i].next == After(t, i) && t[i].prev == Before(t, i) {
      assert t[i] == if i < |s| then s[i] else xs[i - |s|];
    }
  }

  /** A ring and a chain become one ring when the ends of the chain are linked into the gap. */
  twostate lemma Joined(p: Seam)
    requires p.xs != [] && p.s != []
    requires old(Chain(p.s) && Chain(p.xs))
    requires forall i, j | 0 <= i < |p.xs| && 0 <= j < |p.s| :: p.xs[i] != p.s[j]
    requires EndsLinked(p)
    ensures Ring(p.s + p.xs)
  {
    ChainsRing(p.s, p.xs);
  }

  /** __list_cut_position: the elements up to and including `entry` become the list of `list`. */
  method Cut(list: Node, head: Node, entry: Node, ghost elems: seq<Node>, ghost k: nat)
    requires IsList(head, elems) && k < |elems| && entry == elems[k] && list != head && list !in elems
    modifies list, head, head.next, entry, entry.next
    ensures IsList(list, elems[..k + 1]) && IsList(head, elems[k + 1..])
  {
    ghost var s, xs, ys := [head] + elems, elems[..k + 1], elems[k + 1..];
    Neighbours(head, elems);
    assert s[k + 1].next == After(s, k + 1);
    RingChain(s, 1, k + 2);
    RingChain(s, k + 2, |s|);
    assert s[1..k + 2] == xs && s[k + 2..|s|] == ys;
    var newFirst := entry.next;
    CutChains(list, head, entry, newFirst, xs, ys);
  }

  /** The assignments of __list_cut_position. */
  method CutChains(list: Node, head: Node, entry: Node, newFirst: Node, ghost xs: seq<Node>, ghost ys: seq<Node>)
    requires Chain(xs) && Chain(ys) && xs != [] && head.next == xs[0] && entry == xs[|xs| - 1]
    requires newFirst == if ys == [] then head else ys[0]
    requires ys != [] ==> head.prev == ys[|ys| - 1] && ys[|ys| - 1].next == head
    requires list != head && list !in xs && list !in ys && head !in xs && head !in ys
    requires forall i, j | 0 <= i < |xs| && 0 <= j < |ys| :: xs[i] != ys[j]
    modifies list, head, head.next, entry, newFirst
    ensures IsList(list, xs) && IsList(head, ys)
  {
    list.next := head.next;
    list.next.prev := list;
    list.prev := entry;
    entry.next := list;
    head.next := newFirst;
    newFirst.prev := head;
    Joined(Seam([list], xs));
    if ys != [] {
      Joined(Seam([head], ys));
    } else {
      assert [head] + ys == [head];
    }
  }

  /** list_cut_position; `k` is -1 when `entry` is the head itself. Nothing is cut from an empty list,
      and then `list` is not even initialised. */
  method CutPosition(list: Node, head: Node, entry: Node, ghost elems: seq<Node>, ghost k: int)
    requires IsList(head, elems) && list != head && list !in elems
    requires -1 <= k < |elems| && entry == if k < 0 then head else elems[k]
    modifies list, head, head.next, entry, entry.next
    ensures elems == [] ==>
              list.next == old(list.next) && list.prev == old(list.prev) && IsList(head, elems)
    ensures elems != [] ==> IsList(list, elems[..k + 1]) && IsList(head, elems[k + 1..])
  {
    Neighbours(head, elems);
    var empty := Empty(head, elems);
    if empty {
      return;
    }
    var singular := IsSingular(head, elems);
    if singular && head.next != entry && head != entry {
      return;
    }
    if entry == head {
      assert k < 0;
      Init(list);
      assert [list] + elems[..k + 1] == [list] && elems[k + 1..] == elems;
    } else {
      Cut(list, head, entry, elems, k);
    }
  }

  /** The assignments of __list_splice. */
  method SpliceChains(first: Node, last: Node, prev: Node, next: Node, ghost xs: seq<Node>, ghost s: seq<Node>)
    requires Chain(s) && Chain(xs) && s != [] && xs != []
    requires first == xs[0] && last == xs[|xs| - 1] && next == s[0] && prev == s[|s| - 1]
    requires forall i, j | 0 <= i < |xs| && 0 <= j < |s| :: xs[i] != s[j]
    modifies first, last, prev, next
    ensures Ring(s + xs)
  {
    first.prev := prev;
    prev.next := first;
    last.next := next;
    next.prev := last;
    Joined(Seam(s, xs));
  }

  /** __list_splice, between the last and the first node of the ring `s`; the spliced head keeps its
      pointers. */
  method SpliceBetween(list: Node, prev: Node, next: Node, ghost xs: seq<Node>, ghost s: seq<Node>)
    requires IsList(list, xs) && xs != [] && Ring(s) && next == s[0] && prev == s[|s| - 1]
    requires list !in s && forall i, j | 0 <= i < |xs| && 0 <= j < |s| :: xs[i] != s[j]
    modifies list.next, list.prev, prev, next
    ensures Ring(s + xs)
    ensures list.next == old(list.next) && list.prev == old(list.prev)
  {
    Neighbours(list, xs);
    ghost var r := [list] + xs;
    RingChain(s, 0, |s|);
    RingChain(r, 1, |r|);
    assert s[0..|s|] == s && r[1..|r|] == xs;
    SpliceChains(list.next, list.prev, prev, next, xs, s);
  }

  /** list_splice. */
  method Splice(list: Node, head: Node, ghost xs: seq<Node>, ghost elems: seq<Node>)
    requires IsList(list, xs) && IsList(head, elems) && Separate(list, xs, head, elems)
    modifies list.next, list.prev, head, head.next
    ensures IsList(head, xs + elems)
    ensures list.next == old(list.next) && list.prev == old(list.prev)
  {
    Neighbours(head, elems);
    Neighbours(list, xs);
    var empty := Empty(list, xs);
    if !empty {
      HeadLast(head, elems);
      SpliceBetween(list, head, head.next, xs, elems + [head]);
      assert elems + [head] + xs == elems + ([head] + xs);
      HeadFirst(head, elems, xs);
    } else {
      assert xs + elems == elems;
    }
  }

  /** list_splice_tail. */
  method SpliceTail(list: Node, head: Node, ghost xs: seq<Node>, ghost elems: seq<Node>)
    requires IsList(list, xs) && IsList(head, elems) && Separate(list, xs, head, elems)
    modifies list.next, list.prev, head, head.prev
    ensures IsList(head, elems + xs)
    ensures list.next == old(list.next) && list.prev == old(list.prev)
  {
    Neighbours(head, elems);
    Neighbours(list, xs);
    var empty := Empty(list, xs);
    if !empty {
      SpliceBetween(list, head.prev, head, xs, [head] + elems);
      assert [head] + elems + xs == [head] + (elems + xs);
    } else {
      assert elems + xs == elems;
    }
  }

  /** list_splice_init. */
  method SpliceInit(list: Node, head: Node, ghost xs: seq<Node>, ghost elems: seq<Node>)
    requires IsList(list, xs) && IsList(head, elems) && Separate(list, xs, head, elems)
    modifies list, list.next, list.prev, head, head.next
    ensures IsList(head, xs + elems) && IsList(list, [])
  {
    Neighbours(list, xs);
    var empty := Empty(list, xs);
    Splice(list, head, xs, elems);
    if !empty {
      label Spliced:
      Init(list);
      Undisturbed@Spliced([head] + (xs + elems));
    }
  }

  /** list_splice_tail_init. */
  method SpliceTailInit(list: Node, head: Node, ghost xs: seq<Node>, ghost elems: seq<Node>)
    requires IsList(list, xs) && IsList(head, elems) && Separate(list, xs, head, elems)
    modifies list, list.next, list.prev, head, head.prev
    ensures IsList(head, elems + xs) && IsList(list, [])
  {
    Neighbours(list, xs);
    var empty := Empty(list, xs);
    SpliceTail(list, head, xs, elems);
    if !empty {
      label Spliced:
      Init(list);
      Undisturbed@Spliced([head] + (elems + xs));
    }
  }

  /** Cutting a list and splicing the piece back onto the same head restores it exactly, whatever `list`
      held before, unless there was nothing to cut: then what `list` held is spliced in. */
  method CutAndSpliceBack(list: Node, head: Node, entry: Node, ghost elems: seq<Node>, ghost k: int,
                          ghost held: seq<Node>)
    requires IsList(head, elems) && IsList(list, held) && Separate(list, held, head, elems)
    requires -1 <= k < |elems| && entry == if k < 0 then head else elems[k]
    modifies list, head, elems, held
    ensures IsList(head, if elems == [] then held else elems)
    ensures elems != [] ==> forall i | 0 <= i < |elems| ::
              elems[i].next == old(elems[i].next) && elems[i].prev == old(elems[i].prev)
  {
    ghost var piece, rest := CutAny(list, head, entry, elems, k, held);
    SpliceAny(list, head, piece, rest);
    if elems != [] {
      SameElements(Listing(head, elems));
    }
  }

  /** Cutting, together with what is then on the two lists. */
  method CutAny(list: Node, head: Node, entry: Node, ghost elems: seq<Node>, ghost k: int, ghost held: seq<Node>)
    returns (ghost piece: seq<Node>, ghost rest: seq<Node>)
    requires IsList(head, elems) && IsList(list, held) && Separate(list, held, head, elems)
    requires -1 <= k < |elems| && entry == if k < 0 then head else elems[k]
    modifies list, head, elems
    ensures IsList(list, piece) && IsList(head, rest) && Separate(list, piece, head, rest)
    ensures piece + rest == if elems == [] then held else elems
    ensures forall i | 0 <= i < |piece| :: piece[i] in held || piece[i] in elems
    ensures forall i | 0 <= i < |rest| :: rest[i] in elems
  {
    Neighbours(head, elems);
    Neighbours(list, held);
    assert entry.next in [head] + elems by {
      assert ([head] + elems)[k + 1].next == After([head] + elems, k + 1);
    }
    CutPosition(list, head, entry, elems, k);
    piece := if elems == [] then held else elems[..k + 1];
    rest := elems[k + 1..];
    if elems == [] {
      Undisturbed([list] + held);
    }
  }

  method SpliceAny(list: Node, head: Node, ghost xs: seq<Node>, ghost elems: seq<Node>)
    requires IsList(list, xs) && IsList(head, elems) && Separate(list, xs, head, elems)
    modifies list, head, xs, elems
    ensures IsList(head, xs + elems)
  {
    Neighbours(list, xs);
    Neighbours(head, elems);
    Splice(list, head, xs, elems);
  }

  datatype Listing = Listing(head: Node, elems: seq<Node>)

  twostate lemma SameElements(l: Listing)
    requires old(IsList(l.head, l.elems)) && IsList(l.head, l.elems)
    ensures forall i | 0 <= i < |l.elems| ::
              l.elems[i].next == old(l.elems[i].next) && l.elems[i].prev == old(l.elems[i].prev)
  {
    var s := [l.head] + l.elems;
    SamePointers(s);
    assert forall i | 0 <= i < |l.elems| :: s[i + 1] == l.elems[i];
  }

  // ---------------------------------------------------------------- walking

  /** What the body of a loop does with the current element. */
  datatype Verdict = Keep | Remove | MoveAway

  function Selected(elems: seq<Node>, decide: nat -> Verdict, v: Verdict): seq<Node> {
    if elems == [] then []
    else
      var n := |elems| - 1;
      Selected(elems[..n], decide, v) + if decide(n) == v then [elems[n]] else []
  }

  lemma {:induction false} SelectedFrom(elems: seq<Node>, decide: nat -> Verdict, v: Verdict)
    ensures forall n | n in Selected(elems, decide, v) :: n in elems
  {
    if elems != [] {
      SelectedFrom(elems[..|elems| - 1], decide, v);
    }
  }

  /** The body of the loop. */
  method Treat(pos: Node, v: Verdict, head: Node, ghost now: seq<Node>, ghost m: nat,
               other: Node, ghost moved: seq<Node>, ghost nodes: set<Node>)
    requires IsList(head, now) && m < |now| && pos == now[m]
    requires IsList(other, moved) && Separate(head, now, other, moved)
    requires head in nodes && other in nodes && forall x | x in now || x in moved :: x in nodes
    modifies nodes
    ensures IsList(head, if v.Keep? then now else RemoveAt(now, m))
    ensures IsList(other, if v.MoveAway? then moved + [pos] else moved)
  {
    match v {
      case Keep =>
      case Remove =>
        ghost var s := [head] + now;
        assert s[m + 1].next == After(s, m + 1) && s[m + 1].prev == Before(s, m + 1);
        Delete(pos, head, now, m);
        Undisturbed([other] + moved);
      case MoveAway =>
        MoveTail(pos, other, head, now, m, moved);
    }
  }

  /** Taking element `m` out of one list, and perhaps adding it to the other, keeps them separate. */
  lemma StaySeparate(v: Verdict, head: Node, now: seq<Node>, m: nat, other: Node, moved: seq<Node>)
    requires Separate(head, now, other, moved) && IsList(head, now) && m < |now|
    ensures Separate(head, if v.Keep? then now else RemoveAt(now, m),
                     other, if v.MoveAway? then moved + [now[m]] else moved)
  {
    Neighbours(head, now);
  }

  lemma NextInList(head: Node, elems: seq<Node>, k: nat)
    requires IsList(head, elems) && k < |elems|
    ensures elems[k].next == if k + 1 < |elems| then elems[k + 1] else head
  {
    var s := [head] + elems;
    assert s[k + 1].next == After(s, k + 1);
  }

  /** The sequences of a walk after `i` elements: what the list holds and what the other list holds. */
  function NowHere(elems: seq<Node>, decide: nat -> Verdict, i: nat): seq<Node>
    requires i <= |elems|
  {
    Selected(elems[..i], decide, Keep) + elems[i..]
  }

  function NowThere(elems: seq<Node>, decide: nat -> Verdict, i: nat, there: seq<Node>): seq<Node>
    requires i <= |elems|
  {
    there + Selected(elems[..i], decide, MoveAway)
  }

  /** One element further. */
  lemma WalkOn(elems: seq<Node>, decide: nat -> Verdict, i: nat, there: seq<Node>)
    requires i < |elems|
    ensures var m := |Selected(elems[..i], decide, Keep)|;
            var now := NowHere(elems, decide, i);
            && m < |now| && now[m] == elems[i]
            && NowHere(elems, decide, i + 1) == (if decide(i).Keep? then now else RemoveAt(now, m))
            && NowThere(elems, decide, i + 1, there) ==
               (if decide(i).MoveAway? then NowThere(elems, decide, i, there) + [elems[i]]
                else NowThere(elems, decide, i, there))
  {
    assert elems[..i + 1][..i] == elems[..i] && elems[..i + 1][i] == elems[i];
    var now := NowHere(elems, decide, i);
    var m := |Selected(elems[..i], decide, Keep)|;
    assert RemoveAt(now, m) == Selected(elems[..i], decide, Keep) + elems[i + 1..];
    assert elems[i..] == [elems[i]] + elems[i + 1..];
  }

  lemma WalkMembers(elems: seq<Node>, decide: nat -> Verdict, i: nat, there: seq<Node>, nodes: set<Node>)
    requires i <= |elems| && forall x | x in elems || x in there :: x in nodes
    ensures forall x | x in NowHere(elems, decide, i) :: x in nodes
    ensures forall x | x in NowThere(elems, decide, i, there) :: x in nodes
  {
    SelectedFrom(elems[..i], decide, Keep);
    SelectedFrom(elems[..i], decide, MoveAway);
  }

  /** A walk over the list of `head` that has come to element `i`. */
  datatype Walk = Walk(head: Node, elems: seq<Node>, decide: nat -> Verdict,
                       other: Node, there: seq<Node>, i: nat)

  ghost predicate Walking(w: Walk)
    reads *
  {
    && w.i <= |w.elems|
    && IsList(w.head, NowHere(w.elems, w.decide, w.i))
    && IsList(w.other, NowThere(w.elems, w.decide, w.i, w.there))
    && Separate(w.head, NowHere(w.elems, w.decide, w.i),
                w.other, NowThere(w.elems, w.decide, w.i, w.there))
  }

  lemma WalkStart(head: Node, elems: seq<Node>, decide: nat -> Verdict, other: Node, there: seq<Node>)
    requires IsList(head, elems) && IsList(other, there) && Separate(head, elems, other, there)
    ensures Walking(Walk(head, elems, decide, other, there, 0))
  {
    assert elems == NowHere(elems, decide, 0) && there == NowThere(elems, decide, 0, there);
  }

  lemma WalkEnd(head: Node, elems: seq<Node>, decide: nat -> Verdict, other: Node, there: seq<Node>)
    requires Walking(Walk(head, elems, decide, other, there, |elems|))
    ensures IsList(head, Selected(elems, decide, Keep))
    ensures IsList(other, there + Selected(elems, decide, MoveAway))
  {
    assert elems[..|elems|] == elems && elems[|elems|..] == [];
    assert NowHere(elems, decide, |elems|) == Selected(elems, decide, Keep);
  }

  lemma NextOnWalk(w: Walk)
    requires Walking(w)
    ensures w.i < |w.elems| ==>
              w.elems[w.i].next == if w.i + 1 < |w.elems| then w.elems[w.i + 1] else w.head
  {
    if w.i < |w.elems| {
      var m := |Selected(w.elems[..w.i], w.decide, Keep)|;
      var now := NowHere(w.elems, w.decide, w.i);
      assert now[m] == w.elems[w.i] && |now| - m == |w.elems| - w.i;
      assert w.i + 1 < |w.elems| ==> now[m + 1] == w.elems[w.i + 1];
      NextInList(w.head, now, m);
    }
  }

  /** One turn of the loop. */
  method Visit(pos: Node, v: Verdict, head: Node, other: Node, ghost w: Walk, ghost nodes: set<Node>)
    requires Walking(w) && w.i < |w.elems| && pos == w.elems[w.i] && v == w.decide(w.i)
    requires head == w.head && other == w.other && head in nodes && other in nodes
    requires forall x | x in w.elems || x in w.there :: x in nodes
    modifies nodes
    ensures Walking(w.(i := w.i + 1))
    ensures w.i + 1 < |w.elems| ==>
              w.elems[w.i + 1].next == if w.i + 2 < |w.elems| then w.elems[w.i + 2] else w.head
  {
    ghost var now := NowHere(w.elems, w.decide, w.i);
    ghost var moved := NowThere(w.elems, w.decide, w.i, w.there);
    ghost var m := |Selected(w.elems[..w.i], w.decide, Keep)|;
    WalkOn(w.elems, w.decide, w.i, w.there);
    WalkMembers(w.elems, w.decide, w.i, w.there, nodes);
    StaySeparate(v, head, now, m, other, moved);
    Treat(pos, v, head, now, m, other, moved, nodes);
    NextOnWalk(w.(i := w.i + 1));
  }

  /** list_for_each_entry_safe, with a body that keeps the current element, deletes it or moves it to
      the end of another list. Every element there was at the start is visited once, in order. */
  method ForEachSafe(head: Node, ghost elems: seq<Node>, decide: nat -> Verdict,
                     other: Node, ghost there: seq<Node>, ghost nodes: set<Node>)
    returns (visited: seq<Node>)
    requires IsList(head, elems) && IsList(other, there) && Separate(head, elems, other, there)
    requires head in nodes && other in nodes && forall x | x in elems || x in there :: x in nodes
    modifies nodes
    ensures visited == elems
    ensures IsList(head, Selected(elems, decide, Keep))
    ensures IsList(other, there + Selected(elems, decide, MoveAway))
  {
    Neighbours(head, elems);
    var pos := head.next;
    if elems != [] {
      NextInList(head, elems, 0);
    }
    var n := pos.next;
    visited := [];
    ghost var i := 0;
    WalkStart(head, elems, decide, other, there);
    while pos != head
      invariant i <= |elems| && visited == elems[..i]
      invariant Walking(Walk(head, elems, decide, other, there, i))
      invariant pos == if i < |elems| then elems[i] else head
      invariant i < |elems| ==> n == if i + 1 < |elems| then elems[i + 1] else head
      decreases |elems| - i
    {
      Visit(pos, decide(|visited|), head, other, Walk(head, elems, decide, other, there, i), nodes);
      visited := visited + [pos];
      i := i + 1;
      pos := n;
      n := n.next;
    }
    WalkEnd(head, elems, decide, other, there);
  }
}
