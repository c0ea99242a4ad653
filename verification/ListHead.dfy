/** The intrusive circular doubly linked list of include/list.h.

    A `Node` is a `struct list_head`.  A ring of nodes is described by the sequence of its
    members in `next` order, starting anywhere; a list with head `h` and entries `s` is the
    ring `[h] + s`.  Every mutator rewrites the links in the order the source does, and its
    contract says which sequence operation that amounts to.  A poisoned link is `null`: the
    verifier then rules out that anybody follows it. */
module ListHead {

  class Node {
    var next: Node?
    var prev: Node?

    constructor ()
      ensures next == null && prev == null
    {
      next, prev := null, null;
    }
  }

  // ---------------------------------------------------------------- representation

  ghost predicate Ring(r: seq<Node>)
    reads r
  {
    && |r| > 0
    && (forall i, j :: 0 <= i < j < |r| ==> r[i] != r[j])
    && (forall i {:trigger r[i].next} :: 0 <= i < |r| - 1 ==> r[i].next == r[i + 1])
    && (forall i {:trigger r[i].prev} :: 1 <= i < |r| ==> r[i].prev == r[i - 1])
    && r[|r| - 1].next == r[0]
    && r[0].prev == r[|r| - 1]
  }

  /** `head` heads a well-formed list whose entries are exactly `s`, in order. */
  ghost predicate ListOf(head: Node, s: seq<Node>)
    reads head, s
  {
    Ring([head] + s)
  }

  /** The lists at `h` and `g` share no node. */
  ghost predicate Apart(h: Node, s: seq<Node>, g: Node, t: seq<Node>) {
    h != g && h !in t && g !in s && forall n | n in s :: n !in t
  }

  function RemoveAt<T>(s: seq<T>, i: nat): (r: seq<T>)
    requires i < |s|
  {
    s[..i] + s[i + 1..]
  }

  /** A ring has no distinguished start. */
  lemma RotateRing(a: seq<Node>, b: seq<Node>)
    requires Ring(a + b)
    ensures Ring(b + a)
  {
    var r, q := a + b, b + a;
    assert forall i :: 0 <= i < |b| ==> q[i] == r[i + |a|];
    assert forall i :: |b| <= i < |q| ==> q[i] == r[i - |b|];
  }

  /** The heap determines the sequence: a head heads at most one list. */
  lemma ListIsUnique(head: Node, s: seq<Node>, t: seq<Node>)
    requires ListOf(head, s) && ListOf(head, t)
    ensures s == t
  {
    var r, q := [head] + s, [head] + t;
    if |r| <= |q| {
      SamePrefix(r, q, |r|);
    } else {
      SamePrefix(q, r, |q|);
    }
    assert r == q;
    assert s == r[1..] && t == q[1..];
  }

  lemma {:induction false} SamePrefix(r: seq<Node>, q: seq<Node>, n: nat)
    requires Ring(r) && Ring(q) && r[0] == q[0]
    requires 1 <= n <= |r| <= |q|
    ensures forall i :: 0 <= i < n ==> r[i] == q[i]
    ensures n == |r| ==> |r| == |q|
  {
    if n > 1 {
      SamePrefix(r, q, n - 1);
      assert r[n - 2].next == r[n - 1] && q[n - 2].next == q[n - 1];
    }
    if n == |r| {
      assert r[n - 1].next == q[0];
    }
  }

  /** Two states in which the same ring is well formed agree on every link of it. */
  twostate lemma SameRingSameLinks(r: seq<Node>)
    requires old(Ring(r)) && Ring(r)
    ensures forall n :: n in r ==> n.next == old(n.next) && n.prev == old(n.prev)
  {
    forall i | 0 <= i < |r| ensures r[i].next == old(r[i].next) && r[i].prev == old(r[i].prev) {
    }
  }

  twostate lemma SameLinksSameRing(r: seq<Node>)
    requires old(Ring(r))
    requires forall n | n in r :: n.next == old(n.next) && n.prev == old(n.prev)
    ensures Ring(r)
  {
    assert forall i :: 0 <= i < |r| ==> r[i] in r;
  }

  lemma EntriesDistinct(head: Node, s: seq<Node>)
    requires ListOf(head, s)
    ensures head !in s
    ensures forall i, j :: 0 <= i < j < |s| ==> s[i] != s[j]
  {
    var r := [head] + s;
    assert r[0] == head;
    assert forall j :: 0 <= j < |s| ==> r[j + 1] == s[j];
  }

  lemma EntryLinks(head: Node, s: seq<Node>)
    requires ListOf(head, s)
    ensures forall i {:trigger s[i].next} :: 0 <= i < |s| ==> s[i].next == if i + 1 < |s| then s[i + 1] else head
    ensures forall i {:trigger s[i].prev} :: 0 <= i < |s| ==> s[i].prev == if i > 0 then s[i - 1] else head
    ensures head.next == if s == [] then head else s[0]
    ensures head.prev == if s == [] then head else s[|s| - 1]
  {
    var r := [head] + s;
    assert r[0] == head;
    assert forall j :: 0 <= j < |s| ==> r[j + 1] == s[j];
  }

  // ---------------------------------------------------------------- single entries

  /** INIT_LIST_HEAD: whatever `list` was, it becomes an empty list. */
  method Init(list: Node)
    modifies list
    ensures ListOf(list, [])
  {
    list.next := list;
    list.prev := list;
  }

  /** __list_add, at the seam of the ring `r`. */
  method AddBetween(n: Node, prev: Node, next: Node, ghost r: seq<Node>)
    requires Ring(r) && next == r[0] && prev == r[|r| - 1]
    requires n !in r
    modifies n, prev`next, next`prev
    ensures Ring(r + [n])
  {
    next.prev := n;
    n.next := next;
    n.prev := prev;
    prev.next := n;
  }

  method Add(n: Node, head: Node, ghost s: seq<Node>)
    requires ListOf(head, s)
    requires n !in [head] + s
    modifies n, head, s
    ensures ListOf(head, [n] + s)
  {
    RotateRing([head], s);
    assert (s + [head])[0] == head.next by { assert ([head] + s)[0] == head; }
    AddBetween(n, head, head.next, s + [head]);
    assert s + [head] + [n] == s + ([head] + [n]);
    RotateRing(s, [head] + [n]);
    assert [head] + [n] + s == [head] + ([n] + s);
  }

  method AddTail(n: Node, head: Node, ghost s: seq<Node>)
    requires ListOf(head, s)
    requires n !in [head] + s
    modifies n, head, s
    ensures ListOf(head, s + [n])
  {
    assert ([head] + s)[0] == head;
    AddBetween(n, head.prev, head, [head] + s);
    assert [head] + s + [n] == [head] + (s + [n]);
  }

  /** __list_del, at the seam of the ring `r + [e]`: `e` itself is not written. */
  method Unlink(prev: Node, next: Node, ghost e: Node, ghost r: seq<Node>)
    requires r != [] && Ring(r + [e]) && prev == r[|r| - 1] && next == r[0]
    modifies prev`next, next`prev
    ensures Ring(r)
    ensures e.next == old(e.next) && e.prev == old(e.prev)
  {
    assert (r + [e])[|r|] == e;
    next.prev := prev;
    prev.next := next;
    assert forall i :: 0 <= i < |r| ==> r[i] == (r + [e])[i];
  }

  /** Brings entry `i` of a list to the seam of its ring. */
  lemma EntryToSeam(head: Node, s: seq<Node>, i: nat)
    requires ListOf(head, s) && i < |s|
    ensures Ring(s[i + 1..] + [head] + s[..i] + [s[i]])
    ensures s[i].next == (s[i + 1..] + [head])[0]
    ensures s[i].prev == ([head] + s[..i])[i]
  {
    var a, b := [head] + s[..i] + [s[i]], s[i + 1..];
    assert [head] + s == a + b;
    RotateRing(a, b);
    assert b + a == s[i + 1..] + [head] + s[..i] + [s[i]];
    assert ([head] + s)[i + 1] == s[i];
  }

  /** __list_del_entry: entry `i` leaves the list, keeping its own stale links. */
  method DelEntry(e: Node, ghost head: Node, ghost s: seq<Node>, ghost i: nat)
    requires ListOf(head, s) && i < |s| && s[i] == e
    modifies head, s
    ensures ListOf(head, RemoveAt(s, i))
    ensures e.next == old(e.next) && e.prev == old(e.prev)
  {
    ghost var a, b := [head] + s[..i], s[i + 1..];
    EntryToSeam(head, s, i);
    assert s[i + 1..] + [head] + s[..i] + [s[i]] == (b + a) + [e];
    Unlink(e.prev, e.next, e, b + a);
    RotateRing(b, a);
    assert a + b == [head] + RemoveAt(s, i);
  }

  /** list_del: as DelEntry, and the entry is poisoned. */
  method Del(e: Node, ghost head: Node, ghost s: seq<Node>, ghost i: nat)
    requires ListOf(head, s) && i < |s| && s[i] == e
    modifies head, s
    ensures ListOf(head, RemoveAt(s, i))
    ensures e.next == null && e.prev == null
  {
    Removed(head, s, i);
    DelEntry(e, head, s, i);
    assert e !in RemoveAt(s, i) && e != head by { assert forall n :: n in [head] + RemoveAt(s, i) ==> n != e; }
    e.next := null;
    e.prev := null;
  }

  lemma Removed(head: Node, s: seq<Node>, i: nat)
    requires ListOf(head, s) && i < |s|
    ensures s[i] !in [head] + RemoveAt(s, i)
    ensures forall n :: n in RemoveAt(s, i) ==> n in s
    ensures forall n :: n in s && n != s[i] ==> n in RemoveAt(s, i)
  {
    var r, q := [head] + s, RemoveAt(s, i);
    var p := [head] + q;
    assert r[i + 1] == s[i];
    forall j | 0 <= j < |p| ensures p[j] != s[i] {
      assert p[j] == r[if j <= i then j else j + 1];
    }
    forall n | n in s && n != s[i] ensures n in q {
      var j :| 0 <= j < |s| && s[j] == n;
      assert n == q[if j < i then j else j - 1];
    }
  }

  /** list_replace: `n` takes the place of `o`, wherever `o` stands in its ring; it may be `o` itself.
      When the ring is `o` alone (an empty head) the result is `n` alone. */
  method Replace(o: Node, n: Node, ghost r: seq<Node>, ghost i: nat)
    requires Ring(r) && i < |r| && r[i] == o
    requires n !in r || n == o
    modifies n, r
    ensures Ring(r[i := n])
    ensures |r| > 1 ==> o.next == old(o.next) && o.prev == old(o.prev)
  {
    n.next := o.next;
    n.next.prev := n;
    n.prev := o.prev;
    n.prev.next := n;
  }

  method ReplaceInit(o: Node, n: Node, ghost r: seq<Node>, ghost i: nat)
    requires Ring(r) && i < |r| && r[i] == o
    requires n !in r
    modifies n, r
    ensures Ring(r[i := n]) && ListOf(o, [])
  {
    Replace(o, n, r, i);
    Init(o);
  }

  method DelInit(e: Node, ghost head: Node, ghost s: seq<Node>, ghost i: nat)
    requires ListOf(head, s) && i < |s| && s[i] == e
    modifies head, s
    ensures ListOf(head, RemoveAt(s, i)) && ListOf(e, [])
  {
    Removed(head, s, i);
    DelEntry(e, head, s, i);
    assert e !in RemoveAt(s, i) && e != head by { assert forall n :: n in [head] + RemoveAt(s, i) ==> n != e; }
    Init(e);
  }

  /** What list_move and list_move_tail begin with: the entry leaves its list, and whichever list it
      is bound for is well formed without it. */
  method Detach(e: Node, ghost head: Node, ghost h: Node, ghost s: seq<Node>, ghost i: nat, ghost t: seq<Node>)
    returns (ghost target: seq<Node>)
    requires ListOf(h, s) && i < |s| && s[i] == e
    requires ListOf(head, t)
    requires (head == h && t == s) || Apart(head, t, h, s)
    modifies h, s
    ensures target == if head == h then RemoveAt(s, i) else t
    ensures ListOf(h, RemoveAt(s, i)) && ListOf(head, target) && e !in [head] + target
    ensures forall n :: n in [h] + RemoveAt(s, i) ==> n in [h] + s && n != e
  {
    Removed(h, s, i);
    DelEntry(e, h, s, i);
    target := if head == h then RemoveAt(s, i) else t;
    if head != h {
      SameLinksSameRing([head] + t);
    }
  }

  /** list_move: entry `i` of the list at `h` goes to the front of the list at `head`, which is
      the same list or a disjoint one. */
  method Move(e: Node, head: Node, ghost h: Node, ghost s: seq<Node>, ghost i: nat, ghost t: seq<Node>)
    requires ListOf(h, s) && i < |s| && s[i] == e
    requires ListOf(head, t)
    requires (head == h && t == s) || Apart(head, t, h, s)
    modifies h, s, head, t
    ensures head == h ==> ListOf(head, [e] + RemoveAt(s, i))
    ensures head != h ==> ListOf(h, RemoveAt(s, i)) && ListOf(head, [e] + t)
  {
    ghost var target := Detach(e, head, h, s, i, t);
    label detached:
    Add(e, head, target);
    if head != h {
      SameLinksSameRing@detached([h] + RemoveAt(s, i));
    }
  }

  method MoveTail(e: Node, head: Node, ghost h: Node, ghost s: seq<Node>, ghost i: nat, ghost t: seq<Node>)
    requires ListOf(h, s) && i < |s| && s[i] == e
    requires ListOf(head, t)
    requires (head == h && t == s) || Apart(head, t, h, s)
    modifies h, s, head, t
    ensures head == h ==> ListOf(head, RemoveAt(s, i) + [e])
    ensures head != h ==> ListOf(h, RemoveAt(s, i)) && ListOf(head, t + [e])
  {
    ghost var target := Detach(e, head, h, s, i, t);
    label detached:
    AddTail(e, head, target);
    if head != h {
      SameLinksSameRing@detached([h] + RemoveAt(s, i));
    }
  }

  // ---------------------------------------------------------------- tests

  method IsLast(list: Node, head: Node, ghost s: seq<Node>) returns (b: bool)
    requires ListOf(head, s) && list in s
    ensures b <==> list == s[|s| - 1]
  {
    assert forall i :: 0 <= i < |s| ==> ([head] + s)[i + 1] == s[i];
    b := list.next == head;
  }

  method IsEmpty(head: Node, ghost s: seq<Node>) returns (b: bool)
    requires ListOf(head, s)
    ensures b <==> s == []
  {
    assert ([head] + s)[0] == head;
    b := head.next == head;
  }

  method IsSingular(head: Node, ghost s: seq<Node>) returns (b: bool)
    requires ListOf(head, s)
    ensures b <==> |s| == 1
  {
    assert ([head] + s)[0] == head;
    var empty := IsEmpty(head, s);
    b := !empty && head.next == head.prev;
  }

  // ---------------------------------------------------------------- rotation

  function Rotated<T>(s: seq<T>): (r: seq<T>) {
    if s == [] then [] else s[1..] + [s[0]]
  }

  function RotatedTimes<T>(s: seq<T>, n: nat): (r: seq<T>)
    decreases n
  {
    if n == 0 then s else RotatedTimes(Rotated(s), n - 1)
  }

  method RotateLeft(head: Node, ghost s: seq<Node>)
    requires ListOf(head, s)
    modifies head, s
    ensures ListOf(head, Rotated(s))
  {
    var empty := IsEmpty(head, s);
    if !empty {
      assert ([head] + s)[0] == head;
      var first := head.next;
      MoveTail(first, head, head, s, 0, s);
      assert RemoveAt(s, 0) + [first] == Rotated(s);
    }
  }

  lemma {:induction false} RotatedTimesIsSplit<T>(s: seq<T>, n: nat)
    requires n <= |s|
    ensures RotatedTimes(s, n) == s[n..] + s[..n]
    decreases n
  {
    if n > 0 {
      var t := Rotated(s);
      RotatedTimesIsSplit(t, n - 1);
      assert t[n - 1..] + t[..n - 1] == s[n..] + s[..n];
    }
  }

  /** Rotating a list once per entry gives the list back. */
  lemma FullTurnIsIdentity<T>(s: seq<T>)
    ensures RotatedTimes(s, |s|) == s
  {
    RotatedTimesIsSplit(s, |s|);
  }

  /** ... on the heap: as many calls as there are entries restore the list, link by link. */
  method FullTurn(head: Node, n: nat, ghost s: seq<Node>)
    requires ListOf(head, s) && n == |s|
    modifies head, s
    ensures ListOf(head, s)
    ensures forall m :: m in [head] + s ==> m.next == old(m.next) && m.prev == old(m.prev)
  {
    assert s[0..] + s[..0] == s;
    for i := 0 to n
      invariant ListOf(head, s[i..] + s[..i])
    {
      ghost var t := s[i..] + s[..i];
      assert forall k :: 0 <= k < |t| ==> t[k] in s;
      RotateLeft(head, t);
      assert Rotated(t) == s[i + 1..] + s[..i + 1];
    }
    assert s[n..] + s[..n] == s;
    SameRingSameLinks([head] + s);
  }

  // ---------------------------------------------------------------- cutting and splicing

  /** __list_cut_position */
  method CutAfter(list: Node, head: Node, entry: Node, ghost s: seq<Node>, ghost i: nat)
    requires ListOf(head, s) && i < |s| && s[i] == entry
    requires list !in [head] + s
    modifies list, head, s
    ensures ListOf(list, s[..i + 1]) && ListOf(head, s[i + 1..])
  {
    EntriesDistinct(head, s);
    EntryLinks(head, s);
    assert list != head && list !in s by { assert forall n | n in s :: n in [head] + s; }
    var newFirst := entry.next;
    list.next := head.next;
    list.next.prev := list;
    list.prev := entry;
    entry.next := list;
    head.next := newFirst;
    newFirst.prev := head;
    RingFromLinks(list, s[..i + 1]);
    RingFromLinks(head, s[i + 1..]);
  }

  /** The converse of EntryLinks and EntriesDistinct. */
  lemma RingFromLinks(head: Node, s: seq<Node>)
    requires head !in s && forall i, j :: 0 <= i < j < |s| ==> s[i] != s[j]
    requires forall i {:trigger s[i].next} :: 0 <= i < |s| ==> s[i].next == if i + 1 < |s| then s[i + 1] else head
    requires forall i {:trigger s[i].prev} :: 0 <= i < |s| ==> s[i].prev == if i > 0 then s[i - 1] else head
    requires head.next == if s == [] then head else s[0]
    requires head.prev == if s == [] then head else s[|s| - 1]
    ensures ListOf(head, s)
  {
    var r := [head] + s;
    assert forall i :: 1 <= i < |r| ==> r[i] == s[i - 1];
  }

  /** list_cut_position: the entries up to and including `entry` move from `head` to `list`.
      An empty list, and a singleton cut at a stranger, are left alone. */
  method CutPosition(list: Node, head: Node, entry: Node, ghost s: seq<Node>, ghost i: nat)
    requires ListOf(head, s)
    requires list !in [head] + s
    requires entry in s || entry == head || |s| <= 1
    requires entry in s ==> i < |s| && s[i] == entry
    modifies list, head, s
    ensures entry in s ==> ListOf(list, s[..i + 1]) && ListOf(head, s[i + 1..])
    ensures entry !in s ==> ListOf(head, s)
    ensures entry == head && s != [] ==> ListOf(list, [])
    ensures s == [] || (entry !in s && entry != head) ==> unchanged(list)
  {
    var empty := IsEmpty(head, s);
    if empty {
      return;
    }
    assert ([head] + s)[0] == head && ([head] + s)[1] == s[0];
    assert head !in s by { EntriesDistinct(head, s); }
    var singular := IsSingular(head, s);
    if singular && head.next != entry && head != entry {
      return;
    }
    if entry == head {
      Init(list);
    } else {
      CutAfter(list, head, entry, s, i);
    }
  }

  /** __list_splice, at the seam of the ring `r`: the entries of `list` go between `prev` and
      `next`, and `list` itself is not written. */
  method SpliceBetween(list: Node, prev: Node, next: Node, ghost s: seq<Node>, ghost r: seq<Node>)
    requires ListOf(list, s) && s != []
    requires Ring(r) && next == r[0] && prev == r[|r| - 1]
    requires list !in r && forall n | n in s :: n !in r
    modifies s, prev`next, next`prev
    ensures Ring(r + s)
    ensures unchanged(list)
  {
    assert ([list] + s)[0] == list;
    EntriesDistinct(list, s);
    EntryLinks(list, s);
    ghost var q, m := r + s, |r|;
    assert forall k :: 0 <= k < m ==> q[k] == r[k] && r[k] in r;
    assert forall k :: m <= k < |q| ==> q[k] == s[k - m] && s[k - m] in s;
    var first := list.next;
    var last := list.prev;
    first.prev := prev;
    prev.next := first;
    last.next := next;
    next.prev := last;
    forall i {:trigger q[i].next} | 0 <= i < |q| - 1 ensures q[i].next == q[i + 1] {
      if i < m - 1 {
        assert r[i].next == r[i + 1];
      } else if i >= m {
        assert s[i - m].next == s[i - m + 1];
      }
    }
    forall i {:trigger q[i].prev} | 1 <= i < |q| ensures q[i].prev == q[i - 1] {
      if i < m {
        assert r[i].prev == r[i - 1];
      } else if i > m {
        assert s[i - m].prev == s[i - m - 1];
      }
    }
  }

  method Splice(list: Node, head: Node, ghost s: seq<Node>, ghost t: seq<Node>)
    requires ListOf(list, s) && ListOf(head, t)
    requires Apart(list, s, head, t)
    modifies s, head, t
    ensures ListOf(head, s + t)
    ensures unchanged(list)
  {
    var empty := IsEmpty(list, s);
    if !empty {
      assert ([head] + t)[0] == head;
      RotateRing([head], t);
      SpliceBetween(list, head, head.next, s, t + [head]);
      assert t + [head] + s == t + ([head] + s);
      RotateRing(t, [head] + s);
      assert [head] + s + t == [head] + (s + t);
    } else {
      assert s + t == t;
    }
  }

  method SpliceTail(list: Node, head: Node, ghost s: seq<Node>, ghost t: seq<Node>)
    requires ListOf(list, s) && ListOf(head, t)
    requires Apart(list, s, head, t)
    modifies s, head, t
    ensures ListOf(head, t + s)
    ensures unchanged(list)
  {
    var empty := IsEmpty(list, s);
    if !empty {
      assert ([head] + t)[0] == head;
      SpliceBetween(list, head.prev, head, s, [head] + t);
      assert [head] + t + s == [head] + (t + s);
    } else {
      assert t + s == t;
    }
  }

  method SpliceInit(list: Node, head: Node, ghost s: seq<Node>, ghost t: seq<Node>)
    requires ListOf(list, s) && ListOf(head, t)
    requires Apart(list, s, head, t)
    modifies list, s, head, t
    ensures ListOf(head, s + t) && ListOf(list, [])
  {
    var empty := IsEmpty(list, s);
    if !empty {
      EntriesDistinct(list, s);
      Splice(list, head, s, t);
      Init(list);
    } else {
      assert s + t == t;
    }
  }

  method SpliceTailInit(list: Node, head: Node, ghost s: seq<Node>, ghost t: seq<Node>)
    requires ListOf(list, s) && ListOf(head, t)
    requires Apart(list, s, head, t)
    modifies list, s, head, t
    ensures ListOf(head, t + s) && ListOf(list, [])
  {
    var empty := IsEmpty(list, s);
    if !empty {
      EntriesDistinct(list, s);
      SpliceTail(list, head, s, t);
      Init(list);
    } else {
      assert t + s == t;
    }
  }

  /** Cutting a list anywhere and splicing the piece back restores the list, link by link. */
  method CutAndRejoin(list: Node, head: Node, entry: Node, ghost s: seq<Node>, ghost i: nat)
    requires ListOf(head, s) && i < |s| && s[i] == entry
    requires list !in [head] + s
    modifies list, head, s
    ensures ListOf(head, s) && ListOf(list, [])
    ensures forall n :: n in [head] + s ==> n.next == old(n.next) && n.prev == old(n.prev)
  {
    ghost var p, q := s[..i + 1], s[i + 1..];
    EntriesDistinct(head, s);
    CutPosition(list, head, entry, s, i);
    assert list != head && list !in s by { assert forall n | n in s :: n in [head] + s; }
    assert Apart(list, p, head, q);
    SpliceInit(list, head, p, q);
    assert p + q == s;
    assert ListOf(head, s);
    SameRingSameLinks([head] + s);
  }

  // ---------------------------------------------------------------- iteration

  /** list_for_each: the cursor passes over every entry once, in order. */
  method ForEach(head: Node, ghost s: seq<Node>) returns (visited: seq<Node>)
    requires ListOf(head, s)
    ensures visited == s
  {
    ghost var r := [head] + s;
    assert forall k :: 0 <= k < |s| ==> r[k + 1] == s[k];
    assert r[0] == head;
    visited := [];
    var pos := head.next;
    while pos != head
      invariant |visited| <= |s| && visited == s[..|visited|]
      invariant pos == if |visited| < |s| then s[|visited|] else head
      decreases |s| - |visited|
    {
      visited := visited + [pos];
      pos := pos.next;
    }
  }

  function Unchosen(s: seq<Node>, chosen: set<Node>): (r: seq<Node>)
  {
    if s == [] then []
    else if s[|s| - 1] in chosen then Unchosen(s[..|s| - 1], chosen)
    else Unchosen(s[..|s| - 1], chosen) + [s[|s| - 1]]
  }

  /** Unchosen keeps exactly the entries outside `chosen` ... */
  lemma {:induction false} UnchosenMembers(s: seq<Node>, chosen: set<Node>, n: Node)
    ensures n in Unchosen(s, chosen) <==> n in s && n !in chosen
  {
    if s != [] {
      var k := |s| - 1;
      UnchosenMembers(s[..k], chosen, n);
      assert n in s <==> n in s[..k] || n == s[k] by { assert s == s[..k] + [s[k]]; }
    }
  }

  /** ... and keeps them in order: it works piece by piece. */
  lemma {:induction false} UnchosenConcat(a: seq<Node>, b: seq<Node>, chosen: set<Node>)
    ensures Unchosen(a + b, chosen) == Unchosen(a, chosen) + Unchosen(b, chosen)
  {
    if b == [] {
      assert a + b == a;
    } else {
      var k := |b| - 1;
      assert (a + b)[..|a + b| - 1] == a + b[..k];
      UnchosenConcat(a, b[..k], chosen);
    }
  }

  /** list_for_each_safe around list_del of the chosen entries: every original entry is visited
      once, in order; exactly the others remain, in order; the deleted ones are poisoned. */
  method DeleteChosen(head: Node, chosen: set<Node>, ghost s: seq<Node>) returns (visited: seq<Node>)
    requires ListOf(head, s)
    modifies head, s
    ensures visited == s
    ensures ListOf(head, Unchosen(s, chosen))
    ensures forall n :: n in s && n in chosen ==> n.next == null && n.prev == null
  {
    ghost var kept: seq<Node>, rest: seq<Node> := [], s;
    visited := [];
    assert kept + s == s;
    CursorFacts(head, kept, s);
    var pos := head.next;
    var n := pos.next;
    while pos != head
      invariant Deleting(head, chosen, s, visited, kept, rest)
      invariant pos == if rest != [] then rest[0] else head
      invariant n == pos.next
      decreases |rest|
    {
      kept := DeleteIfChosen(pos, n, chosen, head, s, visited, kept, rest);
      visited, rest := visited + [pos], rest[1..];
      pos := n;
      n := pos.next;
    }
    CursorFacts(head, kept, rest);
    assert visited == s && kept + rest == kept;
  }

  /** Between two iterations of DeleteChosen: `visited` is behind the cursor, `rest` ahead of it,
      `kept` is what is left of `visited`, and the deleted entries are poisoned and out of reach. */
  ghost predicate Deleting(head: Node, chosen: set<Node>, s: seq<Node>,
                           visited: seq<Node>, kept: seq<Node>, rest: seq<Node>)
    reads head, visited, kept, rest
  {
    && visited + rest == s
    && ListOf(head, kept + rest)
    && kept == Unchosen(visited, chosen)
    && (forall i :: 0 <= i < |kept| ==> kept[i] in s && kept[i] !in chosen)
    && (forall i :: 0 <= i < |rest| ==> rest[i] in s)
    && (forall n | n in visited && n in chosen :: n.next == null && n.prev == null && n != head && n !in rest)
  }

  lemma CursorFacts(head: Node, kept: seq<Node>, rest: seq<Node>)
    requires ListOf(head, kept + rest)
    ensures kept == [] ==> head.next == if rest == [] then head else rest[0]
    ensures rest != [] ==> rest[0].next == if |rest| > 1 then rest[1] else head
    ensures rest != [] ==> rest[0] != head && rest[0] !in rest[1..]
  {
    EntryLinks(head, kept + rest);
    if rest != [] {
      EntriesDistinct(head, kept + rest);
      var t, m := kept + rest, |kept|;
      assert t[m] == rest[0] && (|rest| > 1 ==> t[m + 1] == rest[1]);
      forall i | 1 <= i < |rest| ensures rest[i] != rest[0] {
        assert t[m + i] == rest[i];
      }
    }
  }

  /** The loop body of DeleteChosen. */
  method DeleteIfChosen(pos: Node, n: Node?, chosen: set<Node>, ghost head: Node, ghost s: seq<Node>,
                        ghost visited: seq<Node>, ghost kept: seq<Node>, ghost rest: seq<Node>)
    returns (ghost now: seq<Node>)
    requires rest != [] && pos == rest[0] && n == pos.next
    requires Deleting(head, chosen, s, visited, kept, rest)
    modifies head, s
    ensures Deleting(head, chosen, s, visited + [pos], now, rest[1..])
    ensures n == if |rest| > 1 then rest[1] else head
  {
    CursorFacts(head, kept, rest);
    assert visited + [pos] + rest[1..] == visited + rest;
    assert (visited + [pos])[..|visited|] == visited;
    if pos in chosen {
      now := kept;
      DelFirst(pos, chosen, head, visited, kept, rest);
    } else {
      now := kept + [pos];
      assert kept + rest == now + rest[1..];
    }
  }

  method DelFirst(pos: Node, ghost chosen: set<Node>, ghost head: Node, ghost visited: seq<Node>,
                  ghost kept: seq<Node>, ghost rest: seq<Node>)
    requires rest != [] && pos == rest[0] && ListOf(head, kept + rest)
    requires forall i :: 0 <= i < |kept| ==> kept[i] !in chosen
    requires forall n | n in visited && n in chosen :: n.next == null && n.prev == null && n != head && n !in rest
    modifies head, kept, rest
    ensures ListOf(head, kept + rest[1..]) && pos.next == null && pos.prev == null
    ensures forall n | n in visited && n in chosen :: n.next == null && n.prev == null
  {
    assert forall n | n in visited && n in chosen :: n !in kept + rest;
    Del(pos, head, kept + rest, |kept|);
    assert RemoveAt(kept + rest, |kept|) == kept + rest[1..];
  }
}
