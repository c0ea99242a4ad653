/** A list of malloc'ed entries with an embedded list node: `heap_mem_list` and `rm_mem_list` of
    src/ioctl_hook.c, built on the linked list of ListHead and proved against the sequences of
    HandleList. */
module EntryList {
  import opened ListHead
  import opened Wrappers
  import opened HandleList

  /** The structs the nodes of a list are embedded in, in list order. */
  ghost function Contents<V>(nodes: seq<Node>, structs: map<Node, Entry<V>>): (es: seq<Entry<V>>)
    requires forall i :: 0 <= i < |nodes| ==> nodes[i] in structs
  {
    seq(|nodes|, i requires 0 <= i < |nodes| => structs[nodes[i]])
  }

  lemma FirstMatchIs<V>(es: seq<Entry<V>>, h: nat, i: nat)
    requires i <= |es|
    requires forall j :: 0 <= j < i ==> es[j].handle != h
    requires i < |es| ==> es[i].handle == h
    ensures FirstMatch(es, h) == i
  {
  }

  lemma ContentsAdded<V>(nodes: seq<Node>, structs: map<Node, Entry<V>>, n: Node, e: Entry<V>)
    requires n !in nodes && structs.Keys == (set m | m in nodes)
    ensures var more, all := [n] + nodes, structs[n := e];
      && all.Keys == (set m | m in more) && (forall j :: 0 <= j < |more| ==> more[j] in all)
      && Contents(more, all) == [e] + Contents(nodes, structs)
  {
  }

  lemma ContentsRemoved<V>(head: Node, nodes: seq<Node>, structs: map<Node, Entry<V>>, i: nat)
    requires ListOf(head, nodes) && i < |nodes| && structs.Keys == (set n | n in nodes)
    ensures var rest, left := RemoveAt(nodes, i), structs - {nodes[i]};
      && left.Keys == (set n | n in rest) && (forall n :: n in rest ==> n in nodes)
      && (forall j :: 0 <= j < |rest| ==> rest[j] in left)
      && Contents(rest, left) == Contents(nodes, structs)[..i] + Contents(nodes, structs)[i + 1..]
  {
    Removed(head, nodes, i);
    assert nodes[i] !in RemoveAt(nodes, i) by {
      assert forall n | n in RemoveAt(nodes, i) :: n in [head] + RemoveAt(nodes, i);
    }
  }

  class EntryList<V> {
    const head: Node
    /** container_of: the live struct around each embedded node.  malloc adds a struct, free
        takes one away; whoever reads through a node must know it to be live. */
    var structs: map<Node, Entry<V>>
    ghost var nodes: seq<Node>

    ghost function Footprint(): (r: set<object>)
      reads this
    {
      {this, head} + (set n | n in nodes)
    }

    ghost predicate Valid()
      reads Footprint()
    {
      && ListOf(head, nodes)
      && structs.Keys == (set n | n in nodes)
      && forall i :: 0 <= i < |nodes| ==> nodes[i] in structs
    }

    ghost function Entries(): (es: seq<Entry<V>>)
      requires Valid()
      reads Footprint()
      ensures |es| == |nodes|
    {
      Contents(nodes, structs)
    }

    constructor ()
      ensures Valid() && Entries() == [] && fresh(Footprint())
    {
      head := new Node();
      structs, nodes := map[], [];
      new;
      Init(head);
    }

    /** malloc, fill in, list_add. */
    method Insert(h: nat, v: V)
      requires Valid()
      modifies Footprint()
      ensures Valid() && Entries() == Apply(old(Entries()), Bind(h, v))
      ensures fresh(Footprint() - old(Footprint()))
    {
      var entry := new Node();
      ContentsAdded(nodes, structs, entry, Entry(h, v));
      Add(entry, head, nodes);
      structs := structs[entry := Entry(h, v)];
      nodes := [entry] + nodes;
    }

    /** list_for_each with a break at the first entry for `h`. */
    method Find(h: nat) returns (r: Option<V>)
      requires Valid()
      ensures r == Lookup(Entries(), h)
    {
      EntryLinks(head, nodes);
      EntriesDistinct(head, nodes);
      ghost var es, i := Entries(), 0;
      r := None;
      var iter := head.next;
      while iter != head
        invariant 0 <= i <= |nodes|
        invariant iter == if i < |nodes| then nodes[i] else head
        invariant forall j :: 0 <= j < i ==> es[j].handle != h
        invariant r == None
        decreases |nodes| - i
      {
        var entry := iter;
        if structs[entry].handle == h {
          r := Some(structs[entry].value);
          FirstMatchIs(es, h, i);
          return;
        }
        iter := iter.next;
        i := i + 1;
      }
      FirstMatchIs(es, h, i);
    }

    /** The search of the free paths: the cursor keeps the last visited entry when no handle
        matches, and stays null on an empty list. */
    method Seek(h: nat) returns (entry: Node?)
      requires Valid()
      ensures entry == null <==> nodes == []
      ensures entry != null ==> entry == nodes[Cursor(Entries(), h)] && entry in structs
      ensures entry != null ==> structs[entry] == Entries()[Cursor(Entries(), h)]
    {
      EntryLinks(head, nodes);
      EntriesDistinct(head, nodes);
      ghost var es, i := Entries(), 0;
      entry := null;
      var iter := head.next;
      while iter != head
        invariant 0 <= i <= |nodes|
        invariant iter == if i < |nodes| then nodes[i] else head
        invariant entry == if i == 0 then null else nodes[i - 1]
        invariant forall j :: 0 <= j < i ==> es[j].handle != h
        decreases |nodes| - i
      {
        entry := iter;
        if structs[entry].handle == h {
          break;
        }
        iter := iter.next;
        i := i + 1;
      }
      FirstMatchIs(es, h, i);
    }

    /** list_del and free. */
    method Delete(entry: Node, ghost i: nat)
      requires Valid() && i < |nodes| && nodes[i] == entry
      modifies Footprint()
      ensures Valid() && Entries() == old(Entries())[..i] + old(Entries())[i + 1..]
      ensures Footprint() <= old(Footprint())
    {
      ContentsRemoved(head, nodes, structs, i);
      Del(entry, head, nodes, i);
      structs := structs - {entry};
      nodes := RemoveAt(nodes, i);
    }
  }
}
