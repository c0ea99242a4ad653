/** What the two entry lists of src/ioctl_hook.c (live allocations, handle to device) mean.

    An entry list is a sequence of entries, newest first.  `Bind` is malloc plus list_add;
    `Drop` is the search-and-delete loop shared by free_heap_page and free_device_page, whose
    cursor stays on the last visited entry when no handle matches. */
module HandleList {
  import opened Wrappers

  datatype Entry<+V> = Entry(handle: nat, value: V)

  datatype Op<+V> = Bind(handle: nat, value: V) | Drop(handle: nat)

  // ---------------------------------------------------------------- the list

  /** Index of the first entry for `h`; the length of the list when there is none. */
  function FirstMatch<V>(es: seq<Entry<V>>, h: nat): (i: nat)
    ensures i <= |es|
    ensures i < |es| ==> es[i].handle == h
    ensures forall j :: 0 <= j < i ==> es[j].handle != h
  {
    if es == [] || es[0].handle == h then 0 else 1 + FirstMatch(es[1..], h)
  }

  predicate Live<V>(es: seq<Entry<V>>, h: nat) {
    FirstMatch(es, h) < |es|
  }

  function Lookup<V>(es: seq<Entry<V>>, h: nat): (r: Option<V>) {
    if Live(es, h) then Some(es[FirstMatch(es, h)].value) else None
  }

  /** Where the cursor of the search-and-delete loops ends up. */
  function Cursor<V>(es: seq<Entry<V>>, h: nat): (i: nat)
    requires es != []
    ensures i < |es|
  {
    if Live(es, h) then FirstMatch(es, h) else |es| - 1
  }

  function Released<V>(es: seq<Entry<V>>, h: nat): (r: seq<Entry<V>>) {
    if es == [] then es else es[..Cursor(es, h)] + es[Cursor(es, h) + 1..]
  }

  function Apply<V>(es: seq<Entry<V>>, op: Op<V>): (r: seq<Entry<V>>) {
    match op
    case Bind(h, v) => [Entry(h, v)] + es
    case Drop(h) => Released(es, h)
  }

  function Replay<V>(ops: seq<Op<V>>): (es: seq<Entry<V>>) {
    if ops == [] then [] else Apply(Replay(ops[..|ops| - 1]), ops[|ops| - 1])
  }

  // ---------------------------------------------------------------- bindings of one handle

  /** Everything bound to `h`, newest first. */
  function Bindings<V>(es: seq<Entry<V>>, h: nat): (vs: seq<V>) {
    if es == [] then []
    else if es[0].handle == h then [es[0].value] + Bindings(es[1..], h)
    else Bindings(es[1..], h)
  }

  lemma {:induction false} BindingsConcat<V>(a: seq<Entry<V>>, b: seq<Entry<V>>, h: nat)
    ensures Bindings(a + b, h) == Bindings(a, h) + Bindings(b, h)
  {
    if a == [] {
      assert a + b == b;
    } else {
      assert (a + b)[1..] == a[1..] + b;
      BindingsConcat(a[1..], b, h);
    }
  }

  lemma {:induction false} LookupIsNewestBinding<V>(es: seq<Entry<V>>, h: nat)
    ensures Live(es, h) <==> Bindings(es, h) != []
    ensures Live(es, h) ==> Bindings(es, h)[0] == es[FirstMatch(es, h)].value
    ensures Live(es, h) ==> Bindings(es[..FirstMatch(es, h)], h) == []
  {
    if es != [] && es[0].handle != h {
      LookupIsNewestBinding(es[1..], h);
      if Live(es, h) {
        assert es[..FirstMatch(es, h)][1..] == es[1..][..FirstMatch(es[1..], h)];
      }
    }
  }

  /** Dropping a live handle takes its newest binding and nothing else. */
  lemma DropLive<V>(es: seq<Entry<V>>, h: nat, g: nat)
    requires Live(es, h)
    ensures Bindings(es, h) != []
    ensures Bindings(Released(es, h), g) == if g == h then Bindings(es, h)[1..] else Bindings(es, g)
  {
    var i := FirstMatch(es, h);
    SplitAt(es, i, g);
    LookupIsNewestBinding(es, h);
    if g == h {
      SplitAt(es, i, h);
    }
  }

  /** Dropping an absent handle takes the oldest binding of whoever sits at the tail. */
  lemma DropAbsent<V>(es: seq<Entry<V>>, h: nat, g: nat)
    requires es != [] && !Live(es, h)
    ensures es[|es| - 1].handle != h
    ensures g == es[|es| - 1].handle ==> Bindings(es, g) == Bindings(Released(es, h), g) + [es[|es| - 1].value]
    ensures g != es[|es| - 1].handle ==> Bindings(es, g) == Bindings(Released(es, h), g)
  {
    SplitAt(es, |es| - 1, g);
  }

  lemma SplitAt<V>(es: seq<Entry<V>>, i: nat, g: nat)
    requires i < |es|
    ensures Bindings(es, g) ==
      Bindings(es[..i], g) + (if es[i].handle == g then [es[i].value] else []) + Bindings(es[i + 1..], g)
    ensures Bindings(es[..i] + es[i + 1..], g) == Bindings(es[..i], g) + Bindings(es[i + 1..], g)
  {
    assert es == es[..i] + ([es[i]] + es[i + 1..]);
    BindingsConcat(es[..i], [es[i]] + es[i + 1..], g);
    BindingsConcat([es[i]], es[i + 1..], g);
    BindingsConcat(es[..i], es[i + 1..], g);
  }

  /** A drop leaves every other handle alone exactly when its own handle is live, or when there
      was nothing to drop. */
  lemma DropIsLocalIff<V(!new)>(es: seq<Entry<V>>, h: nat)
    ensures (forall g | g != h :: Bindings(Released(es, h), g) == Bindings(es, g)) <==> es == [] || Live(es, h)
  {
    if Live(es, h) {
      forall g | g != h ensures Bindings(Released(es, h), g) == Bindings(es, g) {
        DropLive(es, h, g);
      }
    } else if es != [] {
      var g := es[|es| - 1].handle;
      DropAbsent(es, h, g);
      assert |Bindings(Released(es, h), g)| < |Bindings(es, g)|;
    }
  }

  // ---------------------------------------------------------------- history references

  /** The bindings of `h` according to the history alone: a stack per handle, which no other
      handle's operations touch. */
  function Stack<V>(ops: seq<Op<V>>, h: nat): (vs: seq<V>) {
    if ops == [] then []
    else
      var before := Stack(ops[..|ops| - 1], h);
      match ops[|ops| - 1]
      case Bind(g, v) => if g == h then [v] + before else before
      case Drop(g) => if g == h && before != [] then before[1..] else before
  }

  /** Only handles with a binding are dropped. */
  ghost predicate DropsLive<V(!new)>(ops: seq<Op<V>>) {
    forall n :: 0 <= n < |ops| && ops[n].Drop? ==> Stack(ops[..n], ops[n].handle) != []
  }

  /** A handle is bound only while it has no binding. */
  ghost predicate BindsFresh<V(!new)>(ops: seq<Op<V>>) {
    forall n :: 0 <= n < |ops| && ops[n].Bind? ==> Stack(ops[..n], ops[n].handle) == []
  }

  /** Newest binding wins: over every history that drops only live handles, first-match search
      of the list finds the top of that handle's own stack. */
  lemma {:induction false} NewestBindingWins<V(!new)>(ops: seq<Op<V>>, h: nat)
    requires DropsLive(ops)
    ensures Bindings(Replay(ops), h) == Stack(ops, h)
    ensures Lookup(Replay(ops), h) == if Stack(ops, h) == [] then None else Some(Stack(ops, h)[0])
  {
    if ops != [] {
      var n := |ops| - 1;
      var prev := ops[..n];
      PrefixDropsLive(ops);
      NewestBindingWins(prev, h);
      if ops[n].Bind? {
        BindingsConcat([Entry(ops[n].handle, ops[n].value)], Replay(prev), h);
      } else {
        NewestBindingWins(prev, ops[n].handle);
        LookupIsNewestBinding(Replay(prev), ops[n].handle);
        DropLive(Replay(prev), ops[n].handle, h);
      }
    }
    LookupIsNewestBinding(Replay(ops), h);
  }

  lemma PrefixDropsLive<V(!new)>(ops: seq<Op<V>>)
    requires DropsLive(ops) && ops != []
    ensures DropsLive(ops[..|ops| - 1])
  {
    var p := ops[..|ops| - 1];
    forall n | 0 <= n < |p| && p[n].Drop? ensures Stack(p[..n], p[n].handle) != [] {
      assert p[..n] == ops[..n];
    }
  }

  lemma PrefixBindsFresh<V(!new)>(ops: seq<Op<V>>)
    requires BindsFresh(ops) && ops != []
    ensures BindsFresh(ops[..|ops| - 1])
  {
    var p := ops[..|ops| - 1];
    forall n | 0 <= n < |p| && p[n].Bind? ensures Stack(p[..n], p[n].handle) == [] {
      assert p[..n] == ops[..n];
    }
  }

  /** The finite map a history builds when handles are bound fresh and dropped live. */
  function AsMap<V>(ops: seq<Op<V>>): (m: map<nat, V>) {
    if ops == [] then map[]
    else
      var before := AsMap(ops[..|ops| - 1]);
      match ops[|ops| - 1]
      case Bind(h, v) => before[h := v]
      case Drop(h) => before - {h}
  }

  lemma {:induction false} StackIsMap<V(!new)>(ops: seq<Op<V>>, h: nat)
    requires DropsLive(ops) && BindsFresh(ops)
    ensures Stack(ops, h) == if h in AsMap(ops) then [AsMap(ops)[h]] else []
  {
    if ops != [] {
      var n := |ops| - 1;
      PrefixDropsLive(ops);
      PrefixBindsFresh(ops);
      StackIsMap(ops[..n], h);
      StackIsMap(ops[..n], ops[n].handle);
    }
  }

  /** With distinct live handles the list refines a finite map: lookup is map lookup, and the
      list is empty exactly when the map is. */
  lemma ListRefinesMap<V(!new)>(ops: seq<Op<V>>, h: nat)
    requires DropsLive(ops) && BindsFresh(ops)
    ensures Lookup(Replay(ops), h) == if h in AsMap(ops) then Some(AsMap(ops)[h]) else None
    ensures Replay(ops) == [] <==> AsMap(ops) == map[]
  {
    NewestBindingWins(ops, h);
    StackIsMap(ops, h);
    var es := Replay(ops);
    if es != [] {
      NewestBindingWins(ops, es[0].handle);
      StackIsMap(ops, es[0].handle);
    } else if h' :| h' in AsMap(ops) {
      NewestBindingWins(ops, h');
      StackIsMap(ops, h');
    }
  }

  /** Entries a history leaves behind, counted without looking at handles: a drop removes an entry
      whenever there is one. */
  function Outstanding<V>(ops: seq<Op<V>>): (n: nat) {
    if ops == [] then 0
    else
      var before := Outstanding(ops[..|ops| - 1]);
      if ops[|ops| - 1].Bind? then before + 1 else if before > 0 then before - 1 else 0
  }

  lemma {:induction false} LengthIsOutstanding<V>(ops: seq<Op<V>>)
    ensures |Replay(ops)| == Outstanding(ops)
  {
    if ops != [] {
      LengthIsOutstanding(ops[..|ops| - 1]);
    }
  }

  /** Binding `e` and then dropping `h` gives the list back if and only if `e` is bound to `h`, or
      `h` is absent and every older entry equals `e`. */
  lemma BindThenDropIff<V(!new)>(es: seq<Entry<V>>, e: Entry<V>, h: nat)
    ensures Released([e] + es, h) == es <==>
      e.handle == h || (!Live(es, h) && forall i :: 0 <= i < |es| ==> es[i] == e)
  {
    var s := [e] + es;
    assert s[1..] == es;
    var c := Cursor(s, h);
    if e.handle == h {
      assert Released(s, h) == es;
    } else {
      if !Live(es, h) && forall i :: 0 <= i < |es| ==> es[i] == e {
        assert Released(s, h) == s[..|es|];
        assert forall i :: 0 <= i < |es| ==> s[i] == e;
      }
      if Released(s, h) == es {
        AllEqualUpTo(es, e, c);
      }
    }
  }

  /** A list that equals itself shifted behind `e` consists of `e` up to the gap. */
  lemma {:induction false} AllEqualUpTo<V(!new)>(es: seq<Entry<V>>, e: Entry<V>, c: nat)
    requires c <= |es| && ([e] + es)[..c] + es[c..] == es
    ensures forall i :: 0 <= i < c ==> es[i] == e
  {
    var s := ([e] + es)[..c] + es[c..];
    if c > 0 {
      assert s[0] == e;
      assert ([e] + es)[..c - 1] + es[c - 1..] == es by {
        forall i | 0 <= i < |es| ensures (([e] + es)[..c - 1] + es[c - 1..])[i] == es[i] {
          assert s[i] == es[i];
        }
      }
      AllEqualUpTo(es, e, c - 1);
      assert s[c - 1] == ([e] + es)[c - 1];
    }
  }
}
