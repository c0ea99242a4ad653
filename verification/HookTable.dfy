/** The table of hooked CUDA entry points: dlsym of src/dlfcn.c and the two cuGetProcAddress hooks
    of src/cuda_hook.c fill it in, every hook calls through it.  Addresses are natural numbers and
    null is 0; hook functions themselves are never null. */
module HookTable {
  import opened Wrappers

  const NAMES: seq<string> := [
    "cuGetProcAddress", "cuGetProcAddress_v2",
    "cuLaunchKernel", "cuLaunchKernelEx", "cuLaunchKernel_ptsz", "cuLaunchKernelEx_ptsz"]

  const NULL: nat := 0

  /** What a lookup hands to the application. */
  datatype Pointer = Hook(i: nat) | Address(a: nat)

  /** find_entry on the table of names. */
  ghost predicate IsEntry(symbol: string, r: Option<nat>) {
    match r
    case Some(i) => i < |NAMES| && NAMES[i] == symbol && forall j :: 0 <= j < i ==> NAMES[j] != symbol
    case None => symbol !in NAMES
  }

  function EntryFrom(symbol: string, i: nat): (r: Option<nat>)
    requires i <= |NAMES| && forall j :: 0 <= j < i ==> NAMES[j] != symbol
    ensures IsEntry(symbol, r)
    decreases |NAMES| - i
  {
    if i == |NAMES| then None else if NAMES[i] == symbol then Some(i) else EntryFrom(symbol, i + 1)
  }

  function EntryOf(symbol: string): (r: Option<nat>)
    ensures IsEntry(symbol, r)
  {
    EntryFrom(symbol, 0)
  }

  method FindEntry(symbol: string) returns (r: Option<nat>)
    ensures r == EntryOf(symbol)
  {
    for i := 0 to |NAMES|
      invariant forall j :: 0 <= j < i ==> NAMES[j] != symbol
      invariant EntryOf(symbol) == EntryFrom(symbol, i)
    {
      if NAMES[i] == symbol {
        return Some(i);
      }
    }
    return None;
  }

  // ---------------------------------------------------------------- one lookup

  type Reals = s: seq<nat> | |s| == |NAMES| witness [0, 0, 0, 0, 0, 0]

  /** dlsym outside RTLD_NEXT: a resolved symbol of the table gets its real pointer, always. */
  function AfterDlsym(real_: Reals, symbol: string, found: nat): (r: (Reals, Pointer)) {
    var e := EntryOf(symbol);
    if e.Some? && found != NULL then (real_[e.value := found], Hook(e.value)) else (real_, Address(found))
  }

  /** A successful cuGetProcAddress: the real pointer is kept if there is one. */
  function AfterGetProc(real_: Reals, symbol: string, pfn: nat): (r: (Reals, Pointer)) {
    var e := EntryOf(symbol);
    if e.None? then (real_, Address(pfn))
    else (if real_[e.value] == NULL then real_[e.value := pfn] else real_, Hook(e.value))
  }

  class HookTable {
    const realPfn: array<nat>

    ghost predicate Valid() { realPfn.Length == |NAMES| }

    constructor ()
      ensures Valid() && fresh(realPfn) && forall i :: 0 <= i < realPfn.Length ==> realPfn[i] == NULL
    {
      realPfn := new nat[|NAMES|](_ => NULL);
    }

    /** dlsym.  `found` is what the real lookup, or the search of the next library, returns. */
    method DlSym(rtldNext: bool, symbol: string, found: nat) returns (entrypoint: Pointer)
      requires Valid()
      modifies realPfn
      ensures rtldNext ==> realPfn[..] == old(realPfn[..]) && entrypoint == Address(found)
      ensures !rtldNext ==> (realPfn[..], entrypoint) == AfterDlsym(old(realPfn[..]), symbol, found)
    {
      entrypoint := Address(found);
      if rtldNext {
        return;
      }
      var e := FindEntry(symbol);
      if e.Some? && found != NULL {
        realPfn[e.value] := found;
        entrypoint := Hook(e.value);
      }
    }

    /** The hook of cuGetProcAddress (entry 0) or cuGetProcAddress_v2 (entry 1).  `bug` is the
        missing-entry check; `status` and `found` are what the driver answers. */
    method GetProcAddress(self: nat, symbol: string, status: int, found: nat)
      returns (bug: bool, ret: int, pfn: Pointer)
      requires Valid() && self < 2
      modifies realPfn
      ensures bug <==> old(realPfn[self]) == NULL
      ensures bug || status != 0 ==> realPfn[..] == old(realPfn[..])
      ensures !bug ==> ret == status
      ensures !bug && status == 0 ==> (realPfn[..], pfn) == AfterGetProc(old(realPfn[..]), symbol, found)
    {
      bug, ret, pfn := realPfn[self] == NULL, status, Address(found);
      if bug || status != 0 {
        return;
      }
      var e := FindEntry(symbol);
      if e.Some? {
        if realPfn[e.value] == NULL {
          realPfn[e.value] := found;
        }
        pfn := Hook(e.value);
      }
    }
  }

  // ---------------------------------------------------------------- runs

  /** `handed` are the hooks the application has received; `tripped` says that a call went through
      an entry without a real pointer. */
  datatype State = State(real_: Reals, handed: set<nat>, tripped: bool)

  /** A lookup through dlsym, a lookup through a cuGetProcAddress hook, a launch through a hook. */
  datatype Event =
    | Dlsym(rtldNext: bool, symbol: string, found: nat)
    | GetProc(self: nat, symbol: string, status: int, found: nat)
    | Launch(i: nat)

  function Handed(handed: set<nat>, p: Pointer): (r: set<nat>) {
    if p.Hook? then handed + {p.i} else handed
  }

  function Step(s: State, e: Event): (r: State) {
    match e
    case Dlsym(next, symbol, found) =>
      if next then s
      else var (real_, p) := AfterDlsym(s.real_, symbol, found); State(real_, Handed(s.handed, p), s.tripped)
    case GetProc(self, symbol, status, found) =>
      if self >= 2 || self !in s.handed then s
      else if s.real_[self] == NULL then s.(tripped := true)
      else if status != 0 then s
      else var (real_, p) := AfterGetProc(s.real_, symbol, found); State(real_, Handed(s.handed, p), s.tripped)
    case Launch(i) =>
      if i >= |NAMES| || i !in s.handed then s else s.(tripped := s.tripped || s.real_[i] == NULL)
  }

  function Start(): (s: State) { State([0, 0, 0, 0, 0, 0], {}, false) }

  function Run(es: seq<Event>): (s: State) {
    if es == [] then Start() else Step(Run(es[..|es| - 1]), es[|es| - 1])
  }

  /** Every hook handed out has its real pointer, and no call has missed one. */
  ghost predicate Good(s: State) {
    !s.tripped && forall i :: i in s.handed ==> i < |NAMES| && s.real_[i] != NULL
  }

  /** The one thing that goes wrong: the driver reports success with a null pointer for a hooked
      symbol that has no real pointer yet. */
  predicate NullSuccess(s: State, e: Event) {
    && e.GetProc? && e.self < 2 && e.self in s.handed && e.status == 0 && e.found == NULL
    && EntryOf(e.symbol).Some? && s.real_[EntryOf(e.symbol).value] == NULL
  }

  lemma StepIsGoodIff(s: State, e: Event)
    requires Good(s)
    ensures Good(Step(s, e)) <==> !NullSuccess(s, e)
  {
    if NullSuccess(s, e) {
      assert EntryOf(e.symbol).value in Step(s, e).handed;
    }
  }

  /** Over every sequence of lookups and calls in which a successful driver lookup never yields null,
      every hook ever handed out has a real pointer from then on, and no call through a hook trips
      the missing-entry check. */
  lemma {:induction false} HooksAreBacked(es: seq<Event>)
    requires forall k :: 0 <= k < |es| && es[k].GetProc? && es[k].status == 0 ==> es[k].found != NULL
    ensures Good(Run(es))
  {
    if es != [] {
      HooksAreBacked(es[..|es| - 1]);
      StepIsGoodIff(Run(es[..|es| - 1]), es[|es| - 1]);
    }
  }

  ghost predicate GoodThroughout(es: seq<Event>) {
    forall n :: 0 <= n <= |es| ==> Good(Run(es[..n]))
  }

  ghost predicate NoNullSuccess(es: seq<Event>) {
    forall n :: 0 <= n < |es| ==> !NullSuccess(Run(es[..n]), es[n])
  }

  lemma RunExtends(es: seq<Event>, n: nat)
    requires n < |es|
    ensures Run(es[..n + 1]) == Step(Run(es[..n]), es[n])
  {
    assert es[..n + 1][..n] == es[..n];
  }

  lemma {:induction false} GoodUpTo(es: seq<Event>, n: nat)
    requires n <= |es| && NoNullSuccess(es)
    ensures Good(Run(es[..n]))
  {
    if n > 0 {
      GoodUpTo(es, n - 1);
      RunExtends(es, n - 1);
      StepIsGoodIff(Run(es[..n - 1]), es[n - 1]);
    }
  }

  lemma GoodMeansNoNull(es: seq<Event>, n: nat)
    requires n < |es| && GoodThroughout(es)
    ensures !NullSuccess(Run(es[..n]), es[n])
  {
    RunExtends(es, n);
    StepIsGoodIff(Run(es[..n]), es[n]);
  }

  /** Exactly: a run is good throughout if and only if it has no null success. */
  lemma GoodThroughoutIff(es: seq<Event>)
    ensures GoodThroughout(es) <==> NoNullSuccess(es)
  {
    if NoNullSuccess(es) {
      forall n | 0 <= n <= |es| ensures Good(Run(es[..n])) { GoodUpTo(es, n); }
    }
    if GoodThroughout(es) {
      forall n | 0 <= n < |es| ensures !NullSuccess(Run(es[..n]), es[n]) { GoodMeansNoNull(es, n); }
    }
  }

  /** Such a run: a launch hook is handed out on a null success and then called. */
  lemma NullSuccessTrips(real_: nat)
    requires real_ != NULL
    ensures Run([Dlsym(false, NAMES[0], real_), GetProc(0, NAMES[2], 0, NULL), Launch(2)]).tripped
  {
    var es := [Dlsym(false, NAMES[0], real_), GetProc(0, NAMES[2], 0, NULL), Launch(2)];
    assert es[..0] == [] && es[..3] == es;
    assert EntryOf(NAMES[0]) == Some(0) && EntryOf(NAMES[2]) == Some(2);
    RunExtends(es, 0);
    RunExtends(es, 1);
    RunExtends(es, 2);
  }

  // ---------------------------------------------------------------- what a lookup answers

  lemma NamesDiffer(i: nat, j: nat)
    requires i < |NAMES| && j < |NAMES| && NAMES[i] == NAMES[j]
    ensures i == j
  {
    assert |NAMES[0]| == 16 && |NAMES[1]| == 19 && |NAMES[2]| == 14 && |NAMES[3]| == 16;
    assert |NAMES[4]| == 19 && |NAMES[5]| == 21;
    assert NAMES[0][2] == 'G' && NAMES[1][2] == 'G' && NAMES[3][2] == 'L' && NAMES[4][2] == 'L';
  }

  lemma EntryOfName(i: nat)
    requires i < |NAMES|
    ensures EntryOf(NAMES[i]) == Some(i)
  {
    NamesDiffer(i, EntryOf(NAMES[i]).value);
  }

  /** dlsym: a resolved table symbol yields its hook, and its real pointer goes to its entry and
      nowhere else; any other symbol, or a failed lookup, passes through. */
  lemma DlsymAnswers(real_: Reals, symbol: string, found: nat)
    ensures forall i :: 0 <= i < |NAMES| && symbol == NAMES[i] && found != 0 ==>
      var (after, p) := AfterDlsym(real_, symbol, found);
      p == Hook(i) && after[i] == found && forall j :: 0 <= j < |NAMES| && j != i ==> after[j] == real_[j]
    ensures symbol !in NAMES || found == 0 ==> AfterDlsym(real_, symbol, found) == (real_, Address(found))
  {
    forall i | 0 <= i < |NAMES| && symbol == NAMES[i] ensures EntryOf(symbol) == Some(i) { EntryOfName(i); }
  }

  /** cuGetProcAddress: a table symbol yields its hook; its entry takes the pointer if it had none,
      keeps the one it had otherwise, and no other entry changes; any other symbol passes through. */
  lemma GetProcAnswers(real_: Reals, symbol: string, pfn: nat)
    ensures forall i :: 0 <= i < |NAMES| && symbol == NAMES[i] ==>
      var (after, p) := AfterGetProc(real_, symbol, pfn);
      && p == Hook(i) && after[i] == (if real_[i] == 0 then pfn else real_[i])
      && forall j :: 0 <= j < |NAMES| && j != i ==> after[j] == real_[j]
    ensures symbol !in NAMES ==> AfterGetProc(real_, symbol, pfn) == (real_, Address(pfn))
  {
    forall i | 0 <= i < |NAMES| && symbol == NAMES[i] ensures EntryOf(symbol) == Some(i) { EntryOfName(i); }
  }

  // ---------------------------------------------------------------- no way around the hooks

  /** What the application holds after a run: every pointer a lookup gave it, with the symbol it
      asked for.  Lookups through RTLD_NEXT answer with the real address by design. */
  function Given(s: State, e: Event): (r: Option<(string, Pointer)>) {
    match e
    case Dlsym(next, symbol, found) =>
      if next then None else Some((symbol, AfterDlsym(s.real_, symbol, found).1))
    case GetProc(self, symbol, status, found) =>
      if self >= 2 || self !in s.handed || s.real_[self] == NULL || status != 0 then None
      else Some((symbol, AfterGetProc(s.real_, symbol, found).1))
    case Launch(_) => None
  }

  function Holdings(es: seq<Event>): (r: set<(string, Pointer)>) {
    if es == [] then {}
    else
      var n := |es| - 1;
      var g := Given(Run(es[..n]), es[n]);
      Holdings(es[..n]) + if g.Some? then {g.value} else {}
  }

  /** The launch of a symbol goes through its hook: of a table symbol the application never holds
      anything but that symbol's own hook, or the null of a failed lookup. */
  ghost predicate Unavoidable(held: set<(string, Pointer)>) {
    forall i, p :: 0 <= i < |NAMES| && (NAMES[i], p) in held ==> p == Hook(i) || p == Address(0)
  }

  lemma GivenIsHook(s: State, e: Event, i: nat, p: Pointer)
    requires i < |NAMES| && Given(s, e) == Some((NAMES[i], p))
    ensures p == Hook(i) || p == Address(0)
  {
    match e
    case Dlsym(_, symbol, found) => DlsymAnswers(s.real_, symbol, found);
    case GetProc(_, symbol, _, found) => GetProcAnswers(s.real_, symbol, found);
  }

  /** Over every run: outside RTLD_NEXT no lookup ever hands out the real address of a hooked
      symbol. */
  lemma {:induction false} HooksCannotBeAvoided(es: seq<Event>)
    ensures Unavoidable(Holdings(es))
  {
    if es != [] {
      var n := |es| - 1;
      HooksCannotBeAvoided(es[..n]);
      forall i, p | 0 <= i < |NAMES| && (NAMES[i], p) in Holdings(es) ensures p == Hook(i) || p == Address(0) {
        if (NAMES[i], p) !in Holdings(es[..n]) {
          GivenIsHook(Run(es[..n]), es[n], i, p);
        }
      }
    }
  }

  /** The hooks handed out are the ones the application holds for their own symbols. */
  lemma {:induction false} HandedAreHeld(es: seq<Event>, i: nat)
    ensures i in Run(es).handed <==> i < |NAMES| && (NAMES[i], Hook(i)) in Holdings(es)
  {
    if es != [] {
      var n := |es| - 1;
      HandedAreHeld(es[..n], i);
      HandedStep(Run(es[..n]), es[n], i);
    }
  }

  lemma HandedStep(s: State, e: Event, i: nat)
    ensures i in Step(s, e).handed <==>
      i in s.handed || (i < |NAMES| && Given(s, e) == Some((NAMES[i], Hook(i))))
  {
  }

  /** The real pointer of an entry came from a lookup of that very symbol. */
  ghost predicate Supplies(e: Event, symbol: string, found: nat) {
    match e
    case Dlsym(next, sym, f) => !next && sym == symbol && f == found
    case GetProc(_, sym, status, f) => status == 0 && sym == symbol && f == found
    case Launch(_) => false
  }

  lemma StepSupplies(s: State, e: Event, i: nat)
    requires i < |NAMES| && Step(s, e).real_[i] != s.real_[i]
    ensures Supplies(e, NAMES[i], Step(s, e).real_[i])
  {
    var symbol := if e.Dlsym? || e.GetProc? then e.symbol else "";
    if symbol in NAMES {
      var j :| 0 <= j < |NAMES| && NAMES[j] == symbol;
      if e.Dlsym? {
        DlsymAnswers(s.real_, symbol, e.found);
      } else {
        GetProcAnswers(s.real_, symbol, e.found);
      }
    }
  }

  /** Over every run: a hook calls on to a pointer that a lookup of its own symbol supplied, never to
      that of another one. */
  lemma {:induction false} RealPointersAreOwn(es: seq<Event>, i: nat)
    requires i < |NAMES|
    ensures var p := Run(es).real_[i]; p == 0 || exists n :: 0 <= n < |es| && Supplies(es[n], NAMES[i], p)
  {
    if es != [] {
      var n := |es| - 1;
      var s := Run(es[..n]);
      RealPointersAreOwn(es[..n], i);
      if Run(es).real_[i] != s.real_[i] {
        StepSupplies(s, es[n], i);
      } else if s.real_[i] != 0 {
        var m :| 0 <= m < n && Supplies(es[..n][m], NAMES[i], s.real_[i]);
        assert Supplies(es[m], NAMES[i], s.real_[i]);
      }
    }
  }
}
