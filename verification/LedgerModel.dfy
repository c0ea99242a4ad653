/** The memory ledger of src/ioctl_hook.c as values: what each pre-check and each accounting
    step does, and what holds over every run of them.

    `size_t` and NvU64 are `Word`s with the wrap-around written out, NvU32 handles are natural
    numbers.  The driver between check and accounting is not modelled: its reply is arbitrary,
    and a theorem that needs it to behave says so. */
module LedgerModel {
  import opened Wrappers
  import opened HandleList
  import opened Align

  type Word = x: nat | x < WORD
  type U32 = x: nat | x < 0x1_0000_0000
  type I32 = x: int | -0x8000_0000 <= x < 0x8000_0000

  const CTL_MINOR: nat := 0xFF
  const DEVICE_MAJOR: nat := 195
  const EINVAL: int := 22
  const NO_DEVICE: I32 := -1

  datatype Status = Okay | NoMemory | OtherError

  datatype HeapFunction = AllocSize(hMemory: nat, size: Word, alignment: Word) | Info | OtherFunction

  datatype RmClass =
    | Device(deviceId: I32)
    | Subdevice
    | LocalMemory(owner: nat, size: Word, alignment: Word)
    | OtherClass

  /** The argument block of one ioctl, by escape number. */
  datatype Arg =
    | VidHeap(op: HeapFunction, status: Status, total: Word, free: Word)
    | RmAlloc(hParent: nat, hNew: nat, class_: RmClass, status: Status)
    | RmFree(hRoot: nat, hParent: nat, hOld: nat, status: Status)
    | RmControl(status: Status)
    | OtherCommand

  datatype Ledger = Ledger(total: Word, free: Word, alloc: Word, heap: seq<Entry<Word>>, devices: seq<Entry<U32>>)

  // device_id is kept as uint32_t and compared as int32_t
  function AsU32(x: I32): (u: U32) { if x >= 0 then x else x + 0x1_0000_0000 }

  function AsI32(u: U32): (x: I32)
    ensures AsU32(x) == u
  {
    if u < 0x8000_0000 then u else u - 0x1_0000_0000
  }

  // ---------------------------------------------------------------- the pre-checks

  datatype PreResult = PreResult(refused: bool, arg: Arg)

  function CheckVidHeap(l: Ledger, arg: Arg): (r: PreResult)
    requires arg.VidHeap?
  {
    if arg.op.AllocSize? && arg.op.alignment != 0 && l.free < AlignUp(arg.op.size, arg.op.alignment) then
      PreResult(true, arg.(status := NoMemory, total := l.total, free := l.free))
    else
      PreResult(false, arg)
  }

  function CheckRmAlloc(l: Ledger, arg: Arg): (r: PreResult)
    requires arg.RmAlloc?
  {
    if
      && arg.class_.LocalMemory? && arg.class_.alignment != 0
      && l.free < AlignUp(arg.class_.size, arg.class_.alignment)
    then
      PreResult(true, RmAlloc(arg.hParent, arg.hNew, arg.class_, NoMemory))
    else
      PreResult(false, arg)
  }

  function Pre(l: Ledger, arg: Arg): (r: PreResult) {
    match arg
    case VidHeap(_, _, _, _) => CheckVidHeap(l, arg)
    case RmAlloc(_, _, _, _) => CheckRmAlloc(l, arg)
    case _ => PreResult(false, arg)
  }

  // ---------------------------------------------------------------- the accounting

  function Charge(l: Ledger, h: nat, size: Word): (r: Ledger) {
    l.(heap := Apply(l.heap, Bind(h, size)), free := Sub64(l.free, size), alloc := Add64(l.alloc, size))
  }

  function Refund(l: Ledger, h: nat): (r: Ledger) {
    if l.heap == [] then l
    else
      var size := l.heap[Cursor(l.heap, h)].value;
      l.(heap := Apply(l.heap, Drop(h)), free := Add64(l.free, size), alloc := Sub64(l.alloc, size))
  }

  lemma I32RoundTrip(x: I32)
    ensures AsI32(AsU32(x)) == x
  {
  }

  /** First-match search of the handle list, with -1 for "none". */
  function DeviceOf(devices: seq<Entry<U32>>, h: nat): (id: I32) {
    match Lookup(devices, h)
    case Some(u) => AsI32(u)
    case None => NO_DEVICE
  }

  function Inherit(l: Ledger, h: nat, parent: nat): (r: Ledger) {
    var id := DeviceOf(l.devices, parent);
    if id == NO_DEVICE then l else l.(devices := Apply(l.devices, Bind(h, AsU32(id))))
  }

  datatype PostResult = PostResult(ledger: Ledger, arg: Arg, ret: int)

  function AccountRmAlloc(l: Ledger, arg: Arg): (r: Ledger)
    requires arg.RmAlloc?
  {
    match arg.class_
    case Device(id) => l.(devices := Apply(l.devices, Bind(arg.hNew, AsU32(id))))
    case Subdevice => Inherit(l, arg.hNew, arg.hParent)
    case LocalMemory(owner, size, alignment) =>
      if arg.status.Okay? && alignment != 0 then Charge(l, owner, size) else l
    case OtherClass => l
  }

  function AccountVidHeap(l: Ledger, arg: Arg): (r: PostResult)
    requires arg.VidHeap?
  {
    if arg.op.AllocSize? && arg.status.Okay? && arg.op.alignment != 0 then
      var m := Charge(l, arg.op.hMemory, arg.op.size);
      PostResult(m, arg.(total := m.total, free := m.free), 0)
    else
      PostResult(l, arg, 0)
  }

  function AccountRmFree(l: Ledger, arg: Arg): (r: Ledger)
    requires arg.RmFree?
  {
    if !arg.status.Okay? || arg.hOld == arg.hRoot then l
    else if arg.hRoot == arg.hParent then l.(devices := Apply(l.devices, Drop(arg.hOld)))
    else Refund(l, arg.hOld)
  }

  /** post_ioctl on the NVIDIA major. */
  function Post(l: Ledger, minor: nat, arg: Arg): (r: PostResult) {
    match arg
    case VidHeap(_, _, _, _) => if minor != CTL_MINOR then PostResult(l, arg, -EINVAL) else AccountVidHeap(l, arg)
    case RmAlloc(_, _, _, _) => PostResult(AccountRmAlloc(l, arg), arg, 0)
    case RmFree(_, _, _, _) =>
      if minor != CTL_MINOR then PostResult(l, arg, -EINVAL) else PostResult(AccountRmFree(l, arg), arg, 0)
    case RmControl(_) => PostResult(l, arg, if minor != CTL_MINOR then -EINVAL else 0)
    case OtherCommand => PostResult(l, arg, 0)
  }

  // ---------------------------------------------------------------- one whole ioctl

  datatype Reply = Reply(ret: int, arg: Arg)

  /** src/dlfcn.c's `ioctl`.  `dev` is what get_device_number finds, `driver` the real ioctl. */
  function Ioctl(l: Ledger, limited: bool, dev: Option<(nat, nat)>, arg: Arg, driver: Arg -> Reply): (r: PostResult) {
    var ours := limited && dev.Some? && dev.value.0 == DEVICE_MAJOR;
    var pre := if ours then Pre(l, arg) else PreResult(false, arg);
    if pre.refused then PostResult(l, pre.arg, 0)
    else
      var reply := driver(arg);
      if ours && reply.ret == 0 then Post(l, dev.value.1, reply.arg) else PostResult(l, reply.arg, reply.ret)
  }

  // ---------------------------------------------------------------- runs

  /** The ledger and the ioctls that are past their check and not yet accounted for: one per
      thread that is inside the driver. */
  datatype Machine = Machine(ledger: Ledger, inflight: seq<Arg>)

  /** Check and accounting are separate critical sections, so calls of different threads overlap
      in any way.  `Leave` is the return of the driver for in-flight call `i`. */
  datatype Event = Enter(arg: Arg) | Leave(i: nat, minor: nat, reply: Reply)

  function Step(m: Machine, e: Event): (r: Machine) {
    match e
    case Enter(arg) =>
      if Pre(m.ledger, arg).refused then m else m.(inflight := m.inflight + [arg])
    case Leave(i, minor, reply) =>
      if i >= |m.inflight| then m
      else
        var rest := m.inflight[..i] + m.inflight[i + 1..];
        Machine(if reply.ret == 0 then Post(m.ledger, minor, reply.arg).ledger else m.ledger, rest)
  }

  /** The state after a fresh single-process _init_device_prop. */
  function Fresh(total: Word): (m: Machine) {
    Machine(Ledger(total, total, 0, [], []), [])
  }

  function RunFrom(m: Machine, es: seq<Event>): (r: Machine) {
    if es == [] then m else Step(RunFrom(m, es[..|es| - 1]), es[|es| - 1])
  }

  function Run(total: Word, es: seq<Event>): (m: Machine) { RunFrom(Fresh(total), es) }

  /** An ioctl that nobody overlaps is an Enter followed by its Leave. */
  lemma SerialIoctl(l: Ledger, minor: nat, arg: Arg, driver: Arg -> Reply)
    ensures var m := Machine(l, []);
      Step(Step(m, Enter(arg)), Leave(0, minor, driver(arg)))
        == Machine(Ioctl(l, true, Some((DEVICE_MAJOR, minor)), arg, driver).ledger, [])
  {
    var m := Step(Machine(l, []), Enter(arg));
    assert Pre(l, arg).refused || m.inflight == [arg];
  }

  // ---------------------------------------------------------------- conservation

  function Sum(es: seq<Entry<Word>>): (n: nat) {
    if es == [] then 0 else es[0].value + Sum(es[1..])
  }

  lemma {:induction false} SumConcat(a: seq<Entry<Word>>, b: seq<Entry<Word>>)
    ensures Sum(a + b) == Sum(a) + Sum(b)
  {
    if a == [] {
      assert a + b == b;
    } else {
      assert (a + b)[1..] == a[1..] + b;
      SumConcat(a[1..], b);
    }
  }

  lemma SumReleased(es: seq<Entry<Word>>, h: nat)
    requires es != []
    ensures Sum(es) == Sum(Released(es, h)) + es[Cursor(es, h)].value
  {
    var i := Cursor(es, h);
    assert es == es[..i] + ([es[i]] + es[i + 1..]);
    SumConcat(es[..i], [es[i]] + es[i + 1..]);
    SumConcat(es[..i], es[i + 1..]);
  }

  ghost predicate Balanced(free: nat, alloc: nat, sum: nat, total: nat) {
    free < WORD && total < WORD && alloc == sum % WORD && (free + alloc) % WORD == total
  }

  /** Moving `d` (which may be negative) from free to allocated keeps the balance. */
  lemma BalancedShift(free: nat, alloc: nat, sum: nat, total: nat, d: int)
    requires Balanced(free, alloc, sum, total) && sum + d >= 0
    ensures Balanced((free - d) % WORD, (alloc + d) % WORD, sum + d, total)
  {
    SameMod(alloc + d, sum + d, -(sum / WORD));
    var f, a := (free - d) % WORD, (alloc + d) % WORD;
    SameMod(f + a, free + alloc, -((free - d) / WORD) - (alloc + d) / WORD);
  }

  lemma SameMod(x: int, y: int, k: int)
    requires x == y + k * WORD
    ensures x % WORD == y % WORD
  {
    assert y == (y / WORD) * WORD + y % WORD;
    assert x == (y / WORD + k) * WORD + y % WORD;
  }

  lemma BalancedExactIff(free: nat, alloc: nat, sum: nat, total: nat)
    requires Balanced(free, alloc, sum, total)
    ensures alloc == sum && free + sum == total <==> sum <= total
  {
  }

  /** alloc_mem is the sum of the live entries and free_mem the rest of the total, modulo 2^64. */
  ghost predicate Conserved(l: Ledger) {
    Balanced(l.free, l.alloc, Sum(l.heap), l.total)
  }

  /** The same without "modulo": nothing has wrapped. */
  ghost predicate Exact(l: Ledger) {
    l.alloc == Sum(l.heap) && l.free + Sum(l.heap) == l.total
  }

  lemma ChargeConserves(l: Ledger, h: nat, size: Word)
    requires Conserved(l)
    ensures Conserved(Charge(l, h, size))
  {
    assert Charge(l, h, size).heap[1..] == l.heap;
    BalancedShift(l.free, l.alloc, Sum(l.heap), l.total, size);
  }

  lemma RefundConserves(l: Ledger, h: nat)
    requires Conserved(l)
    ensures Conserved(Refund(l, h))
  {
    if l.heap != [] {
      SumReleased(l.heap, h);
      var size: int := l.heap[Cursor(l.heap, h)].value;
      BalancedShift(l.free, l.alloc, Sum(l.heap), l.total, -size);
    }
  }

  lemma PostConserves(l: Ledger, minor: nat, arg: Arg)
    requires Conserved(l)
    ensures Conserved(Post(l, minor, arg).ledger) && Post(l, minor, arg).ledger.total == l.total
  {
    match arg
    case VidHeap(AllocSize(h, size, _), _, _, _) => ChargeConserves(l, h, size);
    case RmAlloc(_, _, LocalMemory(h, size, _), _) => ChargeConserves(l, h, size);
    case RmFree(_, _, h, _) => RefundConserves(l, h);
    case _ =>
  }

  lemma {:induction false} RunFromConserves(m: Machine, es: seq<Event>)
    requires Conserved(m.ledger)
    ensures Conserved(RunFrom(m, es).ledger) && RunFrom(m, es).ledger.total == m.ledger.total
  {
    if es != [] {
      var n := |es| - 1;
      RunFromConserves(m, es[..n]);
      match es[n]
      case Enter(_) =>
      case Leave(_, minor, reply) => PostConserves(RunFrom(m, es[..n]).ledger, minor, reply.arg);
    }
  }

  /** Over every run, whatever the overlap of checks and accountings, whatever the driver replies
      and even when freed handles are absent, the ledger is conserved. */
  lemma Conservation(total: Word, es: seq<Event>)
    ensures Conserved(Run(total, es).ledger) && Run(total, es).ledger.total == total
  {
    RunFromConserves(Fresh(total), es);
  }

  /** In every reachable state: the books are exact if and only if the live entries fit the
      limit.  (Otherwise free_mem has wrapped.) */
  lemma ExactIffWithinTotal(total: Word, es: seq<Event>)
    ensures var l := Run(total, es).ledger;
      Exact(l) <==> Sum(l.heap) <= total
  {
    Conservation(total, es);
    var l := Run(total, es).ledger;
    BalancedExactIff(l.free, l.alloc, Sum(l.heap), total);
  }

  // ---------------------------------------------------------------- requests and honest replies

  datatype Allocation = Allocation(handle: nat, size: Word, alignment: Word)

  /** The allocation an argument block asks for, if any; alignment 0 is neither checked nor
      accounted for. */
  function Asks(arg: Arg): (r: Option<Allocation>)
    ensures r.Some? ==> r.value.alignment != 0
  {
    match arg
    case VidHeap(AllocSize(h, size, alignment), _, _, _) =>
      if alignment == 0 then None else Some(Allocation(h, size, alignment))
    case RmAlloc(_, _, LocalMemory(h, size, alignment), _) =>
      if alignment == 0 then None else Some(Allocation(h, size, alignment))
    case _ => None
  }

  /** What the check compares with free_mem. */
  function Demand(arg: Arg): (n: nat) {
    match Asks(arg)
    case Some(a) => AlignUp(a.size, a.alignment)
    case None => 0
  }

  /** The textbook round-up. */
  function RoundUp(size: nat, a: nat): (r: nat)
    requires a > 0
  {
    (size + a - 1) - (size + a - 1) % a
  }

  /** The most an honest driver makes of a size: it may enlarge it to the next multiple of a
      power-of-two alignment, within the word. */
  ghost function Largest(size: Word, alignment: Word): (n: Word)
    requires alignment != 0
  {
    if !IsPow2(alignment) then size
    else if RoundUp(size, alignment) < WORD then RoundUp(size, alignment)
    else WORD - 1
  }

  /** ... and so the most it can be charged for. */
  ghost function Worst(arg: Arg): (n: nat) {
    match Asks(arg)
    case Some(a) => Largest(a.size, a.alignment)
    case None => 0
  }

  predicate SameCommand(arg: Arg, reply: Arg) {
    match arg
    case VidHeap(_, _, _, _) => reply.VidHeap?
    case RmAlloc(_, _, _, _) => reply.RmAlloc?
    case RmFree(_, _, _, _) => reply.RmFree?
    case RmControl(_) => reply.RmControl?
    case OtherCommand => reply.OtherCommand?
  }

  /** An honest driver answers the command it was given, does not turn a request that is not
      accounted for into one that is or back, and enlarges a size within its alignment only. */
  ghost predicate Honest(arg: Arg, reply: Arg) {
    && SameCommand(arg, reply)
    && (Asks(arg).Some? <==> Asks(reply).Some?)
    && (Asks(arg).Some? ==>
          var a, size' := Asks(arg).value, Asks(reply).value.size;
          size' <= a.size || (IsPow2(a.alignment) && size' <= RoundUp(a.size, a.alignment)))
  }

  /** The round-up of the request does not wrap. */
  predicate NoWrap(arg: Arg) {
    Asks(arg).Some? ==> Asks(arg).value.size + Asks(arg).value.alignment <= WORD
  }

  /** A request whose checked size is exactly the most it can be charged for. */
  ghost predicate Regular(arg: Arg) {
    NoWrap(arg) && (Asks(arg).Some? ==> IsPow2(Asks(arg).value.alignment))
  }

  lemma RoundUpIsAlignUp(size: Word, alignment: Word)
    requires alignment != 0 && size + alignment <= WORD && IsPow2(alignment)
    ensures size <= RoundUp(size, alignment) == AlignUp(size, alignment)
  {
    AlignUpRounds(size, alignment);
    RoundDownIsLeast(size, alignment);
  }

  /** Without wrap-around the check covers whatever an honest driver does; for a power of two it
      compares exactly that. */
  lemma WorstWithinDemand(arg: Arg)
    requires NoWrap(arg)
    ensures Worst(arg) <= Demand(arg)
    ensures Asks(arg).Some? && IsPow2(Asks(arg).value.alignment) ==> Worst(arg) == Demand(arg)
  {
    if Asks(arg).Some? {
      var a := Asks(arg).value;
      AlignUpCoversIff(a.size, a.alignment);
      if IsPow2(a.alignment) {
        RoundUpIsAlignUp(a.size, a.alignment);
      }
    }
  }

  /** No honest reply asks for more. */
  lemma HonestWithinWorst(arg: Arg, reply: Arg)
    requires Honest(arg, reply)
    ensures Asks(reply).Some? ==> Asks(reply).value.size <= Worst(arg)
  {
    if Asks(arg).Some? {
      RoundDownIsLeast(Asks(arg).value.size, Asks(arg).value.alignment);
    }
  }

  ghost function TotalWorst(args: seq<Arg>): (n: nat) {
    if args == [] then 0 else Worst(args[0]) + TotalWorst(args[1..])
  }

  lemma {:induction false} TotalWorstConcat(a: seq<Arg>, b: seq<Arg>)
    ensures TotalWorst(a + b) == TotalWorst(a) + TotalWorst(b)
  {
    if a == [] {
      assert a + b == b;
    } else {
      assert (a + b)[1..] == a[1..] + b;
      TotalWorstConcat(a[1..], b);
    }
  }

  lemma TotalWorstRemove(a: seq<Arg>, i: nat)
    requires i < |a|
    ensures TotalWorst(a) == Worst(a[i]) + TotalWorst(a[..i] + a[i + 1..])
  {
    assert a == a[..i] + a[i..] && a[i..][1..] == a[i + 1..];
    TotalWorstConcat(a[..i], a[i..]);
    TotalWorstConcat(a[..i], a[i + 1..]);
  }

  // ---------------------------------------------------------------- never over the limit

  /** Nothing has wrapped, and what is in flight still fits. */
  ghost predicate Room(m: Machine) {
    Exact(m.ledger) && Sum(m.ledger.heap) + TotalWorst(m.inflight) <= m.ledger.total
  }

  ghost predicate HonestReturn(m: Machine, e: Event) {
    e.Leave? && e.i < |m.inflight| ==> Honest(m.inflight[e.i], e.reply.arg)
  }

  /** What one step must respect for the limit to hold: the driver is honest, and an allocation
      enters only while the most it can be charged for fits beside what is already in flight. */
  ghost predicate Respects(m: Machine, e: Event) {
    && HonestReturn(m, e)
    && (e.Enter? && !Pre(m.ledger, e.arg).refused ==>
          Sum(m.ledger.heap) + TotalWorst(m.inflight) + Worst(e.arg) <= m.ledger.total)
  }

  /** The stronger discipline a caller can follow without knowing the ledger: at most one
      accountable allocation in flight, with a round-up that does not wrap.  Frees and everything
      else may overlap it. */
  ghost predicate OneAtATime(m: Machine, e: Event) {
    && HonestReturn(m, e)
    && (e.Enter? ==> NoWrap(e.arg) && (Worst(e.arg) == 0 || TotalWorst(m.inflight) == 0))
  }

  lemma AdmittedDemand(l: Ledger, arg: Arg)
    ensures Pre(l, arg).refused <==> l.free < Demand(arg)
  {
  }

  lemma OneAtATimeRespects(m: Machine, e: Event)
    requires Room(m) && OneAtATime(m, e)
    ensures Respects(m, e)
  {
    if e.Enter? {
      AdmittedDemand(m.ledger, e.arg);
      WorstWithinDemand(e.arg);
    }
  }

  lemma ChargeExact(l: Ledger, h: nat, size: Word)
    requires Exact(l) && Sum(l.heap) + size <= l.total
    ensures Exact(Charge(l, h, size)) && Sum(Charge(l, h, size).heap) == Sum(l.heap) + size
  {
    assert Charge(l, h, size).heap[1..] == l.heap;
  }

  lemma RefundExact(l: Ledger, h: nat)
    requires Exact(l)
    ensures Exact(Refund(l, h)) && Sum(Refund(l, h).heap) <= Sum(l.heap)
  {
    if l.heap != [] {
      SumReleased(l.heap, h);
    }
  }

  /** Accounting does nothing to the heap, or charges what the reply asks for, or refunds. */
  lemma PostByCases(l: Ledger, minor: nat, reply: Arg)
    ensures var p := Post(l, minor, reply).ledger;
      || (p.heap == l.heap && p.free == l.free && p.alloc == l.alloc && p.total == l.total)
      || (Asks(reply).Some? && p == Charge(l, Asks(reply).value.handle, Asks(reply).value.size))
      || (reply.RmFree? && p == Refund(l, reply.hOld))
  {
  }

  lemma PostExact(l: Ledger, minor: nat, arg: Arg, reply: Arg)
    requires Exact(l) && Sum(l.heap) + Worst(arg) <= l.total && Honest(arg, reply)
    ensures var p := Post(l, minor, reply).ledger;
      Exact(p) && p.total == l.total && Sum(p.heap) <= Sum(l.heap) + Worst(arg)
  {
    PostByCases(l, minor, reply);
    HonestWithinWorst(arg, reply);
    if Asks(reply).Some? {
      ChargeExact(l, Asks(reply).value.handle, Asks(reply).value.size);
    }
    if reply.RmFree? {
      RefundExact(l, reply.hOld);
    }
  }

  lemma StepKeepsRoom(m: Machine, e: Event)
    requires Room(m) && Respects(m, e)
    ensures Room(Step(m, e)) && Step(m, e).ledger.total == m.ledger.total
  {
    match e
    case Enter(arg) =>
      TotalWorstConcat(m.inflight, [arg]);
      assert [arg][1..] == [];
    case Leave(i, minor, reply) =>
      if i < |m.inflight| {
        TotalWorstRemove(m.inflight, i);
        PostExact(m.ledger, minor, m.inflight[i], reply.arg);
      }
  }

  ghost predicate AllRespect(total: Word, es: seq<Event>) {
    forall n :: 0 <= n < |es| ==> Respects(Run(total, es[..n]), es[n])
  }

  ghost predicate AllOneAtATime(total: Word, es: seq<Event>) {
    forall n :: 0 <= n < |es| ==> OneAtATime(Run(total, es[..n]), es[n])
  }

  lemma {:induction false} RespectfulRunsKeepRoom(total: Word, es: seq<Event>)
    requires AllRespect(total, es)
    ensures Room(Run(total, es))
  {
    if es != [] {
      var p := es[..|es| - 1];
      forall n | 0 <= n < |p| ensures Respects(Run(total, p[..n]), p[n]) {
        assert p[..n] == es[..n] && Respects(Run(total, es[..n]), es[n]);
      }
      RespectfulRunsKeepRoom(total, p);
      StepKeepsRoom(Run(total, p), es[|p|]);
    }
  }

  lemma {:induction false} OneAtATimeRunsKeepRoom(total: Word, es: seq<Event>)
    requires AllOneAtATime(total, es)
    ensures Room(Run(total, es))
  {
    if es != [] {
      var p := es[..|es| - 1];
      forall n | 0 <= n < |p| ensures OneAtATime(Run(total, p[..n]), p[n]) {
        assert p[..n] == es[..n] && OneAtATime(Run(total, es[..n]), es[n]);
      }
      OneAtATimeRunsKeepRoom(total, p);
      OneAtATimeRespects(Run(total, p), es[|p|]);
      StepKeepsRoom(Run(total, p), es[|p|]);
    }
  }

  /** With at most one accountable allocation between its check and its accounting, the limit
      holds in every reachable state: alloc_mem never exceeds total_mem and free_mem never
      underflows. */
  lemma NeverOverTheLimit(total: Word, es: seq<Event>)
    requires AllOneAtATime(total, es)
    ensures var l := Run(total, es).ledger;
      l.alloc <= total && l.free == total - l.alloc && l.alloc == Sum(l.heap)
  {
    OneAtATimeRunsKeepRoom(total, es);
    Conservation(total, es);
  }

  // ---------------------------------------------------------------- whole ioctls, one after another

  datatype Call = Call(dev: Option<(nat, nat)>, arg: Arg, driver: Arg -> Reply)

  /** A limited process that makes these calls one at a time. */
  function Serve(l: Ledger, calls: seq<Call>): (r: Ledger) {
    if calls == [] then l
    else
      var n := |calls| - 1;
      Ioctl(Serve(l, calls[..n]), true, calls[n].dev, calls[n].arg, calls[n].driver).ledger
  }

  ghost predicate WellBehaved(call: Call) {
    NoWrap(call.arg) && Honest(call.arg, call.driver(call.arg).arg)
  }

  lemma IoctlKeepsExact(l: Ledger, call: Call)
    requires Exact(l) && WellBehaved(call)
    ensures var r := Ioctl(l, true, call.dev, call.arg, call.driver).ledger; Exact(r) && r.total == l.total
  {
    if call.dev.Some? && call.dev.value.0 == DEVICE_MAJOR && !Pre(l, call.arg).refused {
      AdmittedDemand(l, call.arg);
      WorstWithinDemand(call.arg);
      PostExact(l, call.dev.value.1, call.arg, call.driver(call.arg).arg);
    }
  }

  /** Every sequence of serial ioctls, with well-behaved requests and replies, stays within the
      limit. */
  lemma {:induction false} ServeKeepsExact(l: Ledger, calls: seq<Call>)
    requires Exact(l) && forall k :: 0 <= k < |calls| ==> WellBehaved(calls[k])
    ensures Exact(Serve(l, calls)) && Serve(l, calls).total == l.total
  {
    if calls != [] {
      var n := |calls| - 1;
      ServeKeepsExact(l, calls[..n]);
      IoctlKeepsExact(Serve(l, calls[..n]), calls[n]);
    }
  }

  lemma {:induction false} ServeConserves(l: Ledger, calls: seq<Call>)
    requires Conserved(l)
    ensures Conserved(Serve(l, calls)) && Serve(l, calls).total == l.total
  {
    if calls != [] {
      var n := |calls| - 1;
      ServeConserves(l, calls[..n]);
      var call := calls[n];
      if call.dev.Some? {
        PostConserves(Serve(l, calls[..n]), call.dev.value.1, call.driver(call.arg).arg);
      }
    }
  }

  /** Serial calls as events: each one enters and then leaves; calls to other devices are none. */
  function Events(calls: seq<Call>): (es: seq<Event>) {
    if calls == [] then []
    else
      var n := |calls| - 1;
      var call := calls[n];
      if call.dev.Some? && call.dev.value.0 == DEVICE_MAJOR then
        Events(calls[..n]) + [Enter(call.arg)] + [Leave(0, call.dev.value.1, call.driver(call.arg))]
      else Events(calls[..n])
  }

  /** Serial ioctls are the runs without overlap. */
  lemma {:induction false} ServeIsSerialRun(l: Ledger, calls: seq<Call>)
    ensures RunFrom(Machine(l, []), Events(calls)) == Machine(Serve(l, calls), [])
  {
    if calls != [] {
      var n := |calls| - 1;
      var call := calls[n];
      ServeIsSerialRun(l, calls[..n]);
      if call.dev.Some? && call.dev.value.0 == DEVICE_MAJOR {
        var enter, leave := Enter(call.arg), Leave(0, call.dev.value.1, call.driver(call.arg));
        RunFromSnoc(Machine(l, []), Events(calls[..n]), enter);
        RunFromSnoc(Machine(l, []), Events(calls[..n]) + [enter], leave);
        SerialIoctl(Serve(l, calls[..n]), call.dev.value.1, call.arg, call.driver);
      }
    }
  }

  // ---------------------------------------------------------------- what the checks decide

  /** In every reachable state a request is refused exactly when its demand exceeds free_mem; it is
      then marked out of memory, with the current figures in a heap request, and otherwise left
      alone.  While the live entries are within the limit, this refuses of the power-of-two requests
      that do not wrap exactly those that would take them beyond it, and the free figure is what
      the live entries leave of the total. */
  lemma RefusedIff(total: Word, es: seq<Event>, arg: Arg)
    ensures var l := Run(total, es).ledger;
      var r := Pre(l, arg);
      && (r.refused <==> l.free < Demand(arg))
      && (!r.refused ==> r.arg == arg)
      && (r.refused && arg.VidHeap? ==> r.arg == VidHeap(arg.op, NoMemory, total, l.free))
      && (r.refused && !arg.VidHeap? ==> arg.RmAlloc? && r.arg == RmAlloc(arg.hParent, arg.hNew, arg.class_, NoMemory))
      && (Sum(l.heap) <= total ==> l.free == total - Sum(l.heap))
      && (Sum(l.heap) <= total && Asks(arg).Some? && Regular(arg) ==>
            (r.refused <==> Sum(l.heap) + RoundUp(Asks(arg).value.size, Asks(arg).value.alignment) > total))
  {
    Conservation(total, es);
    ExactIffWithinTotal(total, es);
    AdmittedDemand(Run(total, es).ledger, arg);
    if Asks(arg).Some? && Regular(arg) {
      RoundUpIsAlignUp(Asks(arg).value.size, Asks(arg).value.alignment);
    }
  }

  /** In the state a run leads to, the request is refused or its size fits free_mem. */
  ghost predicate FitsIfAdmitted(total: Word, es: seq<Event>, arg: Arg)
    requires Asks(arg).Some?
  {
    var l := Run(total, es).ledger;
    !Pre(l, arg).refused ==> Asks(arg).value.size <= l.free
  }

  /** In all reachable states an admitted size fits free_mem, if and only if its round-up does not
      wrap: one that wraps is admitted by some fresh ledger it does not fit. */
  lemma AdmittedFitsIff(arg: Arg)
    requires Asks(arg).Some?
    ensures NoWrap(arg) <==> forall total: Word, es :: FitsIfAdmitted(total, es, arg)
  {
    var a := Asks(arg).value;
    AlignUpCoversIff(a.size, a.alignment);
    if NoWrap(arg) {
      forall total: Word, es ensures FitsIfAdmitted(total, es, arg) {
        AdmittedDemand(Run(total, es).ledger, arg);
      }
    } else {
      var total: Word := AlignUp(a.size, a.alignment);
      AdmittedDemand(Run(total, []).ledger, arg);
      assert !FitsIfAdmitted(total, [], arg);
    }
  }

  // ---------------------------------------------------------------- what the caller gets

  /** The block of a refused request: out of memory, with the figures of the ledger if it is a heap
      request, and otherwise as it was. */
  function Refusal(l: Ledger, arg: Arg): (r: Arg) {
    match arg
    case VidHeap(op, _, _, _) => VidHeap(op, NoMemory, l.total, l.free)
    case RmAlloc(parent, h, class_, _) => RmAlloc(parent, h, class_, NoMemory)
    case _ => arg
  }

  /** What the accounting hands back.  It fails, with -EINVAL and without touching anything, exactly
      for the three commands that belong on the control minor; it rewrites a block exactly when it
      charges a heap request, which then reports the total and what is free after the charge; and
      a failed status keeps everything out of the ledger but device handles. */
  lemma PostAnswers(l: Ledger, minor: nat, arg: Arg)
    ensures var p := Post(l, minor, arg);
      && p.ret == (if minor != 255 && (arg.VidHeap? || arg.RmFree? || arg.RmControl?) then -22 else 0)
      && (p.ret != 0 ==> p.ledger == l && p.arg == arg)
      && (if minor == 255 && arg.VidHeap? && Asks(arg).Some? && arg.status == Okay then
            var size := Asks(arg).value.size;
            && p.ledger == Charge(l, Asks(arg).value.handle, size)
            && p.arg == VidHeap(arg.op, Okay, l.total, if size <= l.free then l.free - size else WORD + l.free - size)
          else p.arg == arg)
      && (arg.RmAlloc? && Asks(arg).Some? && arg.status == Okay ==>
            p.ledger == Charge(l, Asks(arg).value.handle, Asks(arg).value.size))
      && ((arg.VidHeap? || arg.RmFree? || (arg.RmAlloc? && arg.class_.LocalMemory?)) && arg.status != Okay ==>
            p.ledger == l)
  {
  }

  /** What the caller of the whole ioctl gets.  A process without a limit, a file that is no device
      and a device of another major get exactly what the driver says, and the ledger does not move.
      Otherwise a request whose demand exceeds free_mem gets 0 and a refusal, whatever the driver
      would have said; a failed driver call is passed on; a successful one is accounted for. */
  lemma IoctlAnswers(l: Ledger, limited: bool, dev: Option<(nat, nat)>, arg: Arg, driver: Arg -> Reply)
    ensures var r, reply := Ioctl(l, limited, dev, arg, driver), driver(arg);
      if !limited || dev.None? || dev.value.0 != 195 then
        r == PostResult(l, reply.arg, reply.ret)
      else if l.free < Demand(arg) then
        Asks(arg).Some? && r == PostResult(l, Refusal(l, arg), 0)
      else
        r == if reply.ret != 0 then PostResult(l, reply.arg, reply.ret) else Post(l, dev.value.1, reply.arg)
  {
    AdmittedDemand(l, arg);
  }

  /** In every reachable state within the limit: the caller of a power-of-two request that does not
      wrap is told that memory is exhausted, that the limit is `total` and that what the live
      entries leave of it is free, exactly when the rounded-up request would take them beyond it. */
  lemma CallerIsToldIff(total: Word, es: seq<Event>, minor: nat, arg: Arg, driver: Arg -> Reply)
    requires Asks(arg).Some? && Regular(arg) && Sum(Run(total, es).ledger.heap) <= total
    ensures var l := Run(total, es).ledger;
      var a, r, reply := Asks(arg).value, Ioctl(l, true, Some((195, minor)), arg, driver), driver(arg);
      if Sum(l.heap) + RoundUp(a.size, a.alignment) > total then
        && r.ledger == l && r.ret == 0
        && (arg.VidHeap? ==> r.arg == VidHeap(arg.op, NoMemory, total, total - Sum(l.heap)))
        && (arg.RmAlloc? ==> r.arg == RmAlloc(arg.hParent, arg.hNew, arg.class_, NoMemory))
      else
        r == if reply.ret != 0 then PostResult(l, reply.arg, reply.ret) else Post(l, minor, reply.arg)
  {
    RefusedIff(total, es, arg);
    IoctlAnswers(Run(total, es).ledger, true, Some((195, minor)), arg, driver);
    Conservation(total, es);
  }

  /** What an allocation with a device, or under a handle with one, does to the lookups: a device
      handle gets its own id, a child its parent's if there is one, and no other handle changes. */
  lemma DevicesAfterAlloc(l: Ledger, minor: nat, parent: nat, h: nat, class_: RmClass, status: Status, g: nat)
    ensures var p := Post(l, minor, RmAlloc(parent, h, class_, status)).ledger;
      DeviceOf(p.devices, g) ==
        if g != h then DeviceOf(l.devices, g)
        else if class_.Device? then class_.deviceId
        else if class_.Subdevice? && DeviceOf(l.devices, parent) != -1 then DeviceOf(l.devices, parent)
        else DeviceOf(l.devices, h)
  {
    if class_.Device? {
      I32RoundTrip(class_.deviceId);
    }
    I32RoundTrip(DeviceOf(l.devices, parent));
    var p := Post(l, minor, RmAlloc(parent, h, class_, status)).ledger;
    if p.devices != l.devices {
      assert p.devices[1..] == l.devices;
    }
  }

  // ---------------------------------------------------------------- ... and exactly when

  /** The calls in flight return, some or all of them, in any order and with any honest reply;
      nothing new enters. */
  ghost predicate Completes(m: Machine, es: seq<Event>) {
    es != [] ==>
      var n := |es| - 1;
      var r := RunFrom(m, es[..n]);
      Completes(m, es[..n]) && es[n].Leave? && es[n].i < |r.inflight| && HonestReturn(r, es[n])
  }

  lemma {:induction false} CompletionsKeepRoom(m: Machine, es: seq<Event>)
    requires Room(m) && Completes(m, es)
    ensures Room(RunFrom(m, es)) && RunFrom(m, es).ledger.total == m.ledger.total
  {
    if es != [] {
      var n := |es| - 1;
      CompletionsKeepRoom(m, es[..n]);
      StepKeepsRoom(RunFrom(m, es[..n]), es[n]);
    }
  }

  /** The honest reply that charges the most; a free comes back failed. */
  ghost function WorstReply(arg: Arg): (r: Arg) {
    match arg
    case VidHeap(AllocSize(h, size, alignment), _, t, f) =>
      if alignment == 0 then arg else VidHeap(AllocSize(h, Largest(size, alignment), alignment), Okay, t, f)
    case RmAlloc(p, n, LocalMemory(h, size, alignment), _) =>
      if alignment == 0 then arg else RmAlloc(p, n, LocalMemory(h, Largest(size, alignment), alignment), Okay)
    case RmFree(root, p, h, _) => RmFree(root, p, h, OtherError)
    case _ => arg
  }

  lemma WorstReplyIsHonest(arg: Arg)
    ensures Honest(arg, WorstReply(arg))
  {
  }

  lemma WorstReplyCharges(l: Ledger, arg: Arg)
    requires Conserved(l)
    ensures var p := Post(l, CTL_MINOR, WorstReply(arg)).ledger;
      Conserved(p) && p.total == l.total && Sum(p.heap) == Sum(l.heap) + Worst(arg)
  {
    PostConserves(l, CTL_MINOR, WorstReply(arg));
    var p := Post(l, CTL_MINOR, WorstReply(arg)).ledger;
    if Asks(arg).Some? {
      assert p.heap[1..] == l.heap;
    }
  }

  function ReturnFirst(reply: Arg): (e: Event) { Leave(0, CTL_MINOR, Reply(0, reply)) }

  /** The completion in which these calls return, in order, and charge the most. */
  ghost function Drain(args: seq<Arg>): (es: seq<Event>) {
    if args == [] then []
    else
      var n := |args| - 1;
      Drain(args[..n]) + [ReturnFirst(WorstReply(args[n]))]
  }

  lemma ReturnFirstCharges(m: Machine)
    requires Conserved(m.ledger) && m.inflight != []
    ensures var e := ReturnFirst(WorstReply(m.inflight[0]));
      var s := Step(m, e);
      && HonestReturn(m, e) && s.inflight == m.inflight[1..]
      && Conserved(s.ledger) && s.ledger.total == m.ledger.total
      && Sum(s.ledger.heap) == Sum(m.ledger.heap) + Worst(m.inflight[0])
  {
    WorstReplyIsHonest(m.inflight[0]);
    WorstReplyCharges(m.ledger, m.inflight[0]);
  }

  lemma RunFromSnoc(m: Machine, es: seq<Event>, e: Event)
    ensures RunFrom(m, es + [e]) == Step(RunFrom(m, es), e)
  {
    assert (es + [e])[..|es|] == es;
  }

  lemma RunFromExtends(m: Machine, es: seq<Event>, n: nat)
    requires n < |es|
    ensures RunFrom(m, es[..n + 1]) == Step(RunFrom(m, es[..n]), es[n])
  {
    assert es[..n + 1][..n] == es[..n];
  }

  lemma CompletesSnoc(m: Machine, es: seq<Event>, e: Event)
    requires Completes(m, es) && e.Leave? && e.i < |RunFrom(m, es).inflight| && HonestReturn(RunFrom(m, es), e)
    ensures Completes(m, es + [e])
  {
    assert (es + [e])[..|es|] == es;
  }

  ghost predicate Drained(m: Machine, r: Machine, k: nat)
    requires k <= |m.inflight|
  {
    && r.inflight == m.inflight[k..] && Conserved(r.ledger) && r.ledger.total == m.ledger.total
    && Sum(r.ledger.heap) == Sum(m.ledger.heap) + TotalWorst(m.inflight[..k])
  }

  lemma DrainStep(m: Machine, r: Machine, k: nat)
    requires k < |m.inflight| && Drained(m, r, k)
    ensures Drained(m, Step(r, ReturnFirst(WorstReply(m.inflight[k]))), k + 1)
  {
    ReturnFirstCharges(r);
    assert m.inflight[..k + 1] == m.inflight[..k] + [m.inflight[k]];
    TotalWorstConcat(m.inflight[..k], [m.inflight[k]]);
    assert [m.inflight[k]][1..] == [];
  }

  lemma {:induction false} DrainCompletes(m: Machine, k: nat)
    requires Conserved(m.ledger) && k <= |m.inflight|
    ensures Completes(m, Drain(m.inflight[..k])) && Drained(m, RunFrom(m, Drain(m.inflight[..k])), k)
  {
    if k > 0 {
      DrainCompletes(m, k - 1);
      assert m.inflight[..k][..k - 1] == m.inflight[..k - 1];
      var es, e := Drain(m.inflight[..k - 1]), ReturnFirst(WorstReply(m.inflight[k - 1]));
      DrainStep(m, RunFrom(m, es), k - 1);
      ReturnFirstCharges(RunFrom(m, es));
      CompletesSnoc(m, es, e);
      RunFromSnoc(m, es, e);
    }
  }

  /** Every honest completion, partial or whole, stays within the limit. */
  ghost predicate SafeToOverlap(m: Machine) {
    forall es | Completes(m, es) :: Exact(RunFrom(m, es).ledger)
  }

  /** Every honest completion that leaves nothing in flight does. */
  ghost predicate SafeToFinish(m: Machine) {
    forall es | Completes(m, es) && RunFrom(m, es).inflight == [] :: Exact(RunFrom(m, es).ledger)
  }

  /** Several allocations in flight together are guaranteed to complete within the limit, whatever
      an honest driver makes of them, if and only if the live entries and the most they can be
      charged for fit the total.  The check of each one alone does not decide that. */
  lemma OverlapIsSafeIff(total: Word, es: seq<Event>)
    ensures var m := Run(total, es);
      var fits := Sum(m.ledger.heap) + TotalWorst(m.inflight) <= total;
      (SafeToOverlap(m) <==> fits) && (SafeToFinish(m) <==> fits)
  {
    Conservation(total, es);
    ExactIffWithinTotal(total, es);
    var m := Run(total, es);
    if Sum(m.ledger.heap) + TotalWorst(m.inflight) <= total {
      forall cs | Completes(m, cs) ensures Exact(RunFrom(m, cs).ledger) {
        CompletionsKeepRoom(m, cs);
      }
    } else {
      DrainCompletes(m, |m.inflight|);
      assert m.inflight[..|m.inflight|] == m.inflight;
      var d := RunFrom(m, Drain(m.inflight)).ledger;
      BalancedExactIff(d.free, d.alloc, Sum(d.heap), total);
    }
  }

  function TotalDemand(args: seq<Arg>): (n: nat) {
    if args == [] then 0 else Demand(args[0]) + TotalDemand(args[1..])
  }

  lemma {:induction false} RegularDemandIsWorst(args: seq<Arg>)
    requires forall i :: 0 <= i < |args| ==> Regular(args[i])
    ensures TotalDemand(args) == TotalWorst(args)
  {
    if args != [] {
      WorstWithinDemand(args[0]);
      RegularDemandIsWorst(args[1..]);
    }
  }

  /** In terms of the checked sizes: power-of-two requests that do not wrap are safe together if and
      only if the sizes they were checked for fit beside the live entries. */
  lemma RegularOverlapIsSafeIff(total: Word, es: seq<Event>)
    requires forall i :: 0 <= i < |Run(total, es).inflight| ==> Regular(Run(total, es).inflight[i])
    ensures var m := Run(total, es);
      SafeToOverlap(m) <==> Sum(m.ledger.heap) + TotalDemand(m.inflight) <= total
  {
    OverlapIsSafeIff(total, es);
    RegularDemandIsWorst(Run(total, es).inflight);
  }

  lemma EightByOne()
    ensures AlignUp(8, 1) == 8
  {
    assert Pow2(0) == 1;
    RoundUpIsAlignUp(8, 1);
  }

  /** Two threads, each admitted by its own check, that together overdraw the limit: free_mem
      wraps to nearly 2^64 and the limit is gone. */
  lemma TwoThreadsOverdraw()
    ensures var arg := VidHeap(AllocSize(1, 8, 1), Okay, 0, 0);
      var es := [Enter(arg), Enter(arg), Leave(0, CTL_MINOR, Reply(0, arg)), Leave(0, CTL_MINOR, Reply(0, arg))];
      Run(10, es).ledger.free == WORD - 6
  {
    var arg := VidHeap(AllocSize(1, 8, 1), Okay, 0, 0);
    var es := [Enter(arg), Enter(arg), Leave(0, CTL_MINOR, Reply(0, arg)), Leave(0, CTL_MINOR, Reply(0, arg))];
    EightByOne();
    assert es[..3][..2] == es[..2] && es[..2][..1] == es[..1] && es[..1][..0] == [];
    assert Run(10, []) == Fresh(10);
    var m1 := Step(Fresh(10), es[0]);
    assert Run(10, es[..1]) == m1;
    var m2 := Step(m1, es[1]);
    assert Run(10, es[..2]) == m2 && m2.inflight == [arg, arg];
    var m3 := Step(m2, es[2]);
    assert Run(10, es[..3]) == m3 && m3.ledger.free == 2 && m3.inflight == [arg];
    assert es[..4] == es;
  }

  // ---------------------------------------------------------------- the entry lists over a run

  /** What accounting for `arg` does to the list of live allocations, as an operation on it. */
  function HeapOp(minor: nat, arg: Arg): (r: Option<Op<Word>>) {
    match arg
    case VidHeap(AllocSize(h, size, alignment), Okay, _, _) =>
      if minor == CTL_MINOR && alignment != 0 then Some(Bind(h, size)) else None
    case RmAlloc(_, _, LocalMemory(h, size, alignment), Okay) => if alignment != 0 then Some(Bind(h, size)) else None
    case RmFree(root, parent, h, Okay) =>
      if minor == CTL_MINOR && h != root && root != parent then Some(Drop(h)) else None
    case _ => None
  }

  /** ... and to the list of handles with a device. */
  function DeviceOp(l: Ledger, minor: nat, arg: Arg): (r: Option<Op<U32>>) {
    match arg
    case RmAlloc(_, h, Device(id), _) => Some(Bind(h, AsU32(id)))
    case RmAlloc(parent, h, Subdevice, _) =>
      var id := DeviceOf(l.devices, parent);
      if id == NO_DEVICE then None else Some(Bind(h, AsU32(id)))
    case RmFree(root, parent, h, Okay) =>
      if minor == CTL_MINOR && h != root && root == parent then Some(Drop(h)) else None
    case _ => None
  }

  function Applied<V>(es: seq<Entry<V>>, op: Option<Op<V>>): (r: seq<Entry<V>>) {
    if op.Some? then Apply(es, op.value) else es
  }

  lemma PostIsOps(l: Ledger, minor: nat, arg: Arg)
    ensures Post(l, minor, arg).ledger.heap == Applied(l.heap, HeapOp(minor, arg))
    ensures Post(l, minor, arg).ledger.devices == Applied(l.devices, DeviceOp(l, minor, arg))
  {
  }

  function Appended<V>(ops: seq<Op<V>>, op: Option<Op<V>>): (r: seq<Op<V>>) {
    if op.Some? then ops + [op.value] else ops
  }

  /** The operations a run performs on the two lists. */
  function HeapOps(total: Word, es: seq<Event>): (ops: seq<Op<Word>>) {
    if es == [] then []
    else
      var p, e := es[..|es| - 1], es[|es| - 1];
      Appended(HeapOps(total, p), if Accounts(Run(total, p), e) then HeapOp(e.minor, e.reply.arg) else None)
  }

  function DeviceOps(total: Word, es: seq<Event>): (ops: seq<Op<U32>>) {
    if es == [] then []
    else
      var p, e := es[..|es| - 1], es[|es| - 1];
      var m := Run(total, p);
      Appended(DeviceOps(total, p), if Accounts(m, e) then DeviceOp(m.ledger, e.minor, e.reply.arg) else None)
  }

  predicate Accounts(m: Machine, e: Event) {
    e.Leave? && e.i < |m.inflight| && e.reply.ret == 0
  }

  lemma ReplayAppended<V>(ops: seq<Op<V>>, op: Option<Op<V>>)
    ensures Replay(Appended(ops, op)) == Applied(Replay(ops), op)
  {
    if op.Some? {
      assert (ops + [op.value])[..|ops|] == ops;
    }
  }

  /** In every reachable state the two lists are the replay of the run's operations. */
  lemma {:induction false} ListsAreReplays(total: Word, es: seq<Event>)
    ensures Run(total, es).ledger.heap == Replay(HeapOps(total, es))
    ensures Run(total, es).ledger.devices == Replay(DeviceOps(total, es))
  {
    if es != [] {
      var p, e := es[..|es| - 1], es[|es| - 1];
      ListsAreReplays(total, p);
      var m := Run(total, p);
      if Accounts(m, e) {
        PostIsOps(m.ledger, e.minor, e.reply.arg);
        ReplayAppended(HeapOps(total, p), HeapOp(e.minor, e.reply.arg));
        ReplayAppended(DeviceOps(total, p), DeviceOp(m.ledger, e.minor, e.reply.arg));
      }
    }
  }

  /** Runs with distinct live keys that free only live keys: each free returns exactly the size
      its key was charged for, whatever happened in between. */
  lemma FreeReturnsOwnSize(total: Word, es: seq<Event>, h: nat)
    requires DropsLive(HeapOps(total, es)) && BindsFresh(HeapOps(total, es))
    requires h in AsMap(HeapOps(total, es))
    ensures var l, size := Run(total, es).ledger, AsMap(HeapOps(total, es))[h];
      Refund(l, h).free == Add64(l.free, size) && Refund(l, h).alloc == Sub64(l.alloc, size)
  {
    ListsAreReplays(total, es);
    ListRefinesMap(HeapOps(total, es), h);
  }

  /** A run ends with no live entry if and only if it made as many effective frees as allocations,
      whatever the handles: repeated keys and frees of absent handles included.  Then it is back
      where it started. */
  lemma EverythingFreed(total: Word, es: seq<Event>)
    ensures Run(total, es).ledger.heap == [] <==> Outstanding(HeapOps(total, es)) == 0
    ensures Outstanding(HeapOps(total, es)) == 0 ==>
      Run(total, es).ledger.alloc == 0 && Run(total, es).ledger.free == total
  {
    ListsAreReplays(total, es);
    LengthIsOutstanding(HeapOps(total, es));
    ExactIffWithinTotal(total, es);
    Conservation(total, es);
  }

  /** A free of a handle the ledger does not know changes nothing if and only if the ledger is
      empty: otherwise it refunds the oldest allocation. */
  lemma UnknownFreeIsHarmlessIff(l: Ledger, h: nat)
    requires !Live(l.heap, h)
    ensures Refund(l, h) == l <==> l.heap == []
    ensures l.heap != [] ==> Refund(l, h).heap == l.heap[..|l.heap| - 1]
  {
    if l.heap != [] {
      assert |Released(l.heap, h)| == |l.heap| - 1;
    }
  }

  /** The ledger after an object with memory is allocated and then freed. */
  function ObjectRoundTrip(
    l: Ledger, parent: nat, h: nat, owner: nat, size: Word, alignment: Word, root: nat): (r: Ledger)
  {
    var alloc := RmAlloc(parent, h, LocalMemory(owner, size, alignment), Okay);
    Post(Post(l, CTL_MINOR, alloc).ledger, CTL_MINOR, RmFree(root, parent, h, Okay)).ledger
  }

  lemma ChargeThenRefundIff(l: Ledger, h: nat, owner: nat, size: Word)
    ensures Refund(Charge(l, owner, size), h) == l <==>
      owner == h || (!Live(l.heap, h) && forall i :: 0 <= i < |l.heap| ==> l.heap[i] == Entry(owner, size))
  {
    BindThenDropIff(l.heap, Entry(owner, size), h);
    var charged := Charge(l, owner, size);
    if Refund(charged, h).heap == l.heap {
      SumReleased(charged.heap, h);
      assert charged.heap[1..] == l.heap;
      assert charged.heap[Cursor(charged.heap, h)].value == size;
      WordRoundTrip(l.free, l.alloc, size);
    }
  }

  lemma UnchargedRoundTripIff(l: Ledger, parent: nat, h: nat, owner: nat, size: Word, root: nat)
    ensures ObjectRoundTrip(l, parent, h, owner, size, 0, root) == l <==>
      h == root || (if parent == root then l.devices == [] else l.heap == [])
  {
    if h != root && parent == root && l.devices != [] {
      assert |Released(l.devices, h)| == |l.devices| - 1;
    }
    if h != root && parent != root && l.heap != [] {
      assert |Released(l.heap, h)| == |l.heap| - 1;
    }
  }

  /** Object memory is charged under its owner and freed under its own handle.  When does allocating
      an object and freeing it again restore the ledger?  If it was charged: if and only if the free
      reaches the list of allocations (the object is neither the root nor a child of it) and the two
      handles are the same, or the free misses and every live entry looks like the new one.  If it
      was not: if and only if the free does nothing, for an entry it reaches is somebody else's. */
  lemma ObjectRoundTripIff(l: Ledger, parent: nat, h: nat, owner: nat, size: Word, alignment: Word, root: nat)
    ensures ObjectRoundTrip(l, parent, h, owner, size, alignment, root) == l <==>
      if alignment != 0 then
        && h != root && parent != root
        && (owner == h || (!Live(l.heap, h) && forall i :: 0 <= i < |l.heap| ==> l.heap[i] == Entry(owner, size)))
      else
        h == root || (if parent == root then l.devices == [] else l.heap == [])
  {
    if alignment == 0 {
      UnchargedRoundTripIff(l, parent, h, owner, size, root);
    } else if h == root || parent == root {
      var after := ObjectRoundTrip(l, parent, h, owner, size, alignment, root);
      assert |after.heap| == |l.heap| + 1;
    } else {
      ChargeThenRefundIff(l, h, owner, size);
    }
  }

  lemma WordRoundTrip(free: Word, alloc: Word, size: Word)
    ensures Add64(Sub64(free, size), size) == free && Sub64(Add64(alloc, size), size) == alloc
  {
  }

  /** An object freed under a handle other than its owner refunds somebody else: here 100 bytes for
      the 5 it took. */
  lemma ObjectFreeRefundsStranger(l: Ledger)
    requires l.heap == [Entry(7, 100)]
    ensures var after := ObjectRoundTrip(l, 9, 2, 1, 5, 1, 3);
      after.heap == [Entry(1, 5)] && after.free == Add64(l.free, 95)
  {
    var charged := Charge(l, 1, 5);
    assert charged.heap == [Entry(1, 5), Entry(7, 100)];
    assert FirstMatch(charged.heap, 2) == 2 by {
      assert charged.heap[1..] == [Entry(7, 100)] && charged.heap[1..][1..] == [];
    }
    assert charged.heap[..1] + charged.heap[2..] == [Entry(1, 5)];
  }

  /** Over runs that free only live device handles, a handle's device is its newest binding. */
  lemma DeviceIsNewestBinding(total: Word, es: seq<Event>, h: nat)
    requires DropsLive(DeviceOps(total, es))
    ensures var stack := Stack(DeviceOps(total, es), h);
      DeviceOf(Run(total, es).ledger.devices, h) == if stack == [] then NO_DEVICE else AsI32(stack[0])
  {
    ListsAreReplays(total, es);
    NewestBindingWins(DeviceOps(total, es), h);
  }

  // ---------------------------------------------------------------- where device ids come from

  /** The ids supplied so far by device allocations whose driver call succeeded. */
  function Supplied(total: Word, es: seq<Event>): (ids: set<I32>) {
    if es == [] then {}
    else
      var p, e := es[..|es| - 1], es[|es| - 1];
      Supplied(total, p) +
        if Accounts(Run(total, p), e) && e.reply.arg.RmAlloc? && e.reply.arg.class_.Device?
        then {e.reply.arg.class_.deviceId} else {}
  }

  ghost predicate DrawnFrom(devices: seq<Entry<U32>>, ids: set<I32>) {
    forall j :: 0 <= j < |devices| ==> AsI32(devices[j].value) in ids
  }

  lemma BoundIdIsSupplied(l: Ledger, minor: nat, arg: Arg, ids: set<I32>)
    requires DrawnFrom(l.devices, ids)
    ensures var op := DeviceOp(l, minor, arg);
      op.Some? && op.value.Bind? ==>
        AsI32(op.value.value) in ids + if arg.RmAlloc? && arg.class_.Device? then {arg.class_.deviceId} else {}
  {
    if arg.RmAlloc? && arg.class_.Device? {
      I32RoundTrip(arg.class_.deviceId);
    } else if arg.RmAlloc? && arg.class_.Subdevice? {
      I32RoundTrip(DeviceOf(l.devices, arg.hParent));
    }
  }

  /** In every reachable state each recorded device id was supplied by an earlier device
      allocation whose driver call succeeded, through any depth of inheritance from parent to child. */
  lemma {:induction false} DeviceIdsAreSupplied(total: Word, es: seq<Event>)
    ensures DrawnFrom(Run(total, es).ledger.devices, Supplied(total, es))
  {
    if es != [] {
      var p, e := es[..|es| - 1], es[|es| - 1];
      DeviceIdsAreSupplied(total, p);
      var m := Run(total, p);
      if Accounts(m, e) {
        var op := DeviceOp(m.ledger, e.minor, e.reply.arg);
        PostIsOps(m.ledger, e.minor, e.reply.arg);
        if op.Some? && op.value.Bind? {
          BoundIdIsSupplied(m.ledger, e.minor, e.reply.arg, Supplied(total, p));
          assert AsI32(op.value.value) in Supplied(total, es);
        }
      }
    }
  }
}
