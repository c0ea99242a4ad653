/** The process-wide `gpu_device` of src/ioctl_hook.c with its two pointer lists, and the `ioctl`
    wrapper of src/dlfcn.c around it.  Every method is proved against the value model of
    LedgerModel; malloc is taken to succeed. */
module DeviceProp {
  import opened Wrappers
  import opened HandleList
  import opened Align
  import opened LedgerModel
  import opened FbInfo
  import ListHead
  import EL = EntryList

  class DeviceProp {
    var total: Word
    var free: Word
    var alloc: Word
    var memLimited: bool
    const heap: EL.EntryList<Word>
    const devices: EL.EntryList<U32>

    ghost predicate Valid()
      reads Repr()
    {
      && heap.Valid() && devices.Valid()
      && heap.Footprint() !! devices.Footprint()
      && this !in heap.Footprint() + devices.Footprint()
    }

    ghost function Repr(): (r: set<object>)
      reads this, heap, devices
    {
      {this} + heap.Footprint() + devices.Footprint()
    }

    /** The abstract ledger. */
    ghost function State(): (l: Ledger)
      requires Valid()
      reads Repr()
    {
      Ledger(total, free, alloc, heap.Entries(), devices.Entries())
    }

    /** _init_device_prop on a fresh segment. */
    constructor (limit: Word)
      ensures Valid() && State() == Fresh(limit).ledger && memLimited && fresh(Repr())
    {
      total, free, alloc, memLimited := limit, limit, 0, true;
      heap := new EL.EntryList<Word>();
      devices := new EL.EntryList<U32>();
    }

    // -------------------------------------------------------------- pre

    method PreVidHeapAlloc(arg: Arg) returns (success: bool, out: Arg)
      requires Valid() && arg.VidHeap?
      ensures PreResult(success, out) == CheckVidHeap(State(), arg)
    {
      success, out := false, arg;
      match arg.op {
        case AllocSize(_, size, alignment) =>
          if alignment != 0 {
            var alignSize := AlignUp(size, alignment);
            if free < alignSize {
              out := VidHeap(arg.op, NoMemory, total, free);
              success := true;
            }
          }
        case Info =>
        case OtherFunction =>
      }
    }

    method PreRmAlloc(arg: Arg) returns (success: bool, out: Arg)
      requires Valid() && arg.RmAlloc?
      ensures PreResult(success, out) == CheckRmAlloc(State(), arg)
    {
      success, out := false, arg;
      if arg.class_.LocalMemory? && arg.class_.alignment != 0 {
        var alignSize := AlignUp(arg.class_.size, arg.class_.alignment);
        if free < alignSize {
          out := RmAlloc(arg.hParent, arg.hNew, arg.class_, NoMemory);
          success := true;
        }
      }
    }

    method PreIoctl(arg: Arg) returns (success: bool, out: Arg)
      requires Valid()
      ensures PreResult(success, out) == Pre(State(), arg)
    {
      match arg {
        case VidHeap(_, _, _, _) => success, out := PreVidHeapAlloc(arg);
        case RmAlloc(_, _, _, _) => success, out := PreRmAlloc(arg);
        case _ => success, out := false, arg;
      }
    }

    // -------------------------------------------------------------- post

    /** The critical section shared by post_memory_rm_alloc and post_vid_heap_alloc. */
    method Account(h: nat, size: Word)
      requires Valid()
      modifies Repr()
      ensures Valid() && State() == Charge(old(State()), h, size) && memLimited == old(memLimited)
      ensures fresh(Repr() - old(Repr()))
    {
      heap.Insert(h, size);
      free := Sub64(free, size);
      alloc := Add64(alloc, size);
    }

    /** The handle gets a device: malloc, fill in, list_add. */
    method PostDeviceRmAlloc(h: nat, id: I32)
      requires Valid()
      modifies Repr()
      ensures Valid() && fresh(Repr() - old(Repr())) && memLimited == old(memLimited)
      ensures State() == old(State()).(devices := Apply(old(State()).devices, Bind(h, AsU32(id))))
    {
      devices.Insert(h, AsU32(id));
    }

    /** The handle inherits the device its parent is bound to, if any. */
    method PostCtrlRmAlloc(h: nat, parent: nat)
      requires Valid()
      modifies Repr()
      ensures Valid() && State() == Inherit(old(State()), h, parent) && memLimited == old(memLimited)
      ensures fresh(Repr() - old(Repr()))
    {
      var found := devices.Find(parent);
      var id := if found.Some? then AsI32(found.value) else NO_DEVICE;
      if id != NO_DEVICE {
        PostDeviceRmAlloc(h, id);
      }
    }

    method PostRmAlloc(arg: Arg)
      requires Valid() && arg.RmAlloc?
      modifies Repr()
      ensures Valid() && State() == AccountRmAlloc(old(State()), arg) && memLimited == old(memLimited)
      ensures fresh(Repr() - old(Repr()))
    {
      match arg.class_ {
        case Device(id) => PostDeviceRmAlloc(arg.hNew, id);
        case Subdevice => PostCtrlRmAlloc(arg.hNew, arg.hParent);
        case LocalMemory(owner, size, alignment) =>
          if arg.status.Okay? && alignment != 0 {
            Account(owner, size);
          }
        case OtherClass =>
      }
    }

    method PostVidHeapAlloc(arg: Arg) returns (out: Arg)
      requires Valid() && arg.VidHeap?
      modifies Repr()
      ensures Valid() && PostResult(State(), out, 0) == AccountVidHeap(old(State()), arg)
      ensures memLimited == old(memLimited) && fresh(Repr() - old(Repr()))
    {
      out := arg;
      if arg.op.AllocSize? && arg.status.Okay? && arg.op.alignment != 0 {
        Account(arg.op.hMemory, arg.op.size);
        out := VidHeap(arg.op, arg.status, total, free);
      }
    }

    method FreeDevicePage(page: nat)
      requires Valid()
      modifies Repr()
      ensures Valid() && fresh(Repr() - old(Repr())) && memLimited == old(memLimited)
      ensures State() == old(State()).(devices := Apply(old(State()).devices, Drop(page)))
    {
      var entry := devices.Seek(page);
      if entry != null {
        devices.Delete(entry, Cursor(devices.Entries(), page));
      }
    }

    method FreeHeapPage(page: nat)
      requires Valid()
      modifies Repr()
      ensures Valid() && State() == Refund(old(State()), page) && memLimited == old(memLimited)
      ensures fresh(Repr() - old(Repr()))
    {
      var entry := heap.Seek(page);
      if entry != null {
        free := Add64(free, heap.structs[entry].value);
        alloc := Sub64(alloc, heap.structs[entry].value);
        assert Valid() && State() == old(State()).(free := free, alloc := alloc);
        ForgetHeapEntry(entry, page);
      }
    }

    method ForgetHeapEntry(entry: ListHead.Node, ghost page: nat)
      requires Valid() && heap.nodes != [] && entry == heap.nodes[Cursor(heap.Entries(), page)]
      modifies heap.Footprint()
      ensures Valid() && heap.Footprint() <= old(heap.Footprint())
      ensures State() == old(State()).(heap := Apply(old(State()).heap, Drop(page)))
    {
      heap.Delete(entry, Cursor(heap.Entries(), page));
    }

    method PostRmFree(arg: Arg)
      requires Valid() && arg.RmFree?
      modifies Repr()
      ensures Valid() && State() == AccountRmFree(old(State()), arg) && memLimited == old(memLimited)
      ensures fresh(Repr() - old(Repr()))
    {
      if !arg.status.Okay? || arg.hOld == arg.hRoot {
        return;
      }
      if arg.hRoot == arg.hParent {
        FreeDevicePage(arg.hOld);
      } else {
        FreeHeapPage(arg.hOld);
      }
    }

    method PostIoctl(major: nat, minor: nat, arg: Arg) returns (ret: int, out: Arg)
      requires Valid()
      modifies Repr()
      ensures Valid() && fresh(Repr() - old(Repr())) && memLimited == old(memLimited)
      ensures PostResult(State(), out, ret) ==
        if major == DEVICE_MAJOR then Post(old(State()), minor, arg) else PostResult(old(State()), arg, 0)
    {
      ret, out := 0, arg;
      if major != DEVICE_MAJOR {
        return;
      }
      match arg {
        case VidHeap(_, _, _, _) =>
          if minor != CTL_MINOR { ret := -EINVAL; } else { out := PostVidHeapAlloc(arg); }
        case RmAlloc(_, _, _, _) => PostRmAlloc(arg);
        case RmFree(_, _, _, _) =>
          if minor != CTL_MINOR { ret := -EINVAL; } else { PostRmFree(arg); }
        case RmControl(_) => if minor != CTL_MINOR { ret := -EINVAL; }
        case OtherCommand =>
      }
    }

    /** The whole of src/dlfcn.c's ioctl: check, driver, account. */
    method Ioctl(dev: Option<(nat, nat)>, arg: Arg, driver: Arg -> Reply) returns (ret: int, out: Arg)
      requires Valid()
      modifies Repr()
      ensures Valid() && fresh(Repr() - old(Repr())) && memLimited == old(memLimited)
      ensures PostResult(State(), out, ret) == LedgerModel.Ioctl(old(State()), old(memLimited), dev, arg, driver)
    {
      var major, minor := 0, 0;
      if memLimited && dev.Some? {
        major, minor := dev.value.0, dev.value.1;
        if major == DEVICE_MAJOR {
          var success;
          success, out := PreIoctl(arg);
          if success {
            ret := 0;
            return;
          }
        }
      }
      var reply := driver(arg);
      ret, out := reply.ret, reply.arg;
      if memLimited && ret == 0 {
        ret, out := PostIoctl(major, minor, out);
      }
    }

    /** A whole run of ioctls over the linked lists: the lists stay well formed, the ledger is
        conserved, and it stays within the limit if every request and reply is well behaved. */
    method ServeAll(calls: seq<Call>)
      requires Valid() && memLimited && Conserved(State())
      modifies Repr()
      ensures Valid() && memLimited && fresh(Repr() - old(Repr()))
      ensures State() == Serve(old(State()), calls) && Conserved(State())
      ensures old(Exact(State())) && (forall k :: 0 <= k < |calls| ==> WellBehaved(calls[k])) ==> Exact(State())
    {
      ghost var start := State();
      for i := 0 to |calls|
        invariant Valid() && memLimited && fresh(Repr() - old(Repr()))
        invariant State() == Serve(start, calls[..i])
      {
        assert calls[..i + 1][..i] == calls[..i];
        var ret, out := Ioctl(calls[i].dev, calls[i].arg, calls[i].driver);
      }
      assert calls[..|calls|] == calls;
      ServeConserves(start, calls);
      if Exact(start) && (forall k :: 0 <= k < |calls| ==> WellBehaved(calls[k])) {
        ServeKeepsExact(start, calls);
      }
    }

    /** One critical section: the check of a call that enters, or the accounting of one that leaves.
        `inflight` are the calls inside the driver. */
    method Advance(inflight: seq<Arg>, e: LedgerModel.Event) returns (rest: seq<Arg>)
      requires Valid()
      modifies Repr()
      ensures Valid() && memLimited == old(memLimited) && fresh(Repr() - old(Repr()))
      ensures Machine(State(), rest) == Step(Machine(old(State()), inflight), e)
    {
      rest := inflight;
      match e {
        case Enter(arg) =>
          var success, out := PreIoctl(arg);
          if !success {
            rest := inflight + [arg];
          }
        case Leave(i, minor, reply) =>
          if i < |inflight| {
            rest := inflight[..i] + inflight[i + 1..];
            if reply.ret == 0 {
              var ret, out := PostIoctl(DEVICE_MAJOR, minor, reply.arg);
            }
          }
      }
    }

    /** Calls that overlap in any way: whatever the order of checks and accountings, the linked lists
        stay well formed and the record follows the runs of LedgerModel. */
    method ServeOverlapping(es: seq<LedgerModel.Event>) returns (inflight: seq<Arg>)
      requires Valid()
      modifies Repr()
      ensures Valid() && memLimited == old(memLimited) && fresh(Repr() - old(Repr()))
      ensures Machine(State(), inflight) == RunFrom(Machine(old(State()), []), es)
    {
      inflight := [];
      ghost var start := Machine(State(), []);
      for n := 0 to |es|
        invariant Valid() && memLimited == old(memLimited) && fresh(Repr() - old(Repr()))
        invariant Machine(State(), inflight) == RunFrom(start, es[..n])
      {
        RunFromExtends(start, es, n);
        inflight := Advance(inflight, es[n]);
      }
      assert es[..|es|] == es;
    }

    /** From a fresh segment that is a run of LedgerModel, so what is proved of the states of runs holds
        of the linked lists and the counters. */
    static method ServeFresh(limit: Word, es: seq<LedgerModel.Event>) returns (d: DeviceProp, inflight: seq<Arg>)
      ensures d.Valid() && d.memLimited && fresh(d.Repr())
      ensures Machine(d.State(), inflight) == Run(limit, es)
    {
      d := new DeviceProp(limit);
      inflight := d.ServeOverlapping(es);
    }

    /** post_rm_control_fb_get_info and its v2 twin: the list is rewritten exactly when the handle
        has a device, from that device's segment. */
    method PostFbGetInfo(h: nat, segment: I32 -> Option<Segment>, link: int, list: array<FbInfo.Info>)
      requires Valid() && list !in Repr()
      modifies list
      ensures Valid() && State() == old(State())
      ensures var id := DeviceOf(State().devices, h);
        if id == NO_DEVICE then list[..] == old(list[..])
        else IsRewriting(GetFbInfo(segment(id), link), old(list[..]), list[..])
    {
      var found := devices.Find(h);
      var id := if found.Some? then AsI32(found.value) else NO_DEVICE;
      if id != NO_DEVICE {
        Rewrite(GetFbInfo(segment(id), link), list);
      }
    }
  }
}
