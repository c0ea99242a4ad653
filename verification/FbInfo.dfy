/** The rewriting of frame-buffer information that a container sees
    (src/ioctl_hook.c:374-507). */
module FbInfo {
  import opened Wrappers
  import opened Align
  import opened LedgerModel

  datatype Index = TotalRamSize | HeapSize | HeapFree | OtherIndex(n: nat)

  /** NV2080_CTRL_FB_INFO: `data` is an NvU32, in KiB for the three indices above. */
  datatype Info = Info(index: Index, data: U32)

  /** The shared segment of a device, as another process may have left it. */
  datatype Segment = Segment(pid: nat, total: Word, free: Word)

  const NO_FREE: Word := WORD - 1

  function Truncated(x: Word): (u: U32) { x % 0x1_0000_0000 }

  datatype Limits = Limits(total: Word, free: Word)

  /** __get_fb_info: no segment, or one nobody owns, leaves the defaults; the free value counts
      only when the owner-alive test succeeds.  `link` is what readlink returns for the owner's
      executable: a length, or -1; the test compares it with 0. */
  function GetFbInfo(segment: Option<Segment>, link: int): (r: Limits) {
    if segment.None? || segment.value.pid == 0 then Limits(0, NO_FREE)
    else Limits(segment.value.total / 1024, if link == 0 then segment.value.free / 1024 else NO_FREE)
  }

  function Rewritten(limits: Limits, info: Info): (r: Info) {
    match info.index
    case OtherIndex(_) => info
    case HeapFree =>
      info.(data := if limits.free != NO_FREE then Truncated(limits.free)
                    else if limits.total > 0 then Truncated(limits.total) else info.data)
    case _ => info.(data := if limits.total > 0 then Truncated(limits.total) else info.data)
  }

  ghost predicate IsRewriting(limits: Limits, before: seq<Info>, after: seq<Info>) {
    |after| == |before| && forall i :: 0 <= i < |before| ==> after[i] == Rewritten(limits, before[i])
  }

  /** The loop of post_rm_control_fb_get_info and its v2 twin. */
  method Rewrite(limits: Limits, list: array<Info>)
    modifies list
    ensures IsRewriting(limits, old(list[..]), list[..])
  {
    for i := 0 to list.Length
      invariant forall j :: 0 <= j < i ==> list[j] == Rewritten(limits, old(list[j]))
      invariant forall j :: i <= j < list.Length ==> list[j] == old(list[j])
    {
      var info := list[i];
      match info.index {
        case TotalRamSize =>
          list[i] := info.(data := if limits.total > 0 then Truncated(limits.total) else info.data);
        case HeapSize =>
          list[i] := info.(data := if limits.total > 0 then Truncated(limits.total) else info.data);
        case HeapFree =>
          if limits.free != NO_FREE {
            list[i] := info.(data := Truncated(limits.free));
          } else if limits.total > 0 {
            list[i] := info.(data := Truncated(limits.total));
          }
        case OtherIndex(_) =>
      }
    }
  }

  /** Asking twice gives the same answer as asking once. */
  lemma RewritingIsIdempotent(limits: Limits, a: seq<Info>, b: seq<Info>, c: seq<Info>)
    requires IsRewriting(limits, a, b) && IsRewriting(limits, b, c)
    ensures b == c
  {
    forall i | 0 <= i < |a| ensures b[i] == c[i] {
      assert Rewritten(limits, Rewritten(limits, a[i])) == Rewritten(limits, a[i]);
    }
  }

  /** The figures, entry by entry.  A segment that nobody owns changes nothing.  Otherwise both sizes
      become the total in KiB if it is at least one; the free size becomes the free memory in KiB if
      the owner test succeeded, and the total if not; all cut to 32 bits.  Nothing else changes. */
  lemma ReportedFigures(segment: Option<Segment>, link: int, before: seq<Info>, after: seq<Info>)
    requires IsRewriting(GetFbInfo(segment, link), before, after)
    ensures segment.None? || segment.value.pid == 0 ==> after == before
    ensures segment.Some? && segment.value.pid != 0 ==>
      forall i :: 0 <= i < |before| ==>
        var kib, was, now := segment.value.total / 1024, before[i], after[i];
        && now.index == was.index
        && (was.index == TotalRamSize || was.index == HeapSize ==>
              now.data == if kib >= 1 then kib % 4294967296 else was.data)
        && (was.index == HeapFree ==>
              now.data == if link == 0 then (segment.value.free / 1024) % 4294967296
                          else if kib >= 1 then kib % 4294967296 else was.data)
        && (was.index.OtherIndex? ==> now == was)
  {
    if segment.None? || segment.value.pid == 0 {
      assert forall i :: 0 <= i < |before| ==> after[i] == before[i];
    }
  }

  /** What a container is shown of the ledger after any run: with a segment of at least 1 KiB and
      below 4 TiB whose live entries are within the limit, both sizes are the limit, and the free
      size is what the live entries leave of it if the owner test succeeded, else the limit too. */
  lemma ContainerSeesItsLimit(
    total: Word, es: seq<Event>, pid: nat, link: int, before: seq<Info>, after: seq<Info>)
    requires pid != 0 && 1024 <= total < 4294967296 * 1024 && Sum(Run(total, es).ledger.heap) <= total
    requires var l := Run(total, es).ledger;
      IsRewriting(GetFbInfo(Some(Segment(pid, l.total, l.free)), link), before, after)
    ensures forall i :: 0 <= i < |before| ==>
      && (before[i].index == TotalRamSize || before[i].index == HeapSize ==> after[i].data == total / 1024)
      && (before[i].index == HeapFree ==>
            after[i].data == (if link == 0 then total - Sum(Run(total, es).ledger.heap) else total) / 1024)
  {
    var l := Run(total, es).ledger;
    Conservation(total, es);
    ExactIffWithinTotal(total, es);
    ReportedFigures(Some(Segment(pid, l.total, l.free)), link, before, after);
    InReport(total);
    InReport(l.free);
  }

  lemma InReport(x: Word)
    requires x < 4294967296 * 1024
    ensures (x / 1024) % 4294967296 == x / 1024
  {
  }

  /** Every free figure in the list is at most every size figure. */
  ghost predicate Consistent(infos: seq<Info>) {
    forall i, j :: 0 <= i < |infos| && 0 <= j < |infos| && infos[i].index == HeapFree && infos[j].index == HeapSize
      ==> infos[i].data <= infos[j].data
  }

  predicate FitsReport(total: Word) {
    var kib := total / 1024;
    kib < 0x1_0000_0000 || kib % 0x1_0000_0000 == 0xFFFF_FFFF
  }

  /** A consistent list stays consistent, whichever way the owner-alive test goes. */
  lemma RewritingIsConsistent(segment: Option<Segment>, link: int, before: seq<Info>, after: seq<Info>)
    requires segment.Some? ==> segment.value.free <= segment.value.total && FitsReport(segment.value.total)
    requires Consistent(before) && IsRewriting(GetFbInfo(segment, link), before, after)
    ensures Consistent(after)
  {
    var limits := GetFbInfo(segment, link);
    forall i, j | 0 <= i < |after| && 0 <= j < |after| && after[i].index == HeapFree && after[j].index == HeapSize
      ensures after[i].data <= after[j].data
    {
      assert before[i].index == HeapFree && before[j].index == HeapSize;
    }
  }

  /** Exactly the totals of FitsReport are safe to report: for any other total there is a free
      value within it whose report exceeds the reported size. */
  lemma ReportIsSoundIff(total: Word)
    ensures FitsReport(total) <==>
      forall free: Word | free <= total :: Truncated(free / 1024) <= Truncated(total / 1024)
  {
    if FitsReport(total) {
      forall free: Word | free <= total ensures Truncated(free / 1024) <= Truncated(total / 1024) {
      }
    } else {
      var free: Word := 0xFFFF_FFFF * 1024;
      assert free <= total && Truncated(free / 1024) == 0xFFFF_FFFF;
    }
  }
}
