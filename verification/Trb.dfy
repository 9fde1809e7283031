/** Transfer request blocks (TRBs), as the producer writes them and the controller reads them. */
module Trb {
  import opened Basics

  /** The TRB types that occur on a transfer ring. A cleared slot has type 0. */
  datatype Kind = Cleared | Normal | SetupStage | DataStage | StatusStage | Isoch | Link | EventData | Noop

  /**
   * The fourth word of a TRB without its cycle bit. Bit 1 is Toggle Cycle in a link TRB and
   * Evaluate Next TRB in every other one; `extra` holds the bits that the ring code only
   * passes through (IDT, TRT, DIR, Frame ID, SIA, TBC and TLBPC).
   */
  datatype Control = Control(kind: Kind, bit1: bool, isp: bool, chain: bool, ioc: bool, bei: bool, extra: nat)

  /**
   * Everything in a TRB but the cycle bit: two address words, the two fields of word c that the driver uses,
   * control.
   */
  datatype Body = Body(a: nat, b: nat, bytes: nat, tdSize: nat, control: Control)

  datatype TRB = TRB(body: Body, cycle: bool) {
    predicate IsLink() { body.control.kind == Link }
  }

  const CLEARED_CONTROL := Control(Cleared, false, false, false, false, false, 0)
  const CLEARED_BODY := Body(0, 0, 0, 0, CLEARED_CONTROL)

  /** The bus address of slot i of a ring at `phys`. */
  function SlotAddress(phys: nat, i: nat): nat {
    phys + i * TRB_SIZE
  }

  /** The address a link or event-data TRB carries; its low four bits are reserved. */
  function Address(body: Body): nat {
    body.b * 0x1_0000_0000 + (body.a - body.a % 16)
  }

  /** A body with its two address words set. */
  function WithAddress(body: Body, addr: nat): Body {
    body.(a := addr % 0x1_0000_0000, b := addr / 0x1_0000_0000 % 0x1_0000_0000)
  }

  /** A link back to the first TRB of the ring at `phys` that toggles the consumer's cycle state. */
  predicate IsHomeLink(t: TRB, phys: nat) {
    t.IsLink() && t.body.control.bit1 && Address(t.body) == phys
  }

  /** The bodies of mem[lo..hi]. */
  function Bodies(mem: seq<TRB>, lo: int, hi: int): (r: seq<Body>)
    requires 0 <= lo <= hi <= |mem|
    ensures |r| == hi - lo
    decreases hi
  {
    if lo == hi then [] else Bodies(mem, lo, hi - 1) + [mem[hi - 1].body]
  }

  /** The link at the end of a new ring at `phys`. */
  function HomeLink(phys: nat): (t: TRB)
    requires phys % TRB_SIZE == 0 && phys < 0x1_0000_0000_0000_0000
    ensures IsHomeLink(t, phys) && !t.cycle
  {
    TRB(WithAddress(CLEARED_BODY.(control := CLEARED_CONTROL.(kind := Link, bit1 := true)), phys), false)
  }

  lemma {:induction false} BodiesAt(mem: seq<TRB>, lo: int, hi: int, k: int)
    requires 0 <= lo <= k < hi <= |mem|
    ensures Bodies(mem, lo, hi)[k - lo] == mem[k].body
    decreases hi
  {
    if k < hi - 1 { BodiesAt(mem, lo, hi - 1, k); }
  }

  lemma {:induction false} BodiesSplit(mem: seq<TRB>, lo: int, mid: int, hi: int)
    requires 0 <= lo <= mid <= hi <= |mem|
    ensures Bodies(mem, lo, hi) == Bodies(mem, lo, mid) + Bodies(mem, mid, hi)
    decreases hi
  {
    if mid < hi { BodiesSplit(mem, lo, mid, hi - 1); }
  }

  lemma {:induction false} BodiesKept(m0: seq<TRB>, m1: seq<TRB>, lo: int, hi: int)
    requires 0 <= lo <= hi <= |m0| && hi <= |m1|
    requires forall k :: lo <= k < hi ==> m0[k].body == m1[k].body
    ensures Bodies(m0, lo, hi) == Bodies(m1, lo, hi)
    decreases hi
  {
    if lo < hi { BodiesKept(m0, m1, lo, hi - 1); }
  }

  /** A range copied to the start of a memory keeps its bodies. */
  lemma {:induction false} BodiesCopied(m0: seq<TRB>, m1: seq<TRB>, lo: int, n: nat)
    requires 0 <= lo <= lo + n <= |m0| && n <= |m1|
    requires forall k :: 0 <= k < n ==> m1[k].body == m0[lo + k].body
    ensures Bodies(m1, 0, n) == Bodies(m0, lo, lo + n)
    decreases n
  {
    if n > 0 { BodiesCopied(m0, m1, lo, n - 1); }
  }
}
