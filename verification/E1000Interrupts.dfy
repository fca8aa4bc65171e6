/**
  Interrupt causes, masking and mitigation of the e1000: the interrupt line follows the unmasked
  causes, except that a new interrupt is held back while the mitigation timer runs.
 */
module E1000Interrupts {
  import opened Common

  /** A 32-bit register as the set of its bits that are one. */
  type Bits = set<nat>

  const TX_CAUSES: Bits := {0, 1}    // E1000_ICR_TXDW | E1000_ICR_TXQE
  const RXT0: Bits := {7}            // E1000_ICS_RXT0

  /** What the guest and the host clock can do to the device. */
  datatype Op =
    | WriteIcs(val: Bits)
    | WriteIcr(val: Bits)
    | ReadIcr
    | WriteIms(val: Bits)
    | WriteImc(val: Bits)
    | WriteDelays(rdtr: nat, radv: nat, tadv: nat, itr: nat)
    | TransmitIde
    | TimerFires
    | DeviceReset

  /** mit_update_delay */
  function Shorter(curr: nat, value: nat): nat {
    if value != 0 && (curr == 0 || value < curr) then value else curr
  }

  /** The delays that apply to an interrupt for the given causes; zero ones are not set. */
  function Delays(ide: bool, causes: Bits, rdtr: nat, radv: nat, tadv: nat, itr: nat): set<nat> {
    (if ide && causes * TX_CAUSES != {} then {tadv * 4} else {}) +
    (if rdtr != 0 && causes * RXT0 != {} then {radv * 4} else {}) +
    {itr}
  }

  /** Some nonzero delay applies. */
  ghost predicate Delayed(ide: bool, causes: Bits, rdtr: nat, radv: nat, tadv: nat, itr: nat) {
    exists x :: x in Delays(ide, causes, rdtr, radv, tadv, itr) && x != 0
  }

  lemma ItrDelays(ide: bool, causes: Bits, rdtr: nat, radv: nat, tadv: nat, itr: nat)
    ensures itr != 0 ==> Delayed(ide, causes, rdtr, radv, tadv, itr)
  {
    assert itr in Delays(ide, causes, rdtr, radv, tadv, itr);
  }

  /** The mitigation delay: the shortest of the nonzero delays that apply, zero when there is none. */
  function Delay(ide: bool, causes: Bits, rdtr: nat, radv: nat, tadv: nat, itr: nat): (d: nat)
    ensures d != 0 <==> Delayed(ide, causes, rdtr, radv, tadv, itr)
    ensures d != 0 ==> d in Delays(ide, causes, rdtr, radv, tadv, itr)
    ensures forall x :: x in Delays(ide, causes, rdtr, radv, tadv, itr) && x != 0 ==> 0 != d <= x
  {
    var d := if ide && causes * TX_CAUSES != {} then Shorter(0, tadv * 4) else 0;
    var e := if rdtr != 0 && causes * RXT0 != {} then Shorter(d, radv * 4) else d;
    var r := Shorter(e, itr);
    assert r != 0 ==> r in Delays(ide, causes, rdtr, radv, tadv, itr);
    r
  }

  // ----- States and steps -----

  /** The registers, the mitigation timer, the interrupt line and the delay request of the last transmit. */
  datatype State = State(icr: Bits, ics: Bits, ims: Bits, rdtr: nat, radv: nat, tadv: nat, itr: nat,
                         timerOn: bool, level: bool, ide: bool)
  {
    predicate Pending() { ims * icr != {} }
  }

  const POWER_ON := State({}, {}, {}, 0, 0, 0, 0, false, false, false)

  /** What setting the causes to val does. */
  ghost predicate Caused(mitigation: bool, s: State, val: Bits, t: State) {
    && t.icr == val && t.ics == val && t.ims == s.ims
    && t.rdtr == s.rdtr && t.radv == s.radv && t.tadv == s.tadv && t.itr == s.itr
    && if !t.Pending() then !t.level && t.timerOn == s.timerOn && t.ide == s.ide
       else if s.level then t.level && t.timerOn == s.timerOn && t.ide == s.ide
       // held back by the running timer
       else if s.timerOn then !t.level && t.timerOn && t.ide == s.ide
       // raised at once, starting the timer when some delay applies
       else && t.level && t.ide == (s.ide && !mitigation)
            && (t.timerOn <==> mitigation && Delayed(s.ide, s.ims * val, s.rdtr, s.radv, s.tadv, s.itr))
  }

  /** The operation takes s to t. The timer fires only while it runs. */
  ghost predicate Next(mitigation: bool, s: State, op: Op, t: State) {
    match op
    case WriteIcs(val) => Caused(mitigation, s, val + s.icr, t)
    case WriteIcr(val) => Caused(mitigation, s, s.icr - val, t)
    case ReadIcr => Caused(mitigation, s, {}, t)
    case WriteIms(val) => Caused(mitigation, s.(ims := s.ims + val), s.icr, t)
    case WriteImc(val) => Caused(mitigation, s.(ims := s.ims - val), s.icr, t)
    case WriteDelays(rdtr, radv, tadv, itr) => t == s.(rdtr := rdtr, radv := radv, tadv := tadv, itr := itr)
    case TransmitIde => t == s.(ide := true)
    case TimerFires => if s.timerOn then Caused(mitigation, s.(timerOn := false), s.icr, t) else t == s
    case DeviceReset => t == POWER_ON
  }

  /** ICS is ICR, and the line is the pending causes except while the timer runs with the line low. */
  ghost predicate Good(s: State) {
    s.ics == s.icr && (s.level ==> s.Pending()) && (s.Pending() ==> s.level || s.timerOn)
  }

  // ----- Runs -----

  /** h holds the states before, between and after the operations. */
  ghost predicate IsRun(mitigation: bool, ops: seq<Op>, h: seq<State>) {
    && |h| == |ops| + 1 && h[0] == POWER_ON
    && forall k :: 0 <= k < |ops| ==> Next(mitigation, h[k], ops[k], h[k + 1])
  }

  /** The line rises during operation i. */
  ghost predicate Rises(h: seq<State>, i: int)
    requires 0 <= i < |h| - 1
  {
    !h[i].level && h[i + 1].level
  }

  /** During operation k the running timer expires, or the device is reset. */
  ghost predicate Breaks(ops: seq<Op>, h: seq<State>, k: int)
    requires 0 <= k < |ops| <= |h|
  {
    (ops[k].TimerFires? && h[k].timerOn) || ops[k].DeviceReset?
  }

  lemma NextGood(mitigation: bool, s: State, op: Op, t: State)
    requires Good(s) && Next(mitigation, s, op, t)
    ensures Good(t)
    ensures op.ReadIcr? ==> t.icr == {} && !t.level
    ensures op.TimerFires? ==> (t.level <==> t.Pending()) || !s.timerOn
  {}

  /** The invariant holds in every state of every run. */
  lemma {:induction false} RunGood(mitigation: bool, ops: seq<Op>, h: seq<State>, k: nat)
    requires IsRun(mitigation, ops, h) && k < |h|
    ensures Good(h[k])
    ensures !(h[k].timerOn && !h[k].level) ==> (h[k].level <==> h[k].Pending())
  {
    if k > 0 {
      RunGood(mitigation, ops, h, k - 1);
      NextGood(mitigation, h[k - 1], ops[k - 1], h[k]);
    }
  }

  /** Only an expiry or a reset stops the timer, only then can the line rise while it runs, and a line
      that rises with mitigation on and ITR nonzero starts it. */
  lemma TimerStep(mitigation: bool, s: State, op: Op, t: State)
    requires Next(mitigation, s, op, t)
    ensures s.timerOn && !op.TimerFires? && !op.DeviceReset? ==> t.timerOn && (t.level ==> s.level)
    ensures !s.level && t.level && mitigation && s.itr != 0 ==> t.timerOn
    ensures !s.level && t.level && !mitigation ==> !t.timerOn
  {
    ItrDelays(s.ide, t.ims * t.icr, s.rdtr, s.radv, s.tadv, s.itr);
  }

  /** A started timer runs until it expires or the device is reset. */
  lemma {:induction false} TimerRuns(mitigation: bool, ops: seq<Op>, h: seq<State>, i: nat, j: nat)
    requires IsRun(mitigation, ops, h) && i <= j < |h| && h[i].timerOn
    requires forall k :: i <= k < j ==> !Breaks(ops, h, k)
    ensures h[j].timerOn
  {
    if i < j {
      TimerRuns(mitigation, ops, h, i, j - 1);
      assert !Breaks(ops, h, j - 1);
      TimerStep(mitigation, h[j - 1], ops[j - 1], h[j]);
    }
  }

  /** After an edge that started the timer, the next one needs an expiry or a reset: at the latest the one
      that raises the line. */
  lemma ArmedEdges(mitigation: bool, ops: seq<Op>, h: seq<State>, i: nat, j: nat)
    requires IsRun(mitigation, ops, h) && i < j < |ops| && h[i + 1].timerOn && Rises(h, j)
    ensures exists k :: i < k <= j && Breaks(ops, h, k)
  {
    if forall k :: i < k <= j ==> !Breaks(ops, h, k) {
      TimerRuns(mitigation, ops, h, i + 1, j);
      assert !Breaks(ops, h, j);
      TimerStep(mitigation, h[j], ops[j], h[j + 1]);
      assert false;
    }
  }

  /** With mitigation on, a rising edge at a nonzero ITR and any later one have an expiry or a reset between
      them. */
  lemma EdgesAreSpaced(ops: seq<Op>, h: seq<State>, i: nat, j: nat)
    requires IsRun(true, ops, h) && i < j < |ops| && Rises(h, i) && Rises(h, j) && h[i].itr != 0
    ensures exists k :: i < k <= j && Breaks(ops, h, k)
  {
    TimerStep(true, h[i], ops[i], h[i + 1]);
    ArmedEdges(true, ops, h, i, j);
  }

  /** Without mitigation the timer never runs, and nothing is held back. */
  lemma {:induction false} NoMitigation(ops: seq<Op>, h: seq<State>, k: nat)
    requires IsRun(false, ops, h) && k < |h|
    ensures !h[k].timerOn && (h[k].level <==> h[k].Pending())
  {
    if k > 0 {
      NoMitigation(ops, h, k - 1);
      RunGood(false, ops, h, k);
      TimerStep(false, h[k - 1], ops[k - 1], h[k]);
    }
  }

  // ----- Mask and causes from the writes of a run -----

  /** Bit x of the mask is set by writing it to IMS, and cleared by writing it to IMC or by a reset. */
  predicate Masks(op: Op, x: nat) { op.WriteIms? && x in op.val }
  predicate Unmasks(op: Op, x: nat) { (op.WriteImc? && x in op.val) || op.DeviceReset? }

  /** Cause x is set by writing it to ICS, and cleared by writing it to ICR, by reading ICR or by a reset. */
  predicate Raises(op: Op, x: nat) { op.WriteIcs? && x in op.val }
  predicate Clears(op: Op, x: nat) { (op.WriteIcr? && x in op.val) || op.ReadIcr? || op.DeviceReset? }

  /** Operation k sets bit x of the mask, and none after it, before n, clears it. */
  ghost predicate MaskedSince(ops: seq<Op>, k: int, n: int, x: nat)
    requires 0 <= k < n <= |ops|
  {
    Masks(ops[k], x) && forall m :: k < m < n ==> !Unmasks(ops[m], x)
  }

  /** The mask holds exactly the bits written to IMS and not cleared since. */
  lemma {:induction false} RunMask(mitigation: bool, ops: seq<Op>, h: seq<State>, n: nat, x: nat)
    requires IsRun(mitigation, ops, h) && n <= |ops|
    ensures x in h[n].ims <==> exists k :: 0 <= k < n && MaskedSince(ops, k, n, x)
  {
    if n > 0 {
      var m := n - 1;
      RunMask(mitigation, ops, h, m, x);
      assert Next(mitigation, h[m], ops[m], h[m + 1]);
      assert x in h[n].ims <==> Masks(ops[m], x) || (x in h[m].ims && !Unmasks(ops[m], x));
      hide Next;
      if Masks(ops[m], x) {
        assert MaskedSince(ops, m, n, x);
      }
      if k :| 0 <= k < m && MaskedSince(ops, k, m, x) {
        if !Unmasks(ops[m], x) {
          assert MaskedSince(ops, k, n, x);
        }
      }
      if k :| 0 <= k < n && MaskedSince(ops, k, n, x) {
        if k < m {
          assert MaskedSince(ops, k, m, x);
        }
      }
    }
  }

  ghost predicate CausedSince(ops: seq<Op>, k: int, n: int, x: nat)
    requires 0 <= k < n <= |ops|
  {
    Raises(ops[k], x) && forall m :: k < m < n ==> !Clears(ops[m], x)
  }

  /** ICR holds exactly the causes written to ICS and not cleared since. */
  lemma {:induction false} RunCauses(mitigation: bool, ops: seq<Op>, h: seq<State>, n: nat, x: nat)
    requires IsRun(mitigation, ops, h) && n <= |ops|
    ensures x in h[n].icr <==> exists k :: 0 <= k < n && CausedSince(ops, k, n, x)
  {
    if n > 0 {
      var m := n - 1;
      RunCauses(mitigation, ops, h, m, x);
      assert Next(mitigation, h[m], ops[m], h[m + 1]);
      assert x in h[n].icr <==> Raises(ops[m], x) || (x in h[m].icr && !Clears(ops[m], x));
      hide Next;
      if Raises(ops[m], x) {
        assert CausedSince(ops, m, n, x);
      }
      if k :| 0 <= k < m && CausedSince(ops, k, m, x) {
        if !Clears(ops[m], x) {
          assert CausedSince(ops, k, n, x);
        }
      }
      if k :| 0 <= k < n && CausedSince(ops, k, n, x) {
        if k < m {
          assert CausedSince(ops, k, m, x);
        }
      }
    }
  }

  // ----- The device -----

  class Interrupts {
    const mitigation: bool     // E1000_FLAG_MIT
    var icr: Bits
    var ics: Bits
    var ims: Bits
    var rdtr: nat
    var radv: nat
    var tadv: nat
    var itr: nat
    var timerOn: bool          // mit_timer_on
    var level: bool            // mit_irq_level, the interrupt line
    var ide: bool              // mit_ide

    function Now(): State
      reads this
    {
      State(icr, ics, ims, rdtr, radv, tadv, itr, timerOn, level, ide)
    }

    constructor (mitigation: bool)
      ensures this.mitigation == mitigation && Now() == POWER_ON
    {
      this.mitigation := mitigation;
      icr, ics, ims := {}, {}, {};
      rdtr, radv, tadv, itr := 0, 0, 0, 0;
      timerOn, level, ide := false, false, false;
    }

    /** set_interrupt_cause, for a device before the 8257x. */
    method SetInterruptCause(val: Bits)
      modifies this
      ensures Caused(mitigation, old(Now()), val, Now())
    {
      hide Delayed;
      icr := val;
      ics := val;
      var pending := ims * icr;
      if !level && pending != {} {
        if timerOn {
          return;
        }
        if mitigation {
          var delay := Delay(ide, pending, rdtr, radv, tadv, itr);
          if delay != 0 {
            timerOn := true;
          }
          ide := false;
        }
      }
      level := pending != {};
    }

    /** set_ics */
    method SetIcs(val: Bits)
      modifies this
      ensures Caused(mitigation, old(Now()), val + old(icr), Now())
    {
      SetInterruptCause(val + icr);
    }

    /** e1000_mit_timer: the timer expires. Afterwards the line is exactly the pending causes. */
    method MitTimer()
      requires timerOn
      modifies this
      ensures Next(mitigation, old(Now()), TimerFires, Now()) && (level <==> Now().Pending())
    {
      timerOn := false;
      SetInterruptCause(icr);
    }

    /** e1000_reset, as far as interrupts go. */
    method DoReset()
      modifies this
      ensures Now() == POWER_ON
    {
      timerOn, level, ide := false, false, false;
      icr, ics, ims := {}, {}, {};
      rdtr, radv, tadv, itr := 0, 0, 0, 0;
    }

    /** One operation; a read returns the causes it clears. */
    method Step(op: Op) returns (r: Bits)
      modifies this
      ensures Next(mitigation, old(Now()), op, Now())
      ensures r == if op.ReadIcr? then old(icr) else {}
    {
      hide Caused;
      r := {};
      match op {
        case WriteIcs(val) =>
          SetIcs(val);
        case WriteIcr(val) =>
          SetInterruptCause(icr - val);
        case ReadIcr =>
          r := icr;
          SetInterruptCause({});
        case WriteIms(val) =>
          ims := ims + val;
          SetIcs({});
          assert {} + old(icr) == old(icr);
        case WriteImc(val) =>
          ims := ims - val;
          SetIcs({});
          assert {} + old(icr) == old(icr);
        case WriteDelays(a, b, c, d) =>
          rdtr, radv, tadv, itr := a, b, c, d;
        case TransmitIde =>
          ide := true;
        case TimerFires =>
          if timerOn {
            MitTimer();
          }
        case DeviceReset =>
          DoReset();
      }
    }
  }

  /** Any run from power-on. What the lemmas above say of runs, they say of the states returned. */
  method Run(mitigation: bool, ops: seq<Op>) returns (h: seq<State>)
    ensures IsRun(mitigation, ops, h)
  {
    hide Next;
    var d := new Interrupts(mitigation);
    h := [d.Now()];
    for i := 0 to |ops|
      invariant fresh(d) && d.mitigation == mitigation
      invariant |h| == i + 1 && h[0] == POWER_ON && h[i] == d.Now()
      invariant forall k :: 0 <= k < i ==> Next(mitigation, h[k], ops[k], h[k + 1])
    {
      var _ := d.Step(ops[i]);
      h := h + [d.Now()];
    }
  }
}
