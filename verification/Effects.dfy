/** What a handler leaves behind, register by register, whatever it computed. */
module Effects {
  import opened Bits
  import opened Isa
  import opened FlatMemory
  import opened Handlers

  /** No register below the PC but `rd` has moved. */
  predicate OnlyRd(i: Instr, before: Regs, after: Regs)
    requires Decoded(i)
  {
    forall r :: 0 <= r < 32 && r != i.rd ==> ReadReg(after, r) == ReadReg(before, r)
  }

  /** What went into `rd`; x0 is written too, and reads as zero all the same. */
  function Rd(i: Instr, o: Outcome): U64
    requires Decoded(i) && o.Next?
  {
    o.s.regs[i.rd]
  }

  /** On to the next word with nothing but `rd` changed. */
  predicate Straight(i: Instr, s: Arch, o: Outcome)
    requires Decoded(i)
  {
    match o
    case Next(t) =>
      && OnlyRd(i, s.regs, t.regs) && Pc(t) == (Pc(s) + 4) % TWO64
      && t.csr == s.csr && t.mem == s.mem && t.retired == s.retired
    case _ => false
  }

  /** Off to `target` with nothing but `rd` changed, which holds the return address. */
  predicate Linked(i: Instr, s: Arch, o: Outcome, target: U64)
    requires Decoded(i)
  {
    match o
    case Next(t) =>
      && OnlyRd(i, s.regs, t.regs) && t.regs[i.rd] == (Pc(s) + 4) % TWO64 && Pc(t) == target
      && t.csr == s.csr && t.mem == s.mem && t.retired == s.retired
    case _ => false
  }

  /** Nothing but the PC has changed. */
  predicate Moved(s: Arch, o: Outcome, target: U64) {
    match o
    case Next(t) =>
      && (forall r :: 0 <= r < 32 ==> ReadReg(t.regs, r) == ReadReg(s.regs, r)) && Pc(t) == target
      && t.csr == s.csr && t.mem == s.mem && t.retired == s.retired
    case _ => false
  }

  lemma DeliverIs(i: Instr, s: Arch, v: U64)
    requires Decoded(i)
    ensures var o := Next(NextPc(SetRd(s, i, v))); Straight(i, s, o) && Rd(i, o) == v
  {
  }

  lemma LinkIs(i: Instr, s: Arch, target: U64)
    requires Decoded(i)
    ensures Linked(i, s, Next(SetPc(SetRd(s, i, Wrap(Pc(s) + 4)), target)), target)
  {
  }

  lemma MoveIs(s: Arch, target: U64)
    ensures Moved(s, Next(SetPc(s, target)), target)
  {
  }
}
