/**
 Register states: what a process keeps while it is suspended, what the processor holds, and the swap
 between the two.
 */
module Contexts {

  /** The registers of the same width on both sides. */
  datatype Registers = Registers(
    rflags: nat, rip: nat, rsp: nat, ds: nat, es: nat, fs: nat, gs: nat, dr0: nat, dr1: nat, dr2: nat,
    dr3: nat, dr6: nat, dr7: nat, rax: nat, rbx: nat, rcx: nat, rdx: nat, rsi: nat, rdi: nat, rbp: nat,
    r8: nat, r9: nat, r10: nat, r11: nat, r12: nat, r13: nat, r14: nat, r15: nat, fxsave: seq<nat>)

  /** A suspended state; its selectors are 64 bits wide. */
  datatype Context = Context(cs: nat, ss: nat, regs: Registers)

  /** The state an interrupt handler sees and goes back to; its selectors are 8 bits wide. */
  datatype Live = Live(cs: nat, ss: nat, regs: Registers)
  {
    predicate Valid() {
      cs < 256 && ss < 256
    }

    /** The interrupt came from the kernel. */
    predicate FromKernel() {
      cs % 4 == 0
    }
  }

  function ToContext(s: Live): Context {
    Context(s.cs, s.ss, s.regs)
  }

  function ToLive(c: Context): (s: Live)
    ensures s.Valid()
  {
    Live(c.cs % 256, c.ss % 256, c.regs)
  }

  /** Swaps a suspended and a live state, register by register. */
  method SwapContext(context: Context, live: Live) returns (context': Context, live': Live)
    requires live.Valid()
    ensures context' == ToContext(live) && live' == ToLive(context)
    ensures context'.regs == live.regs && context'.cs == live.cs && context'.ss == live.ss
    ensures live'.regs == context.regs && live'.cs == context.cs % 256 && live'.ss == context.ss % 256
  {
    context', live' := context, live;
    context', live' := context'.(regs := context'.regs.(fxsave := live'.regs.fxsave)),
                       live'.(regs := live'.regs.(fxsave := context'.regs.fxsave));
    context', live' := context'.(regs := context'.regs.(rflags := live'.regs.rflags)),
                       live'.(regs := live'.regs.(rflags := context'.regs.rflags));
    context', live' := context'.(regs := context'.regs.(rip := live'.regs.rip)),
                       live'.(regs := live'.regs.(rip := context'.regs.rip));
    live', context' := live'.(cs := context'.cs % 256), context'.(cs := live'.cs);
    context', live' := context'.(regs := context'.regs.(rsp := live'.regs.rsp)),
                       live'.(regs := live'.regs.(rsp := context'.regs.rsp));
    live', context' := live'.(ss := context'.ss % 256), context'.(ss := live'.ss);
    context', live' := context'.(regs := context'.regs.(ds := live'.regs.ds)),
                       live'.(regs := live'.regs.(ds := context'.regs.ds));
    context', live' := context'.(regs := context'.regs.(es := live'.regs.es)),
                       live'.(regs := live'.regs.(es := context'.regs.es));
    context', live' := context'.(regs := context'.regs.(fs := live'.regs.fs)),
                       live'.(regs := live'.regs.(fs := context'.regs.fs));
    context', live' := context'.(regs := context'.regs.(gs := live'.regs.gs)),
                       live'.(regs := live'.regs.(gs := context'.regs.gs));
    context', live' := context'.(regs := context'.regs.(dr0 := live'.regs.dr0)),
                       live'.(regs := live'.regs.(dr0 := context'.regs.dr0));
    context', live' := context'.(regs := context'.regs.(dr1 := live'.regs.dr1)),
                       live'.(regs := live'.regs.(dr1 := context'.regs.dr1));
    context', live' := context'.(regs := context'.regs.(dr2 := live'.regs.dr2)),
                       live'.(regs := live'.regs.(dr2 := context'.regs.dr2));
    context', live' := context'.(regs := context'.regs.(dr3 := live'.regs.dr3)),
                       live'.(regs := live'.regs.(dr3 := context'.regs.dr3));
    context', live' := context'.(regs := context'.regs.(dr6 := live'.regs.dr6)),
                       live'.(regs := live'.regs.(dr6 := context'.regs.dr6));
    context', live' := context'.(regs := context'.regs.(dr7 := live'.regs.dr7)),
                       live'.(regs := live'.regs.(dr7 := context'.regs.dr7));
    context', live' := context'.(regs := context'.regs.(rax := live'.regs.rax)),
                       live'.(regs := live'.regs.(rax := context'.regs.rax));
    context', live' := context'.(regs := context'.regs.(rbx := live'.regs.rbx)),
                       live'.(regs := live'.regs.(rbx := context'.regs.rbx));
    context', live' := context'.(regs := context'.regs.(rcx := live'.regs.rcx)),
                       live'.(regs := live'.regs.(rcx := context'.regs.rcx));
    context', live' := context'.(regs := context'.regs.(rdx := live'.regs.rdx)),
                       live'.(regs := live'.regs.(rdx := context'.regs.rdx));
    context', live' := context'.(regs := context'.regs.(rsi := live'.regs.rsi)),
                       live'.(regs := live'.regs.(rsi := context'.regs.rsi));
    context', live' := context'.(regs := context'.regs.(rdi := live'.regs.rdi)),
                       live'.(regs := live'.regs.(rdi := context'.regs.rdi));
    context', live' := context'.(regs := context'.regs.(rbp := live'.regs.rbp)),
                       live'.(regs := live'.regs.(rbp := context'.regs.rbp));
    context', live' := context'.(regs := context'.regs.(r8 := live'.regs.r8)),
                       live'.(regs := live'.regs.(r8 := context'.regs.r8));
    context', live' := context'.(regs := context'.regs.(r9 := live'.regs.r9)),
                       live'.(regs := live'.regs.(r9 := context'.regs.r9));
    context', live' := context'.(regs := context'.regs.(r10 := live'.regs.r10)),
                       live'.(regs := live'.regs.(r10 := context'.regs.r10));
    context', live' := context'.(regs := context'.regs.(r11 := live'.regs.r11)),
                       live'.(regs := live'.regs.(r11 := context'.regs.r11));
    context', live' := context'.(regs := context'.regs.(r12 := live'.regs.r12)),
                       live'.(regs := live'.regs.(r12 := context'.regs.r12));
    context', live' := context'.(regs := context'.regs.(r13 := live'.regs.r13)),
                       live'.(regs := live'.regs.(r13 := context'.regs.r13));
    context', live' := context'.(regs := context'.regs.(r14 := live'.regs.r14)),
                       live'.(regs := live'.regs.(r14 := context'.regs.r14));
    context', live' := context'.(regs := context'.regs.(r15 := live'.regs.r15)),
                       live'.(regs := live'.regs.(r15 := context'.regs.r15));
  }

  /** Two swaps with nothing in between restore the suspended state exactly when its selectors fit in 8 bits. */
  lemma SwapsCancel(c: Context, s: Live)
    ensures ToLive(ToContext(s)) == s <==> s.Valid()
    ensures ToContext(ToLive(c)) == c <==> c.cs < 256 && c.ss < 256
  {}
}
