/**
 The seccomp hook: an interpreter for the classic BPF subset the hook uses, the
 two compiled filters, and the handler table that receives what they notify.
 */
module SeccompFilter {
  import opened Common

  // ----- classic BPF -----

  /** An unsigned 32-bit value. */
  type Word = w: int | 0 <= w < 0x1_0000_0000

  /** struct seccomp_data; `args` holds six 64-bit words. */
  datatype SeccompData = SeccompData(nr: Word, arch: Word, instructionPointer: int, args: seq<int>)

  datatype SockFilter = SockFilter(code: nat, jt: nat, jf: nat, k: Word)

  const LD_W_ABS: nat := 0x20
  const JMP_JEQ_K: nat := 0x15
  const JMP_JSET_K: nat := 0x45
  const RET_K: nat := 0x06

  const SYSCALL_NR: Word := 0
  const SYSCALL_ARCH: Word := 4

  /** Byte offsets of the low words of args[0] and args[1] in the little-endian layout. */
  const SYSCALL_ARG0: Word := 16
  const SYSCALL_ARG1: Word := 24

  function LowWord(x: int): Word {
    x % 0x1_0000_0000
  }

  function HighWord(x: int): Word {
    x / 0x1_0000_0000 % 0x1_0000_0000
  }

  /** Whether two words have a set bit in common, bit by bit. */
  predicate Intersects(a: nat, b: nat) {
    a != 0 && b != 0 && ((a % 2 == 1 && b % 2 == 1) || Intersects(a / 2, b / 2))
  }

  predicate WellFormed(d: SeccompData) {
    |d.args| == 6
  }

  /** The aligned 32-bit word at an offset; seccomp accepts offsets 0, 4, ..., 60. */
  function Load(d: SeccompData, offset: Word): Option<Word>
    requires WellFormed(d)
  {
    if offset == SYSCALL_NR then Some(d.nr)
    else if offset == SYSCALL_ARCH then Some(d.arch)
    else if offset == 8 then Some(LowWord(d.instructionPointer))
    else if offset == 12 then Some(HighWord(d.instructionPointer))
    else if offset == 16 then Some(LowWord(d.args[0]))
    else if offset == 20 then Some(HighWord(d.args[0]))
    else if offset == 24 then Some(LowWord(d.args[1]))
    else if offset == 28 then Some(HighWord(d.args[1]))
    else if offset == 32 then Some(LowWord(d.args[2]))
    else if offset == 36 then Some(HighWord(d.args[2]))
    else if offset == 40 then Some(LowWord(d.args[3]))
    else if offset == 44 then Some(HighWord(d.args[3]))
    else if offset == 48 then Some(LowWord(d.args[4]))
    else if offset == 52 then Some(HighWord(d.args[4]))
    else if offset == 56 then Some(LowWord(d.args[5]))
    else if offset == 60 then Some(HighWord(d.args[5]))
    else None
  }

  /** Runs from instruction `pc` with accumulator `acc`; None is a filter the kernel would reject. */
  function Execute(prog: seq<SockFilter>, d: SeccompData, pc: nat, acc: Word): Option<Word>
    requires WellFormed(d)
    decreases |prog| - pc
  {
    if pc >= |prog| then None
    else
      var ins := prog[pc];
      if ins.code == LD_W_ABS then
        var w := Load(d, ins.k);
        if w == None then None else Execute(prog, d, pc + 1, w.value)
      else if ins.code == JMP_JEQ_K then
        Execute(prog, d, pc + 1 + (if acc == ins.k then ins.jt else ins.jf), acc)
      else if ins.code == JMP_JSET_K then
        Execute(prog, d, pc + 1 + (if Intersects(acc, ins.k) then ins.jt else ins.jf), acc)
      else if ins.code == RET_K then Some(ins.k)
      else None
  }

  /** The kernel's static check: known codes, aligned loads, jumps inside, a final return. */
  predicate Checked(prog: seq<SockFilter>) {
    && prog != [] && prog[|prog| - 1].code == RET_K
    && forall pc :: 0 <= pc < |prog| ==>
         var ins := prog[pc];
         || ins.code == RET_K
         || (ins.code == LD_W_ABS && ins.k % 4 == 0 && ins.k < 64)
         || (ins.code in {JMP_JEQ_K, JMP_JSET_K} && pc + 1 + ins.jt < |prog| && pc + 1 + ins.jf < |prog|)
  }

  /** Every checked filter, started anywhere, reaches a return that is in its text. */
  lemma {:induction false} CheckedFilterReturns(prog: seq<SockFilter>, d: SeccompData, pc: nat, acc: Word)
    requires Checked(prog) && WellFormed(d) && pc < |prog|
    ensures var r := Execute(prog, d, pc, acc);
            r.Some? && exists i :: pc <= i < |prog| && prog[i].code == RET_K && prog[i].k == r.value
    decreases |prog| - pc
  {
    var ins := prog[pc];
    if ins.code == LD_W_ABS {
      assert pc + 1 < |prog|;
      CheckedFilterReturns(prog, d, pc + 1, Load(d, ins.k).value);
    } else if ins.code == JMP_JEQ_K {
      CheckedFilterReturns(prog, d, pc + 1 + (if acc == ins.k then ins.jt else ins.jf), acc);
    } else if ins.code == JMP_JSET_K {
      CheckedFilterReturns(prog, d, pc + 1 + (if Intersects(acc, ins.k) then ins.jt else ins.jf), acc);
    }
  }

  // ----- the registered filter -----

  datatype Target = X64 | Arm64

  const AUDIT_ARCH_64BIT: Word := 0x8000_0000
  const RET_USER_NOTIF: Word := 0x7fc0_0000
  const RET_ALLOW: Word := 0x7fff_0000
  const SIOCSIFFLAGS: Word := 0x8914
  const SYS_BIND: Word := 2
  const I386_NR_SOCKETCALL: Word := 102
  const ARMV7_NR_BIND: Word := 282

  function NrBind(t: Target): Word { if t == X64 then 49 else 200 }

  function NrIoctl(t: Target): Word { if t == X64 then 16 else 29 }

  function Stmt(code: nat, k: Word): SockFilter { SockFilter(code, 0, 0, k) }

  function Filter(t: Target): seq<SockFilter> {
    [ Stmt(LD_W_ABS, SYSCALL_ARCH),
      SockFilter(JMP_JSET_K, 0, 7, AUDIT_ARCH_64BIT),
      Stmt(LD_W_ABS, SYSCALL_NR),
      SockFilter(JMP_JEQ_K, 3, 0, NrBind(t)),
      SockFilter(JMP_JEQ_K, 0, 3, NrIoctl(t)),
      Stmt(LD_W_ABS, SYSCALL_ARG1),
      SockFilter(JMP_JEQ_K, 0, 1, SIOCSIFFLAGS),
      Stmt(RET_K, RET_USER_NOTIF),
      Stmt(RET_K, RET_ALLOW) ]
    + match t
      case X64 =>
        [ Stmt(LD_W_ABS, SYSCALL_NR),
          SockFilter(JMP_JEQ_K, 0, 3, I386_NR_SOCKETCALL),
          Stmt(LD_W_ABS, SYSCALL_ARG0),
          SockFilter(JMP_JEQ_K, 0, 1, SYS_BIND),
          Stmt(RET_K, RET_USER_NOTIF),
          Stmt(RET_K, RET_ALLOW) ]
      case Arm64 =>
        [ Stmt(LD_W_ABS, SYSCALL_NR),
          SockFilter(JMP_JEQ_K, 0, 1, ARMV7_NR_BIND),
          Stmt(RET_K, RET_USER_NOTIF),
          Stmt(RET_K, RET_ALLOW) ]
  }

  predicate Is64Bit(d: SeccompData) {
    Intersects(d.arch, AUDIT_ARCH_64BIT)
  }

  /** A bind, in whichever form the caller's ABI spells it. */
  predicate IsBind(t: Target, d: SeccompData)
    requires WellFormed(d)
  {
    if Is64Bit(d) then d.nr == NrBind(t)
    else match t
      case X64 => d.nr == I386_NR_SOCKETCALL && LowWord(d.args[0]) == SYS_BIND
      case Arm64 => d.nr == ARMV7_NR_BIND
  }

  /** A native request to change an interface's flags. */
  predicate IsInterfaceChange(t: Target, d: SeccompData)
    requires WellFormed(d)
  {
    Is64Bit(d) && d.nr == NrIoctl(t) && LowWord(d.args[1]) == SIOCSIFFLAGS
  }

  lemma FilterIsChecked(t: Target)
    ensures Checked(Filter(t))
  {
  }

  lemma NativeBlock(t: Target, d: SeccompData, acc: Word)
    requires WellFormed(d)
    ensures Execute(Filter(t), d, 2, acc) ==
              Some(if d.nr == NrBind(t) || (d.nr == NrIoctl(t) && LowWord(d.args[1]) == SIOCSIFFLAGS)
                   then RET_USER_NOTIF else RET_ALLOW)
  {
    var prog, nr, low1 := Filter(t), d.nr, LowWord(d.args[1]);
    assert Execute(prog, d, 7, low1) == Execute(prog, d, 7, nr) == Some(RET_USER_NOTIF);
    assert Execute(prog, d, 8, low1) == Execute(prog, d, 8, nr) == Some(RET_ALLOW);
    assert Execute(prog, d, 5, nr) == Execute(prog, d, 6, low1)
        == Execute(prog, d, 7 + (if low1 == SIOCSIFFLAGS then 0 else 1), low1);
    assert Execute(prog, d, 4, nr) == Execute(prog, d, 5 + (if nr == NrIoctl(t) then 0 else 3), nr);
    assert Execute(prog, d, 2, acc) == Execute(prog, d, 3, nr)
        == Execute(prog, d, 4 + (if nr == NrBind(t) then 3 else 0), nr);
  }

  lemma CompatBlock(t: Target, d: SeccompData, acc: Word)
    requires WellFormed(d)
    ensures Execute(Filter(t), d, 9, acc) ==
              Some(if t == X64 && d.nr == I386_NR_SOCKETCALL && LowWord(d.args[0]) == SYS_BIND then RET_USER_NOTIF
                   else if t == Arm64 && d.nr == ARMV7_NR_BIND then RET_USER_NOTIF
                   else RET_ALLOW)
  {
    var prog, nr, low0 := Filter(t), d.nr, LowWord(d.args[0]);
    if t == X64 {
      assert Execute(prog, d, 11, nr) == Execute(prog, d, 12, low0)
          == Execute(prog, d, 13 + (if low0 == SYS_BIND then 0 else 1), low0);
      assert Execute(prog, d, 9, acc) == Execute(prog, d, 10, nr)
          == Execute(prog, d, 11 + (if nr == I386_NR_SOCKETCALL then 0 else 3), nr);
    } else {
      assert Execute(prog, d, 9, acc) == Execute(prog, d, 10, nr)
          == Execute(prog, d, 11 + (if nr == ARMV7_NR_BIND then 0 else 1), nr);
    }
  }

  /** Both filters decide exactly the intended predicate, on every record. */
  lemma FilterDecidesIntent(t: Target, d: SeccompData)
    requires WellFormed(d)
    ensures Execute(Filter(t), d, 0, 0) ==
              Some(if IsBind(t, d) || IsInterfaceChange(t, d) then RET_USER_NOTIF else RET_ALLOW)
  {
    var prog := Filter(t);
    assert Execute(prog, d, 0, 0) == Execute(prog, d, 1, d.arch)
        == Execute(prog, d, 2 + (if Is64Bit(d) then 0 else 7), d.arch);
    NativeBlock(t, d, d.arch);
    CompatBlock(t, d, d.arch);
  }

  // ----- the handler table -----

  datatype Handler = BindHandler | IoctlHandler

  /** The RegisterHandler calls of RunPortTracker, in order. */
  function Handlers(t: Target): map<Word, Handler> {
    map[NrBind(t) := BindHandler]
       [(if t == X64 then I386_NR_SOCKETCALL else ARMV7_NR_BIND) := BindHandler]
       [NrIoctl(t) := IoctlHandler]
  }

  /** Whatever is notified finds a handler of its own kind, although the table is
      keyed on the number alone; and no registered number is dead. */
  lemma NotifiedCallsAreHandled(t: Target, d: SeccompData)
    requires WellFormed(d)
    ensures Execute(Filter(t), d, 0, 0) == Some(RET_USER_NOTIF) ==>
              && d.nr in Handlers(t)
              && (Handlers(t)[d.nr] == BindHandler <==> IsBind(t, d))
              && (Handlers(t)[d.nr] == IoctlHandler <==> IsInterfaceChange(t, d))
  {
    FilterDecidesIntent(t, d);
  }

  /** Testing a power of two that is the top bit of the word is a comparison. */
  lemma {:induction false} TopBit(a: nat, n: nat)
    requires a < 2 * Pow2(n)
    ensures Intersects(a, Pow2(n)) <==> a >= Pow2(n)
  {
    if n > 0 && a > 0 {
      TopBit(a / 2, n - 1);
    }
  }

  function Pow2(n: nat): (r: nat)
    ensures r >= 1
  {
    if n == 0 then 1 else 2 * Pow2(n - 1)
  }

  /** The 64-bit test of the filter separates the upper half of the arch values from the lower. */
  lemma Is64BitIsTopBit(d: SeccompData)
    ensures Is64Bit(d) <==> d.arch >= 0x8000_0000
  {
    assert Pow2(4) == 16 && Pow2(8) == 256 && Pow2(12) == 0x1000 && Pow2(16) == 0x1_0000;
    assert Pow2(20) == 0x10_0000 && Pow2(24) == 0x100_0000 && Pow2(28) == 0x1000_0000 && Pow2(31) == 0x8000_0000;
    TopBit(d.arch, 31);
  }

  /** The x86_64 filter in numbers: bind is 49, ioctl 16, the 32-bit socketcall 102. */
  lemma X64Filter(d: SeccompData)
    requires WellFormed(d)
    ensures Execute(Filter(X64), d, 0, 0) ==
              Some(if d.arch >= 0x8000_0000
                   then (if d.nr == 49 || (d.nr == 16 && d.args[1] % 0x1_0000_0000 == 0x8914)
                         then 0x7fc0_0000 else 0x7fff_0000)
                   else (if d.nr == 102 && d.args[0] % 0x1_0000_0000 == 2 then 0x7fc0_0000 else 0x7fff_0000))
    ensures Handlers(X64) == map[49 := BindHandler, 102 := BindHandler, 16 := IoctlHandler]
  {
    FilterDecidesIntent(X64, d);
    Is64BitIsTopBit(d);
  }

  /** The ARM64 filter in numbers: bind is 200, ioctl 29, the 32-bit bind 282. */
  lemma Arm64Filter(d: SeccompData)
    requires WellFormed(d)
    ensures Execute(Filter(Arm64), d, 0, 0) ==
              Some(if d.arch >= 0x8000_0000
                   then (if d.nr == 200 || (d.nr == 29 && d.args[1] % 0x1_0000_0000 == 0x8914)
                         then 0x7fc0_0000 else 0x7fff_0000)
                   else (if d.nr == 282 then 0x7fc0_0000 else 0x7fff_0000))
    ensures Handlers(Arm64) == map[200 := BindHandler, 282 := BindHandler, 29 := IoctlHandler]
  {
    FilterDecidesIntent(Arm64, d);
    Is64BitIsTopBit(d);
  }

  lemma RegisteredNumbersAreNotified(t: Target, nr: Word) returns (d: SeccompData)
    requires nr in Handlers(t)
    ensures WellFormed(d) && d.nr == nr && Execute(Filter(t), d, 0, 0) == Some(RET_USER_NOTIF)
  {
    var native := nr == NrBind(t) || nr == NrIoctl(t);
    d := SeccompData(nr, if native then AUDIT_ARCH_64BIT else 0, 0, [2, 0x8914, 0, 0, 0, 0]);
    Is64BitIsTopBit(d);
    FilterDecidesIntent(t, d);
  }
}
