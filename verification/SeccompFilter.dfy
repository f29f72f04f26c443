/**
 `rlbox_seccomp_filter.hpp`: the compilation of an allowlist of system calls to a classic
 BPF program in a buffer of 96 instructions. The program is given meaning by an
 interpreter, and the kernel's refusal of malformed programs by a predicate.
 */
module SeccompFilter {
  import opened Options

  /** SECCOMP_RET_KILL_PROCESS, SECCOMP_RET_ALLOW and SECCOMP_RET_LOG. */
  datatype Action = KillProcess | Allow | Log

  /** `sock_filter`, for the instructions in use; jumps skip `jt` or `jf` instructions. */
  datatype Insn =
    | LoadArch
    | LoadNr
    | JumpIfEqual(k: nat, jt: nat, jf: nat)
    | JumpIfAtLeast(k: nat, jt: nat, jf: nat)
    | Return(action: Action)

  /** What the kernel shows the filter of a system call. */
  datatype Call = Call(arch: nat, nr: nat)

  const CAPACITY: nat := 96
  const X32_BIT: nat := 0x40000000

  /** The target: the expected architecture word, and whether system call numbers may be x32 ones. */
  datatype Target = Target(arch: nat, x86_64: bool)

  // -------------------------------------------------------------------------- meaning

  datatype Verdict = Verdict(action: Action) | FellOffTheEnd

  /** The BPF machine from instruction `pc` on, with accumulator `acc`. */
  function Exec(prog: seq<Insn>, pc: nat, acc: nat, c: Call): Verdict
    decreases |prog| - pc
  {
    if pc >= |prog| then FellOffTheEnd
    else
      match prog[pc]
      case LoadArch => Exec(prog, pc + 1, c.arch, c)
      case LoadNr => Exec(prog, pc + 1, c.nr, c)
      case JumpIfEqual(k, jt, jf) => Exec(prog, pc + 1 + (if acc == k then jt else jf), acc, c)
      case JumpIfAtLeast(k, jt, jf) => Exec(prog, pc + 1 + (if acc >= k then jt else jf), acc, c)
      case Return(action) => Verdict(action)
  }

  /** What the kernel demands of a classic filter: jumps stay inside, and the last instruction returns. */
  ghost predicate WellFormed(prog: seq<Insn>) {
    && |prog| > 0 && prog[|prog| - 1].Return?
    && forall i :: 0 <= i < |prog| ==>
      match prog[i]
      case JumpIfEqual(_, jt, jf) => i + 1 + jt < |prog| && i + 1 + jf < |prog|
      case JumpIfAtLeast(_, jt, jf) => i + 1 + jt < |prog| && i + 1 + jf < |prog|
      case _ => true
  }

  /** A well-formed program always ends with a verdict. */
  lemma {:induction false} WellFormedTerminates(prog: seq<Insn>, pc: nat, acc: nat, c: Call)
    requires WellFormed(prog) && pc < |prog|
    ensures Exec(prog, pc, acc, c).Verdict?
    decreases |prog| - pc
  {
    match prog[pc]
    case LoadArch => WellFormedTerminates(prog, pc + 1, c.arch, c);
    case LoadNr => WellFormedTerminates(prog, pc + 1, c.nr, c);
    case JumpIfEqual(k, jt, jf) => WellFormedTerminates(prog, pc + 1 + (if acc == k then jt else jf), acc, c);
    case JumpIfAtLeast(k, jt, jf) => WellFormedTerminates(prog, pc + 1 + (if acc >= k then jt else jf), acc, c);
    case Return(_) =>
  }

  /** The policy that the filter is to enforce. */
  function Decide(t: Target, allow: seq<nat>, terminal: Action, c: Call): Action {
    if c.arch != t.arch then KillProcess
    else if t.x86_64 && c.nr >= X32_BIT then KillProcess
    else if c.nr in allow then Allow
    else terminal
  }

  // ------------------------------------------------------------------------ compilation

  /** The instructions before the allowlist. */
  function Prologue(t: Target): seq<Insn> {
    [LoadArch, JumpIfEqual(t.arch, 1, 0), Return(KillProcess), LoadNr]
    + if t.x86_64 then [JumpIfAtLeast(X32_BIT, 0, 1), Return(KillProcess)] else []
  }

  /** The instructions for an allowlist: a test and a return each. */
  function Entries(allow: seq<nat>): (r: seq<Insn>)
    ensures |r| == 2 * |allow|
  {
    if |allow| == 0 then []
    else Entries(allow[..|allow| - 1]) + [JumpIfEqual(allow[|allow| - 1], 0, 1), Return(Allow)]
  }

  /** The whole program, had the buffer no end. */
  function Program(t: Target, allow: seq<nat>, terminal: Action): seq<Insn> {
    Prologue(t) + Entries(allow) + [Return(terminal)]
  }

  /** How many entries there is room for. */
  function Room(t: Target): nat {
    (CAPACITY - |Prologue(t)|) / 2
  }

  /** What a buffer keeps of a program. */
  function Cut(p: seq<Insn>): seq<Insn> {
    if |p| <= CAPACITY then p else p[..CAPACITY]
  }

  /** The program in the buffer: what does not fit is dropped. */
  function Emitted(t: Target, allow: seq<nat>, terminal: Action): seq<Insn> {
    Cut(Program(t, allow, terminal))
  }

  lemma {:induction false} EntriesAt(allow: seq<nat>, i: nat)
    requires i < |allow|
    ensures Entries(allow)[2 * i] == JumpIfEqual(allow[i], 0, 1)
    ensures Entries(allow)[2 * i + 1] == Return(Allow)
  {
    if i < |allow| - 1 {
      EntriesAt(allow[..|allow| - 1], i);
    }
  }

  lemma {:induction false} EntriesPrefix(allow: seq<nat>, k: nat)
    requires k <= |allow|
    ensures Entries(allow)[..2 * k] == Entries(allow[..k])
  {
    if k < |allow| {
      EntriesPrefix(allow[..|allow| - 1], k);
      assert allow[..|allow| - 1][..k] == allow[..k];
      assert Entries(allow)[..2 * k] == Entries(allow[..|allow| - 1])[..2 * k];
    } else {
      assert allow[..k] == allow;
    }
  }

  /** From entry `i` on: allowed when listed from there, and otherwise what comes after the list. */
  lemma {:induction false} ExecEntries(prog: seq<Insn>, base: nat, allow: seq<nat>, i: nat, c: Call)
    requires i <= |allow| && base + 2 * |allow| <= |prog|
    requires prog[base..base + 2 * |allow|] == Entries(allow)
    ensures Exec(prog, base + 2 * i, c.nr, c)
      == if c.nr in allow[i..] then Verdict(Allow) else Exec(prog, base + 2 * |allow|, c.nr, c)
    decreases |allow| - i
  {
    if i < |allow| {
      EntriesAt(allow, i);
      assert prog[base + 2 * i] == prog[base..base + 2 * |allow|][2 * i];
      assert prog[base + 2 * i + 1] == prog[base..base + 2 * |allow|][2 * i + 1];
      assert allow[i..] == [allow[i]] + allow[i + 1..];
      ExecEntries(prog, base, allow, i + 1, c);
      assert base + 2 * (i + 1) == base + 2 * i + 2;
    }
  }

  /** The prologue decides wrong architectures and x32 numbers, and otherwise hands the number on. */
  lemma ExecPrologue(t: Target, prog: seq<Insn>, c: Call)
    requires Prologue(t) <= prog
    ensures Exec(prog, 0, 0, c)
      == if c.arch != t.arch || (t.x86_64 && c.nr >= X32_BIT) then Verdict(KillProcess)
         else Exec(prog, |Prologue(t)|, c.nr, c)
  {
    var p := Prologue(t);
    assert prog[0] == p[0] && prog[1] == p[1] && prog[2] == p[2] && prog[3] == p[3];
    assert t.x86_64 ==> prog[4] == p[4] && prog[5] == p[5];
    assert Exec(prog, 0, 0, c) == Exec(prog, 1, c.arch, c);
    assert Exec(prog, 2, c.arch, c) == Verdict(KillProcess);
    assert Exec(prog, 3, c.arch, c) == Exec(prog, 4, c.nr, c);
    if t.x86_64 {
      assert Exec(prog, 5, c.nr, c) == Verdict(KillProcess);
    }
  }

  /** The whole program has room in the buffer. */
  predicate Fits(t: Target, allow: seq<nat>) {
    |Prologue(t)| + 2 * |allow| + 1 <= CAPACITY
  }

  lemma FitsWhen(t: Target, allow: seq<nat>)
    ensures Fits(t, allow) <==> |allow| <= if t.x86_64 then 44 else 45
  {}

  /** Compilation preserves meaning: a program that fits returns what the policy decides, for every call. */
  lemma FilterDecides(t: Target, allow: seq<nat>, terminal: Action, c: Call)
    requires Fits(t, allow)
    ensures Exec(Emitted(t, allow, terminal), 0, 0, c) == Verdict(Decide(t, allow, terminal, c))
  {
    var prog := Emitted(t, allow, terminal);
    var base := |Prologue(t)|;
    assert prog == Program(t, allow, terminal);
    ExecPrologue(t, prog, c);
    assert prog[base..base + 2 * |allow|] == Entries(allow);
    ExecEntries(prog, base, allow, 0, c);
    assert allow[0..] == allow;
    assert prog[base + 2 * |allow|] == Return(terminal);
  }

  /** A list that does not fit loses whole entries and the terminal action. */
  lemma Truncation(t: Target, allow: seq<nat>, terminal: Action)
    requires !Fits(t, allow)
    ensures Room(t) <= |allow|
    ensures Emitted(t, allow, terminal) == Prologue(t) + Entries(allow[..Room(t)])
    ensures |Emitted(t, allow, terminal)| == CAPACITY
  {
    EntriesPrefix(allow, Room(t));
    var p, e := Prologue(t), Entries(allow);
    assert |p| + 2 * Room(t) == CAPACITY;
    assert Program(t, allow, terminal)[..CAPACITY] == p + e[..2 * Room(t)];
  }

  /** Without its end the program runs off the buffer exactly for the calls that the kept entries do not allow. */
  lemma TruncatedFilter(t: Target, allow: seq<nat>, terminal: Action, c: Call)
    requires !Fits(t, allow)
    ensures Room(t) <= |allow|
    ensures Exec(Emitted(t, allow, terminal), 0, 0, c)
      == if c.arch != t.arch || (t.x86_64 && c.nr >= X32_BIT) then Verdict(KillProcess)
         else if c.nr in allow[..Room(t)] then Verdict(Allow)
         else FellOffTheEnd
  {
    Truncation(t, allow, terminal);
    var prog, kept := Emitted(t, allow, terminal), allow[..Room(t)];
    var base := |Prologue(t)|;
    ExecPrologue(t, prog, c);
    assert prog[base..base + 2 * |kept|] == Entries(kept);
    ExecEntries(prog, base, kept, 0, c);
    assert kept[0..] == kept;
  }

  lemma EntriesForm(allow: seq<nat>, j: nat)
    requires j < 2 * |allow|
    ensures Entries(allow)[j] == if j % 2 == 0 then JumpIfEqual(allow[j / 2], 0, 1) else Return(Allow)
  {
    EntriesAt(allow, j / 2);
  }

  lemma FittingIsWellFormed(t: Target, allow: seq<nat>, terminal: Action)
    requires Fits(t, allow)
    ensures WellFormed(Emitted(t, allow, terminal))
  {
    var prog, base := Emitted(t, allow, terminal), |Prologue(t)|;
    forall i | 0 <= i < |prog|
      ensures prog[i] == (if i < base then Prologue(t)[i]
                          else if i < base + 2 * |allow| then Entries(allow)[i - base] else Return(terminal))
    {}
    forall j | 0 <= j < 2 * |allow|
      ensures Entries(allow)[j] == if j % 2 == 0 then JumpIfEqual(allow[j / 2], 0, 1) else Return(Allow)
    {
      EntriesForm(allow, j);
    }
  }

  /** The kernel takes the program exactly when all of it is there. */
  lemma WellFormedWhenFits(t: Target, allow: seq<nat>, terminal: Action)
    ensures WellFormed(Emitted(t, allow, terminal)) <==> Fits(t, allow)
  {
    if Fits(t, allow) {
      FittingIsWellFormed(t, allow, terminal);
    } else {
      Truncation(t, allow, terminal);
      var prog, base, last := Emitted(t, allow, terminal), |Prologue(t)|, Room(t) - 1;
      EntriesAt(allow[..Room(t)], last);
      assert prog[base + 2 * last] == JumpIfEqual(allow[last], 0, 1);
      assert base + 2 * last + 2 == |prog|;
    }
  }

  // ---------------------------------------------------------------------------- the code

  /** The buffer of `install_filter`. */
  class Builder {
    const prog: array<Insn>
    var n: nat

    ghost predicate Valid()
      reads this
    {
      prog.Length == CAPACITY && n <= CAPACITY
    }

    /** What is in the buffer. */
    ghost function Code(): seq<Insn>
      reads this, prog
      requires Valid()
    {
      prog[..n]
    }

    constructor ()
      ensures Valid() && Code() == [] && fresh(prog)
    {
      prog, n := new Insn[CAPACITY](_ => LoadArch), 0;
    }

    /** `push`: an instruction beyond the capacity is dropped without notice. */
    method Push(f: Insn)
      requires Valid()
      modifies this, prog
      ensures Valid()
      ensures Code() == if |old(Code())| < CAPACITY then old(Code()) + [f] else old(Code())
    {
      if n < CAPACITY {
        prog[n] := f;
        n := n + 1;
      }
    }
  }

  lemma CutStep(p: seq<Insn>, f: Insn)
    ensures Cut(p + [f]) == if |Cut(p)| < CAPACITY then Cut(p) + [f] else Cut(p)
  {}

  /** The architecture gate, and the load of the number. */
  method PushGate(b: Builder, t: Target)
    requires b.Valid() && b.Code() == []
    modifies b, b.prog
    ensures b.Valid() && b.Code() == [LoadArch, JumpIfEqual(t.arch, 1, 0), Return(KillProcess), LoadNr]
  {
    b.Push(LoadArch);
    b.Push(JumpIfEqual(t.arch, 1, 0));
    b.Push(Return(KillProcess));
    b.Push(LoadNr);
  }

  /** The instructions before the allowlist. */
  method PushPrologue(b: Builder, t: Target)
    requires b.Valid() && b.Code() == []
    modifies b, b.prog
    ensures b.Valid() && b.Code() == Prologue(t)
  {
    PushGate(b, t);
    if t.x86_64 {
      b.Push(JumpIfAtLeast(X32_BIT, 0, 1));
      b.Push(Return(KillProcess));
    }
  }

  /** `allow_eq`. */
  method AllowEq(b: Builder, nr: nat, ghost all: seq<Insn>)
    requires b.Valid() && b.Code() == Cut(all)
    modifies b, b.prog
    ensures b.Valid() && b.Code() == Cut(all + [JumpIfEqual(nr, 0, 1), Return(Allow)])
  {
    CutStep(all, JumpIfEqual(nr, 0, 1));
    CutStep(all + [JumpIfEqual(nr, 0, 1)], Return(Allow));
    assert all + [JumpIfEqual(nr, 0, 1)] + [Return(Allow)] == all + [JumpIfEqual(nr, 0, 1), Return(Allow)];
    hide Cut;
    b.Push(JumpIfEqual(nr, 0, 1));
    b.Push(Return(Allow));
  }

  lemma EntriesStep(allow: seq<nat>, i: nat, p: seq<Insn>)
    requires i < |allow|
    ensures p + Entries(allow[..i]) + [JumpIfEqual(allow[i], 0, 1), Return(Allow)] == p + Entries(allow[..i + 1])
  {
    assert allow[..i + 1][..i] == allow[..i];
  }

  /** The generator: the allowlist is a parameter here, a sequence of calls there. */
  method Generate(t: Target, allow: seq<nat>, terminal: Action) returns (code: seq<Insn>)
    ensures code == Emitted(t, allow, terminal)
  {
    var b := new Builder();
    PushPrologue(b, t);
    ghost var p := Prologue(t);
    assert p + Entries(allow[..0]) == p && Cut(p) == p;
    CutStep(p + Entries(allow), Return(terminal));
    assert Program(t, allow, terminal) == p + Entries(allow) + [Return(terminal)];
    assert Emitted(t, allow, terminal) == Cut(p + Entries(allow) + [Return(terminal)]);
    hide Cut, Entries, Emitted, Prologue;
    var i := 0;
    while i < |allow|
      invariant 0 <= i <= |allow|
      invariant b.Valid() && fresh(b) && fresh(b.prog) && b.Code() == Cut(p + Entries(allow[..i]))
    {
      AllowEq(b, allow[i], p + Entries(allow[..i]));
      EntriesStep(allow, i, p);
      i := i + 1;
    }
    assert allow[..i] == allow;
    b.Push(Return(terminal));
    code := b.prog[..b.n];
  }

  datatype Mode = Off | Audit | Enforce

  function Terminal(m: Mode): Action {
    if m == Audit then Log else KillProcess
  }

  /**
   What the modes promise of a verdict: a call of another architecture or of the x32 range
   is killed, a listed one passes, and an unlisted one is killed when enforcing, logged when
   auditing.
   */
  ghost predicate Demanded(m: Mode, t: Target, allow: seq<nat>, c: Call, v: Verdict) {
    && (c.arch != t.arch ==> v == Verdict(KillProcess))
    && (t.x86_64 && c.nr >= 0x4000_0000 ==> v == Verdict(KillProcess))
    && (c.arch == t.arch && !(t.x86_64 && c.nr >= 0x4000_0000) ==>
      && (v == Verdict(Allow) <==> c.nr in allow)
      && (c.nr !in allow && m == Enforce ==> v == Verdict(KillProcess))
      && (c.nr !in allow && m == Audit ==> v == Verdict(Log)))
  }

  /**
   `apply_filter`: `privileges` and `kernel` say whether the two system calls succeed, the
   second one on a program that the kernel can take. The filter in force when it returns
   true decides every call as the mode demands; a list that does not fit is never in force.
   */
  method ApplyFilter(m: Mode, t: Target, allow: seq<nat>, privileges: bool, kernel: bool)
    returns (ok: bool, filter: Option<seq<Insn>>)
    ensures filter.Some? ==> ok && m != Off
    ensures ok <==> m == Off || (privileges && kernel && Fits(t, allow))
    ensures ok && m != Off ==> filter.Some?
    ensures filter.Some? ==>
      WellFormed(filter.value) && forall c :: Exec(filter.value, 0, 0, c) == Verdict(Decide(t, allow, Terminal(m), c))
    ensures filter.Some? ==> forall c :: Demanded(m, t, allow, c, Exec(filter.value, 0, 0, c))
  {
    if m == Off {
      return true, None;
    }
    if !privileges {
      return false, None;
    }
    var prog := Generate(t, allow, Terminal(m));
    WellFormedWhenFits(t, allow, Terminal(m));
    if !kernel || !Fits(t, allow) {
      return false, None;
    }
    forall c
      ensures Exec(prog, 0, 0, c) == Verdict(Decide(t, allow, Terminal(m), c))
    {
      FilterDecides(t, allow, Terminal(m), c);
    }
    return true, Some(prog);
  }

  /** The 24 entries of the source fit on both targets; there is room for 20 more on x86-64, and 21 on i386. */
  lemma SourceListFits(t: Target, allow: seq<nat>)
    requires |allow| == 24
    ensures Fits(t, allow)
    ensures forall more: seq<nat> :: Fits(t, allow + more) <==> |more| <= if t.x86_64 then 20 else 21
  {
    forall more: seq<nat>
      ensures Fits(t, allow + more) <==> |more| <= if t.x86_64 then 20 else 21
    {
      FitsWhen(t, allow + more);
    }
  }
}
