/**
 The recorded program: a list of instructions in single-assignment form. A polynomial handle is
 the index of the instruction that produces it. Replay is the fold that evaluates the list; what
 an arithmetic instruction computes is a parameter.
 */
module Trace {
  import opened Types

  /** An arithmetic instruction: its name, scalar immediates, the base its operands are residues
      of, the sub-base it selects, and the modulus of the residue it produces. */
  datatype OpCode = OpCode(name: string, imm: seq<nat>, base: seq<nat>, sel: seq<nat>, out: nat)

  type Handle = nat

  datatype Instr =
    | Input(data: Bytes)
    | Compute(op: OpCode, args: seq<Handle>)
    | Copy(src: Handle)  // add of the scalar 0 under the copy sentinel: a register copy

  /** What the replay engine computes for an arithmetic instruction. */
  type Semantics = (OpCode, seq<Bytes>) -> Bytes

  /** What the back end writes when an epoch stops: the recorded list with its named inputs and outputs,
      names given by number. */
  datatype Program = Program(
    trace: seq<Instr>,
    inputs: map<nat, Handle>,
    inputGroups: map<nat, seq<(Handle, nat)>>,
    outputs: map<nat, Handle>,
    outputGroups: map<nat, seq<(Handle, nat)>>)

  const NOTHING_WRITTEN := Program([], map[], map[], map[], map[])

  function At(vs: seq<Bytes>, h: Handle): Bytes {
    if h < |vs| then vs[h] else []
  }

  function AtAll(vs: seq<Bytes>, hs: seq<Handle>): (r: seq<Bytes>)
    ensures |r| == |hs|
  {
    seq(|hs|, i requires 0 <= i < |hs| => At(vs, hs[i]))
  }

  function EvalInstr(sem: Semantics, i: Instr, vs: seq<Bytes>): Bytes {
    match i
    case Input(data) => data
    case Compute(op, args) => sem(op, AtAll(vs, args))
    case Copy(src) => At(vs, src)
  }

  /** The value of every instruction, in order. */
  function Values(sem: Semantics, t: seq<Instr>): (vs: seq<Bytes>)
    ensures |vs| == |t|
  {
    if t == [] then []
    else
      var before := Values(sem, t[..|t| - 1]);
      before + [EvalInstr(sem, t[|t| - 1], before)]
  }

  /** Recording one more instruction leaves every earlier value alone. */
  lemma ValuesAppend(sem: Semantics, t: seq<Instr>, i: Instr)
    ensures Values(sem, t + [i]) == Values(sem, t) + [EvalInstr(sem, i, Values(sem, t))]
  {
    assert (t + [i])[..|t|] == t;
  }

  /** The value each bound address stands for. */
  function Denoted(vs: seq<Bytes>, binding: map<DevAddr, Handle>): (m: map<DevAddr, Bytes>)
    ensures m.Keys == binding.Keys
  {
    map a | a in binding :: At(vs, binding[a])
  }

  lemma DenotedAppend(vs: seq<Bytes>, v: Bytes, binding: map<DevAddr, Handle>)
    requires forall a :: a in binding ==> binding[a] < |vs|
    ensures Denoted(vs + [v], binding) == Denoted(vs, binding)
  {
  }

  lemma DenotedBind(vs: seq<Bytes>, binding: map<DevAddr, Handle>, a: DevAddr, h: Handle)
    ensures Denoted(vs, binding[a := h]) == Denoted(vs, binding)[a := At(vs, h)]
  {
  }

  lemma DenotedDrop(vs: seq<Bytes>, binding: map<DevAddr, Handle>, a: DevAddr)
    ensures Denoted(vs, binding - {a}) == Denoted(vs, binding) - {a}
  {
  }
}
