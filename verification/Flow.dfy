/** The flow of executed instructions that the analyses of a trace start from. */
module Flow {
  /** `isCall` is what the static analysis knows about the instruction. */
  datatype Ins = Ins(address: nat, length: nat, clnum: nat, isCall: bool)

  /** The address after the instruction: the next one in sequence, and where a call returns to. */
  function After(ins: Ins): nat { ins.address + ins.length }

  /** Instruction `i` does not follow its predecessor in sequence. */
  predicate Jumps(flow: seq<Ins>, i: nat)
    requires i < |flow|
  {
    i > 0 && After(flow[i - 1]) != flow[i].address
  }

  ghost predicate Increasing(flow: seq<Ins>) {
    forall i, j :: 0 <= i < j < |flow| ==> flow[i].clnum < flow[j].clnum
  }
}
