/**
 The compiler back end as the recorder sees it: it takes instructions and named inputs and outputs,
 and on replay evaluates the list. Initialization is taken to succeed here; module InitProtocol
 models it step by step.
 */
module Backend {
  import opened Types
  import opened Trace
  import opened DeviceModel

  class CompilerBackend {
    const sem: Semantics
    var initialized: bool
    var trace: seq<Instr>
    var inputs: map<nat, Handle>                    // haze_in_k
    var mrpInputs: map<nat, seq<(Handle, nat)>>     // haze_mrp_in_k
    var outputs: map<nat, Handle>                   // haze_out_k
    var mrpOutputs: map<nat, seq<(Handle, nat)>>    // haze_mrp_out_k
    var results: map<nat, Bytes>                    // replayed haze_out_k
    var garbled: set<nat>                           // those that do not decode
    var probes: map<nat, seq<(Bytes, nat)>>         // replayed haze_mrp_out_k

    var written: Program                            // the project on disk

    constructor (sem: Semantics)
      ensures this.sem == sem && Empty() && probes == map[] && written == NOTHING_WRITTEN && !initialized
    {
      this.sem := sem;
      initialized := false;
      trace, inputs, mrpInputs, outputs, mrpOutputs := [], map[], map[], map[], map[];
      results, garbled, probes, written := map[], {}, map[], NOTHING_WRITTEN;
    }

    ghost predicate Empty()
      reads this
    {
      trace == [] && inputs == map[] && mrpInputs == map[] && outputs == map[] && mrpOutputs == map[]
    }

    ghost function Vals(): (vs: seq<Bytes>)
      reads this
      ensures |vs| == |trace|
    {
      Values(sem, trace)
    }

    method EnsureInitialized()
      modifies this`initialized
      ensures initialized
    {
      initialized := true;
    }

    method Reset()
      modifies this`initialized
      ensures !initialized
    {
      initialized := false;
    }

    /** Appends one instruction; every earlier handle keeps its value. */
    method Emit(i: Instr) returns (h: Handle)
      modifies this`trace
      ensures trace == old(trace) + [i] && h == |old(trace)|
      ensures Vals() == old(Vals()) + [EvalInstr(sem, i, old(Vals()))]
    {
      ValuesAppend(sem, trace, i);
      h := |trace|;
      trace := trace + [i];
    }

    method TagInput(name: nat, h: Handle)
      modifies this`inputs
      ensures inputs == old(inputs)[name := h]
    {
      inputs := inputs[name := h];
    }

    method TagMrpInput(name: nat, residues: seq<(Handle, nat)>)
      modifies this`mrpInputs
      ensures mrpInputs == old(mrpInputs)[name := residues]
    {
      mrpInputs := mrpInputs[name := residues];
    }

    method TagOutput(name: nat, h: Handle)
      modifies this`outputs
      ensures outputs == old(outputs)[name := h]
    {
      outputs := outputs[name := h];
    }

    method TagMrpOutput(name: nat, residues: seq<(Handle, nat)>)
      modifies this`mrpOutputs
      ensures mrpOutputs == old(mrpOutputs)[name := residues]
    {
      mrpOutputs := mrpOutputs[name := residues];
    }

    /** Writes the recorded program with all that is named at this point. */
    method StopEpoch(env: BackendOutcome) returns (ok: bool)
      modifies this`written
      ensures ok <==> env != StopFailed
      ensures written == if ok then Program(trace, inputs, mrpInputs, outputs, mrpOutputs) else old(written)
    {
      if env != StopFailed {
        written := Program(trace, inputs, mrpInputs, outputs, mrpOutputs);
        return true;
      }
      return false;
    }

    method TakeHookHadError(env: BackendOutcome) returns (failed: bool)
      ensures failed <==> env == HookFailed
    {
      return env == HookFailed;
    }

    /** Evaluates the list; every named output gets the value of its handle, except that the results of
        `lost` are missing or do not decode if that is how things go. */
    method Replay(env: BackendOutcome, lost: set<nat>) returns (ok: bool)
      modifies this`results, this`garbled, this`probes
      ensures ok <==> env != ReplayFailed
      ensures !ok ==> probes == old(probes) && results == old(results)
      ensures ok ==> results == map n | n in outputs && (n !in lost || !Missing(env)) :: At(Vals(), outputs[n])
      ensures ok ==> garbled == if Undecodable(env) then lost else {}
      ensures ok ==> probes == map n | n in mrpOutputs :: Residues(Vals(), mrpOutputs[n])
    {
      if env == ReplayFailed {
        return false;
      }
      var vs := Values(sem, trace);
      results := map n | n in outputs && (n !in lost || !Missing(env)) :: At(vs, outputs[n]);
      garbled := if Undecodable(env) then lost else {};
      probes := map n | n in mrpOutputs :: Residues(vs, mrpOutputs[n]);
      return true;
    }

    method ClearCaptured()
      modifies this`trace, this`inputs, this`mrpInputs, this`outputs, this`mrpOutputs
      ensures Empty()
    {
      trace, inputs, mrpInputs, outputs, mrpOutputs := [], map[], map[], map[], map[];
    }
  }

  predicate Missing(env: BackendOutcome) {
    env.Interrupted? && env.fault.NoResult?
  }

  predicate Undecodable(env: BackendOutcome) {
    env.Interrupted? && env.fault.Garbled?
  }

  function Residues(vs: seq<Bytes>, hs: seq<(Handle, nat)>): (r: seq<(Bytes, nat)>)
    ensures |r| == |hs|
  {
    seq(|hs|, i requires 0 <= i < |hs| => (At(vs, hs[i].0), hs[i].1))
  }
}
