/**
 * A JSON Patch document: a sequence of operations applied in order to one
 * target, stopping at the first failure without undoing earlier ones; or
 * replayed, in the same order, to an operation sink.
 */
module PatchApply {
  import opened JsonValue
  import opened Errors
  import opened Op
  import opened Sink

  datatype Patch = Patch(ops: seq<Operation>)

  /** `len`: the number of operations, zero exactly for a patch without any. */
  function Len(p: Patch): (n: nat)
    ensures n == 0 <==> p.ops == []
  {
    |p.ops|
  }

  function IsEmpty(p: Patch): (b: bool)
    ensures b <==> Len(p) == 0
  {
    p.ops == []
  }

  /** The operations applied left to right from `doc`, up to and including the first that fails. */
  function Run(doc: Json, ops: seq<Operation>): Applied<()>
    decreases |ops|
  {
    if ops == [] then Applied(doc, Ok(()))
    else
      var s := ApplyOperation(doc, ops[0]);
      if s.result.Err? then s else Run(s.doc, ops[1..])
  }

  /**
   * What `apply_mut` does to its target: an empty patch leaves it alone;
   * otherwise a target that is neither object nor array is first replaced by
   * `{}`, then the operations run.
   */
  function ApplyPatch(doc: Json, p: Patch): Applied<()> {
    if IsEmpty(p) then Applied(doc, Ok(()))
    else Run(if doc.IsContainer() then doc else EmptyObject, p.ops)
  }

  /** `apply_mut`: the target document is changed in place. */
  method ApplyMut(p: Patch, output: Document) returns (r: Result<()>)
    modifies output
    ensures Applied(output.doc, r) == ApplyPatch(old(output.doc), p)
  {
    if IsEmpty(p) {
      return Ok(());
    }
    if !output.doc.IsContainer() {
      output.doc := EmptyObject;
    }
    ghost var start := output.doc;
    var i := 0;
    while i < |p.ops|
      invariant 0 <= i <= |p.ops|
      invariant Run(start, p.ops) == Run(output.doc, p.ops[i..])
    {
      assert p.ops[i..][0] == p.ops[i] && p.ops[i..][1..] == p.ops[i + 1..];
      var res := output.Apply(p.ops[i]);
      if res.Err? {
        return res;
      }
      i := i + 1;
    }
    assert p.ops[i..] == [];
    r := Ok(());
  }

  /** `apply_ref`: the patch applied to a copy of the input, which is returned on success. */
  method ApplyRef(p: Patch, output: Json) returns (r: Result<Json>)
    ensures var s := ApplyPatch(output, p);
      && (r.Ok? <==> s.result.Ok?)
      && (r.Ok? ==> r.value == s.doc)
      && (r.Err? ==> r.error == s.result.error)
  {
    var value := new Document(output);
    var res := ApplyMut(p, value);
    if res.Err? {
      return Err(res.error);
    }
    r := Ok(value.doc);
  }

  /**
   * What `apply_fun` hands to a closure sink: the history it has seen
   * afterwards, and the result.  Each operation goes to the sink in order;
   * the first failure stops the replay.
   */
  function Deliver(respond: (seq<Operation>, Operation) -> Result<()>, history: seq<Operation>, ops: seq<Operation>): (seq<Operation>, Result<()>)
    decreases |ops|
  {
    if ops == [] then (history, Ok(()))
    else
      var r := respond(history, ops[0]);
      if r.Err? then (history + [ops[0]], r)
      else Deliver(respond, history + [ops[0]], ops[1..])
  }

  /**
   * `apply_fun`: each operation goes to the sink entry point of its kind.
   * There is no empty-patch check and no reset of anything.
   */
  method ApplyFun(p: Patch, sink: ClosureSink) returns (r: Result<()>)
    modifies sink
    ensures (sink.received, r) == Deliver(sink.respond, old(sink.received), p.ops)
  {
    var i := 0;
    while i < |p.ops|
      invariant 0 <= i <= |p.ops|
      invariant Deliver(sink.respond, old(sink.received), p.ops) == Deliver(sink.respond, sink.received, p.ops[i..])
    {
      assert p.ops[i..][0] == p.ops[i] && p.ops[i..][1..] == p.ops[i + 1..];
      var res: Result<()>;
      match p.ops[i] {
        case Add(path, value) => res := sink.PatchAdd(path, value);
        case Remove(path) => res := sink.PatchRemove(path);
        case Replace(path, value) => res := sink.PatchReplace(path, value);
        case Move(from, path) => res := sink.PatchMove(from, path);
        case Copy(from, path) => res := sink.PatchCopy(from, path);
        case Test(path, value) => res := sink.PatchTest(path, value);
      }
      if res.Err? {
        return res;
      }
      i := i + 1;
    }
    assert p.ops[i..] == [];
    r := Ok(());
  }
}
