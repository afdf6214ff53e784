/**
 * The operation sink: a consumer with one entry point per operation kind.
 * The library implements it for every closure that takes a whole
 * `Operation`; each entry point wraps its argument back into the matching
 * variant and calls the closure once.
 */
module Sink {
  import opened JsonValue
  import opened Errors
  import opened Op

  /**
   * A closure `FnMut(Operation) -> Result<()>` seen as a sink.  The closure
   * may keep state of its own; its behaviour is modelled by the operations it
   * has received so far and by `respond`, which gives its answer from that
   * history and the next operation.
   */
  class ClosureSink {
    const respond: (seq<Operation>, Operation) -> Result<()>
    var received: seq<Operation>

    constructor (respond: (seq<Operation>, Operation) -> Result<()>)
      ensures this.respond == respond && received == []
    {
      this.respond := respond;
      received := [];
    }

    /** One call of the closure. */
    method Call(op: Operation) returns (r: Result<()>)
      modifies this
      ensures received == old(received) + [op]
      ensures r == respond(old(received), op)
    {
      r := respond(received, op);
      received := received + [op];
    }

    method PatchAdd(path: string, value: Json) returns (r: Result<()>)
      modifies this
      ensures received == old(received) + [Add(path, value)]
      ensures r == respond(old(received), Add(path, value))
    {
      r := Call(Add(path, value));
    }

    method PatchCopy(from: string, path: string) returns (r: Result<()>)
      modifies this
      ensures received == old(received) + [Copy(from, path)]
      ensures r == respond(old(received), Copy(from, path))
    {
      r := Call(Copy(from, path));
    }

    method PatchMove(from: string, path: string) returns (r: Result<()>)
      modifies this
      ensures received == old(received) + [Move(from, path)]
      ensures r == respond(old(received), Move(from, path))
    {
      r := Call(Move(from, path));
    }

    method PatchRemove(path: string) returns (r: Result<()>)
      modifies this
      ensures received == old(received) + [Remove(path)]
      ensures r == respond(old(received), Remove(path))
    {
      r := Call(Remove(path));
    }

    method PatchReplace(path: string, value: Json) returns (r: Result<()>)
      modifies this
      ensures received == old(received) + [Replace(path, value)]
      ensures r == respond(old(received), Replace(path, value))
    {
      r := Call(Replace(path, value));
    }

    method PatchTest(path: string, value: Json) returns (r: Result<()>)
      modifies this
      ensures received == old(received) + [Test(path, value)]
      ensures r == respond(old(received), Test(path, value))
    {
      r := Call(Test(path, value));
    }
  }
}
