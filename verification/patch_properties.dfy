/**
 * Laws of whole-patch application: the left fold, abort on the first
 * failure without rollback, and the agreement between replaying a patch to
 * a sink that applies operations and applying it directly.
 */
module PatchProperties {
  import opened JsonValue
  import opened Errors
  import opened JsonPointer
  import opened Op
  import opened PatchApply

  /** Running `a ++ b` runs `a`, then, if nothing failed, `b` on the document `a` left. */
  lemma {:induction false} RunAppend(doc: Json, a: seq<Operation>, b: seq<Operation>)
    ensures var s := Run(doc, a);
      Run(doc, a + b) == if s.result.Err? then s else Run(s.doc, b)
    decreases |a|
  {
    if a == [] {
      assert a + b == b;
    } else {
      assert (a + b)[0] == a[0] && (a + b)[1..] == a[1..] + b;
      var s := ApplyOperation(doc, a[0]);
      if s.result.Ok? {
        RunAppend(s.doc, a[1..], b);
      }
    }
  }

  /** One more operation at the end is applied only when everything before it succeeded. */
  lemma RunSnoc(doc: Json, ops: seq<Operation>, op: Operation)
    ensures var s := Run(doc, ops);
      Run(doc, ops + [op]) == if s.result.Err? then s else ApplyOperation(s.doc, op)
  {
    RunAppend(doc, ops, [op]);
    var s := Run(doc, ops);
    if s.result.Ok? {
      assert [op][1..] == [];
    }
  }

  /**
   * A patch succeeds exactly when every operation succeeds on the document
   * the operations before it left.
   */
  lemma {:induction false} RunOkIffEachOk(doc: Json, ops: seq<Operation>)
    ensures Run(doc, ops).result.Ok? <==>
      forall k :: 0 <= k < |ops| ==> ApplyOperation(Run(doc, ops[..k]).doc, ops[k]).result.Ok?
    decreases |ops|
  {
    if ops != [] {
      var n := |ops| - 1;
      var init := ops[..n];
      assert ops == init + [ops[n]];
      RunSnoc(doc, init, ops[n]);
      RunOkIffEachOk(doc, init);
      forall k | 0 <= k < n
        ensures init[..k] == ops[..k] && init[k] == ops[k]
      {
      }
      assert ops[..n] == init;
    }
  }

  /**
   * At the first failing operation the patch stops: its error is the
   * patch's error, and the document is what the earlier operations and the
   * failing one left, with nothing rolled back and nothing after it applied.
   */
  lemma RunFirstFailure(doc: Json, ops: seq<Operation>, k: nat)
    requires k < |ops|
    requires Run(doc, ops[..k]).result.Ok?
    requires ApplyOperation(Run(doc, ops[..k]).doc, ops[k]).result.Err?
    ensures Run(doc, ops) == ApplyOperation(Run(doc, ops[..k]).doc, ops[k])
  {
    assert ops == ops[..k] + ([ops[k]] + ops[k + 1..]);
    RunAppend(doc, ops[..k], [ops[k]] + ops[k + 1..]);
    assert ([ops[k]] + ops[k + 1..])[0] == ops[k];
  }

  /**
   * An empty patch never touches the target, whatever it is; a non-empty
   * patch starts from `{}` when the target is not a container.
   */
  lemma PatchStart(doc: Json, p: Patch)
    ensures IsEmpty(p) ==> ApplyPatch(doc, p) == Applied(doc, Ok(()))
    ensures !IsEmpty(p) && !doc.IsContainer() ==> ApplyPatch(doc, p) == Run(EmptyObject, p.ops)
    ensures !IsEmpty(p) && doc.IsContainer() ==> ApplyPatch(doc, p) == Run(doc, p.ops)
  {
  }

  /**
   * A replace that succeeds followed by a test that fails: the patch fails
   * with `InvalidTest`, the replacement stays, and what follows is not applied.
   */
  lemma ReplaceThenFailedTest(doc: Json, path: string, v: Json, test: string, w: Json, rest: seq<Operation>)
    requires Resolve(doc, path).Some?
    requires ApplyTest(Put(doc, path, v), test, w).Err?
    ensures Run(doc, [Replace(path, v), Test(test, w)] + rest) == Applied(Put(doc, path, v), Err(InvalidTest))
  {
    var ops := [Replace(path, v), Test(test, w)] + rest;
    assert ops[0] == Replace(path, v) && ops[1..][0] == Test(test, w);
    var s := ApplyOperation(doc, ops[0]);
    assert s == Applied(Put(doc, path, v), Ok(()));
  }

  /** The answer of a closure that applies each operation it receives to a document it owns. */
  function Applier(start: Json): (seq<Operation>, Operation) -> Result<()> {
    (history: seq<Operation>, op: Operation) => ApplyOperation(Run(start, history).doc, op).result
  }

  /**
   * Replaying a patch to a sink that applies each operation to its own
   * document starting at `start` fails exactly as applying the patch to
   * `start` directly, and the sink ends up holding the same document.
   */
  lemma {:induction false} DeliverToApplier(start: Json, history: seq<Operation>, ops: seq<Operation>)
    requires Run(start, history).result.Ok?
    ensures var (received, r) := Deliver(Applier(start), history, ops);
      && r == Run(Run(start, history).doc, ops).result
      && Run(start, received) == Run(Run(start, history).doc, ops)
    decreases |ops|
  {
    var d := Run(start, history).doc;
    if ops == [] {
      assert Deliver(Applier(start), history, ops) == (history, Ok(()));
      assert Run(start, history).result.value == ();
      assert Run(start, history) == Applied(d, Ok(()));
    } else {
      RunSnoc(start, history, ops[0]);
      var s := ApplyOperation(d, ops[0]);
      assert Run(start, history + [ops[0]]) == s;
      if s.result.Ok? {
        DeliverToApplier(start, history + [ops[0]], ops[1..]);
      }
    }
  }

  /** With a fresh sink, `apply_fun` and the fold without the initial reset agree. */
  lemma ApplyFunMatchesRun(start: Json, ops: seq<Operation>)
    ensures Deliver(Applier(start), [], ops).1 == Run(start, ops).result
    ensures Run(start, Deliver(Applier(start), [], ops).0) == Run(start, ops)
  {
    DeliverToApplier(start, [], ops);
  }

  /**
   * What a sink receives: on success every operation, in order, each call
   * answered `Ok`; on failure the operations up to and including the first
   * whose call failed, and that call's error.
   */
  lemma {:induction false} DeliverReceives(respond: (seq<Operation>, Operation) -> Result<()>, history: seq<Operation>, ops: seq<Operation>)
    ensures var (received, r) := Deliver(respond, history, ops);
      && (r.Ok? ==>
            && received == history + ops
            && forall k :: 0 <= k < |ops| ==> respond(history + ops[..k], ops[k]).Ok?)
      && (r.Err? ==>
            exists k ::
              && 0 <= k < |ops|
              && received == history + ops[..k] + [ops[k]]
              && r == respond(history + ops[..k], ops[k])
              && forall j :: 0 <= j < k ==> respond(history + ops[..j], ops[j]).Ok?)
    decreases |ops|
  {
    if ops == [] {
      assert history + [] == history;
    } else {
      var h := history + [ops[0]];
      var r0 := respond(history, ops[0]);
      assert ops[..0] == [] && history + ops[..0] == history;
      if r0.Err? {
        assert Deliver(respond, history, ops) == (history + ops[..0] + [ops[0]], r0);
      } else {
        DeliverReceives(respond, h, ops[1..]);
        var (received, r) := Deliver(respond, h, ops[1..]);
        assert Deliver(respond, history, ops) == (received, r);
        forall k | 0 <= k < |ops[1..]|
          ensures h + ops[1..][..k] == history + ops[..k + 1] && ops[1..][k] == ops[k + 1]
        {
          assert ops[..k + 1] == [ops[0]] + ops[1..][..k];
        }
        if r.Ok? {
          assert h + ops[1..] == history + ops;
          forall k | 0 <= k < |ops|
            ensures respond(history + ops[..k], ops[k]).Ok?
          {
            if k > 0 {
              assert h + ops[1..][..k - 1] == history + ops[..k];
            }
          }
        } else {
          var k :| 0 <= k < |ops[1..]|
            && received == h + ops[1..][..k] + [ops[1..][k]]
            && r == respond(h + ops[1..][..k], ops[1..][k])
            && forall j :: 0 <= j < k ==> respond(h + ops[1..][..j], ops[1..][j]).Ok?;
          assert received == history + ops[..k + 1] + [ops[k + 1]];
          forall j | 0 <= j < k + 1
            ensures respond(history + ops[..j], ops[j]).Ok?
          {
            if j > 0 {
              assert h + ops[1..][..j - 1] == history + ops[..j];
            }
          }
        }
      }
    }
  }
}
