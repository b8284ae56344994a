/** Hash contexts of `src/hash`: each owns a SHA object; `fork` copies its state. Any
    interleaving of operations on any number of live contexts is checked against a machine
    that keeps, for every context, only the octets fed along its ancestry. */
module HashContexts {
  import opened Bytes
  import opened Sha
  import opened ShaObjects

  class Context {
    const sha: ShaObject

    constructor (sha: ShaObject)
      ensures this.sha == sha
    {
      this.sha := sha;
    }

    method Update(data: seq<byte>)
      requires sha.Valid()
      modifies sha, sha.block
      ensures sha.Valid() && sha.log == old(sha.log) + data
    {
      sha.Update(data);
    }

    /** A separate object that stands for the same octets; this context is only read. */
    method Fork() returns (c: Context)
      requires sha.Valid()
      ensures fresh(c) && fresh(c.sha) && fresh(c.sha.block) && c.sha.Valid()
      ensures c.sha.core == sha.core && c.sha.alg == sha.alg && c.sha.log == sha.log
    {
      var copy := sha.Copy();
      c := new Context(copy);
    }

    /** The digest so far; nothing is modified, so the context can go on. */
    method ForkFinish() returns (digest: seq<byte>)
      requires sha.Valid()
      ensures digest == Hash(sha.core, sha.alg, sha.log)
    {
      var c := Fork();
      digest := c.Finish();
    }

    /** Consumes the context. */
    method Finish() returns (digest: seq<byte>)
      requires sha.Valid()
      modifies sha, sha.block
      ensures digest == Hash(sha.core, sha.alg, old(sha.log))
    {
      digest := sha.Finalize();
    }
  }

  method StartContext(core: Core, alg: Algorithm) returns (c: Context)
    ensures fresh(c) && fresh(c.sha) && fresh(c.sha.block) && c.sha.Valid()
    ensures c.sha.core == core && c.sha.alg == alg && c.sha.log == []
  {
    var sha := new ShaObject(core, alg);
    c := new Context(sha);
  }

  /** `hash`: start, one update, finish. */
  method HashOf(core: Core, alg: Algorithm, data: seq<byte>) returns (digest: seq<byte>)
    ensures digest == Hash(core, alg, data)
  {
    var c := StartContext(core, alg);
    c.Update(data);
    assert [] + data == data;
    digest := c.Finish();
  }

  // ---------------------------------------------------------------- the log machine

  /** A context of the log machine: the algorithm and the octets fed so far. */
  datatype Log = Log(alg: Algorithm, bytes: seq<byte>)

  /** Contexts are numbered in the order they are started or forked; Finish retires its context. */
  datatype Op =
    | Start(alg: Algorithm)
    | Update(id: nat, data: seq<byte>)
    | Fork(id: nat)
    | ForkFinish(id: nat)
    | Finish(id: nat)

  /** Ownership: an operation names a context that exists and is not finished. */
  predicate Legal(logs: seq<Option<Log>>, op: Op) {
    op.Start? || (op.id < |logs| && logs[op.id].Some?)
  }

  function NextLogs(logs: seq<Option<Log>>, op: Op): seq<Option<Log>>
    requires Legal(logs, op)
  {
    match op
    case Start(alg) => logs + [Some(Log(alg, []))]
    case Update(id, data) => logs[id := Some(Log(logs[id].value.alg, logs[id].value.bytes + data))]
    case Fork(id) => logs + [logs[id]]
    case ForkFinish(_) => logs
    case Finish(id) => logs[id := None]
  }

  /** What an operation outputs: the one-shot hash of the whole log of its context. */
  function Outputs(core: Core, logs: seq<Option<Log>>, op: Op): seq<seq<byte>>
    requires Legal(logs, op)
  {
    if op.ForkFinish? || op.Finish?
    then [Hash(core, logs[op.id].value.alg, logs[op.id].value.bytes)]
    else []
  }

  predicate LegalTrace(logs: seq<Option<Log>>, ops: seq<Op>)
    decreases |ops|
  {
    ops != [] ==> Legal(logs, ops[0]) && LegalTrace(NextLogs(logs, ops[0]), ops[1..])
  }

  function TraceOutputs(core: Core, logs: seq<Option<Log>>, ops: seq<Op>): seq<seq<byte>>
    requires LegalTrace(logs, ops)
    decreases |ops|
  {
    if ops == [] then []
    else Outputs(core, logs, ops[0]) + TraceOutputs(core, NextLogs(logs, ops[0]), ops[1..])
  }

  lemma TraceStep(core: Core, logs: seq<Option<Log>>, ops: seq<Op>, i: nat)
    requires i < |ops| && LegalTrace(logs, ops[i..])
    ensures Legal(logs, ops[i]) && LegalTrace(NextLogs(logs, ops[i]), ops[i + 1..])
    ensures TraceOutputs(core, logs, ops[i..])
         == Outputs(core, logs, ops[i]) + TraceOutputs(core, NextLogs(logs, ops[i]), ops[i + 1..])
  {
    assert ops[i..][0] == ops[i] && ops[i..][1..] == ops[i + 1..];
  }

  // ---------------------------------------------------------------- refinement

  /** Context i is live exactly when log i is, and then stands for it. */
  ghost predicate Matches(core: Core, contexts: seq<Context?>, logs: seq<Option<Log>>)
    reads set c | c in contexts && c != null :: c.sha
    reads set c | c in contexts && c != null :: c.sha.block
  {
    |contexts| == |logs| &&
    forall i :: 0 <= i < |contexts| ==>
      (contexts[i] == null <==> logs[i] == None) &&
      (contexts[i] != null ==>
        var sha := contexts[i].sha;
        sha.Valid() && sha.core == core && sha.alg == logs[i].value.alg && sha.log == logs[i].value.bytes)
  }

  /** No two live contexts share a SHA object or a block buffer. */
  ghost predicate Separate(contexts: seq<Context?>) {
    forall i, j :: 0 <= i < j < |contexts| && contexts[i] != null && contexts[j] != null ==>
      contexts[i].sha != contexts[j].sha && contexts[i].sha.block != contexts[j].sha.block
  }

  /** Updating or finishing one context leaves every other live context as it was. */
  method PerformUpdate(core: Core, contexts: seq<Context?>, ghost logs: seq<Option<Log>>, id: nat, data: seq<byte>)
    requires Matches(core, contexts, logs) && Separate(contexts) && Legal(logs, Op.Update(id, data))
    modifies contexts[id].sha, contexts[id].sha.block
    ensures Matches(core, contexts, NextLogs(logs, Op.Update(id, data)))
  {
    contexts[id].Update(data);
  }

  method PerformFinish(core: Core, contexts: seq<Context?>, ghost logs: seq<Option<Log>>, id: nat)
    returns (digest: seq<byte>)
    requires Matches(core, contexts, logs) && Separate(contexts) && Legal(logs, Op.Finish(id))
    modifies contexts[id].sha, contexts[id].sha.block
    ensures Matches(core, contexts[id := null], NextLogs(logs, Op.Finish(id)))
    ensures Separate(contexts[id := null])
    ensures [digest] == Outputs(core, logs, Op.Finish(id))
  {
    digest := contexts[id].Finish();
  }

  method PerformStart(core: Core, contexts: seq<Context?>, ghost logs: seq<Option<Log>>, alg: Algorithm)
    returns (c: Context)
    requires Matches(core, contexts, logs) && Separate(contexts)
    ensures fresh(c) && fresh(c.sha) && fresh(c.sha.block)
    ensures Matches(core, contexts + [c], NextLogs(logs, Op.Start(alg))) && Separate(contexts + [c])
  {
    c := StartContext(core, alg);
    AddContext(core, contexts, logs, c, Log(alg, []));
  }

  /** The fork joins the live contexts; its parent is among those left as they were. */
  method PerformFork(core: Core, contexts: seq<Context?>, ghost logs: seq<Option<Log>>, id: nat)
    returns (c: Context)
    requires Matches(core, contexts, logs) && Separate(contexts) && Legal(logs, Op.Fork(id))
    ensures fresh(c) && fresh(c.sha) && fresh(c.sha.block)
    ensures Matches(core, contexts + [c], NextLogs(logs, Op.Fork(id))) && Separate(contexts + [c])
  {
    c := contexts[id].Fork();
    AddContext(core, contexts, logs, c, logs[id].value);
  }

  /** A context that shares nothing with the live ones joins them. */
  lemma AddContext(core: Core, contexts: seq<Context?>, logs: seq<Option<Log>>, c: Context, log: Log)
    requires Matches(core, contexts, logs) && Separate(contexts)
    requires c.sha.Valid() && c.sha.core == core && c.sha.alg == log.alg && c.sha.log == log.bytes
    requires forall i :: 0 <= i < |contexts| && contexts[i] != null ==>
               contexts[i].sha != c.sha && contexts[i].sha.block != c.sha.block
    ensures Matches(core, contexts + [c], logs + [Some(log)]) && Separate(contexts + [c])
  {
  }

  /** One operation on the live contexts, as the log machine prescribes. */
  method Perform(core: Core, contexts: seq<Context?>, ghost logs: seq<Option<Log>>, op: Op)
    returns (next: seq<Context?>, output: seq<seq<byte>>)
    requires Matches(core, contexts, logs) && Separate(contexts) && Legal(logs, op)
    modifies set c | c in contexts && c != null :: c.sha
    modifies set c | c in contexts && c != null :: c.sha.block
    ensures Matches(core, next, NextLogs(logs, op)) && Separate(next)
    ensures forall c :: c in next && c != null ==>
              c in contexts || (fresh(c.sha) && fresh(c.sha.block))
    ensures output == Outputs(core, logs, op)
  {
    next, output := contexts, [];
    match op {
      case Start(alg) =>
        var c := PerformStart(core, contexts, logs, alg);
        next := contexts + [c];
      case Update(id, data) =>
        PerformUpdate(core, contexts, logs, id, data);
      case Fork(id) =>
        var c := PerformFork(core, contexts, logs, id);
        next := contexts + [c];
      case ForkFinish(id) =>
        var digest := contexts[id].ForkFinish();
        output := [digest];
      case Finish(id) =>
        var digest := PerformFinish(core, contexts, logs, id);
        next := contexts[id := null];
        assert forall c :: c in next && c != null ==> c in contexts;
        output := [digest];
    }
  }

  /** Any interleaving over any number of live contexts outputs, operation by operation, the
      one-shot hashes of exactly the octets fed along each context's ancestry. */
  method Replay(core: Core, ops: seq<Op>) returns (outputs: seq<seq<byte>>)
    requires LegalTrace([], ops)
    ensures outputs == TraceOutputs(core, [], ops)
  {
    var contexts: seq<Context?> := [];
    ghost var logs: seq<Option<Log>> := [];
    outputs := [];
    assert ops[0..] == ops;
    for i := 0 to |ops|
      invariant Matches(core, contexts, logs) && Separate(contexts)
      invariant forall c :: c in contexts && c != null ==> fresh(c.sha) && fresh(c.sha.block)
      invariant LegalTrace(logs, ops[i..])
      invariant TraceOutputs(core, [], ops) == outputs + TraceOutputs(core, logs, ops[i..])
    {
      TraceStep(core, logs, ops, i);
      var output;
      contexts, output := Perform(core, contexts, logs, ops[i]);
      logs := NextLogs(logs, ops[i]);
      ConcatAssociative(outputs, output, TraceOutputs(core, logs, ops[i + 1..]));
      outputs := outputs + output;
    }
  }
}
