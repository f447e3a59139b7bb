// Runs of Buffer operations, measured against an abstract queue of bytes.
module BufferRuns {
  import opened Bytes
  import B = BufferState

  type State = B.State
  type Form = B.Form

  datatype Op =
    | Write(data: seq<byte>, junk: seq<byte>)
    | ReadFd(data: seq<byte>, junk: seq<byte>)
    | Fill(data: seq<byte>)
    | Ensure(len: nat, junk: seq<byte>)
    | Prepend(data: seq<byte>)
    | Retrieve(n: nat)
    | Read(n: nat)
    | ReadAll
    | Reset

  /** One call: the state after it and the bytes it hands back; None when an assertion stops it. */
  function Step(form: Form, s: State, op: Op): (r: Option<(State, seq<byte>)>)
    requires s.Valid()
    ensures r.Some? ==> r.value.0.Valid()
  {
    match op
    case Write(data, junk) => Silent(B.Write(form, s, data, junk))
    case ReadFd(data, junk) => Silent(B.ReadFd(form, s, data, junk))
    case Fill(data) => Silent(B.Fill(s, data))
    case Ensure(len, junk) => Silent(B.Ensure(form, s, len, junk))
    case Prepend(data) => Silent(B.Prepend(s, data))
    case Retrieve(n) => Silent(B.Retrieve(s, n))
    case Read(n) => Take(s, n)
    case ReadAll => Take(s, |s.Window()|)
    case Reset => Some((B.Reset(s), []))
  }

  function Silent(r: Option<State>): Option<(State, seq<byte>)> {
    if r.Some? then Some((r.value, [])) else None
  }

  function Take(s: State, n: nat): (r: Option<(State, seq<byte>)>)
    requires s.Valid()
    ensures r.Some? ==> r.value.0.Valid()
  {
    var t := B.Retrieve(s, n);
    if t.Some? then Some((t.value, s.Window()[..n])) else None
  }

  /** The argument is one the operation's own assertion lets through. */
  predicate Legal(s: State, op: Op)
    requires s.Valid()
  {
    match op
    case ReadFd(data, _) => |data| <= B.Offer(s)
    case Fill(data) => |data| <= s.Writeable()
    case Prepend(data) => |data| <= s.readPos
    case Retrieve(n) => n <= |s.Window()|
    case Read(n) => n <= |s.Window()|
    case _ => true
  }

  /** The same operation on a plain queue of bytes. */
  function QueueStep(q: seq<byte>, op: Op): (seq<byte>, seq<byte>) {
    match op
    case Write(data, _) => (q + data, [])
    case ReadFd(data, _) => (q + data, [])
    case Fill(data) => (q + data, [])
    case Ensure(_, _) => (q, [])
    case Prepend(data) => (data + q, [])
    case Retrieve(n) => (if n <= |q| then q[n..] else [], [])
    case Read(n) => if n <= |q| then (q[n..], q[..n]) else ([], q)
    case ReadAll => ([], q)
    case Reset => ([], [])
  }

  /** A whole run, with everything it handed back. */
  function Run(form: Form, s: State, ops: seq<Op>): (r: Option<(State, seq<byte>)>)
    requires s.Valid()
    ensures r.Some? ==> r.value.0.Valid()
    decreases |ops|
  {
    if ops == [] then Some((s, []))
    else
      var t := Step(form, s, ops[0]);
      if t.None? then None
      else
        var u := Run(form, t.value.0, ops[1..]);
        if u.None? then None else Some((u.value.0, t.value.1 + u.value.1))
  }

  function QueueRun(q: seq<byte>, ops: seq<Op>): (seq<byte>, seq<byte>)
    decreases |ops|
  {
    if ops == [] then (q, [])
    else
      var t := QueueStep(q, ops[0]);
      var u := QueueRun(t.0, ops[1..]);
      (u.0, t.1 + u.1)
  }

  /** A run of three calls, step by step. */
  lemma RunThree(form: Form, s: State, a: Op, b: Op, c: Op)
    requires s.Valid() && Step(form, s, a).Some?
    requires var s1 := Step(form, s, a).value.0;
             && Step(form, s1, b).Some?
             && Step(form, Step(form, s1, b).value.0, c).Some?
    ensures var s2 := Step(form, Step(form, s, a).value.0, b).value.0;
            && Run(form, s, [a, b, c]).Some?
            && Run(form, s, [a, b, c]).value.0 == Step(form, s2, c).value.0
  {
    hide Step;
    var s1 := Step(form, s, a).value.0;
    var s2 := Step(form, s1, b).value.0;
    var s3 := Step(form, s2, c).value.0;
    assert [a, b, c][1..] == [b, c] && [b, c][1..] == [c] && [c][1..] == [];
    assert Run(form, s3, []) == Some((s3, []));
    assert Run(form, s2, [c]).Some? && Run(form, s2, [c]).value.0 == s3;
    assert Run(form, s1, [b, c]).Some? && Run(form, s1, [b, c]).value.0 == s3;
  }

  // ---------------------------------------------------------------------------------
  // Refinement
  // ---------------------------------------------------------------------------------

  /** The step succeeded, the window is the queue after it, and the right bytes came back. */
  predicate Refines(form: Form, s: State, op: Op)
    requires s.Valid()
  {
    var r := Step(form, s, op);
    r.Some? && (r.value.0.Window(), r.value.1) == QueueStep(s.Window(), op)
  }

  /** Repaired, for every capacity the vector picks: a call fails only by its own assertion. */
  lemma RepairedStep(s: State, op: Op)
    requires s.Valid()
    ensures Legal(s, op) <==> Step(B.Repaired, s, op).Some?
    ensures Legal(s, op) ==> Refines(B.Repaired, s, op)
  {
    hide B.Write, B.ReadFd, B.Ensure;
    match op
    case Write(data, junk) => B.WriteRepaired(s, data, junk);
    case ReadFd(data, junk) => B.ReadFdRepaired(s, data, junk);
    case Ensure(len, junk) => B.EnsureRepaired(s, len, junk);
    case ReadAll => assert s.Window()[..|s.Window()|] == s.Window();
    case Reset => assert B.Reset(s).Window() == [];
    case _ =>
  }

  /** Every argument of the run passes the assertion of its own call. */
  predicate LegalRun(form: Form, s: State, ops: seq<Op>)
    requires s.Valid()
    decreases |ops|
  {
    ops != [] ==>
      && Legal(s, ops[0])
      && var r := Step(form, s, ops[0]);
         r.Some? ==> LegalRun(form, r.value.0, ops[1..])
  }

  /** The run completes, and what it leaves and hands back is what the queue would. */
  predicate RunRefines(form: Form, s: State, ops: seq<Op>)
    requires s.Valid()
  {
    var r := Run(form, s, ops);
    r.Some? && (r.value.0.Window(), r.value.1) == QueueRun(s.Window(), ops)
  }

  /** Every run of the repaired buffer with legal arguments completes, and is a run of the queue. */
  lemma {:induction false} RepairedRun(s: State, ops: seq<Op>)
    requires s.Valid()
    ensures Run(B.Repaired, s, ops).Some? <==> LegalRun(B.Repaired, s, ops)
    ensures LegalRun(B.Repaired, s, ops) ==> RunRefines(B.Repaired, s, ops)
    decreases |ops|
  {
    hide Step, QueueStep, Legal;
    if ops != [] {
      RepairedStep(s, ops[0]);
      var r := Step(B.Repaired, s, ops[0]);
      if r.Some? {
        RepairedRun(r.value.0, ops[1..]);
      }
    }
  }

  /** The indices let the code as written get through this call unharmed. */
  predicate Safe(s: State, op: Op)
    requires s.Valid()
  {
    match op
    case Write(data, junk) => B.WriteIsSafe(s, |data|, |junk|)
    case ReadFd(data, junk) => B.ReadFdIsSafe(s, data, |junk|)
    case Ensure(len, junk) => B.EnsureIsSafe(s, len, |junk|)
    case _ => true
  }

  predicate SafeRun(s: State, ops: seq<Op>)
    requires s.Valid()
    decreases |ops|
  {
    ops != [] ==>
      && Safe(s, ops[0])
      && var r := Step(B.AsWritten, s, ops[0]);
         r.Some? ==> SafeRun(r.value.0, ops[1..])
  }

  lemma AsWrittenStep(s: State, op: Op)
    requires s.Valid() && Legal(s, op) && Safe(s, op)
    ensures Refines(B.AsWritten, s, op)
  {
    hide B.Write, B.ReadFd, B.Ensure;
    match op
    case Write(data, junk) => B.WriteAsWrittenSafe(s, data, junk);
    case ReadFd(data, junk) => B.ReadFdAsWrittenSafe(s, data, junk);
    case Ensure(len, junk) => B.EnsureAsWrittenSafe(s, len, junk);
    case ReadAll => assert s.Window()[..|s.Window()|] == s.Window();
    case Reset => assert B.Reset(s).Window() == [];
    case _ =>
  }

  /** An unsafe call does not do what the queue does, for some contents of the block. */
  lemma AsWrittenUnsafe(s: State, op: Op) returns (t: State)
    requires s.Valid() && Legal(s, op) && !Safe(s, op)
    ensures t.Valid() && |t.mem| == |s.mem| && t == s.(mem := t.mem)
    ensures !Refines(B.AsWritten, t, op)
  {
    hide B.Write, B.ReadFd, B.Ensure, B.WriteIsSafe, B.ReadFdIsSafe, B.EnsureIsSafe;
    match op
    case Write(data, junk) =>
      var mem := B.WriteAsWrittenUnsafe(s, data, junk);
      t := s.(mem := mem);
    case ReadFd(data, junk) => t := B.ReadFdAsWrittenUnsafe(s, data, junk);
    case Ensure(len, junk) => t := B.EnsureAsWrittenUnsafe(s, len, junk);
  }

  /** Safe and Legal look at indices and lengths only. */
  lemma IndicesDecide(s: State, mem: seq<byte>, op: Op)
    requires s.Valid() && |mem| == |s.mem|
    ensures s.(mem := mem).Valid()
    ensures Legal(s.(mem := mem), op) <==> Legal(s, op)
    ensures Safe(s.(mem := mem), op) <==> Safe(s, op)
  {
  }

  /**
   * As written, one legal call exactly: it does what the queue does for every contents of the
   * block if and only if its indices make it safe.
   */
  lemma AsWrittenStepExact(s: State, op: Op)
    requires s.Valid() && Legal(s, op)
    ensures (forall mem: seq<byte> :: |mem| == |s.mem| ==> Refines(B.AsWritten, s.(mem := mem), op))
       <==> Safe(s, op)
  {
    hide Refines, Safe, Legal;
    if Safe(s, op) {
      forall mem: seq<byte> | |mem| == |s.mem|
        ensures Refines(B.AsWritten, s.(mem := mem), op)
      {
        IndicesDecide(s, mem, op);
        AsWrittenStep(s.(mem := mem), op);
      }
    } else {
      var t := AsWrittenUnsafe(s, op);
      assert |t.mem| == |s.mem|;
    }
  }

  /** As written, a legal run that never meets an unsafe newSpace completes, and is a run of the queue. */
  lemma {:induction false} AsWrittenRun(s: State, ops: seq<Op>)
    requires s.Valid() && SafeRun(s, ops)
    ensures Run(B.AsWritten, s, ops).Some? <==> LegalRun(B.AsWritten, s, ops)
    ensures LegalRun(B.AsWritten, s, ops) ==> RunRefines(B.AsWritten, s, ops)
    decreases |ops|
  {
    hide Step, QueueStep, Legal, Safe;
    if ops != [] {
      var r := Step(B.AsWritten, s, ops[0]);
      if r.Some? {
        LegalIfStepped(s, ops[0]);
      }
      if Legal(s, ops[0]) {
        AsWrittenStep(s, ops[0]);
        AsWrittenRun(r.value.0, ops[1..]);
      }
    }
  }

  lemma LegalIfStepped(s: State, op: Op)
    requires s.Valid() && Step(B.AsWritten, s, op).Some?
    ensures Legal(s, op)
  {
  }

  /** A legal run that is not safe comes, after safe calls, to one that fails the queue for some contents. */
  lemma {:induction false} FirstUnsafe(s: State, ops: seq<Op>) returns (i: nat, t: State)
    requires s.Valid() && LegalRun(B.AsWritten, s, ops) && !SafeRun(s, ops)
    ensures i < |ops| && SafeRun(s, ops[..i]) && LegalRun(B.AsWritten, s, ops[..i])
    ensures RunRefines(B.AsWritten, s, ops[..i])
    ensures var r := Run(B.AsWritten, s, ops[..i]);
            && r.Some? && |t.mem| == |r.value.0.mem| && t == r.value.0.(mem := t.mem)
    ensures t.Valid() && Legal(t, ops[i]) && !Refines(B.AsWritten, t, ops[i])
    decreases |ops|
  {
    hide Step, QueueStep, Legal, Safe, Refines, RunRefines;
    if Safe(s, ops[0]) {
      AsWrittenStep(s, ops[0]);
      StepOfRefines(s, ops[0]);
      var j;
      j, t := FirstUnsafe(Step(B.AsWritten, s, ops[0]).value.0, ops[1..]);
      i := j + 1;
      assert ops[..i][1..] == ops[1..][..j] && ops[..i][0] == ops[0];
    } else {
      i := 0;
      assert ops[..0] == [];
      t := AsWrittenUnsafe(s, ops[0]);
      IndicesDecide(s, t.mem, ops[0]);
    }
    AsWrittenRun(s, ops[..i]);
  }

  lemma StepOfRefines(s: State, op: Op)
    requires s.Valid() && Refines(B.AsWritten, s, op)
    ensures Step(B.AsWritten, s, op).Some?
  {
  }

  lemma CorruptedByCompaction(s: State, data: seq<byte>)
    requires s.Valid() && s.Writeable() < |data| && B.Compacts(s, |data|)
    ensures var r := B.Write(B.AsWritten, s, data, []);
            r.Some? && |r.value.Window()| > 0 && r.value.Window()[0] == s.mem[0]
  {
    B.CompactionMovesLeft(s, |data|);
    B.CompactionAsWritten(s, |data|, []);
    var t := B.NewSpace(B.AsWritten, s, |data|, []).value;
    assert t.Window()[0] == s.mem[0];
  }

  /** The three calls of the next lemma, for either form. */
  lemma FillDrainWrite(form: Form, s: State, data: seq<byte>, head: seq<byte>) returns (s2: State)
    requires s == B.Init(s.mem) && |s.mem| == B.PREPEND + B.INITIAL
    requires |data| == B.INITIAL && B.Write(form, PartlyDrained(s, data), head, []).Some?
    ensures s2 == PartlyDrained(s, data)
    ensures var r := Run(form, s, [Write(data, []), Retrieve(4000), Write(head, [])]);
            r.Some? && r.value.0 == B.Write(form, s2, head, []).value
  {
    var s1 := B.Fill(s, data).value;
    s2 := B.Retrieve(s1, 4000).value;
    assert Step(form, s, Write(data, [])) == Some((s1, []));
    assert Step(form, s1, Retrieve(4000)) == Some((s2, []));
    assert Step(form, s2, Write(head, [])).Some?;
    hide Step, B.Write, B.Retrieve, B.Fill;
    RunThree(form, s, Write(data, []), Retrieve(4000), Write(head, []));
  }

  function PartlyDrained(s: State, data: seq<byte>): (t: State)
    requires s == B.Init(s.mem) && |s.mem| == B.PREPEND + B.INITIAL
    requires |data| == B.INITIAL
    ensures t.Valid() && t.Window() == data[4000..] && t.mem[0] == s.mem[0]
    ensures t.readPos == 4008 && t.writePos == |t.mem| == |s.mem|
  {
    B.Retrieve(B.Fill(s, data).value, 4000).value
  }

  /** Three ordinary calls after which the code as written has replaced unread bytes. */
  lemma AsWrittenCorrupts(s: State, data: seq<byte>)
    requires s == B.Init(s.mem) && |s.mem| == B.PREPEND + B.INITIAL && s.mem[0] == 0
    requires |data| == B.INITIAL && data[4000] == 1
    ensures var ops := [Write(data, []), Retrieve(4000), Write(data[..100], [])];
            && Run(B.AsWritten, s, ops).Some? && Run(B.Repaired, s, ops).Some?
            && Run(B.Repaired, s, ops).value.0.Window() == data[4000..] + data[..100]
            && [0] <= Run(B.AsWritten, s, ops).value.0.Window()
  {
    hide B.Write, Run;
    var head := data[..100];
    var s2 := PartlyDrained(s, data);
    CorruptedByCompaction(s2, head);
    B.WriteRepaired(s2, head, []);
    s2 := FillDrainWrite(B.AsWritten, s, data, head);
    s2 := FillDrainWrite(B.Repaired, s, data, head);
  }

  /** A run of two calls, step by step. */
  lemma RunTwo(form: Form, s: State, a: Op, b: Op)
    requires s.Valid() && Step(form, s, a).Some?
    ensures var r := Step(form, Step(form, s, a).value.0, b);
            && (Run(form, s, [a, b]).Some? <==> r.Some?)
            && (r.Some? ==> Run(form, s, [a, b]).value.0 == r.value.0)
  {
    hide Step;
    var s1 := Step(form, s, a).value.0;
    assert [a, b][1..] == [b] && [b][1..] == [];
    var r := Step(form, s1, b);
    if r.Some? {
      assert Run(form, r.value.0, []) == Some((r.value.0, []));
      assert Run(form, s1, [b]).Some? && Run(form, s1, [b]).value.0 == r.value.0;
    } else {
      assert Run(form, s1, [b]).None?;
    }
  }

  /** Two ordinary calls on a fresh buffer that the code as written does not survive. */
  lemma AsWrittenStops(s: State, header: seq<byte>, data: seq<byte>)
    requires s == B.Init(s.mem) && |s.mem| == B.PREPEND + B.INITIAL
    requires |header| == B.PREPEND && |data| > B.INITIAL
    ensures var ops := [Prepend(header), Write(data, [])];
            && Run(B.AsWritten, s, ops).None?
            && Run(B.Repaired, s, ops).Some?
            && Run(B.Repaired, s, ops).value.0.Window() == header + data
  {
    hide B.Write, B.Prepend, Run;
    var s1 := HeaderOnly(s, header);
    B.GrowthStops(s1, data);
    B.WriteRepaired(s1, data, []);
    RunTwo(B.AsWritten, s, Prepend(header), Write(data, []));
    RunTwo(B.Repaired, s, Prepend(header), Write(data, []));
  }

  lemma HeaderOnly(s: State, header: seq<byte>) returns (t: State)
    requires s == B.Init(s.mem) && |s.mem| == B.PREPEND + B.INITIAL && |header| == B.PREPEND
    ensures B.Prepend(s, header) == Some(t) && t.Valid() && t.Window() == header
    ensures t.readPos == 0 && t.writePos == B.PREPEND && |t.mem| == |s.mem|
  {
    t := B.Prepend(s, header).value;
    assert header + [] == header;
  }

  // ---------------------------------------------------------------------------------
  // Drain-only clients
  // ---------------------------------------------------------------------------------

  /** What a client does that appends, and takes everything out whenever it takes anything. */
  predicate DrainOnly(op: Op) {
    op.Write? || op.ReadFd? || op.Fill? || op.Ensure? || op.ReadAll? || op.Reset?
  }

  lemma FormsAgree(s: State, len: nat, junk: seq<byte>)
    requires s.Valid() && s.readPos == B.PREPEND
    ensures B.Ensure(B.AsWritten, s, len, junk) == B.Ensure(B.Repaired, s, len, junk)
    ensures B.Ensure(B.Repaired, s, len, junk).Some?
    ensures B.Ensure(B.Repaired, s, len, junk).value.readPos == B.PREPEND
  {
  }

  lemma DrainOnlyStep(s: State, op: Op)
    requires s.Valid() && s.readPos == B.PREPEND && DrainOnly(op)
    ensures Step(B.AsWritten, s, op) == Step(B.Repaired, s, op)
    ensures var r := Step(B.Repaired, s, op);
            r.Some? ==> r.value.0.readPos == B.PREPEND
  {
    hide B.Ensure, B.Fill;
    match op
    case Write(data, junk) => FormsAgree(s, |data|, junk);
    case Ensure(len, junk) => FormsAgree(s, len, junk);
    case ReadFd(data, junk) =>
      if s.Writeable() < |data| {
        var t := B.Fill(s, data[..s.Writeable()]);
        if t.Some? {
          FormsAgree(t.value, |data| - s.Writeable(), junk);
        }
      }
    case _ =>
  }

  /** For a drain-only client the two forms of the buffer cannot be told apart, state for state. */
  lemma {:induction false} DrainOnlyRunsAgree(s: State, ops: seq<Op>)
    requires s.Valid() && s.readPos == B.PREPEND
    requires forall op :: op in ops ==> DrainOnly(op)
    ensures Run(B.AsWritten, s, ops) == Run(B.Repaired, s, ops)
    decreases |ops|
  {
    if ops != [] {
      DrainOnlyStep(s, ops[0]);
      var r := Step(B.Repaired, s, ops[0]);
      if r.Some? {
        DrainOnlyRunsAgree(r.value.0, ops[1..]);
      }
    }
  }

  function Incoming(op: Op): seq<byte> {
    if op.Write? || op.ReadFd? || op.Fill? then op.data else []
  }

  function Appended(ops: seq<Op>): seq<byte> {
    if ops == [] then [] else Incoming(ops[0]) + Appended(ops[1..])
  }

  lemma QueueStepConserves(q: seq<byte>, op: Op)
    requires DrainOnly(op) && !op.Reset?
    ensures QueueStep(q, op).1 + QueueStep(q, op).0 == q + Incoming(op)
  {
  }

  lemma Assoc(a: seq<byte>, b: seq<byte>, c: seq<byte>)
    ensures (a + b) + c == a + (b + c)
  {
  }

  /** The queue loses and reorders nothing while it is only appended to and drained. */
  lemma {:induction false} QueueConserves(q: seq<byte>, ops: seq<Op>)
    requires forall op :: op in ops ==> DrainOnly(op) && !op.Reset?
    ensures var r := QueueRun(q, ops);
            r.1 + r.0 == q + Appended(ops)
    decreases |ops|
  {
    hide QueueStep, Incoming;
    if ops != [] {
      var t := QueueStep(q, ops[0]);
      QueueStepConserves(q, ops[0]);
      QueueConserves(t.0, ops[1..]);
      var u := QueueRun(t.0, ops[1..]);
      Assoc(t.1, u.1, u.0);
      Assoc(t.1, t.0, Appended(ops[1..]));
      Assoc(q, Incoming(ops[0]), Appended(ops[1..]));
    }
  }

  /** A drain-only run is legal in one form exactly when it is in the other. */
  lemma {:induction false} DrainOnlyLegal(s: State, ops: seq<Op>)
    requires s.Valid() && s.readPos == B.PREPEND
    requires forall op :: op in ops ==> DrainOnly(op)
    ensures LegalRun(B.AsWritten, s, ops) <==> LegalRun(B.Repaired, s, ops)
    decreases |ops|
  {
    hide Step, Legal;
    if ops != [] {
      DrainOnlyStep(s, ops[0]);
      var r := Step(B.Repaired, s, ops[0]);
      if r.Some? {
        DrainOnlyLegal(r.value.0, ops[1..]);
      }
    }
  }

  /**
   * As written, a drain-only client is stopped only by an argument its own call refuses: every
   * growth leaves room for what is written. Then what was drained, followed by what is unread, is
   * everything that came in, in order.
   */
  lemma StreamConserved(s: State, ops: seq<Op>)
    requires s.Valid() && s.readPos == B.PREPEND
    requires forall op :: op in ops ==> DrainOnly(op) && !op.Reset?
    ensures Run(B.AsWritten, s, ops).Some? <==> LegalRun(B.AsWritten, s, ops)
    ensures LegalRun(B.AsWritten, s, ops) ==>
      var r := Run(B.AsWritten, s, ops).value;
      r.1 + r.0.Window() == s.Window() + Appended(ops)
  {
    hide Run, LegalRun, QueueRun, Appended;
    DrainOnlyRunsAgree(s, ops);
    DrainOnlyLegal(s, ops);
    RepairedRun(s, ops);
    QueueConserves(s.Window(), ops);
  }

  /** Calls with nothing to assert about their argument cannot make an illegal run. */
  lemma {:induction false} WritesNeverRefused(form: Form, s: State, ops: seq<Op>)
    requires s.Valid()
    requires forall op :: op in ops ==> op.Write? || op.Ensure? || op.ReadAll?
    ensures LegalRun(form, s, ops)
    decreases |ops|
  {
    hide Step;
    if ops != [] {
      var r := Step(form, s, ops[0]);
      if r.Some? {
        WritesNeverRefused(form, r.value.0, ops[1..]);
      }
    }
  }

  // ---------------------------------------------------------------------------------
  // Capacity
  // ---------------------------------------------------------------------------------

  /** At every call that may grow the block: unread plus incoming is at most m, and the vector is exact. */
  predicate Demand(s: State, op: Op, m: nat)
    requires s.Valid()
  {
    match op
    case Write(data, junk) => |s.Window()| + |data| <= m && junk == []
    case ReadFd(data, junk) => |s.Window()| + |data| <= m && junk == []
    case Ensure(len, junk) => |s.Window()| + len <= m && junk == []
    case _ => true
  }

  predicate DemandRun(form: Form, s: State, ops: seq<Op>, m: nat)
    requires s.Valid()
    decreases |ops|
  {
    ops != [] ==>
      && Demand(s, ops[0], m)
      && var r := Step(form, s, ops[0]);
         r.Some? ==> DemandRun(form, r.value.0, ops[1..], m)
  }

  function Max(a: int, b: int): int {
    if a < b then b else a
  }

  function CapacityBound(form: Form, m: nat): int {
    Max(B.PREPEND + B.INITIAL, if form.Repaired? then m + B.PREPEND else 2 * m + 6)
  }

  lemma GrowthBounded(form: Form, s: State, len: nat, m: nat)
    requires s.Valid() && |s.Window()| + len <= m && |s.mem| <= CapacityBound(form, m)
    requires B.Ensure(form, s, len, []).Some?
    ensures |B.Ensure(form, s, len, []).value.mem| <= CapacityBound(form, m)
  {
  }

  lemma WriteBounded(form: Form, s: State, data: seq<byte>, m: nat)
    requires s.Valid() && |s.Window()| + |data| <= m && |s.mem| <= CapacityBound(form, m)
    requires B.Write(form, s, data, []).Some?
    ensures |B.Write(form, s, data, []).value.mem| <= CapacityBound(form, m)
  {
    GrowthBounded(form, s, |data|, m);
    hide B.Ensure;
  }

  lemma ReadFdBounded(form: Form, s: State, data: seq<byte>, m: nat)
    requires s.Valid() && |s.Window()| + |data| <= m && |s.mem| <= CapacityBound(form, m)
    requires B.ReadFd(form, s, data, []).Some?
    ensures |B.ReadFd(form, s, data, []).value.mem| <= CapacityBound(form, m)
  {
    hide B.Write;
    if s.Writeable() < |data| {
      WriteBounded(form, B.Fill(s, data[..s.Writeable()]).value, data[s.Writeable()..], m);
    }
  }

  lemma CapacityStep(form: Form, s: State, op: Op, m: nat)
    requires s.Valid() && Demand(s, op, m) && |s.mem| <= CapacityBound(form, m)
    requires Step(form, s, op).Some?
    ensures |Step(form, s, op).value.0.mem| <= CapacityBound(form, m)
  {
    hide B.Write, B.ReadFd, B.Ensure;
    match op
    case Write(data, _) => WriteBounded(form, s, data, m);
    case Ensure(len, _) => GrowthBounded(form, s, len, m);
    case ReadFd(data, _) => ReadFdBounded(form, s, data, m);
    case _ =>
  }

  /** However much traffic passes, the block stays within a bound set by the largest demand. */
  lemma {:induction false} CapacityBounded(form: Form, s: State, ops: seq<Op>, m: nat)
    requires s.Valid() && DemandRun(form, s, ops, m) && |s.mem| <= CapacityBound(form, m)
    requires Run(form, s, ops).Some?
    ensures |Run(form, s, ops).value.0.mem| <= CapacityBound(form, m)
    decreases |ops|
  {
    if ops != [] {
      CapacityStep(form, s, ops[0], m);
      CapacityBounded(form, Step(form, s, ops[0]).value.0, ops[1..], m);
    }
  }

  /** Both bounds are met: one fresh buffer, one run, 2m+6 bytes as written against m+8 repaired. */
  lemma CapacityBoundsTight(form: Form, s: State, data: seq<byte>, m: nat)
    requires s == B.Init(s.mem) && |s.mem| == B.PREPEND + B.INITIAL
    requires m > B.INITIAL && |data| == m - 1
    ensures var ops := [Write(data, []), Retrieve(m - 2), Write(data, [])];
            && DemandRun(form, s, ops, m) && Run(form, s, ops).Some?
            && |Run(form, s, ops).value.0.mem| == CapacityBound(form, m)
  {
    var s1, s2, s3 := GrowTwice(form, s, data, m);
    hide Step, B.Write, B.Retrieve;
    var a, b := Write(data, []), Retrieve(m - 2);
    RunThree(form, s, a, b, a);
    assert [a, b, a][1..] == [b, a] && [b, a][1..] == [a] && [a][1..] == [];
    assert DemandRun(form, s3, [], m);
    assert DemandRun(form, s2, [a], m);
    assert DemandRun(form, s1, [b, a], m);
  }

  lemma GrowTwice(form: Form, s: State, data: seq<byte>, m: nat) returns (s1: State, s2: State, s3: State)
    requires s == B.Init(s.mem) && |s.mem| == B.PREPEND + B.INITIAL
    requires m > B.INITIAL && |data| == m - 1
    ensures s1.Valid() && s2.Valid() && s3.Valid()
    ensures Step(form, s, Write(data, [])) == Some((s1, []))
    ensures Step(form, s1, Retrieve(m - 2)) == Some((s2, [])) && |s2.Window()| == 1
    ensures Step(form, s2, Write(data, [])) == Some((s3, [])) && |s3.mem| == CapacityBound(form, m)
  {
    hide B.Write;
    s1 := FirstGrowth(form, s, data, m);
    s2 := B.Retrieve(s1, m - 2).value;
    s3 := SecondGrowth(form, s2, data, m);
  }

  lemma FirstGrowth(form: Form, s: State, data: seq<byte>, m: nat) returns (t: State)
    requires s == B.Init(s.mem) && |s.mem| == B.PREPEND + B.INITIAL
    requires m > B.INITIAL && |data| == m - 1
    ensures B.Write(form, s, data, []) == Some(t)
    ensures t.Valid() && |t.mem| == m + 7 == t.writePos && t.readPos == B.PREPEND
  {
    hide B.Resize;
    t := B.Write(form, s, data, []).value;
  }

  lemma SecondGrowth(form: Form, s: State, data: seq<byte>, m: nat) returns (t: State)
    requires s.Valid() && s.readPos == m + 6 && s.writePos == m + 7 == |s.mem|
    requires m > B.INITIAL && |data| == m - 1
    ensures B.Write(form, s, data, []) == Some(t)
    ensures t.Valid() && |t.mem| == CapacityBound(form, m)
  {
    hide B.Resize;
    t := B.Write(form, s, data, []).value;
  }

  // ---------------------------------------------------------------------------------
  // The prepend reserve and the empty window
  // ---------------------------------------------------------------------------------

  /** Bytes prepended since the read index last stood at the reserve. */
  function Owed(op: Op, t: State, owed: nat): nat {
    if op.Prepend? then owed + |op.data| else if t.readPos == B.PREPEND then 0 else owed
  }

  lemma ReserveStep(s: State, op: Op, owed: nat)
    requires s.Valid() && s.readPos + owed >= B.PREPEND && Step(B.Repaired, s, op).Some?
    ensures var t := Step(B.Repaired, s, op).value.0;
            t.readPos + Owed(op, t, owed) >= B.PREPEND
  {
    RepairedStep(s, op);
  }

  function OwedRun(s: State, ops: seq<Op>, owed: nat): nat
    requires s.Valid()
    decreases |ops|
  {
    if ops == [] then owed
    else
      var r := Step(B.Repaired, s, ops[0]);
      if r.None? then owed else OwedRun(r.value.0, ops[1..], Owed(ops[0], r.value.0, owed))
  }

  /**
   * Repaired: what is left of the reserve and what was taken from it since the last refill
   * always cover it, so while nothing is owed a header of up to eight bytes goes in front
   * without moving any data.
   */
  lemma {:induction false} ReserveKept(s: State, ops: seq<Op>, owed: nat)
    requires s.Valid() && s.readPos + owed >= B.PREPEND && Run(B.Repaired, s, ops).Some?
    ensures var t := Run(B.Repaired, s, ops).value.0;
            && t.readPos + OwedRun(s, ops, owed) >= B.PREPEND
            && (OwedRun(s, ops, owed) == 0 ==>
                  forall header: seq<byte> :: |header| <= B.PREPEND ==> Refines(B.Repaired, t, Prepend(header)))
    decreases |ops|
  {
    if ops != [] {
      ReserveStep(s, ops[0], owed);
      var t := Step(B.Repaired, s, ops[0]).value.0;
      ReserveKept(t, ops[1..], Owed(ops[0], t, owed));
    } else if owed == 0 {
      forall header: seq<byte> | |header| <= B.PREPEND
        ensures Refines(B.Repaired, s, Prepend(header))
      {
        RepairedStep(s, Prepend(header));
      }
    }
  }

  /** As written, compaction leaves no reserve at all: any header is then refused. */
  lemma ReserveLostAsWritten(s: State, len: nat, junk: seq<byte>, header: seq<byte>)
    requires s.Valid() && s.Writeable() < len && B.Compacts(s, len) && header != []
    ensures var r := Step(B.AsWritten, s, Ensure(len, junk));
            r.Some? && Step(B.AsWritten, r.value.0, Prepend(header)).None?
  {
    B.CompactionAsWritten(s, len, junk);
  }

  /** Does the call reach the compacting branch of newSpace? */
  predicate MovesData(s: State, op: Op)
    requires s.Valid()
  {
    match op
    case Write(data, _) => s.Writeable() < |data| && B.Compacts(s, |data|)
    case Ensure(len, _) => s.Writeable() < len && B.Compacts(s, len)
    case ReadFd(data, _) =>
      && s.Writeable() < |data|
      && B.Compacts(B.Fill(s, data[..s.Writeable()]).value, |data| - s.Writeable())
    case _ => false
  }

  /**
   * As written, one call exactly: the reserve stays accounted for if and only if the call moves no
   * data, or as many bytes as the reserve holds were owed already.
   */
  lemma ReserveStepExact(s: State, op: Op, owed: nat)
    requires s.Valid() && s.readPos + owed >= B.PREPEND && Step(B.AsWritten, s, op).Some?
    ensures var t := Step(B.AsWritten, s, op).value.0;
            t.readPos + Owed(op, t, owed) >= B.PREPEND <==> !MovesData(s, op) || owed >= B.PREPEND
  {
    hide B.Resize;
  }

  /** Either form, any run: an empty window sits at the reserve, so compaction always has a byte to move. */
  lemma EmptyNormalForm(form: Form, block: seq<byte>, ops: seq<Op>, len: nat)
    requires |block| >= B.PREPEND + B.INITIAL && Run(form, B.Init(block), ops).Some?
    ensures var t := Run(form, B.Init(block), ops).value.0;
            && (t.Window() == [] ==> t.readPos == t.writePos == B.PREPEND)
            && (t.Writeable() < len && B.Compacts(t, len) ==> t.Window() != [])
  {
  }
}
