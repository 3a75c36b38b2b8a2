/**
 * controller_routine of exp-2-parallel-file-search/main.c: a controller
 * thread takes paths from the bounded buffer, frames each one to its minion
 * and copies the minion's result frames to the log until the size-0 frame;
 * a NULL task makes it send the size-0 frame itself and stop.
 *
 * The tasks are the items the thread dequeues, in order; the incoming pipe
 * is everything the minion writes.  A read that cannot complete blocks the
 * thread forever, which is an outcome of its own.
 */
module Controller {
  import opened CText
  import opened RingBuffer
  import opened Framing

  datatype Outcome =
    | Finished          // returned after the NULL task
    | AwaitingTask      // blocked in read_buffer: no task left
    | AwaitingResults   // blocked in read: the minion has not finished its reply
    | Misframed         // the pipe does not hold frames

  /** What one controller did: units written to its minion, log entries, tasks dequeued. */
  datatype Run = Run(sent: Channel, logged: seq<Text>, taken: nat, outcome: Outcome)

  function Prepend(sent: Channel, logged: seq<Text>, taken: nat, r: Run): Run {
    Run(sent + r.sent, logged + r.logged, taken + r.taken, r.outcome)
  }

  lemma PrependTwice(s1: Channel, l1: seq<Text>, t1: nat, s2: Channel, l2: seq<Text>, t2: nat, r: Run)
    ensures Prepend(s1, l1, t1, Prepend(s2, l2, t2, r)) == Prepend(s1 + s2, l1 + l2, t1 + t2, r)
  {
    assert s1 + (s2 + r.sent) == (s1 + s2) + r.sent;
    assert l1 + (l2 + r.logged) == (l1 + l2) + r.logged;
  }

  /** The outer `while (1)`: one task, then (for a path) the results for it. */
  function ControllerRun(tasks: seq<Task>, incoming: Channel): Run
    decreases |tasks|, 0, 0
  {
    if |tasks| == 0 then Run([], [], 0, AwaitingTask)
    else
      match tasks[0]
      case Sentinel => Run(Terminator, [], 1, Finished)
      case Path(p) => Prepend(Frame(CPayload(p)), [], 1, Collect(tasks[1..], incoming))
  }

  /**
   * The inner `while (1)`: each nonzero-size frame is printed with "%s",
   * which logs its C string; the size-0 frame goes back to the outer loop.
   */
  function Collect(tasks: seq<Task>, incoming: Channel): Run
    decreases |tasks|, 1, |incoming|
  {
    match ReadFrame(incoming)
    case End(rest) => ControllerRun(tasks, rest)
    case Data(p, rest) => Prepend([], [CStr(p)], 0, Collect(tasks, rest))
    case Blocked => Run([], [], 0, AwaitingResults)
    case Garbled => Run([], [], 0, Misframed)
  }

  /** The log entries "%s" prints for payloads `ps`. */
  function CStrs(ps: seq<Text>): seq<Text> {
    seq(|ps|, k requires 0 <= k < |ps| => CStr(ps[k]))
  }

  /**
   * The inner loop is the frame drain: it logs the C strings of the drained
   * payloads, and then either resumes with the next task on what follows the
   * size-0 frame or stops where the drain got stuck.
   */
  lemma {:induction false} CollectDrains(tasks: seq<Task>, incoming: Channel)
    ensures var d := DrainFrames(incoming);
            Collect(tasks, incoming) ==
              if d.Drained? then Prepend([], CStrs(d.payloads), 0, ControllerRun(tasks, d.rest))
              else Run([], CStrs(d.payloads), 0, if d.blocked then AwaitingResults else Misframed)
    decreases |incoming|
  {
    match ReadFrame(incoming)
    case Data(p, rest) =>
      CollectDrains(tasks, rest);
      var d := DrainFrames(rest);
      assert Collect(tasks, incoming) == Prepend([], [CStr(p)], 0, Collect(tasks, rest));
      assert DrainFrames(incoming) == DrainData(p, rest) == DrainWith(p, d);
      assert CStrs([p] + d.payloads) == [CStr(p)] + CStrs(d.payloads);
      if d.Drained? {
        PrependTwice([], [CStr(p)], 0, [], CStrs(d.payloads), 0, ControllerRun(tasks, d.rest));
      }
    case End(rest) =>
      assert CStrs([]) == [];
      assert Collect(tasks, incoming) == ControllerRun(tasks, rest);
    case Blocked =>
      assert CStrs([]) == [];
    case Garbled =>
      assert CStrs([]) == [];
  }

  /**
   * A controller that finishes has dequeued tasks up to and including the
   * first NULL, and only paths before it; it never finishes without one.
   */
  lemma {:induction false} FinishesAtFirstSentinel(tasks: seq<Task>, incoming: Channel)
    ensures var r := ControllerRun(tasks, incoming);
            r.taken <= |tasks| &&
            (r.outcome == Finished ==>
               r.taken >= 1 && tasks[r.taken - 1] == Sentinel &&
               forall k :: 0 <= k < r.taken - 1 ==> tasks[k].Path?)
    decreases |tasks|, 0, 0
  {
    if |tasks| > 0 && tasks[0].Path? {
      CollectTakes(tasks[1..], incoming);
      var r := Collect(tasks[1..], incoming);
      if r.outcome == Finished {
        forall k | 0 <= k < r.taken ensures tasks[k + 1] == tasks[1..][k] {}
      }
    }
  }

  lemma {:induction false} CollectTakes(tasks: seq<Task>, incoming: Channel)
    ensures var r := Collect(tasks, incoming);
            r.taken <= |tasks| &&
            (r.outcome == Finished ==>
               r.taken >= 1 && tasks[r.taken - 1] == Sentinel &&
               forall k :: 0 <= k < r.taken - 1 ==> tasks[k].Path?)
    decreases |tasks|, 1, |incoming|
  {
    match ReadFrame(incoming)
    case End(rest) => FinishesAtFirstSentinel(tasks, rest);
    case Data(p, rest) => CollectTakes(tasks, rest);
    case Blocked =>
    case Garbled =>
  }

  /** The drain the inner loop finishes, having read payloads `ps` before reaching `c`. */
  function DrainAfter(ps: seq<Text>, c: Channel): Drain
    decreases |c|, 0
  {
    ReadFrameSound(c);
    match ReadFrame(c)
    case End(rest) => Drained(ps, rest)
    case Data(p, rest) => DrainAfterData(ps, p, rest)
    case Blocked => Stuck(ps, true)
    case Garbled => Stuck(ps, false)
  }

  /** The drain after reading payload `p`, with `rest` still on the pipe. */
  function DrainAfterData(ps: seq<Text>, p: Text, rest: Channel): Drain
    decreases |rest|, 1
  {
    DrainAfter(ps + [p], rest)
  }

  /** Draining after `ps` is draining from scratch, with `ps` in front. */
  lemma {:induction false} DrainAfterFrames(ps: seq<Text>, c: Channel)
    ensures DrainAfter(ps, c) == match DrainFrames(c)
                                 case Drained(qs, rest) => Drained(ps + qs, rest)
                                 case Stuck(qs, blocked) => Stuck(ps + qs, blocked)
    decreases |c|
  {
    ReadFrameSound(c);
    match ReadFrame(c)
    case End(rest) =>
      assert ps + [] == ps;
    case Data(p, rest) =>
      DrainAfterFrames(ps + [p], rest);
      var d := DrainFrames(rest);
      assert (ps + [p]) + d.payloads == ps + ([p] + d.payloads);
    case Blocked =>
      assert ps + [] == ps;
    case Garbled =>
      assert ps + [] == ps;
  }

  /** One read of the inner loop at unit `pos`: a data frame moves the drain on past it. */
  lemma DrainAfterStep(c: Channel, pos: nat, ps: seq<Text>)
    requires pos <= |c| && ReadFrame(c[pos..]).Data?
    ensures pos + 1 + |ReadFrame(c[pos..]).payload| <= |c|
    ensures DrainAfter(ps, c[pos..]) == DrainAfter(ps + [ReadFrame(c[pos..]).payload], c[pos + 1 + |ReadFrame(c[pos..]).payload|..])
  {
    ReadFrameAdvance(c, pos);
    var r := ReadFrame(c[pos..]);
    assert DrainAfter(ps, c[pos..]) == DrainAfterData(ps, r.payload, r.rest);
  }

  lemma CStrsAppend(ps: seq<Text>, p: Text)
    ensures CStrs(ps + [p]) == CStrs(ps) + [CStr(p)]
  {
  }

  /**
   * The inner `while (1)` of controller_routine, reading from unit `from` of
   * the pipe: it logs the C string of every payload the drain yields, and
   * either stops after the size-0 frame at unit `next` or reports where it
   * is stuck.
   */
  method CopyResults(incoming: Channel, from: nat) returns (log: seq<Text>, next: nat, stuck: Option<Outcome>)
    requires from <= |incoming|
    ensures var d := DrainFrames(incoming[from..]);
            log == CStrs(d.payloads) &&
            (d.Drained? ==> stuck == None && next <= |incoming| && incoming[next..] == d.rest) &&
            (d.Stuck? ==> stuck == Some(if d.blocked then AwaitingResults else Misframed))
  {
    ghost var goal := DrainFrames(incoming[from..]);
    ghost var ps: seq<Text> := [];
    DrainAfterFrames([], incoming[from..]);
    assert goal == DrainAfter([], incoming[from..]);
    log := [];
    var pos := from;
    while true
      invariant from <= pos <= |incoming|
      invariant log == CStrs(ps)
      invariant goal == DrainAfter(ps, incoming[pos..])
      decreases |incoming| - pos
    {
      var r := ReadFrame(incoming[pos..]);
      if r.End? {
        ReadFrameAdvance(incoming, pos);
        return log, pos + 1, None;
      } else if r.Data? {
        DrainAfterStep(incoming, pos, ps);
        CStrsAppend(ps, r.payload);
        ps := ps + [r.payload];
        log := log + [CStr(r.payload)];
        pos := pos + 1 + |r.payload|;
      } else {
        return log, pos, Some(if r.Blocked? then AwaitingResults else Misframed);
      }
    }
  }

  /** One pass of the outer loop, from the point where `t` tasks were taken. */
  lemma OuterStep(tasks: seq<Task>, t: nat, c: Channel, sent: Channel, logged: seq<Text>)
    requires t < |tasks|
    ensures tasks[t].Sentinel? ==>
              Prepend(sent, logged, t, ControllerRun(tasks[t..], c)) == Run(sent + Terminator, logged, t + 1, Finished)
    ensures tasks[t].Path? ==>
              Prepend(sent, logged, t, ControllerRun(tasks[t..], c)) ==
              Prepend(sent + Frame(CPayload(tasks[t].path)), logged, t + 1, Collect(tasks[t + 1..], c))
  {
    assert tasks[t..][0] == tasks[t] && tasks[t..][1..] == tasks[t + 1..];
    if tasks[t].Path? {
      PrependTwice(sent, logged, t, Frame(CPayload(tasks[t].path)), [], 1, Collect(tasks[t + 1..], c));
      assert logged + [] == logged;
    }
  }

  /** The inner loop, seen from the outer one. */
  lemma InnerStep(tasks: seq<Task>, t: nat, c: Channel, sent: Channel, logged: seq<Text>)
    ensures var d := DrainFrames(c);
            var now := Prepend(sent, logged, t, Collect(tasks, c));
            (d.Drained? ==> now == Prepend(sent, logged + CStrs(d.payloads), t, ControllerRun(tasks, d.rest))) &&
            (d.Stuck? ==> now == Run(sent, logged + CStrs(d.payloads), t, if d.blocked then AwaitingResults else Misframed))
  {
    CollectDrains(tasks, c);
    var d := DrainFrames(c);
    if d.Drained? {
      PrependTwice(sent, logged, t, [], CStrs(d.payloads), 0, ControllerRun(tasks, d.rest));
      assert sent + [] == sent;
    } else {
      assert sent + [] == sent;
    }
  }

  /**
   * The rest of one pass of the outer loop once a path came out of the
   * buffer: send it to the minion, then copy the results it sends back.
   */
  method ServePath(path: Text, incoming: Channel, pos: nat, ghost tasks: seq<Task>, ghost t: nat, sent: Channel, logged: seq<Text>)
    returns (sent': Channel, logged': seq<Text>, next: nat, stuck: Option<Outcome>)
    requires 1 <= t <= |tasks| && tasks[t - 1] == Path(path) && pos <= |incoming|
    requires Prepend(sent, logged, t - 1, ControllerRun(tasks[t - 1..], incoming[pos..])) == ControllerRun(tasks, incoming)
    ensures stuck.None? ==>
              next <= |incoming| &&
              Prepend(sent', logged', t, ControllerRun(tasks[t..], incoming[next..])) == ControllerRun(tasks, incoming)
    ensures stuck.Some? ==> Run(sent', logged', t, stuck.value) == ControllerRun(tasks, incoming)
  {
    ghost var c := incoming[pos..];
    ghost var whole := ControllerRun(tasks, incoming);
    OuterStep(tasks, t - 1, c, sent, logged);
    sent' := sent + Frame(CPayload(path));
    assert whole == Prepend(sent', logged, t, Collect(tasks[t..], c));
    InnerStep(tasks[t..], t, c, sent', logged);
    var log;
    log, next, stuck := CopyResults(incoming, pos);
    logged' := logged + log;
  }

  /** read_buffer at the point where `t` of the tasks have been taken. */
  method TakeTask(b: Buffer, ghost tasks: seq<Task>, ghost t: nat) returns (task: Task)
    requires b.Valid() && b.full > 0 && t <= |tasks| && b.contents == tasks[t..]
    modifies b
    ensures b.Valid() && b.slots == old(b.slots) && b.size == old(b.size)
    ensures t < |tasks| && task == tasks[t] && b.contents == tasks[t + 1..]
  {
    task := b.Get();
    assert tasks[t..][1..] == tasks[t + 1..];
  }

  /**
   * controller_routine over buffer `b`, reading its minion's pipe `incoming`:
   * it does what ControllerRun describes and leaves in the buffer exactly the
   * tasks it did not take.
   */
  method ControllerRoutine(b: Buffer, incoming: Channel) returns (sent: Channel, logged: seq<Text>, outcome: Outcome)
    requires b.Valid()
    modifies b
    ensures b.Valid() && b.slots == old(b.slots) && b.size == old(b.size)
    ensures var r := ControllerRun(old(b.contents), incoming);
            Run(sent, logged, r.taken, outcome) == r &&
            r.taken <= |old(b.contents)| && b.contents == old(b.contents)[r.taken..]
  {
    ghost var tasks := b.contents;
    ghost var t := 0;
    FinishesAtFirstSentinel(tasks, incoming);
    sent, logged := [], [];
    var pos := 0;
    while true
      invariant b.Valid() && b.slots == old(b.slots) && b.size == old(b.size)
      invariant 0 <= t <= |tasks| && 0 <= pos <= |incoming|
      invariant b.contents == tasks[t..]
      invariant Prepend(sent, logged, t, ControllerRun(tasks[t..], incoming[pos..])) == ControllerRun(tasks, incoming)
      decreases |tasks| - t
    {
      if b.full == 0 {
        assert sent + [] == sent && logged + [] == logged;
        outcome := AwaitingTask;
        return;
      }
      var task := TakeTask(b, tasks, t);
      t := t + 1;
      if task.Sentinel? {
        OuterStep(tasks, t - 1, incoming[pos..], sent, logged);
        sent := sent + Terminator;
        outcome := Finished;
        return;
      }
      var stuck;
      sent, logged, pos, stuck := ServePath(task.path, incoming, pos, tasks, t, sent, logged);
      if stuck.Some? {
        outcome := stuck.value;
        return;
      }
    }
  }
}
