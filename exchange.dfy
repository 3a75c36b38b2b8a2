/**
 * One controller thread of exp-2-parallel-file-search/main.c talking to its
 * minion (minion.c) over the two pipes: the controller frames the paths it
 * dequeues and, for the NULL task, the size-0 frame; the minion answers each
 * path with its result frames and a size-0 frame.
 *
 * The two runs are composed by feeding each one the other's output: the
 * controller's writes do not depend on what it reads, so the minion's input
 * is known up front.
 */
module Exchange {
  import opened CText
  import opened Framing
  import opened RingBuffer
  import opened Searcher
  import opened Controller
  import opened Minion

  /**
   * The replies a minion gives to successive files, with the query fixed:
   * the messages for each file in turn.  The file is the C string the
   * minion reads from its task frame.
   */
  function ReplyList(id: Text, query: Text, paths: seq<Text>, fs: FileSystem): (rs: seq<seq<Text>>)
    requires |CStr(query)| > 0
    ensures |rs| == |paths|
    decreases |paths|
  {
    if |paths| == 0 then []
    else [SearchReply(id, query, CStr(paths[0]), fs).messages] + ReplyList(id, query, paths[1..], fs)
  }

  /** Concatenation of the replies to successive tasks. */
  function Concat(replies: seq<seq<Text>>): seq<Text>
    decreases |replies|
  {
    if |replies| == 0 then [] else replies[0] + Concat(replies[1..])
  }

  /** All the messages for a run of files, in task order. */
  function FileReplies(id: Text, query: Text, paths: seq<Text>, fs: FileSystem): seq<Text>
    requires |CStr(query)| > 0
  {
    Concat(ReplyList(id, query, paths, fs))
  }

  /** What a minion writes for successive replies: each one's frames and a size-0 frame. */
  function ReplyFrames(replies: seq<seq<Text>>): Channel
    decreases |replies|
  {
    if |replies| == 0 then [] else Frames(replies[0]) + Terminator + ReplyFrames(replies[1..])
  }

  /** The case of the query does not change the replies to a run of files. */
  lemma {:induction false} ReplyListIgnoreCase(id: Text, query: Text, paths: seq<Text>, fs: FileSystem)
    requires |CStr(query)| > 0
    ensures |CStr(LowerInPlace(query))| > 0 &&
            ReplyList(id, LowerInPlace(query), paths, fs) == ReplyList(id, query, paths, fs)
    decreases |paths|
  {
    LowerInPlaceFacts(query);
    if |paths| > 0 {
      SearchReplyIgnoresCase(id, query, CStr(paths[0]), fs);
      ReplyListIgnoreCase(id, query, paths[1..], fs);
    }
  }

  /** The query buffer a reply leaves behind answers later files as the original query would. */
  lemma ReplyListAfterReply(id: Text, query: Text, file: Text, paths: seq<Text>, fs: FileSystem)
    requires |CStr(query)| > 0
    ensures var r := SearchReply(id, query, file, fs);
            |CStr(r.query)| > 0 && ReplyList(id, r.query, paths, fs) == ReplyList(id, query, paths, fs)
  {
    SearchReplyLowersQuery(id, query, file, fs);
    ReplyListIgnoreCase(id, query, paths, fs);
  }

  /** A C string read back from each payload is the message that was framed. */
  lemma CStrsOfPayloads(ms: seq<Text>)
    requires forall k :: 0 <= k < |ms| ==> NUL !in ms[k]
    ensures CStrs(CPayloads(ms)) == ms
  {
    forall k | 0 <= k < |ms| ensures CStrs(CPayloads(ms))[k] == ms[k] {
      CPayloadRoundTrip(ms[k]);
      CStrOfNulFree(ms[k]);
    }
  }

  /** Every message of a reply holds no NUL when the minion's id holds none. */
  lemma ReplyNulFree(id: Text, query: Text, file: Text, fs: FileSystem)
    requires |CStr(query)| > 0 && NUL !in id && NUL !in file
    ensures var ms := SearchReply(id, query, file, fs).messages;
            forall k :: 0 <= k < |ms| ==> NUL !in ms[k]
  {
    if file in fs {
      LowerInPlaceFacts(query);
      var ms := FileMatches(fs[file], CStr(LowerInPlace(query)));
      forall k | 0 <= k < |ms| ensures NUL !in Message(id, file, ms[k]) {
        MessageNulFree(id, file, ms[k]);
      }
    }
  }

  /** The tasks one controller dequeues: paths, then the NULL that stops it. */
  function Tasks(paths: seq<Text>): seq<Task> {
    PathTasks(paths) + [Sentinel]
  }

  /** The units a controller writes for `paths`, then for the NULL task. */
  function Requests(paths: seq<Text>): Channel {
    Frames(paths) + Terminator
  }

  lemma TasksCons(p: Text, paths: seq<Text>)
    ensures Tasks([p] + paths) == [Path(p)] + Tasks(paths)
  {
    assert PathTasks([p] + paths) == [Path(p)] + PathTasks(paths);
  }

  lemma RequestsCons(p: Text, paths: seq<Text>)
    ensures Requests([p] + paths) == Frame(CPayload(p)) + Requests(paths)
  {
    FramesCons(p, paths);
  }

  /**
   * The minion side, with the corrected reply: fed the framed paths and the
   * size-0 frame, the minion answers every path with the frames of its
   * messages and a size-0 frame, logs those messages, and then exits.  For
   * the reply as written this holds when every file opens
   * (MinionAsWrittenAgrees).
   */
  lemma {:induction false} MinionAnswers(id: Text, query: Text, paths: seq<Text>, fs: FileSystem)
    requires |CStr(query)| > 0
    ensures var s := MinionRun(id, query, Requests(paths), fs);
            var rs := ReplyList(id, query, paths, fs);
            s.stop == Exited && s.sent == ReplyFrames(rs) && s.messages == Concat(rs)
    decreases |paths|
  {
    if |paths| == 0 {
      ReadFrameRoundTrip([], []);
      assert Requests(paths) == Terminator + [];
    } else {
      var p, tail := paths[0], paths[1..];
      assert paths == [p] + tail;
      RequestsCons(p, tail);
      ReadFrameRoundTrip(CPayload(p), Requests(tail));
      CPayloadRoundTrip(p);
      var r := SearchReply(id, query, CStr(p), fs);
      assert MinionRun(id, query, Requests(paths), fs) == MinionServe(id, query, CPayload(p), Requests(tail), fs);
      SearchReplyFramed(id, query, CStr(p), fs);
      ReplyListAfterReply(id, query, CStr(p), tail, fs);
      MinionAnswers(id, r.query, tail, fs);
    }
  }

  /** One path task: the controller frames the path and logs one whole reply. */
  lemma ControllerServesOne(p: Text, tasks: seq<Task>, ms: seq<Text>, c: Channel)
    ensures ControllerRun([Path(p)] + tasks, Frames(ms) + Terminator + c) ==
            Prepend(Frame(CPayload(p)), CStrs(CPayloads(ms)), 1, ControllerRun(tasks, c))
  {
    var incoming := Frames(ms) + Terminator + c;
    assert ([Path(p)] + tasks)[0] == Path(p) && ([Path(p)] + tasks)[1..] == tasks;
    CollectDrains(tasks, incoming);
    DrainRoundTrip(ms, c);
    PrependTwice(Frame(CPayload(p)), [], 1, [], CStrs(CPayloads(ms)), 0, ControllerRun(tasks, c));
  }

  /**
   * The controller side: reading back replies framed as the minion frames
   * them, the controller sends every path and the size-0 frame, logs the C
   * string of every message in order, and finishes after the NULL task.
   */
  lemma {:induction false} ControllerCollects(paths: seq<Text>, replies: seq<seq<Text>>)
    requires |replies| == |paths|
    ensures var r := ControllerRun(Tasks(paths), ReplyFrames(replies));
            r.outcome == Finished && r.taken == |paths| + 1 && r.sent == Requests(paths) &&
            r.logged == CStrs(CPayloads(Concat(replies)))
    decreases |paths|
  {
    if |paths| == 0 {
      assert Tasks(paths) == [Sentinel];
      assert Requests(paths) == Terminator;
      assert CStrs(CPayloads([])) == [];
    } else {
      var p, tail := paths[0], paths[1..];
      var ms, more := replies[0], replies[1..];
      assert paths == [p] + tail && replies == [ms] + more;
      TasksCons(p, tail);
      RequestsCons(p, tail);
      ControllerServesOne(p, Tasks(tail), ms, ReplyFrames(more));
      ControllerCollects(tail, more);
      CStrsCPayloadsAppend(ms, Concat(more));
    }
  }

  lemma CStrsCPayloadsAppend(a: seq<Text>, b: seq<Text>)
    ensures CStrs(CPayloads(a + b)) == CStrs(CPayloads(a)) + CStrs(CPayloads(b))
  {
    assert CPayloads(a + b) == CPayloads(a) + CPayloads(b);
  }

  /**
   * End to end, with the corrected reply: a controller that dequeues
   * `paths` and then the NULL task, connected to a minion with a NUL-free
   * id, finishes; it sends the minion
   * every path and the size-0 frame, and its log holds exactly the
   * messages the minion writes, which are the replies to the files in task
   * order; the minion exits.  ExchangeRoundTripAsWritten is the same
   * guarantee for the program as written, when every file opens.
   */
  lemma ExchangeRoundTrip(id: Text, query: Text, paths: seq<Text>, fs: FileSystem)
    requires |CStr(query)| > 0 && NUL !in id
    ensures var s := MinionRun(id, query, Requests(paths), fs);
            var r := ControllerRun(Tasks(paths), s.sent);
            s.stop == Exited && r.outcome == Finished && r.taken == |paths| + 1 &&
            r.sent == Requests(paths) && r.logged == s.messages &&
            s.messages == FileReplies(id, query, paths, fs)
  {
    MinionAnswers(id, query, paths, fs);
    var rs := ReplyList(id, query, paths, fs);
    ControllerCollects(paths, rs);
    FileRepliesNulFree(id, query, paths, fs);
    CStrsOfPayloads(FileReplies(id, query, paths, fs));
  }

  // ---------------------------------------------------------------------
  // The minion as written, when every file opens.

  /** Every path a controller sends names a file that opens. */
  predicate AllOpen(paths: seq<Text>, fs: FileSystem) {
    forall k :: 0 <= k < |paths| ==> CStr(paths[k]) in fs
  }

  /** When every file opens, the minion as written runs exactly as the corrected one. */
  lemma {:induction false} MinionAsWrittenAgrees(id: Text, query: Text, paths: seq<Text>, fs: FileSystem)
    requires |CStr(query)| > 0 && AllOpen(paths, fs)
    ensures MinionRunAsWritten(id, query, Requests(paths), fs) == MinionRun(id, query, Requests(paths), fs)
    decreases |paths|
  {
    if |paths| == 0 {
      ReadFrameRoundTrip([], []);
      assert Requests(paths) == Terminator + [];
    } else {
      var p, tail := paths[0], paths[1..];
      assert paths == [p] + tail;
      RequestsCons(p, tail);
      ReadFrameRoundTrip(CPayload(p), Requests(tail));
      CPayloadRoundTrip(p);
      SearchReplyAgreement(id, query, CStr(p), fs);
      SearchReplyFramed(id, query, CStr(p), fs);
      var r := SearchReply(id, query, CStr(p), fs);
      assert AllOpen(tail, fs) by {
        forall k | 0 <= k < |tail| ensures CStr(tail[k]) in fs {
          assert tail[k] == paths[k + 1];
        }
      }
      MinionAsWrittenAgrees(id, r.query, tail, fs);
    }
  }

  /**
   * End to end for the program as written: when every file the controller
   * dequeues opens, it and the as-written minion finish, and the log holds
   * exactly the minion's messages in task order.
   */
  lemma ExchangeRoundTripAsWritten(id: Text, query: Text, paths: seq<Text>, fs: FileSystem)
    requires |CStr(query)| > 0 && NUL !in id && AllOpen(paths, fs)
    ensures var s := MinionRunAsWritten(id, query, Requests(paths), fs);
            var r := ControllerRun(Tasks(paths), s.sent);
            s.stop == Exited && r.outcome == Finished && r.taken == |paths| + 1 &&
            r.sent == Requests(paths) && r.logged == s.messages &&
            s.messages == FileReplies(id, query, paths, fs)
  {
    MinionAsWrittenAgrees(id, query, paths, fs);
    ExchangeRoundTrip(id, query, paths, fs);
  }

  lemma {:induction false} FileRepliesNulFree(id: Text, query: Text, paths: seq<Text>, fs: FileSystem)
    requires |CStr(query)| > 0 && NUL !in id
    ensures var ms := FileReplies(id, query, paths, fs);
            forall k :: 0 <= k < |ms| ==> NUL !in ms[k]
    decreases |paths|
  {
    if |paths| > 0 {
      var a := SearchReply(id, query, CStr(paths[0]), fs).messages;
      var b := FileReplies(id, query, paths[1..], fs);
      assert FileReplies(id, query, paths, fs) == a + b by {
        var rs := ReplyList(id, query, paths, fs);
        assert rs[0] == a && rs[1..] == ReplyList(id, query, paths[1..], fs);
      }
      ReplyNulFree(id, query, CStr(paths[0]), fs);
      FileRepliesNulFree(id, query, paths[1..], fs);
      forall k | 0 <= k < |a + b| ensures NUL !in (a + b)[k] {
        if k >= |a| { assert (a + b)[k] == b[k - |a|]; }
      }
    }
  }

  // ---------------------------------------------------------------------
  // The missing size-0 frame after a failed fopen.

  /**
   * As written, a minion that cannot open the file it is given writes
   * nothing back: the controller then waits forever for the end of the
   * results, and the minion, having read nothing but that one path, waits
   * forever for its next task.
   */
  lemma UnopenedFileDeadlocksAsWritten(id: Text, query: Text, p: Text, fs: FileSystem)
    requires |CStr(query)| > 0 && CStr(p) !in fs
    ensures var reply := SearchReplyAsWritten(id, query, CStr(p), fs);
            var r := ControllerRun(Tasks([p]), reply.sent);
            reply.sent == [] && r.outcome == AwaitingResults && r.sent == Frame(CPayload(p)) &&
            ReadFrame(r.sent[1 + |CPayload(p)|..]) == Blocked &&
            MinionRunAsWritten(id, query, r.sent, fs) == Session([], [], query, Waiting)
  {
    var tasks := Tasks([p]);
    assert tasks[0] == Path(p) && tasks[1..] == [Sentinel];
    assert Frame(CPayload(p))[1 + |CPayload(p)|..] == [];
    ReadFrameRoundTrip(CPayload(p), []);
    assert Frame(CPayload(p)) + [] == Frame(CPayload(p));
    CPayloadRoundTrip(p);
  }

  /** With the size-0 frame sent, the same exchange finishes, and the minion exits. */
  lemma UnopenedFileFinishes(id: Text, query: Text, p: Text, fs: FileSystem)
    requires |CStr(query)| > 0 && CStr(p) !in fs && NUL !in id
    ensures var s := MinionRun(id, query, Requests([p]), fs);
            var r := ControllerRun(Tasks([p]), s.sent);
            s.sent == Terminator && s.messages == [] && s.stop == Exited &&
            r.outcome == Finished && r.logged == []
  {
    ExchangeRoundTrip(id, query, [p], fs);
    MinionAnswers(id, query, [p], fs);
    var rs := ReplyList(id, query, [p], fs);
    assert rs == [[]];
    assert ReplyFrames(rs) == Frames([]) + Terminator + [];
    assert FileReplies(id, query, [p], fs) == [] + [];
  }
}
