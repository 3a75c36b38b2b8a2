/**
 * The length-prefixed framing shared by controller_routine in
 * exp-2-parallel-file-search/main.c and the minion in minion.c: a frame is
 * a `size_t` size word followed by that many bytes, and a size of 0 is the
 * end marker of an exchange.  Writers send C strings with their NUL, so a
 * data frame is never of size 0.
 *
 * A pipe is a sequence of units, each a whole size word or one byte: the
 * native width and byte order of `size_t` are not modelled, and neither are
 * partial reads and writes.
 */
module Framing {
  import opened CText

  datatype Unit = Word(size: nat) | Octet(b: Byte)

  /** The units written to one pipe, in order. */
  type Channel = seq<Unit>

  function Octets(t: Text): (c: Channel)
    ensures |c| == |t|
    ensures forall k :: 0 <= k < |t| ==> c[k] == Octet(t[k])
  {
    seq(|t|, k requires 0 <= k < |t| => Octet(t[k]))
  }

  predicate AllOctets(c: Channel) {
    forall k :: 0 <= k < |c| ==> c[k].Octet?
  }

  /** The bytes carried by a run of byte units; the inverse of Octets. */
  function Bytes(c: Channel): (t: Text)
    requires AllOctets(c)
    ensures |t| == |c| && Octets(t) == c
  {
    seq(|c|, k requires 0 <= k < |c| => c[k].b)
  }

  /** write(fd, &size, sizeof size) followed by write(fd, payload, size). */
  function Frame(payload: Text): Channel {
    [Word(|payload|)] + Octets(payload)
  }

  /** The size-0 frame: "no more tasks" or "no more results". */
  const Terminator: Channel := [Word(0)]

  /** The payload a writer sends for C string `s`: strlen(s) + 1 bytes, so the NUL goes along. */
  function CPayload(s: Text): Text {
    CStr(s) + [NUL]
  }

  /** A C string read back from its payload is the string that was sent. */
  lemma CPayloadRoundTrip(s: Text)
    ensures CStr(CPayload(s)) == CStr(s)
  {
    CStrOfTerminated(CStr(s), []);
    assert CStr(s) + [NUL] + [] == CPayload(s);
  }

  // ---------------------------------------------------------------------
  // Reading frames.

  /** What one blocking read of a frame yields. */
  datatype Read =
    | Data(payload: Text, rest: Channel)   // a frame of nonzero size
    | End(rest: Channel)                   // the size-0 frame
    | Blocked                              // the pipe holds no complete frame: the reader waits forever
    | Garbled                              // a size word where payload bytes belong

  /** read(fd, &size, sizeof size) and, for a nonzero size, read(fd, buf, size). */
  function ReadFrame(c: Channel): Read {
    if |c| == 0 then Blocked
    else
      match c[0]
      case Octet(_) => Garbled
      case Word(n) =>
        if n == 0 then End(c[1..])
        else if |c| <= n then (if AllOctets(c[1..]) then Blocked else Garbled)
        else if AllOctets(c[1..n + 1]) then
          Data(Bytes(c[1..n + 1]), c[n + 1..])
        else Garbled
  }

  /**
   * A frame read is exactly what the writer framed: whatever it returns
   * re-encodes to the units it consumed, and it blocks only on a pipe that
   * holds a size word and fewer bytes than it announces.
   */
  lemma ReadFrameSound(c: Channel)
    ensures var r := ReadFrame(c);
            (r.Data? ==> |r.payload| > 0 && c == Frame(r.payload) + r.rest) &&
            (r.End? ==> c == Terminator + r.rest) &&
            (r.Blocked? ==> |c| == 0 || (c[0].Word? && |c| <= c[0].size && AllOctets(c[1..])))
  {
    if |c| > 0 && c[0].Word? && c[0].size > 0 && |c| > c[0].size && AllOctets(c[1..c[0].size + 1]) {
      var n := c[0].size;
      assert c == [c[0]] + c[1..n + 1] + c[n + 1..];
    }
  }

  /**
   * Reading a frame back: a nonzero-size frame yields its payload and the
   * size-0 frame yields the end marker, whatever follows on the pipe.
   */
  lemma ReadFrameRoundTrip(payload: Text, rest: Channel)
    ensures |payload| > 0 ==> ReadFrame(Frame(payload) + rest) == Data(payload, rest)
    ensures ReadFrame(Terminator + rest) == End(rest)
  {
    var c := Frame(payload) + rest;
    var n := |payload|;
    if n > 0 {
      assert c[0] == Word(n);
      assert c[1..n + 1] == Octets(payload);
      assert c[n + 1..] == rest;
    }
    assert (Terminator + rest)[1..] == rest;
  }

  /** Where a read leaves the pipe: just past the frame it consumed. */
  lemma ReadFrameAdvance(c: Channel, pos: nat)
    requires pos <= |c|
    ensures ReadFrame(c[pos..]).Data? ==>
              pos + 1 + |ReadFrame(c[pos..]).payload| <= |c| &&
              ReadFrame(c[pos..]).rest == c[pos + 1 + |ReadFrame(c[pos..]).payload|..]
    ensures ReadFrame(c[pos..]).End? ==> pos + 1 <= |c| && ReadFrame(c[pos..]).rest == c[pos + 1..]
  {
    var r := ReadFrame(c[pos..]);
    ReadFrameSound(c[pos..]);
    if r.Data? {
      assert c[pos..] == Frame(r.payload) + r.rest;
      assert |Frame(r.payload)| == 1 + |r.payload|;
      assert c[pos..][1 + |r.payload|..] == r.rest;
    } else if r.End? {
      assert c[pos..][1..] == r.rest;
    }
  }

  // ---------------------------------------------------------------------
  // A stream of messages followed by the end marker.

  /** The frames of a sequence of C-string messages, each with its NUL. */
  function Frames(ms: seq<Text>): Channel
    decreases |ms|
  {
    if |ms| == 0 then [] else Frames(ms[..|ms| - 1]) + Frame(CPayload(ms[|ms| - 1]))
  }

  lemma FramesSnoc(ms: seq<Text>, m: Text)
    ensures Frames(ms + [m]) == Frames(ms) + Frame(CPayload(m))
  {
    assert (ms + [m])[..|ms|] == ms;
  }

  lemma {:induction false} FramesCons(m: Text, ms: seq<Text>)
    ensures Frames([m] + ms) == Frame(CPayload(m)) + Frames(ms)
    decreases |ms|
  {
    var whole := [m] + ms;
    if |ms| == 0 {
      assert whole[..0] == [];
      assert Frames(whole) == Frames([]) + Frame(CPayload(m));
    } else {
      var n := |ms| - 1;
      assert whole[..|whole| - 1] == [m] + ms[..n];
      assert ms[..n] == ms[..|ms| - 1];
      FramesCons(m, ms[..n]);
      calc {
        Frames(whole);
        Frames([m] + ms[..n]) + Frame(CPayload(ms[n]));
        (Frame(CPayload(m)) + Frames(ms[..n])) + Frame(CPayload(ms[n]));
        Frame(CPayload(m)) + (Frames(ms[..n]) + Frame(CPayload(ms[n])));
        Frame(CPayload(m)) + Frames(ms);
      }
    }
  }

  lemma {:induction false} FramesAppend(a: seq<Text>, b: seq<Text>)
    ensures Frames(a + b) == Frames(a) + Frames(b)
    decreases |b|
  {
    if |b| == 0 {
      assert a + b == a;
      assert Frames(a) + Frames(b) == Frames(a) + [];
    } else {
      var n := |b| - 1;
      assert (a + b)[..|a + b| - 1] == a + b[..n];
      assert b[..n] == b[..|b| - 1];
      FramesAppend(a, b[..n]);
      calc {
        Frames(a + b);
        Frames(a + b[..n]) + Frame(CPayload(b[n]));
        (Frames(a) + Frames(b[..n])) + Frame(CPayload(b[n]));
        Frames(a) + (Frames(b[..n]) + Frame(CPayload(b[n])));
        Frames(a) + Frames(b);
      }
    }
  }

  /** Outcome of reading frames until the end marker. */
  datatype Drain =
    | Drained(payloads: seq<Text>, rest: Channel)
    | Stuck(payloads: seq<Text>, blocked: bool)   // blocked: waiting forever; otherwise garbled

  function DrainWith(p: Text, d: Drain): Drain {
    match d
    case Drained(ps, rest) => Drained([p] + ps, rest)
    case Stuck(ps, b) => Stuck([p] + ps, b)
  }

  /** The inner `while (1)` of controller_routine: read frames until one of size 0. */
  function DrainFrames(c: Channel): Drain
    decreases |c|, 0
  {
    ReadFrameSound(c);
    match ReadFrame(c)
    case End(rest) => Drained([], rest)
    case Data(p, rest) => DrainData(p, rest)
    case Blocked => Stuck([], true)
    case Garbled => Stuck([], false)
  }

  /** The drain once payload `p` has been read, with `rest` still on the pipe. */
  function DrainData(p: Text, rest: Channel): Drain
    decreases |rest|, 1
  {
    DrainWith(p, DrainFrames(rest))
  }

  function CPayloads(ms: seq<Text>): (ps: seq<Text>)
    ensures |ps| == |ms| && forall k :: 0 <= k < |ms| ==> ps[k] == CPayload(ms[k])
  {
    seq(|ms|, k requires 0 <= k < |ms| => CPayload(ms[k]))
  }

  lemma CPayloadsCons(m: Text, ms: seq<Text>)
    ensures CPayloads([m] + ms) == [CPayload(m)] + CPayloads(ms)
  {
    var l, r := CPayloads([m] + ms), [CPayload(m)] + CPayloads(ms);
    assert |l| == |r|;
    forall k | 0 <= k < |l| ensures l[k] == r[k] {
      if k > 0 {
        assert ([m] + ms)[k] == ms[k - 1];
      }
    }
  }

  /** Reading one data frame off the front of a pipe. */
  lemma DrainFrameFirst(payload: Text, after: Channel)
    requires |payload| > 0
    ensures DrainFrames(Frame(payload) + after) == DrainWith(payload, DrainFrames(after))
  {
    ReadFrameRoundTrip(payload, after);
    assert DrainFrames(Frame(payload) + after) == DrainData(payload, after);
  }

  /**
   * Framing is lossless: draining the frames of `ms` and the end marker
   * yields the payloads of `ms`, in order, and leaves the rest of the pipe.
   */
  lemma {:induction false} DrainRoundTrip(ms: seq<Text>, rest: Channel)
    ensures DrainFrames(Frames(ms) + Terminator + rest) == Drained(CPayloads(ms), rest)
    decreases |ms|
  {
    if |ms| == 0 {
      ReadFrameRoundTrip([], rest);
      assert Frames(ms) + Terminator + rest == Terminator + rest;
    } else {
      var m, tail := ms[0], ms[1..];
      assert ms == [m] + tail;
      FramesCons(m, tail);
      var after := Frames(tail) + Terminator + rest;
      assert Frames(ms) + Terminator + rest == Frame(CPayload(m)) + after;
      DrainFrameFirst(CPayload(m), after);
      DrainRoundTrip(tail, rest);
      CPayloadsCons(m, tail);
    }
  }
}
