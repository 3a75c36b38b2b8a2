/**
 * The minion process of exp-2-parallel-file-search/minion.c: it reads task
 * frames from its controller, searches each named file line by line for the
 * query, case-insensitively, and frames one message per occurrence, then the
 * size-0 frame.
 *
 * A file system is a map from a name to the lines getline returns for it; a
 * name outside the map is a file fopen cannot open.
 */
module Minion {
  import opened CText
  import opened Framing

  const Newline: Byte := 10
  const Colon: Byte := 58
  const Space: Byte := 32

  type FileSystem = map<Text, seq<Text>>

  // ---------------------------------------------------------------------
  // to_lower_case

  /**
   * tolower in the C locale: the result is never upper case, only 'A'..'Z'
   * change, each to the lower-case letter 32 places on, and letters stay
   * letters.
   */
  function ToLowerByte(b: Byte): (r: Byte)
    ensures !(65 <= r <= 90)
    ensures r != b <==> 65 <= b <= 90
    ensures r == b || r == b + 32
    ensures 97 <= r <= 122 <==> 65 <= b <= 90 || 97 <= b <= 122
  {
    if 65 <= b <= 90 then b + 32 else b
  }

  /** Every byte of `t` through tolower. */
  function Lower(t: Text): Text {
    seq(|t|, k requires 0 <= k < |t| => ToLowerByte(t[k]))
  }

  /** Lowering twice is lowering once, and a lowered text holds no upper-case letter. */
  lemma LowerIdempotent(t: Text)
    ensures Lower(Lower(t)) == Lower(t)
    ensures forall k :: 0 <= k < |t| ==> !(65 <= Lower(t)[k] <= 90)
  {
  }

  /** Lowering keeps every NUL where it is and adds none, so it commutes with CStr. */
  lemma LowerCStr(t: Text)
    ensures CStr(Lower(t)) == Lower(CStr(t))
  {
    var n := |CStr(t)|;
    CStrPrefix(t);
    assert forall k :: 0 <= k < n ==> t[k] == CStr(t)[k] && CStr(t)[k] in CStr(t);
    CStrLength(Lower(t), n);
  }

  /** What to_lower_case leaves in a buffer: its C string lowered, the bytes from the NUL on untouched. */
  function LowerInPlace(t: Text): Text
    decreases |t|
  {
    if |t| == 0 || t[0] == NUL then t else [ToLowerByte(t[0])] + LowerInPlace(t[1..])
  }

  /** The buffer after to_lower_case: its C string lowered, then the bytes from the NUL on, untouched. */
  lemma {:induction false} LowerInPlaceSplit(t: Text)
    ensures LowerInPlace(t) == Lower(CStr(t)) + t[|CStr(t)|..]
    decreases |t|
  {
    if |t| > 0 && t[0] != NUL {
      LowerInPlaceSplit(t[1..]);
      var c := CStr(t[1..]);
      assert CStr(t) == [t[0]] + c;
      assert Lower(CStr(t)) == [ToLowerByte(t[0])] + Lower(c);
      assert t[|CStr(t)|..] == t[1..][|c|..];
    }
  }

  /**
   * The in-place rewrite keeps the length, lowers the C string it scans and
   * is idempotent.
   */
  lemma LowerInPlaceFacts(t: Text)
    ensures |LowerInPlace(t)| == |t|
    ensures CStr(LowerInPlace(t)) == Lower(CStr(t))
    ensures LowerInPlace(LowerInPlace(t)) == LowerInPlace(t)
  {
    var c := CStr(t);
    var n := |c|;
    var u := LowerInPlace(t);
    LowerInPlaceSplit(t);
    LowerInPlaceSplit(u);
    CStrPrefix(t);
    assert forall k :: 0 <= k < n ==> c[k] in c;
    assert forall k :: 0 <= k < n ==> u[k] == Lower(c)[k] && u[k] != NUL;
    assert n < |t| ==> u[n] == t[n];
    CStrLength(u, n);
    assert u[..n] == Lower(c);
    LowerIdempotent(c);
    assert u[n..] == t[n..];
  }

  /** to_lower_case(str) on a NUL-terminated buffer. */
  method ToLowerCase(str: array<Byte>)
    modifies str
    ensures str[..] == LowerInPlace(old(str[..]))
  {
    ghost var t := str[..];
    var i := 0;
    while i < str.Length && str[i] != NUL
      invariant 0 <= i <= str.Length
      invariant forall k :: 0 <= k < i ==> t[k] != NUL && str[k] == ToLowerByte(t[k])
      invariant forall k :: i <= k < str.Length ==> str[k] == t[k]
    {
      str[i] := ToLowerByte(str[i]);
      i := i + 1;
    }
    CStrLength(t, i);
    LowerInPlaceSplit(t);
    assert str[..] == Lower(t[..i]) + t[i..];
  }

  // ---------------------------------------------------------------------
  // strstr and the positions it finds

  /** Query `q` occurs at 0-based position `p` of `s`. */
  predicate OccursAt(s: Text, q: Text, p: int) {
    0 <= p && p + |q| <= |s| && s[p..p + |q|] == q
  }

  /** strstr(s + from, q), as the position it returns, if any. */
  function StrStr(s: Text, q: Text, from: nat): (r: Option<nat>)
    requires from <= |s| && |q| > 0
    ensures r.Some? ==> from <= r.value && r.value + |q| <= |s|
    decreases |s| - from
  {
    if from + |q| > |s| then None
    else if OccursAt(s, q, from) then Some(from)
    else StrStr(s, q, from + 1)
  }

  /** strstr finds the first occurrence at or after `from`, and fails only when there is none. */
  lemma {:induction false} StrStrFirst(s: Text, q: Text, from: nat)
    requires from <= |s| && |q| > 0
    ensures var r := StrStr(s, q, from);
            (r.Some? ==> OccursAt(s, q, r.value) && forall p :: from <= p < r.value ==> !OccursAt(s, q, p)) &&
            (r.None? ==> forall p :: from <= p ==> !OccursAt(s, q, p))
    decreases |s| - from
  {
    if from + |q| <= |s| && !OccursAt(s, q, from) {
      StrStrFirst(s, q, from + 1);
    }
  }

  /**
   * The 1-based columns the inner `while` reports from position `from` on:
   * after each hit, `match++` restarts the search one byte further, so
   * overlapping occurrences are found too.
   */
  function ColumnsFrom(s: Text, q: Text, from: nat): seq<nat>
    requires from <= |s| && |q| > 0
    decreases |s| - from
  {
    match StrStr(s, q, from)
    case None => []
    case Some(p) => [p + 1] + ColumnsFrom(s, q, p + 1)
  }

  predicate Increasing(cols: seq<nat>) {
    forall i, j :: 0 <= i < j < |cols| ==> cols[i] < cols[j]
  }

  predicate Within(cols: seq<nat>, low: int, high: int) {
    forall k :: 0 <= k < |cols| ==> low < cols[k] <= high
  }

  /** Columns come out strictly increasing, each past `from` and within the line. */
  lemma {:induction false} ColumnsIncreasing(s: Text, q: Text, from: nat)
    requires from <= |s| && |q| > 0
    ensures Within(ColumnsFrom(s, q, from), from, |s|) && Increasing(ColumnsFrom(s, q, from))
    decreases |s| - from
  {
    var r := StrStr(s, q, from);
    if r.Some? {
      var p := r.value;
      ColumnsIncreasing(s, q, p + 1);
      var rest := ColumnsFrom(s, q, p + 1);
      assert forall k :: 0 <= k < |rest| ==> p + 1 < rest[k];
      var cols := [p + 1] + rest;
      assert ColumnsFrom(s, q, from) == cols;
      assert forall k :: 0 < k < |cols| ==> cols[k] == rest[k - 1];
    }
  }

  /** A column is reported exactly when the query occurs at the position before it. */
  lemma {:induction false} ColumnsExact(s: Text, q: Text, from: nat, c: int)
    requires from <= |s| && |q| > 0
    ensures c in ColumnsFrom(s, q, from) <==> from < c && OccursAt(s, q, c - 1)
    decreases |s| - from
  {
    StrStrFirst(s, q, from);
    match StrStr(s, q, from)
    case None =>
    case Some(p) =>
      ColumnsExact(s, q, p + 1, c);
  }

  /** A query occurs wherever all of its bytes do. */
  lemma At(s: Text, q: Text, p: nat)
    requires p + |q| <= |s| && forall k :: 0 <= k < |q| ==> s[p + k] == q[k]
    ensures OccursAt(s, q, p)
  {
    assert s[p..p + |q|] == q;
  }

  /** A query cannot occur where its first byte does not. */
  lemma NotAt(s: Text, q: Text, p: nat)
    requires p < |s| && |q| > 0 && s[p] != q[0]
    ensures !OccursAt(s, q, p)
  {
    if p + |q| <= |s| {
      assert s[p..p + |q|][0] == s[p];
    }
  }

  /** The query "aa" in the line "aaa" is reported at columns 1 and 2. */
  lemma OverlappingExample(s: Text, q: Text)
    requires s == [97, 97, 97] && q == [97, 97]
    ensures ColumnsFrom(s, q, 0) == [1, 2]
  {
    At(s, q, 0);
    At(s, q, 1);
    assert StrStr(s, q, 2) == None;
    assert ColumnsFrom(s, q, 2) == [];
    assert StrStr(s, q, 1) == Some(1);
    assert ColumnsFrom(s, q, 1) == [2];
    assert StrStr(s, q, 0) == Some(0);
  }

  // ---------------------------------------------------------------------
  // Matches in a file

  datatype Match = Match(line: nat, column: nat)

  /** What strstr searches of a line getline returned, once to_lower_case has run on it. */
  function ScannedLine(l: Text): Text {
    Lower(CStr(l))
  }

  /** The matches on line `number` at columns `cols`. */
  function Tag(number: nat, cols: seq<nat>): seq<Match> {
    seq(|cols|, k requires 0 <= k < |cols| => Match(number, cols[k]))
  }

  lemma TagMember(number: nat, cols: seq<nat>, m: Match)
    ensures m in Tag(number, cols) <==> m.line == number && m.column in cols
  {
    if m.line == number && m.column in cols {
      var k :| 0 <= k < |cols| && cols[k] == m.column;
      assert Tag(number, cols)[k] == m;
    }
  }

  /** The matches of the lines of a file, line numbers from 1, in scan order. */
  function FileMatches(lines: seq<Text>, key: Text): seq<Match>
    requires |key| > 0
    decreases |lines|
  {
    if |lines| == 0 then []
    else FileMatches(lines[..|lines| - 1], key) + Tag(|lines|, ColumnsFrom(ScannedLine(lines[|lines| - 1]), key, 0))
  }

  /**
   * A match is reported for line l and column c exactly when the lowered
   * key occurs at position c-1 of the lowered line l.
   */
  lemma {:induction false} FileMatchesExact(lines: seq<Text>, key: Text, m: Match)
    requires |key| > 0
    ensures m in FileMatches(lines, key) <==>
              1 <= m.line <= |lines| && m.column >= 1 && OccursAt(ScannedLine(lines[m.line - 1]), key, m.column - 1)
    decreases |lines|
  {
    if |lines| > 0 {
      var n := |lines|;
      var init := lines[..n - 1];
      var s := ScannedLine(lines[n - 1]);
      FileMatchesExact(init, key, m);
      ColumnsExact(s, key, 0, m.column);
      TagMember(n, ColumnsFrom(s, key, 0), m);
      if 1 <= m.line < n {
        assert lines[m.line - 1] == init[m.line - 1];
      }
    }
  }

  /** (line, column) order. */
  predicate Before(a: Match, b: Match) {
    a.line < b.line || (a.line == b.line && a.column < b.column)
  }

  /** Every match is on a line from 1 to n. */
  predicate OnLines(ms: seq<Match>, n: nat) {
    forall k :: 0 <= k < |ms| ==> 1 <= ms[k].line <= n
  }

  predicate Ordered(ms: seq<Match>) {
    forall i, j :: 0 <= i < j < |ms| ==> Before(ms[i], ms[j])
  }

  /** Matches come out strictly ordered by line, then column, with line numbers in 1..|lines|. */
  lemma {:induction false} FileMatchesOrdered(lines: seq<Text>, key: Text)
    requires |key| > 0
    ensures OnLines(FileMatches(lines, key), |lines|) && Ordered(FileMatches(lines, key))
    decreases |lines|
  {
    if |lines| > 0 {
      var n := |lines|;
      FileMatchesOrdered(lines[..n - 1], key);
      var s := ScannedLine(lines[n - 1]);
      ColumnsIncreasing(s, key, 0);
      var a := FileMatches(lines[..n - 1], key);
      var t := Tag(n, ColumnsFrom(s, key, 0));
      var ms := a + t;
      assert FileMatches(lines, key) == ms;
      forall k | 0 <= k < |ms|
        ensures 1 <= ms[k].line <= n
        ensures k >= |a| ==> ms[k] == Match(n, ColumnsFrom(s, key, 0)[k - |a|])
      {
        if k >= |a| {
          assert ms[k] == t[k - |a|];
        } else {
          assert ms[k] == a[k];
        }
      }
      forall i, j | 0 <= i < j < |ms|
        ensures Before(ms[i], ms[j])
      {
        if j < |a| {
          assert ms[i] == a[i] && ms[j] == a[j];
        } else if i < |a| {
          assert ms[i] == a[i];
        }
      }
    }
  }

  /** "foo" in "foo bar\n": column 1 only. */
  lemma FooBarFirstLine(s: Text, q: Text)
    requires s == [102, 111, 111, 32, 98, 97, 114, 10] && q == [102, 111, 111]
    ensures ColumnsFrom(s, q, 0) == [1]
  {
    At(s, q, 0);
    assert StrStr(s, q, 0) == Some(0);
    NotAt(s, q, 1); NotAt(s, q, 2); NotAt(s, q, 3); NotAt(s, q, 4); NotAt(s, q, 5);
    assert StrStr(s, q, 6) == None;
    assert StrStr(s, q, 5) == None;
    assert StrStr(s, q, 4) == None;
    assert StrStr(s, q, 3) == None;
    assert StrStr(s, q, 2) == None;
    assert StrStr(s, q, 1) == None;
    assert ColumnsFrom(s, q, 1) == [];
  }

  /** "foo" in "nofoobar\n": column 3 only. */
  lemma FooBarSecondLine(s: Text, q: Text)
    requires s == [110, 111, 102, 111, 111, 98, 97, 114, 10] && q == [102, 111, 111]
    ensures ColumnsFrom(s, q, 0) == [3]
  {
    NotAt(s, q, 0); NotAt(s, q, 1);
    At(s, q, 2);
    assert StrStr(s, q, 2) == Some(2);
    assert StrStr(s, q, 1) == Some(2);
    assert StrStr(s, q, 0) == Some(2);
    NotAt(s, q, 3); NotAt(s, q, 4); NotAt(s, q, 5); NotAt(s, q, 6);
    assert StrStr(s, q, 7) == None;
    assert StrStr(s, q, 6) == None;
    assert StrStr(s, q, 5) == None;
    assert StrStr(s, q, 4) == None;
    assert StrStr(s, q, 3) == None;
    assert ColumnsFrom(s, q, 3) == [];
  }

  /**
   * Query "FOO" over a file with lines "foo bar" and "nofoobar" reports
   * line 1 column 1 and line 2 column 3.
   */
  lemma FooBarExample(l1: Text, l2: Text, query: Text)
    requires l1 == [102, 111, 111, 32, 98, 97, 114, 10] && l2 == [110, 111, 102, 111, 111, 98, 97, 114, 10]
    requires query == [70, 79, 79]
    ensures FileMatches([l1, l2], Lower(query)) == [Match(1, 1), Match(2, 3)]
  {
    var key := Lower(query);
    assert key == [102, 111, 111];
    ScannedPlain(l1);
    ScannedPlain(l2);
    FooBarFirstLine(l1, key);
    FooBarSecondLine(l2, key);
    TwoLineMatches(l1, l2, key);
  }

  /** A line with no NUL and no upper-case letter is scanned as it is. */
  lemma ScannedPlain(l: Text)
    requires forall k :: 0 <= k < |l| ==> l[k] != NUL && !(65 <= l[k] <= 90)
    ensures ScannedLine(l) == l
  {
    CStrLength(l, |l|);
    assert l[..|l|] == l;
  }

  lemma OneLineMatches(l: Text, key: Text)
    requires |key| > 0
    ensures FileMatches([l], key) == Tag(1, ColumnsFrom(ScannedLine(l), key, 0))
  {
    var lines: seq<Text> := [l];
    assert lines[..0] == [];
  }

  lemma TwoLineMatches(l1: Text, l2: Text, key: Text)
    requires |key| > 0
    ensures FileMatches([l1, l2], key) ==
              Tag(1, ColumnsFrom(ScannedLine(l1), key, 0)) + Tag(2, ColumnsFrom(ScannedLine(l2), key, 0))
  {
    var lines: seq<Text> := [l1, l2];
    assert lines[..1] == [l1];
    assert lines[1] == l2;
    OneLineMatches(l1, key);
  }

  // ---------------------------------------------------------------------
  // Result messages

  /** "minion" */
  const MinionWord: Text := [109, 105, 110, 105, 111, 110]

  /** sprintf(message, "minion%s: %s:%d:%ld\n", id, file, line, column). */
  function Message(id: Text, file: Text, m: Match): Text {
    MinionWord + id + [Colon, Space] + file + [Colon] + Decimal(m.line) + [Colon] + Decimal(m.column) + [Newline]
  }

  /** The messages for matches `ms`, in order. */
  function Messages(id: Text, file: Text, ms: seq<Match>): seq<Text> {
    seq(|ms|, k requires 0 <= k < |ms| => Message(id, file, ms[k]))
  }

  /** Position of the last `b` in `t`. */
  function LastIndexOf(t: Text, b: Byte): (r: Option<nat>)
    ensures r.Some? ==> r.value < |t| && t[r.value] == b && forall k :: r.value < k < |t| ==> t[k] != b
    ensures r.None? ==> b !in t
    decreases |t|
  {
    if |t| == 0 then None
    else if t[|t| - 1] == b then Some(|t| - 1)
    else LastIndexOf(t[..|t| - 1], b)
  }

  /**
   * Reads the location back from a result message, from its end: the
   * column after the last ':', the line after the ':' before it.  The file
   * name may itself hold ':'.
   */
  function Location(msg: Text): Option<Match> {
    if |msg| == 0 || msg[|msg| - 1] != Newline then None
    else
      var body := msg[..|msg| - 1];
      match LastIndexOf(body, Colon)
      case None => None
      case Some(j) =>
        match LastIndexOf(body[..j], Colon)
        case None => None
        case Some(i) => Some(Match(ParseNat(body[i + 1..j]), ParseNat(body[j + 1..])))
  }

  lemma {:induction false} LastIndexOfAppend(a: Text, b: Byte, d: Text)
    requires b !in d
    ensures LastIndexOf(a + [b] + d, b) == Some(|a|)
    decreases |d|
  {
    var t := a + [b] + d;
    if |d| == 0 {
      assert t == a + [b];
    } else {
      var n := |d| - 1;
      assert d[n] in d;
      assert t[|t| - 1] == d[n];
      assert t[..|t| - 1] == a + [b] + d[..n];
      assert b !in d[..n] by {
        forall k | 0 <= k < n ensures d[..n][k] != b {
          assert d[..n][k] == d[k] && d[k] in d;
        }
      }
      LastIndexOfAppend(a, b, d[..n]);
    }
  }

  lemma NoColonInNatDigits(n: nat)
    ensures Colon !in NatDigits(n) && NUL !in NatDigits(n)
  {
    NatDigitsAreDigits(n);
    DecimalBytes(n);
  }

  /** Location reads back the two numbers at the end of any line of the message's shape. */
  lemma LocationOfTail(head: Text, line: nat, column: nat)
    ensures Location(head + [Colon] + NatDigits(line) + [Colon] + NatDigits(column) + [Newline]) == Some(Match(line, column))
  {
    var dl, dc := NatDigits(line), NatDigits(column);
    var front := head + [Colon] + dl;
    var body := front + [Colon] + dc;
    var msg := body + [Newline];
    assert msg[..|msg| - 1] == body;
    NoColonInNatDigits(line);
    NoColonInNatDigits(column);
    LastIndexOfAppend(front, Colon, dc);
    assert body[..|front|] == front;
    LastIndexOfAppend(head, Colon, dl);
    assert body[|head| + 1..|front|] == dl;
    assert body[|front| + 1..] == dc;
    NatDigitsRoundTrip(line);
    NatDigitsRoundTrip(column);
  }

  /** The controller's log entry identifies its match: the location reads back from the message. */
  lemma LocationRoundTrip(id: Text, file: Text, m: Match)
    ensures Location(Message(id, file, m)) == Some(m)
  {
    var head := MinionWord + id + [Colon, Space] + file;
    assert Message(id, file, m) == head + [Colon] + NatDigits(m.line) + [Colon] + NatDigits(m.column) + [Newline];
    LocationOfTail(head, m.line, m.column);
  }

  /** A message holds no NUL when the id and the file name hold none, so "%s" logs all of it. */
  lemma MessageNulFree(id: Text, file: Text, m: Match)
    requires NUL !in id && NUL !in file
    ensures NUL !in Message(id, file, m)
  {
    NoColonInNatDigits(m.line);
    NoColonInNatDigits(m.column);
  }

  // ---------------------------------------------------------------------
  // search_in_file

  /** What one task makes the minion do: units written, messages written, the query buffer after. */
  datatype Reply = Reply(sent: Channel, messages: seq<Text>, query: Text)

  /** The reply to a file that opened: one frame per match, then the size-0 frame. */
  function ScanReply(id: Text, query: Text, file: Text, lines: seq<Text>): Reply
    requires |CStr(query)| > 0
  {
    var q := LowerInPlace(query);
    LowerInPlaceFacts(query);
    var ms := Messages(id, file, FileMatches(lines, CStr(q)));
    Reply(Frames(ms) + Terminator, ms, q)
  }

  /**
   * search_in_file as written: a file that cannot be opened gets no frame
   * at all, not even the size-0 one, and the query is left as it was.
   */
  function SearchReplyAsWritten(id: Text, query: Text, file: Text, fs: FileSystem): Reply
    requires |CStr(query)| > 0
  {
    if file !in fs then Reply([], [], query) else ScanReply(id, query, file, fs[file])
  }

  /** search_in_file as intended: a file that cannot be opened still gets the size-0 frame. */
  function SearchReply(id: Text, query: Text, file: Text, fs: FileSystem): Reply
    requires |CStr(query)| > 0
  {
    if file !in fs then Reply(Terminator, [], query) else ScanReply(id, query, file, fs[file])
  }

  /**
   * Whatever the file, the reply to a task is complete: it is the frames of
   * its messages followed by exactly one size-0 frame, and the query buffer
   * keeps its C string's length.
   */
  lemma SearchReplyFramed(id: Text, query: Text, file: Text, fs: FileSystem)
    requires |CStr(query)| > 0
    ensures var r := SearchReply(id, query, file, fs);
            r.sent == Frames(r.messages) + Terminator && |CStr(r.query)| == |CStr(query)|
  {
    LowerInPlaceFacts(query);
    assert Frames([]) + Terminator == Terminator;
  }

  /** The query buffer after any reply is lowered; once lowered, every later reply leaves it alone. */
  lemma SearchReplyLowersQuery(id: Text, query: Text, file: Text, fs: FileSystem)
    requires |CStr(query)| > 0
    ensures var r := SearchReply(id, query, file, fs);
            (file in fs ==> r.query == LowerInPlace(query)) &&
            (file !in fs ==> r.query == query)
    ensures |CStr(LowerInPlace(query))| > 0 && SearchReply(id, LowerInPlace(query), file, fs).query == LowerInPlace(query)
  {
    LowerInPlaceFacts(query);
  }

  /**
   * Lowering the query in place is harmless: a reply to a lowered query is
   * the reply to the original one, apart from the query buffer it leaves.
   */
  lemma SearchReplyIgnoresCase(id: Text, query: Text, file: Text, fs: FileSystem)
    requires |CStr(query)| > 0
    ensures |CStr(LowerInPlace(query))| > 0 &&
            var a, b := SearchReply(id, query, file, fs), SearchReply(id, LowerInPlace(query), file, fs);
            a.sent == b.sent && a.messages == b.messages
  {
    LowerInPlaceFacts(query);
  }

  /** Messages of consecutive runs of matches are consecutive. */
  lemma MessagesAppend(id: Text, file: Text, a: seq<Match>, b: seq<Match>)
    ensures Messages(id, file, a + b) == Messages(id, file, a) + Messages(id, file, b)
  {
    var l, r := Messages(id, file, a + b), Messages(id, file, a) + Messages(id, file, b);
    assert |l| == |r|;
    forall k | 0 <= k < |l| ensures l[k] == r[k] {
      if k < |a| {
        assert (a + b)[k] == a[k];
      } else {
        assert (a + b)[k] == b[k - |a|];
      }
    }
  }

  /** The messages of one more line follow those of the lines before it. */
  lemma FileMessagesSnoc(id: Text, file: Text, lines: seq<Text>, k: nat, key: Text)
    requires k < |lines| && |key| > 0
    ensures Messages(id, file, FileMatches(lines[..k + 1], key)) ==
            Messages(id, file, FileMatches(lines[..k], key)) + Messages(id, file, Tag(k + 1, ColumnsFrom(ScannedLine(lines[k]), key, 0)))
  {
    assert lines[..k + 1][..k] == lines[..k];
    assert FileMatches(lines[..k + 1], key) == FileMatches(lines[..k], key) + Tag(k + 1, ColumnsFrom(ScannedLine(lines[k]), key, 0));
    MessagesAppend(id, file, FileMatches(lines[..k], key), Tag(k + 1, ColumnsFrom(ScannedLine(lines[k]), key, 0)));
  }

  /**
   * The messages the inner `while` has written once it reaches `from`,
   * having written `messages` before: one per further hit of strstr.
   */
  function LineMessagesAfter(id: Text, file: Text, number: nat, line: Text, key: Text, from: nat, messages: seq<Text>): seq<Text>
    requires from <= |line| && |key| > 0
    decreases |line| - from
  {
    match StrStr(line, key, from)
    case None => messages
    case Some(p) => LineMessagesAfter(id, file, number, line, key, p + 1, messages + [Message(id, file, Match(number, p + 1))])
  }

  /** The accumulated messages are those of the columns at and after `from`, after the ones already written. */
  lemma {:induction false} LineMessagesAfterColumns(id: Text, file: Text, number: nat, line: Text, key: Text, from: nat, messages: seq<Text>)
    requires from <= |line| && |key| > 0
    ensures LineMessagesAfter(id, file, number, line, key, from, messages) == messages + Messages(id, file, Tag(number, ColumnsFrom(line, key, from)))
    decreases |line| - from
  {
    match StrStr(line, key, from)
    case None =>
      assert Tag(number, []) == [];
    case Some(p) =>
      var c := p + 1;
      var cols := ColumnsFrom(line, key, c);
      LineMessagesAfterColumns(id, file, number, line, key, c, messages + [Message(id, file, Match(number, c))]);
      assert ColumnsFrom(line, key, from) == [c] + cols;
      MessagesCons(id, file, number, c, cols);
      AppendAssoc(messages, [Message(id, file, Match(number, c))], Messages(id, file, Tag(number, cols)));
  }

  lemma AppendAssoc<T>(a: seq<T>, b: seq<T>, c: seq<T>)
    ensures (a + b) + c == a + (b + c)
  {
  }

  /** The message of the first column comes first. */
  lemma MessagesCons(id: Text, file: Text, number: nat, c: nat, cols: seq<nat>)
    ensures Messages(id, file, Tag(number, [c] + cols)) == [Message(id, file, Match(number, c))] + Messages(id, file, Tag(number, cols))
  {
    var l, r := Messages(id, file, Tag(number, [c] + cols)), [Message(id, file, Match(number, c))] + Messages(id, file, Tag(number, cols));
    assert |l| == |r|;
    forall k | 0 <= k < |l| ensures l[k] == r[k] {
      if k > 0 {
        assert ([c] + cols)[k] == cols[k - 1];
      }
    }
  }

  /** One turn of the inner `while`: one more message, framed after the ones before. */
  lemma LineStep(id: Text, file: Text, number: nat, line: Text, key: Text, from: nat, messages: seq<Text>, sent: Channel)
    requires from <= |line| && |key| > 0 && StrStr(line, key, from).Some?
    requires sent == Frames(messages)
    ensures var column := StrStr(line, key, from).value + 1;
            var message := Message(id, file, Match(number, column));
            from < column <= |line| &&
            LineMessagesAfter(id, file, number, line, key, from, messages) == LineMessagesAfter(id, file, number, line, key, column, messages + [message]) &&
            sent + Frame(CPayload(message)) == Frames(messages + [message])
  {
    FramesSnoc(messages, Message(id, file, Match(number, StrStr(line, key, from).value + 1)));
  }

  /**
   * The inner `while` of search_in_file on line `number`, already lowered:
   * one framed message per occurrence of `key`, left to right.
   */
  method ScanLine(id: Text, key: Text, file: Text, number: nat, line: Text) returns (sent: Channel, messages: seq<Text>)
    requires |key| > 0
    ensures messages == Messages(id, file, Tag(number, ColumnsFrom(line, key, 0)))
    ensures sent == Frames(messages)
  {
    sent, messages := [], [];
    ghost var all := LineMessagesAfter(id, file, number, line, key, 0, []);
    var from: nat := 0;
    var found := StrStr(line, key, from);
    while found.Some?
      invariant from <= |line| && found == StrStr(line, key, from)
      invariant LineMessagesAfter(id, file, number, line, key, from, messages) == all
      invariant sent == Frames(messages)
      decreases |line| - from
    {
      var column := found.value + 1;
      var message := Message(id, file, Match(number, column));
      LineStep(id, file, number, line, key, from, messages, sent);
      messages := messages + [message];
      sent := sent + Frame(CPayload(message));
      from := column;
      found := StrStr(line, key, from);
    }
    LineMessagesAfterColumns(id, file, number, line, key, 0, []);
    assert [] + Messages(id, file, Tag(number, ColumnsFrom(line, key, 0))) == Messages(id, file, Tag(number, ColumnsFrom(line, key, 0)));
  }

  /**
   * The line loop of search_in_file once the file is open, with `key` the
   * lowered query: one framed message per match in scan order, then the
   * size-0 frame.
   */
  method ScanLines(id: Text, key: Text, file: Text, lines: seq<Text>) returns (sent: Channel, messages: seq<Text>)
    requires |key| > 0
    ensures messages == Messages(id, file, FileMatches(lines, key))
    ensures sent == Frames(messages) + Terminator
  {
    sent, messages := [], [];
    var lineNumber := 1;
    while lineNumber <= |lines|
      invariant 1 <= lineNumber <= |lines| + 1
      invariant messages == Messages(id, file, FileMatches(lines[..lineNumber - 1], key))
      invariant sent == Frames(messages)
    {
      var lineSent, lineMessages := ScanLine(id, key, file, lineNumber, ScannedLine(lines[lineNumber - 1]));
      FileMessagesSnoc(id, file, lines, lineNumber - 1, key);
      FramesAppend(messages, lineMessages);
      messages := messages + lineMessages;
      sent := sent + lineSent;
      lineNumber := lineNumber + 1;
    }
    assert lines[..|lines|] == lines;
    sent := sent + Terminator;
  }

  /**
   * search_in_file on the query buffer argv[2]: a file missing from `fs`
   * cannot be opened; otherwise the query is lowered in place and the file
   * is scanned line by line.
   */
  method SearchInFile(id: Text, query: array<Byte>, file: Text, fs: FileSystem) returns (sent: Channel, messages: seq<Text>)
    requires |CStr(query[..])| > 0
    modifies query
    ensures Reply(sent, messages, query[..]) == SearchReply(id, old(query[..]), file, fs)
  {
    if file !in fs {
      sent, messages := Terminator, [];
      return;
    }
    ghost var q := query[..];
    ToLowerCase(query);
    LowerInPlaceFacts(q);
    var key := CStr(query[..]);
    sent, messages := ScanLines(id, key, file, fs[file]);
  }

  // ---------------------------------------------------------------------
  // The minion's main loop

  /** Why the minion stopped. */
  datatype Stop =
    | Exited       // read the size-0 frame and returned EXIT_SUCCESS
    | Waiting      // blocked in read: the controller sent no complete frame
    | Misread      // stdin does not hold frames

  /** Everything one minion did: units written to stdout, messages logged, its query buffer, why it stopped. */
  datatype Session = Session(sent: Channel, messages: seq<Text>, query: Text, stop: Stop)

  function Continue(r: Reply, s: Session): Session {
    Session(r.sent + s.sent, r.messages + s.messages, s.query, s.stop)
  }

  /**
   * main's `while (1)` over the frames on stdin: each nonzero frame names a
   * file to search, a size-0 frame ends the minion.  The query buffer
   * carries over from one file to the next.  Each file is answered with the
   * corrected SearchReply; MinionRunAsWritten below uses the reply as
   * written.
   */
  function MinionRun(id: Text, query: Text, incoming: Channel, fs: FileSystem): Session
    requires |CStr(query)| > 0
    decreases |incoming|, 1
  {
    ReadFrameSound(incoming);
    match ReadFrame(incoming)
    case End(_) => Session([], [], query, Exited)
    case Blocked => Session([], [], query, Waiting)
    case Garbled => Session([], [], query, Misread)
    case Data(p, rest) => MinionServe(id, query, p, rest, fs)
  }

  /** One turn of the loop on a nonzero frame `p`: search the file it names, then read on from `rest`. */
  function MinionServe(id: Text, query: Text, p: Text, rest: Channel, fs: FileSystem): Session
    requires |CStr(query)| > 0
    decreases |rest|, 2
  {
    SearchReplyFramed(id, query, CStr(p), fs);
    var r := SearchReply(id, query, CStr(p), fs);
    Continue(r, MinionRun(id, r.query, rest, fs))
  }

  /** The two replies differ exactly for a file that does not open. */
  lemma SearchReplyAgreement(id: Text, query: Text, file: Text, fs: FileSystem)
    requires |CStr(query)| > 0
    ensures SearchReplyAsWritten(id, query, file, fs) == SearchReply(id, query, file, fs) <==> file in fs
    ensures SearchReplyAsWritten(id, query, file, fs).query == SearchReply(id, query, file, fs).query
  {
  }

  /** main's loop as written: each nonzero frame is answered by SearchReplyAsWritten. */
  function MinionRunAsWritten(id: Text, query: Text, incoming: Channel, fs: FileSystem): Session
    requires |CStr(query)| > 0
    decreases |incoming|, 1
  {
    ReadFrameSound(incoming);
    match ReadFrame(incoming)
    case End(_) => Session([], [], query, Exited)
    case Blocked => Session([], [], query, Waiting)
    case Garbled => Session([], [], query, Misread)
    case Data(p, rest) => MinionServeAsWritten(id, query, p, rest, fs)
  }

  function MinionServeAsWritten(id: Text, query: Text, p: Text, rest: Channel, fs: FileSystem): Session
    requires |CStr(query)| > 0
    decreases |rest|, 2
  {
    SearchReplyFramed(id, query, CStr(p), fs);
    SearchReplyAgreement(id, query, CStr(p), fs);
    var r := SearchReplyAsWritten(id, query, CStr(p), fs);
    Continue(r, MinionRunAsWritten(id, r.query, rest, fs))
  }

  /** One frame read at position `pos` of stdin, as one step of MinionRun. */
  lemma MinionStep(id: Text, query: Text, incoming: Channel, pos: nat, fs: FileSystem)
    requires |CStr(query)| > 0 && pos <= |incoming| && ReadFrame(incoming[pos..]).Data?
    ensures var p := ReadFrame(incoming[pos..]).payload;
            var r := SearchReply(id, query, CStr(p), fs);
            pos + 1 + |p| <= |incoming| && |CStr(r.query)| > 0 &&
            MinionRun(id, query, incoming[pos..], fs) == Continue(r, MinionRun(id, r.query, incoming[pos + 1 + |p|..], fs))
  {
    ReadFrameAdvance(incoming, pos);
    SearchReplyFramed(id, query, CStr(ReadFrame(incoming[pos..]).payload), fs);
  }

  /** The loop invariant of main survives one search: what is left to do shrinks by one reply. */
  lemma MinionAdvance(id: Text, query: Text, incoming: Channel, pos: nat, fs: FileSystem,
                      sent: Channel, messages: seq<Text>, goal: Session)
    requires |CStr(query)| > 0 && pos <= |incoming| && ReadFrame(incoming[pos..]).Data?
    requires goal == Continue(Reply(sent, messages, query), MinionRun(id, query, incoming[pos..], fs))
    ensures var p := ReadFrame(incoming[pos..]).payload;
            var r := SearchReply(id, query, CStr(p), fs);
            pos + 1 + |p| <= |incoming| && |CStr(r.query)| > 0 &&
            goal == Continue(Reply(sent + r.sent, messages + r.messages, r.query), MinionRun(id, r.query, incoming[pos + 1 + |p|..], fs))
  {
    MinionStep(id, query, incoming, pos, fs);
    var p := ReadFrame(incoming[pos..]).payload;
    var r := SearchReply(id, query, CStr(p), fs);
    ContinueTwice(sent, messages, query, r, MinionRun(id, r.query, incoming[pos + 1 + |p|..], fs));
  }

  lemma ContinueTwice(sent: Channel, messages: seq<Text>, query: Text, r: Reply, s: Session)
    ensures Continue(Reply(sent, messages, query), Continue(r, s)) == Continue(Reply(sent + r.sent, messages + r.messages, r.query), s)
  {
    assert sent + (r.sent + s.sent) == (sent + r.sent) + s.sent;
    assert messages + (r.messages + s.messages) == (messages + r.messages) + s.messages;
  }

  /**
   * One turn of main's loop on a nonzero frame: search the file it names
   * and write the reply after what was sent so far.
   */
  method Serve(id: Text, query: array<Byte>, incoming: Channel, pos: nat, fs: FileSystem,
               sent: Channel, messages: seq<Text>, ghost goal: Session)
    returns (sent': Channel, messages': seq<Text>, pos': nat)
    requires pos <= |incoming| && |CStr(query[..])| > 0 && ReadFrame(incoming[pos..]).Data?
    requires goal == Continue(Reply(sent, messages, query[..]), MinionRun(id, query[..], incoming[pos..], fs))
    modifies query
    ensures pos < pos' <= |incoming| && |CStr(query[..])| > 0
    ensures goal == Continue(Reply(sent', messages', query[..]), MinionRun(id, query[..], incoming[pos'..], fs))
  {
    var p := ReadFrame(incoming[pos..]).payload;
    ghost var r := SearchReply(id, query[..], CStr(p), fs);
    MinionAdvance(id, query[..], incoming, pos, fs, sent, messages, goal);
    var s, ms := SearchInFile(id, query, CStr(p), fs);
    assert s == r.sent && ms == r.messages && query[..] == r.query;
    sent', messages', pos' := sent + s, messages + ms, pos + 1 + |p|;
  }

  /**
   * main of minion.c: reads frames from stdin and searches each file named,
   * until the size-0 frame.  Output goes to stdout (`sent`) and to the
   * minion's log (`messages`).
   */
  method Minion(id: Text, query: array<Byte>, incoming: Channel, fs: FileSystem) returns (sent: Channel, messages: seq<Text>, stop: Stop)
    requires |CStr(query[..])| > 0
    modifies query
    ensures Session(sent, messages, query[..], stop) == MinionRun(id, old(query[..]), incoming, fs)
  {
    ghost var goal := MinionRun(id, query[..], incoming, fs);
    sent, messages := [], [];
    var pos := 0;
    while true
      invariant pos <= |incoming| && |CStr(query[..])| > 0
      invariant goal == Continue(Reply(sent, messages, query[..]), MinionRun(id, query[..], incoming[pos..], fs))
      decreases |incoming| - pos
    {
      match ReadFrame(incoming[pos..])
      case End(_) =>
        stop := Exited;
        return;
      case Blocked =>
        stop := Waiting;
        return;
      case Garbled =>
        stop := Misread;
        return;
      case Data(_, _) =>
        sent, messages, pos := Serve(id, query, incoming, pos, fs, sent, messages, goal);
    }
  }

  /**
   * Lowering the query in place never changes what a minion writes or when
   * it stops: a minion started on the lowered query behaves the same.
   */
  lemma {:induction false} MinionRunIgnoresCase(id: Text, query: Text, incoming: Channel, fs: FileSystem)
    requires |CStr(query)| > 0
    ensures |CStr(LowerInPlace(query))| > 0 &&
            var a, b := MinionRun(id, query, incoming, fs), MinionRun(id, LowerInPlace(query), incoming, fs);
            a.sent == b.sent && a.messages == b.messages && a.stop == b.stop
    decreases |incoming|
  {
    LowerInPlaceFacts(query);
    ReadFrameSound(incoming);
    match ReadFrame(incoming)
    case End(_) =>
    case Blocked =>
    case Garbled =>
    case Data(p, rest) =>
      SearchReplyLowersQuery(id, query, CStr(p), fs);
      SearchReplyIgnoresCase(id, query, CStr(p), fs);
      if CStr(p) !in fs {
        MinionRunIgnoresCase(id, query, rest, fs);
      }
  }
}
