/**
 * The searcher thread of exp-2-parallel-file-search/main.c: a depth-first
 * walk that puts the path of every regular `.txt` file into the buffer, and
 * then one NULL sentinel per minion.
 *
 * The directory tree is an in-memory value instead of opendir/readdir/stat:
 * an entry is already classified as a directory, a regular file or anything
 * else (which is how `d_type`, with the `stat` fallback, classifies it), and
 * a directory records whether `opendir` on it succeeds.  The puts that the
 * walk performs are returned as a sequence.
 */
module Searcher {
  import opened CText
  import opened RingBuffer

  /**
   * A directory entry.  Names are `d_name` values, so they hold no NUL.  As
   * readdir does, a listing may contain the pseudo-entries "." and "..".
   */
  datatype Entry =
    | Directory(name: Text, readable: bool, entries: seq<Entry>)
    | Regular(name: Text)
    | Other(name: Text)

  const Slash: Byte := 47
  const Dot: Text := [46]
  const DotDot: Text := [46, 46]
  const TxtSuffix: Text := [46, 116, 120, 116]  // ".txt"

  /** is_txt: longer than four bytes and ending in ".txt"; ".txt" itself is rejected. */
  predicate IsTxt(name: Text) {
    |name| > 4 && name[|name| - 4..] == TxtSuffix
  }

  /** A stem followed by ".txt" passes is_txt exactly when the stem is not empty. */
  lemma IsTxtStem(stem: Text)
    ensures IsTxt(stem + TxtSuffix) <==> |stem| > 0
  {
    var name := stem + TxtSuffix;
    assert name[|name| - 4..] == TxtSuffix;
  }

  /** ".txt" alone is rejected, "a.txt" accepted, "a.TXT" rejected. */
  lemma IsTxtExamples()
    ensures !IsTxt(TxtSuffix)
    ensures IsTxt([97, 46, 116, 120, 116])
    ensures !IsTxt([97, 46, 84, 88, 84])
  {
    assert [97, 46, 116, 120, 116][1..] == TxtSuffix;
    assert [97, 46, 84, 88, 84][1..] != TxtSuffix by {
      assert [97, 46, 84, 88, 84][1..][1] == 84;
    }
  }

  /**
   * The sub-path search_for_txt builds with strcpy/strcat.  The ensures
   * spell out the layout of the body for the solver; the property worth
   * stating is JoinPathInjective.
   */
  function JoinPath(path: Text, name: Text): (r: Text)
    ensures |r| == |path| + 1 + |name|
    ensures r[..|path|] == path && r[|path|] == Slash && r[|path| + 1..] == name
  {
    path + [Slash] + name
  }

  /** In one directory, different entry names give different sub-paths, so no file is put under two names. */
  lemma JoinPathInjective(path: Text, n1: Text, n2: Text)
    requires JoinPath(path, n1) == JoinPath(path, n2)
    ensures n1 == n2
  {
    assert n1 == JoinPath(path, n1)[|path| + 1..];
  }

  predicate IsPseudo(name: Text) {
    name == Dot || name == DotDot
  }

  // ---------------------------------------------------------------------
  // The puts of one walk, as a function.

  /**
   * The values put by a walk, in order, and whether it ended in exit(1).
   * The puts made before an exit stay in the buffer and may already have
   * been served.
   */
  datatype Walk<T> = Walk(items: seq<T>, exited: bool)

  /** The walks of consecutive entries, one after the other, up to the first that exits. */
  function ConcatAll(parts: seq<Walk<Text>>): Walk<Text>
    decreases |parts|
  {
    if |parts| == 0 then Walk([], false)
    else
      var front := ConcatAll(parts[..|parts| - 1]);
      if front.exited then front
      else
        var last := parts[|parts| - 1];
        Walk(front.items + last.items, last.exited)
  }

  /**
   * The puts `search_for_txt(path)` performs on directory `dir`.  When
   * `opendir` fails on it, or on a directory below it, the C code calls
   * exit(1) at that point: the walk ends, exited, with the puts made so far.
   */
  function TxtFiles(path: Text, dir: Entry): Walk<Text>
    requires dir.Directory?
    decreases dir, 0
  {
    if !dir.readable then Walk([], true)
    else ConcatAll(seq(|dir.entries|, i requires 0 <= i < |dir.entries| => EntryFiles(path, dir.entries[i])))
  }

  /** The puts of one iteration of the readdir loop in directory `path`. */
  function EntryFiles(path: Text, e: Entry): Walk<Text>
    decreases e, 1
  {
    match e
    case Directory(name, _, _) =>
      if IsPseudo(name) then Walk([], false) else TxtFiles(JoinPath(path, name), e)
    case Regular(name) =>
      if IsTxt(name) then Walk([JoinPath(path, name)], false) else Walk([], false)
    case Other(_) => Walk([], false)
  }

  // ---------------------------------------------------------------------
  // An independent description: every entry the walk looks at, with its path.

  datatype Visit = Visit(path: Text, entry: Entry)

  function Flatten<X>(ss: seq<seq<X>>): seq<X>
    decreases |ss|
  {
    if |ss| == 0 then [] else Flatten(ss[..|ss| - 1]) + ss[|ss| - 1]
  }

  /** Every entry listed in `dir` and, recursively, in its readable proper sub-directories, in readdir order. */
  function Visits(path: Text, dir: Entry): seq<Visit>
    requires dir.Directory?
    decreases dir, 0
  {
    if !dir.readable then []
    else Flatten(seq(|dir.entries|, i requires 0 <= i < |dir.entries| => EntryVisits(path, dir.entries[i])))
  }

  function EntryVisits(path: Text, e: Entry): seq<Visit>
    decreases e, 1
  {
    [Visit(JoinPath(path, e.name), e)] +
    (if e.Directory? && !IsPseudo(e.name) then Visits(JoinPath(path, e.name), e) else [])
  }

  /** The paths of the visited regular files whose name passes is_txt, in visiting order. */
  function TxtVisits(vs: seq<Visit>): seq<Text>
    decreases |vs|
  {
    if |vs| == 0 then []
    else
      TxtVisits(vs[..|vs| - 1]) +
      (var v := vs[|vs| - 1]; if v.entry.Regular? && IsTxt(v.entry.name) then [v.path] else [])
  }

  /** A visited proper directory that opendir cannot open. */
  predicate IsBlocked(v: Visit) {
    v.entry.Directory? && !IsPseudo(v.entry.name) && !v.entry.readable
  }

  /** Some visit is blocked. */
  predicate AnyBlocked(vs: seq<Visit>)
    decreases |vs|
  {
    |vs| > 0 && (AnyBlocked(vs[..|vs| - 1]) || IsBlocked(vs[|vs| - 1]))
  }

  /** The visits before the first blocked one: all of them when none is blocked. */
  function BeforeBlocked(vs: seq<Visit>): seq<Visit>
    decreases |vs|
  {
    if |vs| == 0 then []
    else
      var init := vs[..|vs| - 1];
      if AnyBlocked(init) then BeforeBlocked(init)
      else if IsBlocked(vs[|vs| - 1]) then init
      else vs
  }

  lemma AnyBlockedAppend(a: seq<Visit>, b: seq<Visit>)
    ensures AnyBlocked(a + b) <==> AnyBlocked(a) || AnyBlocked(b)
    decreases |b|
  {
    if |b| > 0 {
      assert (a + b)[..|a + b| - 1] == a + b[..|b| - 1];
      AnyBlockedAppend(a, b[..|b| - 1]);
    } else {
      assert a + b == a;
    }
  }

  lemma TxtVisitsAppend(a: seq<Visit>, b: seq<Visit>)
    ensures TxtVisits(a + b) == TxtVisits(a) + TxtVisits(b)
    decreases |b|
  {
    if |b| > 0 {
      assert (a + b)[..|a + b| - 1] == a + b[..|b| - 1];
      TxtVisitsAppend(a, b[..|b| - 1]);
    } else {
      assert a + b == a;
    }
  }

  /** The visits before the first blocked one of `a + b`: those of `a` if it has one, else `a` and those of `b`. */
  lemma {:induction false} BeforeBlockedAppend(a: seq<Visit>, b: seq<Visit>)
    ensures BeforeBlocked(a + b) == if AnyBlocked(a) then BeforeBlocked(a) else a + BeforeBlocked(b)
    decreases |b|
  {
    if |b| > 0 {
      var n := |b| - 1;
      assert (a + b)[..|a + b| - 1] == a + b[..n];
      assert (a + b)[|a + b| - 1] == b[n];
      assert b[..n] == b[..|b| - 1];
      AnyBlockedAppend(a, b[..n]);
      BeforeBlockedAppend(a, b[..n]);
    } else {
      assert a + b == a;
      if !AnyBlocked(a) {
        BeforeBlockedAll(a);
      }
    }
  }

  /** With no blocked visit, nothing is cut. */
  lemma BeforeBlockedAll(vs: seq<Visit>)
    requires !AnyBlocked(vs)
    ensures BeforeBlocked(vs) == vs
  {
  }

  /**
   * ConcatAll exits exactly when the visits hold a blocked directory, and
   * its puts are what the visits' regular `.txt` files before the first
   * blocked directory give.
   */
  lemma ConcatAllFlatten(parts: seq<Walk<Text>>, vss: seq<seq<Visit>>)
    requires |parts| == |vss|
    requires forall i :: 0 <= i < |parts| ==> parts[i].items == TxtVisits(BeforeBlocked(vss[i]))
    requires forall i :: 0 <= i < |parts| ==> (parts[i].exited <==> AnyBlocked(vss[i]))
    ensures ConcatAll(parts).exited <==> AnyBlocked(Flatten(vss))
    ensures ConcatAll(parts).items == TxtVisits(BeforeBlocked(Flatten(vss)))
    decreases |parts|
  {
    if |parts| > 0 {
      var n := |parts| - 1;
      var init, vinit := parts[..n], vss[..n];
      forall i | 0 <= i < n
        ensures init[i].items == TxtVisits(BeforeBlocked(vinit[i]))
        ensures init[i].exited <==> AnyBlocked(vinit[i])
      {
        assert init[i] == parts[i] && vinit[i] == vss[i];
      }
      ConcatAllFlatten(init, vinit);
      var front := Flatten(vinit);
      assert Flatten(vss) == front + vss[n];
      AnyBlockedAppend(front, vss[n]);
      BeforeBlockedAppend(front, vss[n]);
      if !AnyBlocked(front) {
        BeforeBlockedAll(front);
        TxtVisitsAppend(front, BeforeBlocked(vss[n]));
      }
    }
  }

  /**
   * The walk of a readable directory puts exactly the paths of the regular
   * `.txt` files among the entries it visits before the first proper
   * sub-directory that cannot be opened, in visiting order (so each such
   * file once, and no directory and no other file); it exits exactly when
   * there is such a sub-directory.  An unreadable directory exits at once.
   */
  lemma {:induction false} TxtFilesAreTxtVisits(path: Text, dir: Entry)
    requires dir.Directory?
    ensures TxtFiles(path, dir).items == TxtVisits(BeforeBlocked(Visits(path, dir)))
    ensures dir.readable ==> (TxtFiles(path, dir).exited <==> AnyBlocked(Visits(path, dir)))
    ensures !dir.readable ==> TxtFiles(path, dir) == Walk([], true)
    decreases dir, 0
  {
    if dir.readable {
      var es := dir.entries;
      var parts := seq(|es|, i requires 0 <= i < |es| => EntryFiles(path, es[i]));
      var vss := seq(|es|, i requires 0 <= i < |es| => EntryVisits(path, es[i]));
      forall i | 0 <= i < |es|
        ensures parts[i].items == TxtVisits(BeforeBlocked(vss[i]))
        ensures parts[i].exited <==> AnyBlocked(vss[i])
      {
        EntryFilesAreTxtVisits(path, es[i]);
      }
      ConcatAllFlatten(parts, vss);
    }
  }

  lemma {:induction false} EntryFilesAreTxtVisits(path: Text, e: Entry)
    ensures EntryFiles(path, e).items == TxtVisits(BeforeBlocked(EntryVisits(path, e)))
    ensures EntryFiles(path, e).exited <==> AnyBlocked(EntryVisits(path, e))
    decreases e, 1
  {
    var sub := JoinPath(path, e.name);
    var head := [Visit(sub, e)];
    var below := if e.Directory? && !IsPseudo(e.name) then Visits(sub, e) else [];
    assert EntryVisits(path, e) == head + below;
    assert head[..0] == [];
    AnyBlockedAppend(head, below);
    BeforeBlockedAppend(head, below);
    if e.Directory? && !IsPseudo(e.name) {
      TxtFilesAreTxtVisits(sub, e);
    }
    if !AnyBlocked(head) {
      TxtVisitsAppend(head, BeforeBlocked(below));
    }
  }

  /** Every path the walk of `dir` puts is `path/.../name` for a name that passes is_txt. */
  lemma {:induction false} TxtFilesShape(path: Text, dir: Entry, x: Text)
    requires dir.Directory? && x in TxtFiles(path, dir).items
    ensures |x| > |path| + 5
    ensures x[..|path| + 1] == path + [Slash]
    ensures x[|x| - 4..] == TxtSuffix
    decreases dir, 0
  {
    var es := dir.entries;
    var parts := seq(|es|, i requires 0 <= i < |es| => EntryFiles(path, es[i]));
    ConcatAllMember(parts, x);
    var i :| 0 <= i < |parts| && x in parts[i].items;
    EntryFilesShape(path, es[i], x);
  }

  lemma {:induction false} EntryFilesShape(path: Text, e: Entry, x: Text)
    requires x in EntryFiles(path, e).items
    ensures |x| > |path| + 5
    ensures x[..|path| + 1] == path + [Slash]
    ensures x[|x| - 4..] == TxtSuffix
    decreases e, 1
  {
    var sub := JoinPath(path, e.name);
    if e.Directory? {
      TxtFilesShape(sub, e, x);
      assert x[..|path| + 1] == x[..|sub|][..|path| + 1];
    } else {
      assert x == sub;
      assert x[|x| - 4..] == e.name[|e.name| - 4..];
    }
  }

  lemma ConcatAllMember(parts: seq<Walk<Text>>, x: Text)
    requires x in ConcatAll(parts).items
    ensures exists i :: 0 <= i < |parts| && x in parts[i].items
    decreases |parts|
  {
    var n := |parts| - 1;
    var front := ConcatAll(parts[..n]);
    if x in front.items {
      ConcatAllMember(parts[..n], x);
      var i :| 0 <= i < n && x in parts[..n][i].items;
      assert parts[..n][i] == parts[i];
    } else {
      assert x in parts[n].items;
    }
  }

  // ---------------------------------------------------------------------
  // The walk and the searcher thread as the C code runs them.

  /**
   * search_for_txt(path, buffer) on directory `dir`: returns the values it
   * puts, in order, and whether some opendir failed and the process exited.
   */
  method SearchForTxt(path: Text, dir: Entry) returns (found: Walk<Text>)
    requires dir.Directory?
    ensures found == TxtFiles(path, dir)
    decreases dir
  {
    if !dir.readable {
      return Walk([], true);  // "Cannot open path." and exit(1)
    }
    var es := dir.entries;
    ghost var parts := seq(|es|, i requires 0 <= i < |es| => EntryFiles(path, es[i]));
    var puts: seq<Text> := [];
    var i := 0;
    while i < |es|
      invariant 0 <= i <= |es|
      invariant ConcatAll(parts[..i]) == Walk(puts, false)
    {
      var e := es[i];
      var subpath := JoinPath(path, e.name);
      var here: Walk<Text>;
      if e.Directory? && !IsPseudo(e.name) {
        here := SearchForTxt(subpath, e);
      } else if e.Regular? && IsTxt(e.name) {
        here := Walk([subpath], false);
      } else {
        here := Walk([], false);
      }
      assert here == parts[i];
      assert parts[..i + 1][..i] == parts[..i];
      puts := puts + here.items;
      if here.exited {
        assert ConcatAll(parts[..i + 1]) == Walk(puts, true);
        ConcatAllStaysExited(parts, i + 1);
        assert parts[..|es|] == parts;
        return Walk(puts, true);
      }
      i := i + 1;
    }
    assert parts[..i] == parts;
    found := Walk(puts, false);
  }

  /** Once an entry has exited, the entries after it add nothing: exit(1) ends the walk there. */
  lemma ConcatAllStaysExited(parts: seq<Walk<Text>>, k: nat)
    requires k <= |parts| && ConcatAll(parts[..k]).exited
    ensures ConcatAll(parts) == ConcatAll(parts[..k])
    decreases |parts| - k
  {
    if k < |parts| {
      assert parts[..k + 1][..k] == parts[..k];
      ConcatAllStaysExited(parts, k + 1);
    } else {
      assert parts[..k] == parts;
    }
  }

  /**
   * A listing with "a.txt" and then an unreadable "sub": the walk has put
   * "r/a.txt" when opendir("r/sub") fails and the process exits.
   */
  lemma ExitKeepsEarlierPuts(root: Entry)
    requires root == Directory([114], true, [Regular([97] + TxtSuffix), Directory([115, 117, 98], false, [])])
    ensures TxtFiles([114], root) == Walk([[114, Slash, 97] + TxtSuffix], true)
  {
    var parts := seq(|root.entries|, i requires 0 <= i < |root.entries| => EntryFiles([114], root.entries[i]));
    assert IsTxt([97] + TxtSuffix) by {
      assert ([97] + TxtSuffix)[1..] == TxtSuffix;
    }
    var found := [114, Slash, 97] + TxtSuffix;
    assert JoinPath([114], [97] + TxtSuffix) == found;
    assert parts[0] == Walk([found], false);
    assert !IsPseudo([115, 117, 98]);
    assert parts[1] == Walk([], true);
    assert parts[..1][..0] == [] && parts[..2][..1] == parts[..1] && parts[..2] == parts;
    assert ConcatAll(parts[..1]) == Walk([found], false);
  }

  /**
   * The tasks a list of paths becomes in the buffer.  The ensures only give
   * the solver the comprehension's length and elements; what is promised
   * about the tasks is in SearcherSentinels and NoSentinelInPaths.
   */
  function PathTasks(ps: seq<Text>): (r: seq<Task>)
    ensures |r| == |ps|
    ensures forall k :: 0 <= k < |ps| ==> r[k] == Path(ps[k])
  {
    seq(|ps|, k requires 0 <= k < |ps| => Path(ps[k]))
  }

  function CountSentinels(ts: seq<Task>): nat
    decreases |ts|
  {
    if |ts| == 0 then 0 else CountSentinels(ts[..|ts| - 1]) + (if ts[|ts| - 1] == Sentinel then 1 else 0)
  }

  /** `n` NULL puts; none when `n` is not positive, as the C loop does. */
  function Sentinels(n: int): (r: seq<Task>)
    ensures |r| == if n < 0 then 0 else n
    ensures forall k :: 0 <= k < |r| ==> r[k] == Sentinel
  {
    if n <= 0 then [] else Sentinels(n - 1) + [Sentinel]
  }

  /** The puts of searcher_routine: the walk's, then the sentinels unless the walk exited the process. */
  function SearcherPuts(path: Text, root: Entry, minionCount: int): Walk<Task>
    requires root.Directory?
  {
    var w := TxtFiles(path, root);
    if w.exited then Walk(PathTasks(w.items), true)
    else Walk(PathTasks(w.items) + Sentinels(minionCount), false)
  }

  /**
   * After a walk that does not exit, the searcher puts exactly
   * `minion_count` sentinels, and they are the last items: every item
   * before them is a file path.
   */
  lemma {:induction false} SearcherSentinels(path: Text, root: Entry, minionCount: nat)
    requires root.Directory? && !SearcherPuts(path, root, minionCount).exited
    ensures var puts := SearcherPuts(path, root, minionCount).items;
      && CountSentinels(puts) == minionCount
      && |puts| >= minionCount
      && (forall k :: |puts| - minionCount <= k < |puts| ==> puts[k] == Sentinel)
      && (forall k :: 0 <= k < |puts| - minionCount ==> puts[k].Path?)
  {
    var files := TxtFiles(path, root).items;
    NoSentinelInPaths(files);
    CountSentinelsAppend(PathTasks(files), Sentinels(minionCount));
    SentinelsCount(minionCount);
  }

  /**
   * A walk that exits puts the `.txt` paths found before the unreadable
   * directory and no sentinel: the process ends before the sentinel loop.
   */
  lemma SearcherExits(path: Text, root: Entry, minionCount: int)
    requires root.Directory? && SearcherPuts(path, root, minionCount).exited
    ensures var puts := SearcherPuts(path, root, minionCount).items;
      && CountSentinels(puts) == 0
      && puts == PathTasks(TxtVisits(BeforeBlocked(Visits(path, root))))
  {
    TxtFilesAreTxtVisits(path, root);
    NoSentinelInPaths(TxtFiles(path, root).items);
  }

  lemma CountSentinelsAppend(a: seq<Task>, b: seq<Task>)
    ensures CountSentinels(a + b) == CountSentinels(a) + CountSentinels(b)
    decreases |b|
  {
    if |b| > 0 {
      assert (a + b)[..|a + b| - 1] == a + b[..|b| - 1];
      CountSentinelsAppend(a, b[..|b| - 1]);
    } else {
      assert a + b == a;
    }
  }

  lemma {:induction false} SentinelsCount(n: nat)
    ensures CountSentinels(Sentinels(n)) == n
  {
    if n > 0 {
      SentinelsCount(n - 1);
      assert Sentinels(n)[..n - 1] == Sentinels(n - 1);
    }
  }

  /** searcher_routine: the walk, then `minion_count` NULL puts unless the walk exited. */
  method SearcherRoutine(path: Text, root: Entry, minionCount: int) returns (puts: Walk<Task>)
    requires root.Directory?
    ensures puts == SearcherPuts(path, root, minionCount)
  {
    var found := SearchForTxt(path, root);
    var ts := PathTasks(found.items);
    if found.exited {
      return Walk(ts, true);
    }
    var i := 0;
    while i < minionCount
      invariant 0 <= i <= (if minionCount < 0 then 0 else minionCount)
      invariant ts == PathTasks(found.items) + Sentinels(i)
    {
      ts := ts + [Sentinel];
      i := i + 1;
    }
    puts := Walk(ts, false);
  }

  lemma NoSentinelInPaths(ps: seq<Text>)
    ensures CountSentinels(PathTasks(ps)) == 0
    decreases |ps|
  {
    if |ps| > 0 {
      assert PathTasks(ps)[..|ps| - 1] == PathTasks(ps[..|ps| - 1]);
      NoSentinelInPaths(ps[..|ps| - 1]);
    }
  }
}
