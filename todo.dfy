/**
 * Grading still to do: a source whose target is missing or older.  The
 * filesystem is an abstract tree of files and directories, each with its own
 * modification time.
 */
module Todo {

  import opened Outcome
  import opened Text
  import Sorting
  import Storage
  import Color

  /** A directory entry: a file, or a directory and what it holds. */
  datatype Node =
    | File(name: string, stamp: real)
    | Dir(name: string, stamp: real, entries: seq<Node>)

  /** The modification times of every file beneath a node, as `os.walk` lists the files. */
  function FileTimes(n: Node): seq<real>
    decreases n, 1
  {
    match n
    case File(_, t) => [t]
    case Dir(_, _, entries) => EntriesTimes(entries)
  }

  function EntriesTimes(entries: seq<Node>): seq<real>
    decreases entries, 0
  {
    if entries == [] then []
    else FileTimes(entries[0]) + EntriesTimes(entries[1..])
  }

  /** The larger of `t` and every time in `times`. */
  function MaxOf(t: real, times: seq<real>): real
    decreases times
  {
    if times == [] then t
    else MaxOf(if times[0] > t then times[0] else t, times[1..])
  }

  lemma {:induction false} MaxOfBounds(t: real, times: seq<real>)
    ensures MaxOf(t, times) >= t
    ensures forall i :: 0 <= i < |times| ==> MaxOf(t, times) >= times[i]
    ensures MaxOf(t, times) == t || MaxOf(t, times) in times
    decreases times
  {
    if times != [] {
      var t' := if times[0] > t then times[0] else t;
      MaxOfBounds(t', times[1..]);
      assert forall i :: 1 <= i < |times| ==> times[i] == times[1..][i - 1];
    }
  }

  lemma {:induction false} MaxOfSnoc(t: real, times: seq<real>, x: real)
    ensures MaxOf(t, times + [x]) == (if x > MaxOf(t, times) then x else MaxOf(t, times))
    decreases times
  {
    if times != [] {
      var t' := if times[0] > t then times[0] else t;
      assert (times + [x])[1..] == times[1..] + [x];
      MaxOfSnoc(t', times[1..], x);
    }
  }

  /** What `mtime` reports: a file's own time; a walked directory's latest time, its own included. */
  function Latest(n: Node, walkDirectories: bool): real
  {
    if walkDirectories && n.Dir? then MaxOf(n.stamp, FileTimes(n)) else n.stamp
  }

  /**
   * A walked directory is at least as recent as itself and every file beneath
   * it, and its time is one of those times.
   */
  lemma LatestIsMaximum(n: Node)
    requires n.Dir?
    ensures Latest(n, true) >= n.stamp
    ensures forall i :: 0 <= i < |FileTimes(n)| ==> Latest(n, true) >= FileTimes(n)[i]
    ensures Latest(n, true) == n.stamp || Latest(n, true) in FileTimes(n)
  {
    MaxOfBounds(n.stamp, FileTimes(n));
  }

  /** `mtime`: the directory's own time, raised to each file's time in turn. */
  method Mtime(n: Node, walkDirectories: bool) returns (time: real)
    ensures time == Latest(n, walkDirectories)
  {
    if walkDirectories && n.Dir? {
      time := n.stamp;
      var files := FileTimes(n);
      for i := 0 to |files|
        invariant time == MaxOf(n.stamp, files[..i])
      {
        MaxOfSnoc(n.stamp, files[..i], files[i]);
        assert files[..i + 1] == files[..i] + [files[i]];
        var t := files[i];
        if t > time {
          time := t;
        }
      }
      assert files[..|files|] == files;
    } else {
      time := n.stamp;
    }
  }

  /** `newer(a, b)`: strictly more recent, so nothing is newer than itself. */
  method Newer(a: Node, b: Node) returns (r: bool)
    ensures r <==> Latest(a, true) > Latest(b, true)
    ensures a == b ==> !r
  {
    var ta := Mtime(a, true);
    var tb := Mtime(b, true);
    r := ta > tb;
  }

  /** The first entry of a directory with the given name. */
  function Entry(entries: seq<Node>, name: string): (r: Option<Node>)
    ensures r.None? <==> forall i :: 0 <= i < |entries| ==> entries[i].name != name
    ensures r.Some? ==> r.value in entries && r.value.name == name
  {
    if entries == [] then None
    else if entries[0].name == name then Some(entries[0])
    else
      var r := Entry(entries[1..], name);
      assert forall i :: 1 <= i < |entries| ==> entries[i] == entries[1..][i - 1];
      r
  }

  /** A directory `os.walk` visits: its path and its node. */
  datatype Visit = Visit(path: string, dir: Node)

  /** `os.walk(path)` from the top down: the directory, then each subdirectory's walk. */
  function Walk(path: string, n: Node): (r: seq<Visit>)
    ensures forall i :: 0 <= i < |r| ==> r[i].dir.Dir?
    decreases n, 1
  {
    match n
    case File(_, _) => []
    case Dir(_, _, entries) => [Visit(path, n)] + WalkEntries(path, entries)
  }

  function WalkEntries(path: string, entries: seq<Node>): (r: seq<Visit>)
    ensures forall i :: 0 <= i < |r| ==> r[i].dir.Dir?
    decreases entries, 0
  {
    if entries == [] then []
    else Walk(Storage.PathJoin(path, entries[0].name), entries[0]) + WalkEntries(path, entries[1..])
  }

  /** Whether one visited directory has work to do: the source is there and the target missing or older. */
  predicate Stale(v: Visit, source: string, target: string)
  {
    v.dir.Dir? &&
    match Entry(v.dir.entries, source)
    case None => false
    case Some(s) =>
      match Entry(v.dir.entries, target)
      case None => true
      case Some(t) => Latest(s, true) > Latest(t, true)
  }

  /** The sources `todo` yields, one per stale directory, in walk order. */
  function Pending(visits: seq<Visit>, source: string, target: string): (r: seq<string>)
  {
    if visits == [] then []
    else
      (if Stale(visits[0], source, target) then [Storage.PathJoin(visits[0].path, source)] else []) +
      Pending(visits[1..], source, target)
  }

  /** A path is yielded exactly when it is the source of some stale directory. */
  lemma {:induction false} PendingMembers(visits: seq<Visit>, source: string, target: string, p: string)
    ensures p in Pending(visits, source, target) <==>
            exists i :: 0 <= i < |visits| && Stale(visits[i], source, target) && p == Storage.PathJoin(visits[i].path, source)
  {
    if visits != [] {
      PendingMembers(visits[1..], source, target, p);
      if p in Pending(visits[1..], source, target) {
        var i :| 0 <= i < |visits[1..]| && Stale(visits[1..][i], source, target) &&
                 p == Storage.PathJoin(visits[1..][i].path, source);
        assert visits[1..][i] == visits[i + 1];
      }
      if exists i :: 0 <= i < |visits| && Stale(visits[i], source, target) && p == Storage.PathJoin(visits[i].path, source) {
        var i :| 0 <= i < |visits| && Stale(visits[i], source, target) && p == Storage.PathJoin(visits[i].path, source);
        if i > 0 {
          assert visits[1..][i - 1] == visits[i];
        }
      }
    }
  }

  /** A directory without the target always yields its source; with a target no older, nothing. */
  lemma StaleCases(v: Visit, source: string, target: string)
    requires v.dir.Dir? && Entry(v.dir.entries, source).Some?
    ensures Entry(v.dir.entries, target).None? ==> Stale(v, source, target)
    ensures Entry(v.dir.entries, target).Some? &&
            Latest(Entry(v.dir.entries, target).value, true) >= Latest(Entry(v.dir.entries, source).value, true) ==>
            !Stale(v, source, target)
  {
  }

  /** `todo`: walk the tree and collect each stale directory's source. */
  method ListTodo(basedir: string, root: Node, source: string, target: string) returns (r: seq<string>)
    ensures r == Pending(Walk(basedir, root), source, target)
  {
    var visits := Walk(basedir, root);
    r := [];
    for i := 0 to |visits|
      invariant r == Pending(visits[..i], source, target)
    {
      PendingStep(visits, i, source, target);
      var found := VisitTodo(visits[i], source, target);
      r := r + found;
    }
    assert visits[..|visits|] == visits;
  }

  /** One directory of the walk: its source when it is stale, else nothing. */
  method VisitTodo(v: Visit, source: string, target: string) returns (found: seq<string>)
    requires v.dir.Dir?
    ensures found == (if Stale(v, source, target) then [Storage.PathJoin(v.path, source)] else [])
  {
    found := [];
    var entries := v.dir.entries;
    match Entry(entries, source)
    case None =>
    case Some(s) =>
      var s_path := Storage.PathJoin(v.path, source);
      match Entry(entries, target)
      case Some(t) =>
        var newer := Newer(s, t);
        if newer {
          found := [s_path];
        }
      case None =>
        found := [s_path];
  }

  /** `Pending` up to the `i`-th visit: the earlier ones, then that visit's own contribution. */
  lemma PendingStep(visits: seq<Visit>, i: nat, source: string, target: string)
    requires i < |visits|
    ensures Pending(visits[..i + 1], source, target) ==
            Pending(visits[..i], source, target) +
            (if Stale(visits[i], source, target) then [Storage.PathJoin(visits[i].path, source)] else [])
  {
    assert visits[..i + 1] == visits[..i] + [visits[i]];
    PendingConcat(visits[..i], [visits[i]], source, target);
  }

  /** The sources of two walks one after the other are those of each, in order. */
  lemma {:induction false} PendingConcat(a: seq<Visit>, b: seq<Visit>, source: string, target: string)
    ensures Pending(a + b, source, target) == Pending(a, source, target) + Pending(b, source, target)
  {
    if a == [] {
      assert a + b == b;
    } else {
      var ab := a + b;
      var rest := a[1..];
      assert ab[0] == a[0] && ab[1..] == rest + b;
      var step := if Stale(a[0], source, target) then [Storage.PathJoin(a[0].path, source)] else [];
      assert Pending(ab, source, target) == step + Pending(rest + b, source, target);
      assert Pending(a, source, target) == step + Pending(rest, source, target);
      PendingConcat(rest, b, source, target);
    }
  }

  /** The paths one per line. */
  function Lines(paths: seq<string>): string
  {
    if paths == [] then "" else Lines(paths[..|paths| - 1]) + paths[|paths| - 1] + "\n"
  }

  /** The pending sources in path order. */
  function SortedPending(basedir: string, root: Node, source: string, target: string): seq<string>
  {
    Sorting.Sort(Pending(Walk(basedir, root), source, target), StrLt)
  }

  /** `sorted` orders the pending sources and keeps every one of them. */
  lemma SortedPendingSpec(basedir: string, root: Node, source: string, target: string)
    ensures Sorting.SortedBy(SortedPending(basedir, root, source, target), StrLt)
    ensures multiset(SortedPending(basedir, root, source, target)) ==
            multiset(Pending(Walk(basedir, root), source, target))
  {
    Sorting.StrLtStrictOrder();
    Sorting.SortSorted(Pending(Walk(basedir, root), source, target), StrLt);
  }

  /** `print_todo`: the pending sources, sorted, one per line. */
  method PrintTodo(basedir: string, root: Node, source: string, target: string, out: Color.Stream)
    modifies out
    ensures out.written == old(out.written) + Lines(SortedPending(basedir, root, source, target))
  {
    var paths := ListTodo(basedir, root, source, target);
    var sorted := Sorting.Sort(paths, StrLt);
    PrintLines(sorted, out);
  }

  /** `print` of each path in turn. */
  method PrintLines(paths: seq<string>, out: Color.Stream)
    modifies out
    ensures out.written == old(out.written) + Lines(paths)
  {
    for i := 0 to |paths|
      invariant out.written == old(out.written) + Lines(paths[..i])
    {
      assert paths[..i + 1][..i] == paths[..i];
      out.Write(paths[i] + "\n");
    }
    assert paths[..|paths|] == paths;
  }
}
