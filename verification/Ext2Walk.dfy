/** The recursion of `tree` over the directories of an image. */
module Ext2Walk {
  import opened Common
  import opened Ext2Image
  import opened Ext2Tree

  predicate IsDirIno(fs: Fs, ino: nat)
    requires Geometry(fs)
  {
    ReadInode(fs, ino).Some? && IsDir(ReadInode(fs, ino).value)
  }

  /** The directories a listing of directory x shows. */
  ghost predicate Child(fs: Fs, x: nat, y: nat)
    requires Geometry(fs)
  {
    Entries(fs, x, true).Some? && IsDirIno(fs, y) && exists e :: e in Entries(fs, x, true).value && e.ino == y
  }

  ghost predicate Path(fs: Fs, path: seq<nat>, a: nat, b: nat)
    requires Geometry(fs)
  {
    && |path| > 0 && path[0] == a && path[|path| - 1] == b
    && forall i :: 0 <= i < |path| - 1 ==> Child(fs, path[i], path[i + 1])
  }

  ghost predicate Reachable(fs: Fs, a: nat, b: nat)
    requires Geometry(fs)
  {
    exists path :: Path(fs, path, a, b)
  }

  /** dir is reached from root through `depth` directories before it, all different. */
  ghost predicate Way(fs: Fs, path: seq<nat>, root: nat, dir: nat, depth: nat)
    requires Geometry(fs)
  {
    Path(fs, path, root, dir) && Distinct(path) && |path| == depth + 1
  }

  const TOO_DEEP := MAX_TREE_DEPTH + 1

  /** Some directory is too deep for the walk: more than MAX_TREE_DEPTH below root, on a path
      that visits no directory twice. */
  ghost predicate TooDeep(fs: Fs, root: nat)
    requires Geometry(fs)
  {
    exists path, dir :: Way(fs, path, root, dir, TOO_DEEP)
  }

  lemma FurtherWay(fs: Fs, path: seq<nat>, root: nat, dir: nat, depth: nat, child: nat)
    requires Geometry(fs) && Way(fs, path, root, dir, depth) && Child(fs, dir, child) && child !in path
    ensures Way(fs, path + [child], root, child, depth + 1)
  {
    var longer := path + [child];
    forall i | 0 <= i < |longer| - 1 ensures Child(fs, longer[i], longer[i + 1]) {
      if i < |path| - 1 { assert Child(fs, path[i], path[i + 1]); }
    }
  }

  lemma ReachSelf(fs: Fs, a: nat)
    requires Geometry(fs)
    ensures Reachable(fs, a, a)
  {
    assert Path(fs, [a], a, a);
  }

  lemma ReachVia(fs: Fs, a: nat, b: nat, c: nat)
    requires Geometry(fs) && Child(fs, a, b) && Reachable(fs, b, c)
    ensures Reachable(fs, a, c)
  {
    var path :| Path(fs, path, b, c);
    var longer := [a] + path;
    forall i | 0 <= i < |longer| - 1 ensures Child(fs, longer[i], longer[i + 1]) {
      if i > 0 {
        var j := i - 1;
        assert Child(fs, path[j], path[j + 1]);
      }
    }
    assert Path(fs, longer, a, c);
  }

  /** A set that is closed under children holds all that can be reached from it. */
  lemma {:induction false} ClosedReaches(fs: Fs, s: set<nat>, path: seq<nat>, a: nat, b: nat)
    requires Geometry(fs) && a in s && Path(fs, path, a, b)
    requires forall x, y :: x in s && Child(fs, x, y) ==> y in s
    ensures b in s
    decreases |path|
  {
    if |path| > 1 {
      assert Child(fs, path[0], path[0 + 1]);
      var rest := path[1..];
      forall i | 0 <= i < |rest| - 1 ensures Child(fs, rest[i], rest[i + 1]) {
        var j := i + 1;
        assert Child(fs, path[j], path[j + 1]);
      }
      ClosedReaches(fs, s, rest, path[1], b);
    }
  }

  /** The listing of x fails: a malformed record, or an entry whose inode cannot be read. */
  ghost predicate Broken(fs: Fs, x: nat)
    requires Geometry(fs)
  {
    Entries(fs, x, true).None? || exists e :: e in Entries(fs, x, true).value && ReadInode(fs, e.ino).None?
  }

  ghost predicate HitBroken(fs: Fs, expanded: seq<nat>)
    requires Geometry(fs)
  {
    exists x :: x in expanded && Broken(fs, x)
  }

  /** The visited bitmap; the directories whose children were printed, in order; those of them
      that are finished; and whether MAX_TREE_DEPTH stopped the walk somewhere. */
  datatype Marks = Marks(visited: set<nat>, expanded: seq<nat>, done: set<nat>, cut: bool)

  /** A directory is expanded at most once, and only after it was marked; the children of
      finished directories are marked, unless the walk was not to go there. */
  ghost predicate Good(fs: Fs, recursive: bool, m: Marks)
    requires Geometry(fs)
  {
    && Distinct(m.expanded)
    && (forall x :: x in m.expanded ==> x in m.visited) && (forall x :: x in m.done ==> x in m.expanded)
    && (recursive && !m.cut ==> forall x, y :: x in m.done && Child(fs, x, y) ==> y in m.visited)
    && (forall x :: x in m.done ==> !Broken(fs, x))
  }

  /** Marks and expansions only grow, and everything new can be reached from dir. */
  ghost predicate Grew(fs: Fs, dir: nat, m: Marks, m': Marks)
    requires Geometry(fs)
  {
    && m.visited <= m'.visited && m.expanded <= m'.expanded && m.done <= m'.done && (m.cut ==> m'.cut)
    && forall x :: x in m'.visited && x !in m.visited ==> x in m'.expanded && Reachable(fs, dir, x)
  }

  /** Everything that was newly marked is finished. */
  ghost predicate Finished(m: Marks, m': Marks) {
    forall x :: x in m'.visited && x !in m.visited ==> x in m'.done
  }

  lemma GrewSelf(fs: Fs, dir: nat, m: Marks)
    requires Geometry(fs)
    ensures Grew(fs, dir, m, m) && Finished(m, m)
  {
  }

  lemma GrewTrans(fs: Fs, dir: nat, m: Marks, m': Marks, m'': Marks)
    requires Geometry(fs) && Grew(fs, dir, m, m') && Grew(fs, dir, m', m'')
    ensures Grew(fs, dir, m, m'')
    ensures Finished(m, m') && Finished(m', m'') ==> Finished(m, m'')
  {
    assert forall x :: x in m'.expanded ==> x in m''.expanded;
  }

  /** A call for a child that was just marked, seen from its parent. */
  lemma GrewChild(fs: Fs, dir: nat, child: nat, m: Marks, m': Marks)
    requires Geometry(fs) && Child(fs, dir, child)
    requires Grew(fs, child, m.(visited := m.visited + {child}), m') && child in m'.expanded
    ensures Grew(fs, dir, m, m')
    ensures Finished(m.(visited := m.visited + {child}), m') && child in m'.done ==> Finished(m, m')
  {
    ReachSelf(fs, child);
    forall x | x in m'.visited && x !in m.visited ensures x in m'.expanded && Reachable(fs, dir, x) {
      ReachVia(fs, dir, child, x);
    }
  }

  lemma Begin(fs: Fs, recursive: bool, dir: nat, m: Marks)
    requires Geometry(fs) && Good(fs, recursive, m) && dir in m.visited && dir !in m.expanded
    ensures var m' := m.(expanded := m.expanded + [dir]);
            Good(fs, recursive, m') && Grew(fs, dir, m, m') && Finished(m, m') && dir in m'.expanded
  {
  }

  lemma Finish(fs: Fs, recursive: bool, dir: nat, m: Marks, list: seq<Entry>)
    requires Geometry(fs) && Good(fs, recursive, m) && dir in m.expanded
    requires Entries(fs, dir, true).Some? && multiset(list) == multiset(Entries(fs, dir, true).value)
    requires recursive && !m.cut ==> forall j :: 0 <= j < |list| && IsDirIno(fs, list[j].ino) ==> list[j].ino in m.visited
    requires forall j :: 0 <= j < |list| ==> ReadInode(fs, list[j].ino).Some?
    ensures var m' := m.(done := m.done + {dir}); Good(fs, recursive, m') && Grew(fs, dir, m, m')
  {
    forall e | e in Entries(fs, dir, true).value ensures ReadInode(fs, e.ino).Some? {
      SameMembers(list, Entries(fs, dir, true).value, e);
      var j :| 0 <= j < |list| && list[j] == e;
    }
    if recursive && !m.cut {
      forall y | Child(fs, dir, y) ensures y in m.visited {
        var e :| e in Entries(fs, dir, true).value && e.ino == y;
        SameMembers(list, Entries(fs, dir, true).value, e);
        var j :| 0 <= j < |list| && list[j] == e;
      }
    }
  }

  lemma SameMembers(a: seq<Entry>, b: seq<Entry>, e: Entry)
    requires multiset(a) == multiset(b)
    ensures e in a <==> e in b
  {
    assert e in a <==> e in multiset(a);
    assert e in b <==> e in multiset(b);
  }

  // ----------------------------------------------------------------- what is printed

  /** A line of the tree: for each level above it whether that level has come to its last entry
      ("    ") or not ("│   "), whether the line is the last of its directory, and the entry. */
  datatype Line = Line(bars: seq<bool>, last: bool, entry: Entry)

  /** The lines of the first n entries of a listing: each entry has its line, followed by lines
      drawn under it only. */
  ghost predicate Shows(list: seq<Entry>, n: nat, bars: seq<bool>, lines: seq<Line>)
    requires n <= |list|
  {
    if n == 0 then lines == []
    else exists at :: 0 <= at < |lines| && Shows(list, n - 1, bars, lines[..at]) && EntryAtLine(list, n, bars, lines, at)
  }

  predicate EntryAtLine(list: seq<Entry>, n: nat, bars: seq<bool>, lines: seq<Line>, at: nat)
    requires 0 < n <= |list| && at < |lines|
  {
    && lines[at] == Line(bars, n == |list|, list[n - 1])
    && forall i :: at < i < |lines| ==> bars + [n == |list|] <= lines[i].bars
  }

  /** Somewhere in the output the listing of directory x is shown, in name order. */
  ghost predicate Drawn(fs: Fs, lines: seq<Line>, x: nat)
    requires Geometry(fs)
  {
    exists list, bars, from: nat, to: nat :: DrawnAt(fs, lines, x, list, bars, from, to)
  }

  ghost predicate DrawnAt(fs: Fs, lines: seq<Line>, x: nat, list: seq<Entry>, bars: seq<bool>, from: nat, to: nat)
    requires Geometry(fs)
  {
    && from <= to <= |lines| && Shows(list, |list|, bars, lines[from..to])
    && Entries(fs, x, true).Some? && Sorted(list) && multiset(list) == multiset(Entries(fs, x, true).value)
  }

  /** The lines from `from` on are the listing of directory x, and nothing else. */
  ghost predicate DrawnFrom(fs: Fs, lines: seq<Line>, x: nat, bars: seq<bool>, from: nat)
    requires Geometry(fs)
  {
    exists list :: DrawnAt(fs, lines, x, list, bars, from, |lines|)
  }

  ghost predicate AllDrawn(fs: Fs, lines: seq<Line>, done: set<nat>)
    requires Geometry(fs)
  {
    forall x :: x in done ==> Drawn(fs, lines, x)
  }

  lemma DrawnMore(fs: Fs, lines: seq<Line>, more: seq<Line>, done: set<nat>)
    requires Geometry(fs) && AllDrawn(fs, lines, done) && lines <= more
    ensures AllDrawn(fs, more, done)
  {
    hide Geometry, Entries, Sorted, Shows;
    forall x | x in done ensures Drawn(fs, more, x) {
      var list, bars, from: nat, to: nat :| DrawnAt(fs, lines, x, list, bars, from, to);
      assert more[from..to] == lines[from..to];
      assert DrawnAt(fs, more, x, list, bars, from, to);
    }
  }

  lemma DrawnOne(fs: Fs, lines: seq<Line>, done: set<nat>, x: nat, list: seq<Entry>, bars: seq<bool>, from: nat)
    requires Geometry(fs) && AllDrawn(fs, lines, done) && from <= |lines| && Shows(list, |list|, bars, lines[from..])
    requires Entries(fs, x, true).Some? && Sorted(list) && multiset(list) == multiset(Entries(fs, x, true).value)
    ensures AllDrawn(fs, lines, done + {x}) && DrawnFrom(fs, lines, x, bars, from)
  {
    hide Geometry, Entries, Sorted, Shows;
    assert lines[from..] == lines[from..|lines|];
    assert DrawnAt(fs, lines, x, list, bars, from, |lines|);
  }

  /** The lines of directories. */
  function Dirs(fs: Fs, lines: seq<Line>): (n: nat)
    requires Geometry(fs)
    ensures n <= |lines|
  {
    if lines == [] then 0
    else Dirs(fs, lines[..|lines| - 1]) + if IsDirIno(fs, lines[|lines| - 1].entry.ino) then 1 else 0
  }

  lemma DirsMore(fs: Fs, lines: seq<Line>, l: Line)
    requires Geometry(fs)
    ensures Dirs(fs, lines + [l]) == Dirs(fs, lines) + if IsDirIno(fs, l.entry.ino) then 1 else 0
  {
    assert (lines + [l])[..|lines|] == lines;
  }

  /** From `from` on, all lines are drawn below `bars`. */
  predicate Under(lines: seq<Line>, from: nat, bars: seq<bool>) {
    forall i :: from <= i < |lines| ==> bars <= lines[i].bars
  }

  /** The entry's line, and after it only lines under it. */
  predicate Printed(was: seq<Line>, lines: seq<Line>, bars: seq<bool>, last: bool, e: Entry) {
    was < lines && lines[|was|] == Line(bars, last, e) && Under(lines, |was| + 1, bars + [last])
  }

  lemma ShowsNext(list: seq<Entry>, n: nat, bars: seq<bool>, was: seq<Line>, lines: seq<Line>, from: nat)
    requires n < |list| && from <= |was| && Shows(list, n, bars, was[from..]) && Printed(was, lines, bars, n + 1 == |list|, list[n])
    ensures Shows(list, n + 1, bars, lines[from..])
  {
    hide Shows;
    var at, now := |was| - from, lines[from..];
    assert now[..at] == was[from..];
    forall i | at < i < |now| ensures bars + [n + 1 == |list|] <= now[i].bars {
      assert now[i] == lines[from + i];
    }
    assert EntryAtLine(list, n + 1, bars, now, at);
    ShowsAt(list, n + 1, bars, now, at);
  }

  lemma ShowsAt(list: seq<Entry>, n: nat, bars: seq<bool>, lines: seq<Line>, at: nat)
    requires 0 < n <= |list| && at < |lines| && Shows(list, n - 1, bars, lines[..at]) && EntryAtLine(list, n, bars, lines, at)
    ensures Shows(list, n, bars, lines)
  {
  }

  class Walker {
    const fs: Fs
    const recursive: bool
    const root: nat
    var visited: set<nat>
    var directories: nat
    var files: nat
    var lines: seq<Line>
    ghost var expanded: seq<nat>
    ghost var done: set<nat>
    ghost var cut: bool

    ghost function M(): Marks
      reads this
    {
      Marks(visited, expanded, done, cut)
    }

    ghost predicate Valid()
      reads this
    {
      && Geometry(fs) && Good(fs, recursive, M()) && (cut ==> TooDeep(fs, root))
      && AllDrawn(fs, lines, done) && directories == 1 + Dirs(fs, lines) && files == |lines| - Dirs(fs, lines)
    }

    ghost predicate OnWay(path: seq<nat>, dir: nat, depth: nat)
      requires Geometry(fs)
      reads this
    {
      Way(fs, path, root, dir, depth) && forall x :: x in path ==> x in visited
    }

    constructor (fs: Fs, recursive: bool, root: nat)
      requires Geometry(fs)
      ensures Valid() && this.fs == fs && this.recursive == recursive && this.root == root && M() == Marks({root}, [], {}, false) && lines == []
    {
      this.fs, this.recursive, this.root := fs, recursive, root;
      visited, directories, files, lines, expanded, done, cut := {root}, 1, 0, [], [], {}, false;
    }

    /** print_tree_children. */
    method Children(dir: nat, bars: seq<bool>, depth: nat, ghost path: seq<nat>) returns (ok: bool)
      requires Valid() && dir in visited && dir !in expanded && depth <= MAX_TREE_DEPTH && OnWay(path, dir, depth)
      modifies this
      ensures Valid() && dir in expanded && Grew(fs, dir, old(M()), M())
      ensures ok ==> dir in done && Finished(old(M()), M())
      ensures (cut && !old(cut) ==> recursive) && (!ok ==> HitBroken(fs, expanded))
      ensures old(lines) <= lines && Under(lines, |old(lines)|, bars) && (ok ==> DrawnFrom(fs, lines, dir, bars, |old(lines)|))
      ensures !recursive ==> expanded == old(expanded) + [dir]
      decreases MAX_TREE_DEPTH - depth, 2
    {
      hide Geometry, Good, Grew, Finished, AllDrawn, DrawnFrom, Dirs, Shows, Entries, Sorted, ReadInode, IsDirIno, TooDeep;
      ghost var m := M();
      Begin(fs, recursive, dir, m);
      expanded := expanded + [dir];
      var listed := ReadDirectory(fs, dir, true);
      if listed.None? { return false; }
      ghost var begun := M();
      ok := VisitAll(dir, listed.value, bars, depth, path);
      GrewTrans(fs, dir, m, begun, M());
      if !ok { return false; }
      ghost var now := M();
      Finish(fs, recursive, dir, now, listed.value);
      DrawnOne(fs, lines, done, dir, listed.value, bars, |old(lines)|);
      done := done + {dir};
      FinishedMore(m, now, M());
      GrewTrans(fs, dir, m, now, M());
      return true;
    }

    /** Its loop over the entries. */
    method VisitAll(dir: nat, list: seq<Entry>, bars: seq<bool>, depth: nat, ghost path: seq<nat>) returns (ok: bool)
      requires Valid() && dir in expanded && depth <= MAX_TREE_DEPTH && OnWay(path, dir, depth)
      requires Entries(fs, dir, true).Some? && multiset(list) == multiset(Entries(fs, dir, true).value)
      modifies this
      ensures Valid() && dir in expanded && Grew(fs, dir, old(M()), M()) && (ok ==> Finished(old(M()), M()))
      ensures ok && recursive && !cut ==> forall j :: 0 <= j < |list| && IsDirIno(fs, list[j].ino) ==> list[j].ino in visited
      ensures ok ==> forall j :: 0 <= j < |list| ==> ReadInode(fs, list[j].ino).Some?
      ensures (cut && !old(cut) ==> recursive) && (!ok ==> HitBroken(fs, expanded))
      ensures old(lines) <= lines && Under(lines, |old(lines)|, bars)
      ensures ok ==> Shows(list, |list|, bars, lines[|old(lines)|..])
      ensures !recursive ==> expanded == old(expanded)
      decreases MAX_TREE_DEPTH - depth, 1
    {
      hide Geometry, Good, Grew, Finished, IsDirIno, HitBroken, ReadInode, Entries, AllDrawn, Dirs, Shows;
      ghost var m := M();
      GrewSelf(fs, dir, m);
      ShowsNone(list, bars, lines);
      var i := 0;
      while i < |list|
        invariant 0 <= i <= |list| && Valid() && dir in expanded && Grew(fs, dir, m, M()) && Finished(m, M())
        invariant OnWay(path, dir, depth) && (cut && !old(cut) ==> recursive)
        invariant forall j :: 0 <= j < i ==> ReadInode(fs, list[j].ino).Some?
        invariant recursive && !cut ==> forall j :: 0 <= j < i && IsDirIno(fs, list[j].ino) ==> list[j].ino in visited
        invariant !recursive ==> expanded == old(expanded)
        invariant old(lines) <= lines && Under(lines, |old(lines)|, bars) && Shows(list, i, bars, lines[|old(lines)|..])
      {
        SameMembers(list, Entries(fs, dir, true).value, list[i]);
        ghost var now, was := M(), lines;
        ok := Visit(dir, list[i], bars, i + 1 == |list|, depth, path);
        GrewTrans(fs, dir, m, now, M());
        PrintedUnder(was, lines, |old(lines)|, bars);
        if !ok { return false; }
        ShowsNext(list, i, bars, was, lines, |old(lines)|);
        i := i + 1;
      }
      return true;
    }

    /** One round of its loop. */
    method Visit(dir: nat, e: Entry, bars: seq<bool>, last: bool, depth: nat, ghost path: seq<nat>) returns (ok: bool)
      requires Valid() && dir in expanded && depth <= MAX_TREE_DEPTH && OnWay(path, dir, depth)
      requires Entries(fs, dir, true).Some? && e in Entries(fs, dir, true).value
      modifies this
      ensures Valid() && dir in expanded && Grew(fs, dir, old(M()), M()) && (ok ==> Finished(old(M()), M()))
      ensures old(visited) <= visited && (old(cut) ==> cut) && (cut && !old(cut) ==> recursive)
      ensures ok && recursive && !cut && IsDirIno(fs, e.ino) ==> e.ino in visited
      ensures if ok then ReadInode(fs, e.ino).Some? else HitBroken(fs, expanded)
      ensures lines == old(lines) || Printed(old(lines), lines, bars, last, e)
      ensures ok ==> lines != old(lines)
      ensures !recursive ==> expanded == old(expanded)
      decreases MAX_TREE_DEPTH - depth, 0
    {
      hide AllDrawn, Dirs, Good, Grew, Finished, ReadInode, IsDir, Geometry, HitBroken, TooDeep, Entries;
      ghost var m, was := M(), lines;
      GrewSelf(fs, dir, m);
      var child := ReadInode(fs, e.ino);
      if child.None? {
        BrokenAt(fs, expanded, dir, e);
        return false;
      }
      PrintLine(Line(bars, last, e), IsDir(child.value));
      if recursive && IsDir(child.value) && e.ino !in visited {
        if depth < MAX_TREE_DEPTH {
          ok := Enter(dir, e.ino, bars + [last], depth, path);
          PrintedAll(was, lines, bars, last, e);
          return ok;
        }
        FurtherWay(fs, path, root, dir, depth, e.ino);
        CutMarks(fs, recursive, dir, m);
        cut := true;
        DeepWay(fs, path + [e.ino], root, e.ino);
      }
      return true;
    }

    /** The counters and the line of an entry. */
    method PrintLine(l: Line, isDir: bool)
      requires Valid() && isDir == IsDirIno(fs, l.entry.ino)
      modifies this`directories, this`files, this`lines
      ensures Valid() && lines == old(lines) + [l]
    {
      hide Geometry, Good, AllDrawn, Dirs, IsDirIno, TooDeep;
      DirsMore(fs, lines, l);
      DrawnMore(fs, lines, lines + [l], done);
      if isDir { directories := directories + 1; } else { files := files + 1; }
      lines := lines + [l];
    }

    /** visited_set and the recursive call. */
    method Enter(dir: nat, child: nat, bars: seq<bool>, depth: nat, ghost path: seq<nat>) returns (ok: bool)
      requires Valid() && dir in expanded && depth < MAX_TREE_DEPTH && OnWay(path, dir, depth)
      requires child !in visited && Child(fs, dir, child)
      modifies this
      ensures Valid() && dir in expanded && child in visited && Grew(fs, dir, old(M()), M()) && (ok ==> Finished(old(M()), M()))
      ensures (cut && !old(cut) ==> recursive) && (!ok ==> HitBroken(fs, expanded))
      ensures old(visited) <= visited && (old(cut) ==> cut)
      ensures old(lines) <= lines && Under(lines, |old(lines)|, bars)
      decreases MAX_TREE_DEPTH - depth - 1, 3
    {
      hide AllDrawn, Dirs;
      ghost var m := M();
      visited := visited + {child};
      FurtherWay(fs, path, root, dir, depth, child);
      ok := Children(child, bars, depth + 1, path + [child]);
      GrewChild(fs, dir, child, m, M());
    }
  }

  lemma PrintedAll(was: seq<Line>, lines: seq<Line>, bars: seq<bool>, last: bool, e: Entry)
    requires was + [Line(bars, last, e)] <= lines && Under(lines, |was| + 1, bars + [last])
    ensures Printed(was, lines, bars, last, e)
  {
    assert lines[..|was|] == was;
  }

  lemma BrokenAt(fs: Fs, expanded: seq<nat>, dir: nat, e: Entry)
    requires Geometry(fs) && dir in expanded && Entries(fs, dir, true).Some? && e in Entries(fs, dir, true).value && ReadInode(fs, e.ino).None?
    ensures HitBroken(fs, expanded)
  {
    hide Geometry, ReadInode, Entries;
    assert Broken(fs, dir);
  }

  lemma CutMarks(fs: Fs, recursive: bool, dir: nat, m: Marks)
    requires Geometry(fs) && Good(fs, recursive, m)
    ensures Good(fs, recursive, m.(cut := true)) && Grew(fs, dir, m, m.(cut := true)) && Finished(m, m.(cut := true))
  {
    hide Geometry;
  }

  lemma DeepWay(fs: Fs, path: seq<nat>, root: nat, dir: nat)
    requires Geometry(fs) && Way(fs, path, root, dir, TOO_DEEP)
    ensures TooDeep(fs, root)
  {
  }

  lemma PrintedUnder(was: seq<Line>, lines: seq<Line>, from: nat, bars: seq<bool>)
    requires Under(was, from, bars) && from <= |was|
    requires lines == was || exists last, e :: Printed(was, lines, bars, last, e)
    ensures was <= lines && Under(lines, from, bars)
  {
    if last, e :| Printed(was, lines, bars, last, e) {
      forall i | from <= i < |lines| ensures bars <= lines[i].bars {
        if i < |was| {
          assert lines[i] == was[i];
        } else if i > |was| {
          assert bars + [last] <= lines[i].bars;
          assert (bars + [last])[..|bars|] == bars;
        }
      }
    }
  }

  lemma ShowsNone(list: seq<Entry>, bars: seq<bool>, lines: seq<Line>)
    ensures Shows(list, 0, bars, lines[|lines|..])
  {
  }

  lemma FinishedMore(m: Marks, m': Marks, m'': Marks)
    requires Finished(m, m') && m''.visited == m'.visited && m'.done <= m''.done
    ensures Finished(m, m'') && Finished(m', m'')
  {
  }

  /** The directories that can be reached from root are at most n. */
  ghost predicate AtMost(fs: Fs, root: nat, n: nat)
    requires Geometry(fs)
  {
    exists s: set<nat> :: Covers(fs, root, s) && |s| <= n
  }

  ghost predicate Covers(fs: Fs, root: nat, s: set<nat>)
    requires Geometry(fs)
  {
    forall x :: Reachable(fs, root, x) ==> x in s
  }

  lemma {:induction false} DistinctCard(s: seq<nat>, t: set<nat>)
    requires Distinct(s) && forall x :: x in s ==> x in t
    ensures |s| <= |t|
    decreases |s|
  {
    if s != [] {
      var n := |s| - 1;
      var x := s[n];
      assert x in t;
      forall y | y in s[..n] ensures y in t - {x} {
        assert y in s;
      }
      DistinctCard(s[..n], t - {x});
    }
  }

  /** Where few directories can be reached, none is too deep. */
  lemma FewNotDeep(fs: Fs, root: nat)
    requires Geometry(fs) && AtMost(fs, root, MAX_TREE_DEPTH + 1)
    ensures !TooDeep(fs, root)
  {
    var s: set<nat> :| Covers(fs, root, s) && |s| <= MAX_TREE_DEPTH + 1;
    forall path, dir ensures !Way(fs, path, root, dir, TOO_DEEP) {
      if Way(fs, path, root, dir, TOO_DEEP) {
        forall x | x in path ensures x in s {
          var i :| 0 <= i < |path| && path[i] == x;
          PrefixReaches(fs, path, root, dir, i);
        }
        DistinctCard(path, s);
      }
    }
  }

  lemma PrefixReaches(fs: Fs, path: seq<nat>, root: nat, dir: nat, i: nat)
    requires Geometry(fs) && Path(fs, path, root, dir) && i < |path|
    ensures Reachable(fs, root, path[i])
  {
    var part := path[..i + 1];
    forall j | 0 <= j < |part| - 1 ensures Child(fs, part[j], part[j + 1]) {
      assert Child(fs, path[j], path[j + 1]);
    }
    assert Path(fs, part, root, path[i]);
  }

  /** tree from a directory: no directory is expanded twice and none that cannot be reached.
      Without -r only the root is expanded.  It succeeds exactly if every directory it expanded can be listed.  When tree -r succeeds,
      it has expanded exactly the directories that can be reached, unless one of them is more
      than MAX_TREE_DEPTH deep.  The lines show the entries of every directory it expanded, in
      name order, each with what is below it; the totals are the lines of directories, with the
      root, and the other lines. */
  method Tree(fs: Fs, root: nat, recursive: bool) returns (ok: bool, w: Walker)
    requires Geometry(fs)
    ensures Distinct(w.expanded) && root in w.expanded && forall x :: x in w.expanded ==> Reachable(fs, root, x)
    ensures ok && recursive && !w.cut ==> forall x :: Reachable(fs, root, x) <==> x in w.expanded
    ensures (w.cut ==> recursive && TooDeep(fs, root)) && (AtMost(fs, root, MAX_TREE_DEPTH + 1) ==> !w.cut)
    ensures ok <==> forall x :: x in w.expanded ==> !Broken(fs, x)
    ensures ok ==> DrawnFrom(fs, w.lines, root, [], 0) && forall x :: x in w.expanded ==> Drawn(fs, w.lines, x)
    ensures !recursive ==> w.expanded == [root]
    ensures w.directories == 1 + Dirs(fs, w.lines) && w.files == |w.lines| - Dirs(fs, w.lines)
  {
    hide Geometry;
    w := new Walker(fs, recursive, root);
    assert Path(fs, [root], root, root);
    ok := w.Children(root, [], 0, [root]);
    ReachSelf(fs, root);
    if AtMost(fs, root, MAX_TREE_DEPTH + 1) {
      FewNotDeep(fs, root);
    }
    if ok && recursive && !w.cut {
      forall x | Reachable(fs, root, x) ensures x in w.expanded {
        var path :| Path(fs, path, root, x);
        ClosedReaches(fs, w.visited, path, root, x);
      }
    }
  }
}
