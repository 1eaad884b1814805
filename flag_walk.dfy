/** The flag-driven tree walker of libmisc/walk_tree.c. Every visit is a call of the
    visitor with a path, the stat it saw (None for a failed stat or a path that is too
    long) and the flags in force; the walk returns the sum of what the visitor returned.
    Symbolic links given on the command line (depth 1) are followed unless PHYSICAL is
    set, deeper ones only with LOGICAL. */
module FlagWalk {
  import opened Common
  import opened FileSystem

  /** The walk flags of include/walk_tree.h. The first four are options, the last two
      are added for the visitor. */
  datatype Flag = Recursive | Physical | Logical | Dereference | SymlinkFlag | Failed

  /** The size of `path2`: paths must be shorter than this. */
  const FILENAME_MAX: nat := 4096

  datatype Call = Call(path: Path, st: Option<Entry>, flags: set<Flag>)

  /** The visitor `func`: what it returns for each call. */
  type Visitor = Call -> int

  /** What a walk does: the sum it returns and the visitor calls it makes, in order. */
  datatype Outcome = Outcome(err: int, calls: seq<Call>)

  function Then(a: Outcome, b: Outcome): Outcome
  {
    Outcome(a.err + b.err, a.calls + b.calls)
  }

  function Visit(visit: Visitor, c: Call): Outcome
  {
    Outcome(visit(c), [c])
  }

  const Nothing := Outcome(0, [])

  /** `snprintf(path2, FILENAME_MAX, "%s/%s", ...)` and its length test, corrected to
      reject a path that does not fit with its NUL (`err2 >= FILENAME_MAX`). */
  function ChildPath(path: Path, name: Name): (r: Option<Path>)
    ensures r.Some? ==> r.value == path + "/" + name && |r.value| < FILENAME_MAX
    ensures r.None? ==> |path| + 1 + |name| >= FILENAME_MAX
  {
    var full := path + "/" + name;
    if |full| >= FILENAME_MAX then None else Some(full)
  }

  /** The same test as written at libmisc/walk_tree.c:78 (`err2 > FILENAME_MAX`):
      `snprintf` keeps FILENAME_MAX - 1 characters, so a path of exactly FILENAME_MAX
      characters passes the test and is walked cut short. */
  function ChildPathAsWritten(path: Path, name: Name): (r: Option<Path>)
  {
    var full := path + "/" + name;
    if |full| > FILENAME_MAX then None
    else if |full| <= FILENAME_MAX - 1 then Some(full)
    else Some(full[..FILENAME_MAX - 1])
  }

  /** A parent path of 4094 characters and the name `x`: the test as written lets
      through a path with the last character of the name cut off; the corrected one
      reports it as too long. */
  lemma ChildPathAsWrittenTruncates(path: Path)
    requires |path| == FILENAME_MAX - 2
    ensures ChildPathAsWritten(path, "x") == Some(path + "/")
    ensures ChildPathAsWritten(path, "x") != Some(path + "/" + "x")
    ensures ChildPath(path, "x").None?
  {
    var full := path + "/" + "x";
    assert full[..FILENAME_MAX - 1] == path + "/";
    assert |path + "/"| != |full|;
  }

  // ---------------------------------------------------------------- the walk

  /** `walk_tree_rec(path, walk_flags, func, arg, depth)`. */
  function Walked(fs: Fs, path: Path, walkFlags: set<Flag>, visit: Visitor, depth: nat): Outcome
    requires |path| < FILENAME_MAX
    decreases FILENAME_MAX - |path|, 2, 0
  {
    var l := Lstat(fs, path);
    if l.Err? then Visit(visit, Call(path, None, walkFlags + {Failed}))
    else if l.value.Symlink? then
      if Physical in walkFlags || (Logical !in walkFlags && depth > 1) then Nothing
      else
        var local := walkFlags + {SymlinkFlag};
        if Dereference in walkFlags then
          var st := Stat(fs, path);
          if st.Err? then Visit(visit, Call(path, None, local + {Failed}))
          else Visited(fs, path, walkFlags, local, st.value, visit, depth)
        else Visited(fs, path, walkFlags, local, l.value, visit, depth)
    else Visited(fs, path, walkFlags, walkFlags, l.value, visit, depth)
  }

  /** From `err = func(path, &st, local_walk_flags, arg)` on: the visit, then, with
      RECURSIVE on a directory or an unfollowed symbolic link, the children and the
      failures of `opendir` and `closedir`. */
  function Visited(fs: Fs, path: Path, walkFlags: set<Flag>, local: set<Flag>, st: Entry, visit: Visitor, depth: nat): Outcome
    requires |path| < FILENAME_MAX
    decreases FILENAME_MAX - |path|, 1, 0
  {
    var self := Visit(visit, Call(path, Some(st), local));
    if Recursive in local && (st.Dir? || st.Symlink?) then
      var dir := Opendir(fs, path);
      if dir.Err? then
        if dir.error != ENOTDIR && dir.error != ENOENT then Then(self, Visit(visit, Call(path, Some(st), local + {Failed})))
        else self
      else
        var kids := WalkedChildren(fs, path, walkFlags, local, dir.value.children, 0, visit, depth);
        var close := if dir.value.closeOk then Nothing else Visit(visit, Call(path, Some(st), local + {Failed}));
        Then(Then(self, kids), close)
    else self
  }

  /** The `readdir` loop from the `i`-th name on. */
  function WalkedChildren(fs: Fs, path: Path, walkFlags: set<Flag>, local: set<Flag>, names: seq<Name>, i: nat, visit: Visitor, depth: nat): Outcome
    requires |path| < FILENAME_MAX && i <= |names|
    decreases FILENAME_MAX - |path|, 0, |names| - i
  {
    if i == |names| then Nothing
    else
      var rest := WalkedChildren(fs, path, walkFlags, local, names, i + 1, visit, depth);
      if IsDotOrDotDot(names[i]) then rest
      else match ChildPath(path, names[i])
        case None => Then(Visit(visit, Call(path, None, local + {Failed})), rest)
        case Some(p2) => Then(Walked(fs, p2, walkFlags, visit, depth + 1), rest)
  }

  /** `walk_tree(path, walk_flags, func, arg)`. */
  function WalkedTree(fs: Fs, path: Path, walkFlags: set<Flag>, visit: Visitor): Outcome
  {
    if |path| >= FILENAME_MAX then Visit(visit, Call(path, None, {Failed}))
    else Walked(fs, path, walkFlags, visit, 1)
  }

  // ---------------------------------------------------------------- properties

  /** The visitor results the walk has collected. */
  function Sum(visit: Visitor, calls: seq<Call>): int
  {
    if calls == [] then 0 else visit(calls[0]) + Sum(visit, calls[1..])
  }

  lemma {:induction false} SumAppend(visit: Visitor, a: seq<Call>, b: seq<Call>)
    ensures Sum(visit, a + b) == Sum(visit, a) + Sum(visit, b)
  {
    if a != [] {
      assert (a + b)[1..] == a[1..] + b;
      SumAppend(visit, a[1..], b);
    } else {
      assert a + b == b;
    }
  }

  predicate Sums(visit: Visitor, o: Outcome)
  {
    o.err == Sum(visit, o.calls)
  }

  lemma ThenSums(visit: Visitor, a: Outcome, b: Outcome)
    requires Sums(visit, a) && Sums(visit, b)
    ensures Sums(visit, Then(a, b))
  {
    SumAppend(visit, a.calls, b.calls);
  }

  /** The walk returns exactly the sum of the visitor's results: no error is counted
      that the visitor was not called for, and every result is counted once. */
  lemma {:induction false} WalkedSums(fs: Fs, path: Path, walkFlags: set<Flag>, visit: Visitor, depth: nat)
    requires |path| < FILENAME_MAX
    ensures Sums(visit, Walked(fs, path, walkFlags, visit, depth))
    decreases FILENAME_MAX - |path|, 2, 0
  {
    var l := Lstat(fs, path);
    if l.Ok? {
      var local := walkFlags + {SymlinkFlag};
      if l.value.Symlink? {
        if Dereference in walkFlags && Stat(fs, path).Ok? {
          VisitedSums(fs, path, walkFlags, local, Stat(fs, path).value, visit, depth);
        } else if Dereference !in walkFlags {
          VisitedSums(fs, path, walkFlags, local, l.value, visit, depth);
        }
      } else {
        VisitedSums(fs, path, walkFlags, walkFlags, l.value, visit, depth);
      }
    }
  }

  lemma {:induction false} VisitedSums(fs: Fs, path: Path, walkFlags: set<Flag>, local: set<Flag>, st: Entry, visit: Visitor, depth: nat)
    requires |path| < FILENAME_MAX
    ensures Sums(visit, Visited(fs, path, walkFlags, local, st, visit, depth))
    decreases FILENAME_MAX - |path|, 1, 0
  {
    var self := Visit(visit, Call(path, Some(st), local));
    var failed := Visit(visit, Call(path, Some(st), local + {Failed}));
    if Recursive in local && (st.Dir? || st.Symlink?) {
      var dir := Opendir(fs, path);
      if dir.Err? {
        ThenSums(visit, self, failed);
      } else {
        var kids := WalkedChildren(fs, path, walkFlags, local, dir.value.children, 0, visit, depth);
        ChildrenSums(fs, path, walkFlags, local, dir.value.children, 0, visit, depth);
        ThenSums(visit, self, kids);
        ThenSums(visit, Then(self, kids), failed);
        ThenSums(visit, Then(self, kids), Nothing);
      }
    }
  }

  lemma {:induction false} ChildrenSums(fs: Fs, path: Path, walkFlags: set<Flag>, local: set<Flag>, names: seq<Name>, i: nat, visit: Visitor, depth: nat)
    requires |path| < FILENAME_MAX && i <= |names|
    ensures Sums(visit, WalkedChildren(fs, path, walkFlags, local, names, i, visit, depth))
    decreases FILENAME_MAX - |path|, 0, |names| - i
  {
    if i < |names| {
      var rest := WalkedChildren(fs, path, walkFlags, local, names, i + 1, visit, depth);
      ChildrenSums(fs, path, walkFlags, local, names, i + 1, visit, depth);
      if !IsDotOrDotDot(names[i]) {
        match ChildPath(path, names[i])
        case None =>
          ThenSums(visit, Visit(visit, Call(path, None, local + {Failed})), rest);
        case Some(p2) =>
          WalkedSums(fs, p2, walkFlags, visit, depth + 1);
          ThenSums(visit, Walked(fs, p2, walkFlags, visit, depth + 1), rest);
      }
    }
  }

  /** Every call of a walk is about the root or a path below it. */
  predicate Below(root: Path, o: Outcome)
  {
    forall k | 0 <= k < |o.calls| :: HasPrefix(o.calls[k].path, root)
  }

  lemma ThenBelow(root: Path, a: Outcome, b: Outcome)
    requires Below(root, a) && Below(root, b)
    ensures Below(root, Then(a, b))
  {
    forall k | 0 <= k < |Then(a, b).calls| ensures HasPrefix(Then(a, b).calls[k].path, root) {
      if k >= |a.calls| {
        assert Then(a, b).calls[k] == b.calls[k - |a.calls|];
      }
    }
  }

  lemma PrefixTrans(a: string, b: string, c: string)
    requires HasPrefix(a, b) && HasPrefix(b, c)
    ensures HasPrefix(a, c)
  {
    assert a[..|c|] == a[..|b|][..|c|];
  }

  lemma {:induction false} WalkedBelow(fs: Fs, path: Path, walkFlags: set<Flag>, visit: Visitor, depth: nat)
    requires |path| < FILENAME_MAX
    ensures Below(path, Walked(fs, path, walkFlags, visit, depth))
    decreases FILENAME_MAX - |path|, 2, 0
  {
    var l := Lstat(fs, path);
    assert HasPrefix(path, path);
    if l.Ok? {
      var local := walkFlags + {SymlinkFlag};
      if l.value.Symlink? {
        if Dereference in walkFlags && Stat(fs, path).Ok? {
          VisitedBelow(fs, path, walkFlags, local, Stat(fs, path).value, visit, depth);
        } else if Dereference !in walkFlags {
          VisitedBelow(fs, path, walkFlags, local, l.value, visit, depth);
        }
      } else {
        VisitedBelow(fs, path, walkFlags, walkFlags, l.value, visit, depth);
      }
    }
  }

  lemma {:induction false} VisitedBelow(fs: Fs, path: Path, walkFlags: set<Flag>, local: set<Flag>, st: Entry, visit: Visitor, depth: nat)
    requires |path| < FILENAME_MAX
    ensures Below(path, Visited(fs, path, walkFlags, local, st, visit, depth))
    decreases FILENAME_MAX - |path|, 1, 0
  {
    var self := Visit(visit, Call(path, Some(st), local));
    var failed := Visit(visit, Call(path, Some(st), local + {Failed}));
    assert HasPrefix(path, path);
    if Recursive in local && (st.Dir? || st.Symlink?) {
      var dir := Opendir(fs, path);
      if dir.Err? {
        ThenBelow(path, self, failed);
      } else {
        var kids := WalkedChildren(fs, path, walkFlags, local, dir.value.children, 0, visit, depth);
        ChildrenBelow(fs, path, walkFlags, local, dir.value.children, 0, visit, depth);
        ThenBelow(path, self, kids);
        ThenBelow(path, Then(self, kids), failed);
        ThenBelow(path, Then(self, kids), Nothing);
      }
    }
  }

  lemma {:induction false} ChildrenBelow(fs: Fs, path: Path, walkFlags: set<Flag>, local: set<Flag>, names: seq<Name>, i: nat, visit: Visitor, depth: nat)
    requires |path| < FILENAME_MAX && i <= |names|
    ensures Below(path, WalkedChildren(fs, path, walkFlags, local, names, i, visit, depth))
    decreases FILENAME_MAX - |path|, 0, |names| - i
  {
    if i < |names| {
      var rest := WalkedChildren(fs, path, walkFlags, local, names, i + 1, visit, depth);
      ChildrenBelow(fs, path, walkFlags, local, names, i + 1, visit, depth);
      if !IsDotOrDotDot(names[i]) {
        match ChildPath(path, names[i])
        case None =>
          assert HasPrefix(path, path);
          ThenBelow(path, Visit(visit, Call(path, None, local + {Failed})), rest);
        case Some(p2) =>
          var sub := Walked(fs, p2, walkFlags, visit, depth + 1);
          WalkedBelow(fs, p2, walkFlags, visit, depth + 1);
          assert HasPrefix(p2, path) by {
            assert p2[..|path|] == path;
          }
          forall k | 0 <= k < |sub.calls| ensures HasPrefix(sub.calls[k].path, path) {
            PrefixTrans(sub.calls[k].path, p2, path);
          }
          ThenBelow(path, sub, rest);
      }
    }
  }

  /** Pre-order: a walk that calls the visitor at all calls it first for the root. */
  lemma WalkedPreOrder(fs: Fs, path: Path, walkFlags: set<Flag>, visit: Visitor, depth: nat)
    requires |path| < FILENAME_MAX
    ensures var o := Walked(fs, path, walkFlags, visit, depth); o.calls != [] ==> o.calls[0].path == path
  {
  }

  /** Every call on `p` in `calls` reports a failure. */
  predicate FailedAt(p: Path, calls: seq<Call>)
  {
    forall k | 0 <= k < |calls| :: calls[k].path == p ==> Failed in calls[k].flags
  }

  lemma FailedAtAppend(p: Path, a: seq<Call>, b: seq<Call>)
    requires FailedAt(p, a) && FailedAt(p, b)
    ensures FailedAt(p, a + b)
  {
    forall k | 0 <= k < |a + b| && (a + b)[k].path == p ensures Failed in (a + b)[k].flags {
      if k >= |a| {
        assert (a + b)[k] == b[k - |a|];
      }
    }
  }

  /** The `readdir` loop never calls the visitor on the directory itself except to
      report a child path that is too long: every other call is below a child. */
  lemma {:induction false} ChildrenFailedAt(fs: Fs, path: Path, walkFlags: set<Flag>, local: set<Flag>, names: seq<Name>, i: nat, visit: Visitor, depth: nat)
    requires |path| < FILENAME_MAX && i <= |names|
    ensures FailedAt(path, WalkedChildren(fs, path, walkFlags, local, names, i, visit, depth).calls)
    decreases |names| - i
  {
    if i < |names| {
      var rest := WalkedChildren(fs, path, walkFlags, local, names, i + 1, visit, depth);
      ChildrenFailedAt(fs, path, walkFlags, local, names, i + 1, visit, depth);
      if !IsDotOrDotDot(names[i]) {
        match ChildPath(path, names[i])
        case None =>
          FailedAtAppend(path, [Call(path, None, local + {Failed})], rest.calls);
        case Some(p2) =>
          var sub := Walked(fs, p2, walkFlags, visit, depth + 1);
          WalkedBelow(fs, p2, walkFlags, visit, depth + 1);
          forall k | 0 <= k < |sub.calls| ensures sub.calls[k].path != path {
            assert HasPrefix(sub.calls[k].path, p2);
          }
          FailedAtAppend(path, sub.calls, rest.calls);
      }
    }
  }

  /** A visited node is visited first, with its stat and the flags in force, and once:
      every later call on its path reports a failure of `opendir`, of `closedir` or a
      child path that is too long. */
  lemma VisitedFirstOnce(fs: Fs, path: Path, walkFlags: set<Flag>, local: set<Flag>, st: Entry, visit: Visitor, depth: nat)
    requires |path| < FILENAME_MAX
    ensures var o := Visited(fs, path, walkFlags, local, st, visit, depth);
      && o.calls != [] && o.calls[0] == Call(path, Some(st), local)
      && FailedAt(path, o.calls[1..])
  {
    var o := Visited(fs, path, walkFlags, local, st, visit, depth);
    var failed := [Call(path, Some(st), local + {Failed})];
    if Recursive in local && (st.Dir? || st.Symlink?) {
      var dir := Opendir(fs, path);
      if dir.Ok? {
        var kids := WalkedChildren(fs, path, walkFlags, local, dir.value.children, 0, visit, depth);
        var close := if dir.value.closeOk then Nothing else Visit(visit, Call(path, Some(st), local + {Failed}));
        ChildrenFailedAt(fs, path, walkFlags, local, dir.value.children, 0, visit, depth);
        FailedAtAppend(path, kids.calls, close.calls);
        assert o.calls[1..] == kids.calls + close.calls;
      } else if dir.error != ENOTDIR && dir.error != ENOENT {
        assert o.calls[1..] == failed;
      }
    }
  }

  /** Each node the walk does not skip is visited exactly once, before anything below
      it: its first call is the only call on its path without FAILED, as long as the
      walk flags hold no FAILED of their own. */
  lemma WalkedVisitedOnce(fs: Fs, path: Path, walkFlags: set<Flag>, visit: Visitor, depth: nat)
    requires |path| < FILENAME_MAX && path in fs && Failed !in walkFlags
    requires fs[path].Symlink? ==> Physical !in walkFlags && (Logical in walkFlags || depth <= 1)
    requires fs[path].Symlink? && Dereference in walkFlags ==> Stat(fs, path).Ok?
    ensures var o := Walked(fs, path, walkFlags, visit, depth);
      && o.calls != [] && o.calls[0].path == path && o.calls[0].st.Some?
      && forall k | 0 <= k < |o.calls| :: (o.calls[k].path == path && Failed !in o.calls[k].flags <==> k == 0)
  {
    var l := Lstat(fs, path);
    var local := if l.value.Symlink? then walkFlags + {SymlinkFlag} else walkFlags;
    var st := if l.value.Symlink? && Dereference in walkFlags then Stat(fs, path).value else l.value;
    assert Walked(fs, path, walkFlags, visit, depth) == Visited(fs, path, walkFlags, local, st, visit, depth);
    VisitedFirstOnce(fs, path, walkFlags, local, st, visit, depth);
    var o := Visited(fs, path, walkFlags, local, st, visit, depth);
    forall k | 1 <= k < |o.calls| ensures o.calls[k].path == path ==> Failed in o.calls[k].flags {
      assert o.calls[k] == o.calls[1..][k - 1];
    }
  }

  /** A symbolic link below the root without LOGICAL, or any symbolic link with
      PHYSICAL, is neither visited nor walked, and counts nothing; every other
      symbolic link is visited at least once. */
  lemma SymlinkSkipped(fs: Fs, path: Path, walkFlags: set<Flag>, visit: Visitor, depth: nat)
    requires |path| < FILENAME_MAX && path in fs && fs[path].Symlink?
    ensures var skip := Physical in walkFlags || (Logical !in walkFlags && depth > 1);
      && (skip ==> Walked(fs, path, walkFlags, visit, depth) == Nothing)
      && (Walked(fs, path, walkFlags, visit, depth).calls == [] <==> skip)
  {
  }

  /** A followed symbolic link is reported with SYMLINK. With DEREFERENCE the visitor
      sees the target's stat, and a dangling link is one FAILED call without a stat. */
  lemma SymlinkFollowed(fs: Fs, path: Path, walkFlags: set<Flag>, visit: Visitor, depth: nat)
    requires |path| < FILENAME_MAX && path in fs && fs[path].Symlink?
    requires Physical !in walkFlags && (Logical in walkFlags || depth <= 1)
    ensures var o := Walked(fs, path, walkFlags, visit, depth);
      && o.calls != [] && SymlinkFlag in o.calls[0].flags
      && (Dereference !in walkFlags ==> o.calls[0].st == Some(fs[path]))
      && (Dereference in walkFlags && Stat(fs, path).Ok? ==> o.calls[0].st == Some(Stat(fs, path).value))
      && (Dereference in walkFlags && Stat(fs, path).Err? ==> o == Visit(visit, Call(path, None, walkFlags + {SymlinkFlag, Failed})))
  {
    if Dereference in walkFlags && Stat(fs, path).Err? {
      assert walkFlags + {SymlinkFlag} + {Failed} == walkFlags + {SymlinkFlag, Failed};
    }
  }

  /** A failed `lstat` is one FAILED call without a stat, and nothing else. */
  lemma LstatFailed(fs: Fs, path: Path, walkFlags: set<Flag>, visit: Visitor, depth: nat)
    requires |path| < FILENAME_MAX && path !in fs
    ensures Walked(fs, path, walkFlags, visit, depth) == Visit(visit, Call(path, None, walkFlags + {Failed}))
  {
  }

  /** A root path that does not fit is reported once, with FAILED only, and the file
      system is not looked at. */
  lemma RootTooLong(fs: Fs, path: Path, walkFlags: set<Flag>, visit: Visitor)
    requires |path| >= FILENAME_MAX
    ensures WalkedTree(fs, path, walkFlags, visit).calls == [Call(path, None, {Failed})]
    ensures WalkedTree(fs, path, walkFlags, visit).err == visit(Call(path, None, {Failed}))
  {
  }

  /** Without RECURSIVE a walk makes at most one call, at the root. */
  lemma NotRecursive(fs: Fs, path: Path, walkFlags: set<Flag>, visit: Visitor, depth: nat)
    requires |path| < FILENAME_MAX && Recursive !in walkFlags
    ensures var o := Walked(fs, path, walkFlags, visit, depth); |o.calls| <= 1 && (o.calls != [] ==> o.calls[0].path == path)
  {
  }

  /** A regular file is visited once, with its own stat and the flags in force, and
      nothing is walked below it, even with RECURSIVE. */
  lemma FileNotDescended(fs: Fs, path: Path, walkFlags: set<Flag>, visit: Visitor, depth: nat)
    requires |path| < FILENAME_MAX && path in fs && fs[path].File?
    ensures Walked(fs, path, walkFlags, visit, depth) == Visit(visit, Call(path, Some(File), walkFlags))
  {
  }

  // ---------------------------------------------------------------- the C routine

  /** `walk_tree_rec`: lstat, the symlink policy with its `goto follow_symlink` retry
      through `stat`, the visit, and the `readdir` loop summing into `err`. */
  method WalkTreeRec(fs: Fs, path: Path, walkFlags: set<Flag>, visit: Visitor, depth: nat) returns (err: int, calls: seq<Call>)
    requires |path| < FILENAME_MAX
    ensures Outcome(err, calls) == Walked(fs, path, walkFlags, visit, depth)
    decreases FILENAME_MAX - |path|
  {
    var local := walkFlags;
    var st := Lstat(fs, path);
    if st.Err? {
      var c := Call(path, None, local + {Failed});
      return visit(c), [c];
    }
    if st.value.Symlink? {
      if Physical in local || (Logical !in local && depth > 1) {
        return 0, [];
      }
      local := local + {SymlinkFlag};
      if Dereference in local {
        st := Stat(fs, path);
        if st.Err? {
          var c := Call(path, None, local + {Failed});
          return visit(c), [c];
        }
      }
    }
    var entry := st.value;
    var self := Call(path, Some(entry), local);
    err, calls := visit(self), [self];
    if Recursive in local && (entry.Dir? || entry.Symlink?) {
      var dir := Opendir(fs, path);
      if dir.Err? {
        if dir.error != ENOTDIR && dir.error != ENOENT {
          var c := Call(path, Some(entry), local + {Failed});
          err, calls := err + visit(c), calls + [c];
        }
        return;
      }
      var names := dir.value.children;
      err, calls := WalkChildren(fs, path, walkFlags, local, names, visit, depth, err, calls);
      if !dir.value.closeOk {
        var c := Call(path, Some(entry), local + {Failed});
        err, calls := err + visit(c), calls + [c];
      }
    }
  }

  /** The `readdir` loop of `walk_tree_rec`, adding to `err`. */
  method WalkChildren(fs: Fs, path: Path, walkFlags: set<Flag>, local: set<Flag>, names: seq<Name>, visit: Visitor, depth: nat, err0: int, calls0: seq<Call>)
    returns (err: int, calls: seq<Call>)
    requires |path| < FILENAME_MAX
    ensures Outcome(err, calls) == Then(Outcome(err0, calls0), WalkedChildren(fs, path, walkFlags, local, names, 0, visit, depth))
    decreases FILENAME_MAX - |path|, 0
  {
    err, calls := err0, calls0;
    var i := 0;
    while i < |names|
      invariant 0 <= i <= |names|
      invariant Then(Outcome(err, calls), WalkedChildren(fs, path, walkFlags, local, names, i, visit, depth))
             == Then(Outcome(err0, calls0), WalkedChildren(fs, path, walkFlags, local, names, 0, visit, depth))
    {
      var rest := WalkedChildren(fs, path, walkFlags, local, names, i + 1, visit, depth);
      if !IsDotOrDotDot(names[i]) {
        var p2 := ChildPath(path, names[i]);
        if p2.None? {
          var c := Call(path, None, local + {Failed});
          ThenAssoc(Outcome(err, calls), Visit(visit, c), rest);
          err, calls := err + visit(c), calls + [c];
        } else {
          var e2, c2 := WalkTreeRec(fs, p2.value, walkFlags, visit, depth + 1);
          ThenAssoc(Outcome(err, calls), Outcome(e2, c2), rest);
          err, calls := err + e2, calls + c2;
        }
      }
      i := i + 1;
    }
  }

  lemma ThenAssoc(a: Outcome, b: Outcome, c: Outcome)
    ensures Then(Then(a, b), c) == Then(a, Then(b, c))
  {
    assert (a.calls + b.calls) + c.calls == a.calls + (b.calls + c.calls);
  }

  /** `walk_tree`: the length check on the root, then depth 1. */
  method WalkTree(fs: Fs, path: Path, walkFlags: set<Flag>, visit: Visitor) returns (err: int, calls: seq<Call>)
    ensures Outcome(err, calls) == WalkedTree(fs, path, walkFlags, visit)
  {
    if |path| >= FILENAME_MAX {
      var c := Call(path, None, {Failed});
      return visit(c), [c];
    }
    err, calls := WalkTreeRec(fs, path, walkFlags, visit, 1);
  }
}
