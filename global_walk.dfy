/** The older walker of getfattr/walk_tree.c. Its policy lives in three globals
    (recurse, post-order, symlink mode) and the depth in a static `level`. Unlike the
    flag-based walker, it counts only the node's own visitor result and its own
    lstat, stat and opendir failures: the counts of the walks below are dropped. */
module GlobalWalk {
  import opened Common
  import opened FileSystem

  /** WALK_FULL_LOGICAL, WALK_HALF_LOGICAL and WALK_PHYSICAL. */
  datatype Mode = FullLogical | HalfLogical | Physical

  /** The number of characters of a directory entry name that are copied. */
  const POSIX_PATH_MAX: nat := 256

  /** The three globals `walk_recurse`, `walk_postorder` and `walk_symlinks`. */
  datatype Policy = Policy(recurse: bool, postorder: bool, symlinks: Mode)

  /** One call of the visitor, with the path and the stat it was given. */
  datatype Call = Call(path: Path, st: Entry)

  type Visitor = Call -> int

  /** The count a walk returns and the visitor calls it makes, in order. */
  datatype Outcome = Outcome(errors: int, calls: seq<Call>)

  function Then(a: Outcome, b: Outcome): Outcome
  {
    Outcome(a.errors + b.errors, a.calls + b.calls)
  }

  const Nothing := Outcome(0, [])

  /** `goto fail`: one error, no call. */
  const Fail := Outcome(1, [])

  predicate EndsInSlash(p: Path)
  {
    |p| > 0 && p[|p| - 1] == '/'
  }

  /** `ipath_p` during the `readdir` loop: the parent with a `/` added unless it has
      one, then the name cut to POSIX_PATH_MAX characters. */
  function ChildPath(parent: Path, name: Name): (r: Path)
    ensures var n := if |name| <= POSIX_PATH_MAX then name else name[..POSIX_PATH_MAX];
      && |r| == |parent| + |n| + (if EndsInSlash(parent) then 0 else 1)
      && HasPrefix(r, parent) && |r| > |parent|
      && r[|r| - |n|..] == n
      && EndsInSlash(r[..|r| - |n|])
  {
    var base := if EndsInSlash(parent) then parent else parent + "/";
    var n := if |name| <= POSIX_PATH_MAX then name else name[..POSIX_PATH_MAX];
    assert (base + n)[..|base|] == base;
    base + n
  }

  /** Whether a symbolic link whose target exists is followed at this level. */
  predicate Follows(symlinks: Mode, level: int)
  {
    (symlinks == HalfLogical && level == 1) || symlinks == FullLogical
  }

  /** A bound on the paths below which the walk goes on: any longer path is not in
      the file system and stops at `lstat`. */
  ghost function Room(fs: Fs, path: Path): int
  {
    MaxPathLength(fs.Keys) + 1 - |path|
  }

  /** `walk_tree(path_p, call, arg)` with the policy `pol` and `level` already
      incremented. */
  function Walked(fs: Fs, pol: Policy, path: Path, visit: Visitor, level: int): Outcome
    decreases Room(fs, path), 3, 0
  {
    var l := Lstat(fs, path);
    if l.Err? then Fail
    else if l.value.Symlink? then
      if pol.symlinks == Physical then Nothing
      else
        var st := Stat(fs, path);
        if st.Err? then Fail
        else if !Follows(pol.symlinks, level) then Nothing
        else Followed(fs, pol, path, st.value, visit, level)
    else Followed(fs, pol, path, l.value, visit, level)
  }

  /** A followed node: the visit before or after the children, and the walk of the
      children of a directory when recursing. A failed `opendir` counts one error and
      skips the post-order visit. */
  function Followed(fs: Fs, pol: Policy, path: Path, st: Entry, visit: Visitor, level: int): Outcome
    requires path in fs
    decreases Room(fs, path), 2, 0
  {
    var own := Outcome(visit(Call(path, st)), [Call(path, st)]);
    var pre := if pol.postorder then Nothing else own;
    var post := if pol.postorder then own else Nothing;
    if pol.recurse && st.Dir? then
      var dir := Opendir(fs, path);
      if dir.Err? then Then(pre, Fail)
      else
        var kids := ChildCalls(fs, pol, path, dir.value.children, 0, visit, level);
        Then(Then(pre, Outcome(0, kids)), post)
    else Then(pre, post)
  }

  /** The visitor calls of the walks of the `i`-th child on; their counts are dropped. */
  function ChildCalls(fs: Fs, pol: Policy, path: Path, names: seq<Name>, i: nat, visit: Visitor, level: int): seq<Call>
    requires path in fs && i <= |names|
    decreases Room(fs, path), 1, |names| - i
  {
    if i == |names| then []
    else ChildWalk(fs, pol, path, names[i], visit, level) + ChildCalls(fs, pol, path, names, i + 1, visit, level)
  }

  /** One turn of the `readdir` loop: `.` and `..` are skipped, any other name is
      walked one level down. */
  function ChildWalk(fs: Fs, pol: Policy, path: Path, name: Name, visit: Visitor, level: int): seq<Call>
    requires path in fs
    decreases Room(fs, path), 0, 0
  {
    if IsDotOrDotDot(name) then []
    else Walked(fs, pol, ChildPath(path, name), visit, level + 1).calls
  }

  // ---------------------------------------------------------------- properties

  /** In PHYSICAL mode a symbolic link is neither visited nor walked and counts nothing. */
  lemma PhysicalSkipsSymlinks(fs: Fs, pol: Policy, path: Path, visit: Visitor, level: int)
    requires path in fs && fs[path].Symlink? && pol.symlinks == Physical
    ensures Walked(fs, pol, path, visit, level) == Nothing
  {
  }

  /** In the other modes a symbolic link whose target cannot be reached counts one
      error and is not visited. */
  lemma DanglingSymlinkFails(fs: Fs, pol: Policy, path: Path, visit: Visitor, level: int)
    requires path in fs && fs[path].Symlink? && pol.symlinks != Physical && Stat(fs, path).Err?
    ensures Walked(fs, pol, path, visit, level) == Fail
  {
  }

  /** A symbolic link with a reachable target is followed exactly when the mode
      follows it at this level, and is then visited like any followed node: once, with
      its target's stat, first in pre-order and last in post-order, and not at all when
      post-order recursion cannot open the target directory. A link that is not
      followed counts nothing. */
  lemma SymlinkFollowedIff(fs: Fs, pol: Policy, path: Path, visit: Visitor, level: int)
    requires path in fs && fs[path].Symlink? && pol.symlinks != Physical && Stat(fs, path).Ok?
    ensures var o := Walked(fs, pol, path, visit, level);
      var st := Stat(fs, path).value;
      var skipped := pol.postorder && pol.recurse && st.Dir? && Opendir(fs, path).Err?;
      && (!Follows(pol.symlinks, level) ==> o == Nothing)
      && (Follows(pol.symlinks, level) ==> Visits(o.calls, path) == (if skipped then 0 else 1))
      && (Follows(pol.symlinks, level) && !pol.postorder ==> o.calls[0] == Call(path, st))
      && (Follows(pol.symlinks, level) && pol.postorder && !skipped ==> o.calls[|o.calls| - 1] == Call(path, st))
  {
    if Follows(pol.symlinks, level) {
      VisitedOnce(fs, pol, path, Stat(fs, path).value, visit, level);
    }
  }

  /** Anything other than a symbolic link is followed. */
  lemma OthersFollowed(fs: Fs, pol: Policy, path: Path, visit: Visitor, level: int)
    requires path in fs && !fs[path].Symlink?
    ensures Walked(fs, pol, path, visit, level) == Followed(fs, pol, path, fs[path], visit, level)
  {
  }

  /** A regular file is visited once, with its own stat, and nothing is walked below
      it, whatever the policy. */
  lemma FileNotDescended(fs: Fs, pol: Policy, path: Path, visit: Visitor, level: int)
    requires path in fs && fs[path].File?
    ensures Walked(fs, pol, path, visit, level) == Outcome(visit(Call(path, File)), [Call(path, File)])
  {
  }

  /** Without `-R`, the walk of a path makes at most one visitor call, on that path. */
  lemma NotRecursive(fs: Fs, pol: Policy, path: Path, visit: Visitor, level: int)
    requires !pol.recurse
    ensures var o := Walked(fs, pol, path, visit, level); |o.calls| <= 1 && (o.calls != [] ==> o.calls[0].path == path)
  {
  }

  /** The visits of `p` in a list of calls. */
  function Visits(calls: seq<Call>, p: Path): nat
  {
    if calls == [] then 0 else (if calls[0].path == p then 1 else 0) + Visits(calls[1..], p)
  }

  lemma {:induction false} VisitsAppend(a: seq<Call>, b: seq<Call>, p: Path)
    ensures Visits(a + b, p) == Visits(a, p) + Visits(b, p)
  {
    if a == [] {
      assert a + b == b;
    } else {
      assert (a + b)[1..] == a[1..] + b;
      VisitsAppend(a[1..], b, p);
    }
  }

  /** Every call is about a path strictly longer than `p` that starts with `p`. */
  predicate Beneath(p: Path, calls: seq<Call>)
  {
    forall k | 0 <= k < |calls| :: HasPrefix(calls[k].path, p) && |calls[k].path| > |p|
  }

  /** Every call is about `p` or a path that starts with it. */
  predicate Below(p: Path, calls: seq<Call>)
  {
    forall k | 0 <= k < |calls| :: HasPrefix(calls[k].path, p)
  }

  lemma {:induction false} BeneathNoVisits(p: Path, calls: seq<Call>)
    requires Beneath(p, calls)
    ensures Visits(calls, p) == 0
  {
    if calls != [] {
      assert Beneath(p, calls[1..]) by {
        forall k | 0 <= k < |calls[1..]| ensures HasPrefix(calls[1..][k].path, p) && |calls[1..][k].path| > |p| {
          assert calls[1..][k] == calls[k + 1];
        }
      }
      BeneathNoVisits(p, calls[1..]);
    }
  }

  lemma PrefixTrans(a: string, b: string, c: string)
    requires HasPrefix(a, b) && HasPrefix(b, c)
    ensures HasPrefix(a, c)
  {
    assert a[..|c|] == a[..|b|][..|c|];
  }

  /** The calls below a child path are beneath its parent. */
  lemma BelowChildBeneath(parent: Path, child: Path, calls: seq<Call>)
    requires Below(child, calls) && HasPrefix(child, parent) && |child| > |parent|
    ensures Beneath(parent, calls)
  {
    forall k | 0 <= k < |calls| ensures HasPrefix(calls[k].path, parent) && |calls[k].path| > |parent| {
      PrefixTrans(calls[k].path, child, parent);
    }
  }

  lemma BeneathAppend(p: Path, a: seq<Call>, b: seq<Call>)
    requires Beneath(p, a) && Beneath(p, b)
    ensures Beneath(p, a + b)
  {
    forall k | 0 <= k < |a + b| ensures HasPrefix((a + b)[k].path, p) && |(a + b)[k].path| > |p| {
      if k >= |a| {
        assert (a + b)[k] == b[k - |a|];
      }
    }
  }

  lemma {:induction false} WalkedBelow(fs: Fs, pol: Policy, path: Path, visit: Visitor, level: int)
    ensures Below(path, Walked(fs, pol, path, visit, level).calls)
    decreases Room(fs, path), 3, 0
  {
    var l := Lstat(fs, path);
    if l.Ok? {
      if l.value.Symlink? {
        if pol.symlinks != Physical && Stat(fs, path).Ok? && Follows(pol.symlinks, level) {
          FollowedBelow(fs, pol, path, Stat(fs, path).value, visit, level);
        }
      } else {
        FollowedBelow(fs, pol, path, l.value, visit, level);
      }
    }
  }

  lemma {:induction false} FollowedBelow(fs: Fs, pol: Policy, path: Path, st: Entry, visit: Visitor, level: int)
    requires path in fs
    ensures Below(path, Followed(fs, pol, path, st, visit, level).calls)
    decreases Room(fs, path), 2, 0
  {
    assert HasPrefix(path, path);
    if pol.recurse && st.Dir? {
      var dir := Opendir(fs, path);
      if dir.Ok? {
        ChildrenBeneath(fs, pol, path, dir.value.children, 0, visit, level);
      }
    }
  }

  lemma {:induction false} ChildrenBeneath(fs: Fs, pol: Policy, path: Path, names: seq<Name>, i: nat, visit: Visitor, level: int)
    requires path in fs && i <= |names|
    ensures Beneath(path, ChildCalls(fs, pol, path, names, i, visit, level))
    decreases Room(fs, path), 1, |names| - i
  {
    if i < |names| {
      var rest := ChildCalls(fs, pol, path, names, i + 1, visit, level);
      ChildrenBeneath(fs, pol, path, names, i + 1, visit, level);
      if IsDotOrDotDot(names[i]) {
        assert ChildCalls(fs, pol, path, names, i, visit, level) == [] + rest;
      } else {
        var child := ChildPath(path, names[i]);
        var sub := Walked(fs, pol, child, visit, level + 1).calls;
        assert ChildCalls(fs, pol, path, names, i, visit, level) == sub + rest;
        WalkedBelow(fs, pol, child, visit, level + 1);
        BelowChildBeneath(path, child, sub);
        BeneathAppend(path, sub, rest);
      }
    }
  }

  /** A followed node is visited exactly once, before all other calls in pre-order and
      after them in post-order; the one exception is a post-order walk whose `opendir`
      fails, which does not visit it at all. */
  lemma VisitedOnce(fs: Fs, pol: Policy, path: Path, st: Entry, visit: Visitor, level: int)
    requires path in fs
    ensures var o := Followed(fs, pol, path, st, visit, level);
      var skipped := pol.postorder && pol.recurse && st.Dir? && Opendir(fs, path).Err?;
      && Visits(o.calls, path) == (if skipped then 0 else 1)
      && (!pol.postorder ==> o.calls[0] == Call(path, st))
      && (pol.postorder && !skipped ==> o.calls[|o.calls| - 1] == Call(path, st))
  {
    var own := [Call(path, st)];
    if pol.recurse && st.Dir? {
      var dir := Opendir(fs, path);
      if dir.Ok? {
        var kids := ChildCalls(fs, pol, path, dir.value.children, 0, visit, level);
        ChildrenBeneath(fs, pol, path, dir.value.children, 0, visit, level);
        BeneathNoVisits(path, kids);
        assert Visits(own, path) == 1 by {
          assert own[1..] == [];
        }
        if pol.postorder {
          VisitsAppend(kids, own, path);
          assert [] + kids == kids;
        } else {
          VisitsAppend(own, kids, path);
          assert own + kids + [] == own + kids;
        }
      }
    }
  }

  /** The count is the node's own: its visitor result when it is visited, and one for
      its own failed lstat, stat or opendir. Nothing of the walks of its children. */
  function OwnErrors(fs: Fs, pol: Policy, path: Path, visit: Visitor, level: int): int
  {
    var l := Lstat(fs, path);
    if l.Err? then 1
    else
      var st := if l.value.Symlink? then Stat(fs, path) else l;
      if l.value.Symlink? && pol.symlinks == Physical then 0
      else if st.Err? then 1
      else if l.value.Symlink? && !Follows(pol.symlinks, level) then 0
      else
        var failed := pol.recurse && st.value.Dir? && Opendir(fs, path).Err?;
        (if pol.postorder && failed then 0 else visit(Call(path, st.value))) + (if failed then 1 else 0)
  }

  lemma CountIsOwn(fs: Fs, pol: Policy, path: Path, visit: Visitor, level: int)
    ensures Walked(fs, pol, path, visit, level).errors == OwnErrors(fs, pol, path, visit, level)
  {
  }

  /** With the default policy (`walk_recurse = 0`, `walk_postorder = 0`,
      WALK_HALF_LOGICAL) at the top level, a walk visits its argument, followed
      through a symbolic link, once and does nothing else. */
  lemma DefaultWalk(fs: Fs, path: Path, visit: Visitor)
    requires Stat(fs, path).Ok?
    ensures Walked(fs, Policy(false, false, HalfLogical), path, visit, 1).calls == [Call(path, Stat(fs, path).value)]
  {
  }

  // ---------------------------------------------------------------- the C routine

  lemma CallsStep(done: seq<Call>, sub: seq<Call>, rest: seq<Call>)
    ensures done + (sub + rest) == (done + sub) + rest
  {
  }

  /** The globals and the static `level` of getfattr/walk_tree.c. */
  class Walker {
    var recurse: bool
    var postorder: bool
    var symlinks: Mode
    var level: int

    /** The initial values of the globals. */
    constructor()
      ensures recurse == false && postorder == false && symlinks == HalfLogical && level == 0
    {
      recurse := false;
      postorder := false;
      symlinks := HalfLogical;
      level := 0;
    }

    function CurrentPolicy(): Policy
      reads this
    {
      Policy(recurse, postorder, symlinks)
    }

    /** `walk_tree(path_p, call, arg)`: every exit path undoes its `level++`. */
    method WalkTree(fs: Fs, path: Path, visit: Visitor) returns (errors: int, calls: seq<Call>)
      modifies this
      ensures recurse == old(recurse) && postorder == old(postorder) && symlinks == old(symlinks) && level == old(level)
      ensures Outcome(errors, calls) == Walked(fs, Policy(recurse, postorder, symlinks), path, visit, level + 1)
      decreases Room(fs, path), 3
    {
      level := level + 1;
      errors, calls := 0, [];
      var st := Lstat(fs, path);
      if st.Err? {
        errors := errors + 1;
        level := level - 1;
        return;
      }
      var entry := st.value;
      var follow: bool;
      if entry.Symlink? {
        if symlinks == Physical {
          follow := false;
        } else {
          st := Stat(fs, path);
          if st.Err? {
            errors := errors + 1;
            level := level - 1;
            return;
          }
          entry := st.value;
          follow := (symlinks == HalfLogical && level == 1) || symlinks == FullLogical;
        }
      } else {
        follow := true;
      }
      if !follow {
        level := level - 1;
        return;
      }
      errors, calls := WalkFollowed(fs, path, entry, visit);
      level := level - 1;
    }

    /** A followed node, with `level` already raised: the visits before and after the
        children and the walk of the children; `goto fail` on a failed `opendir`. */
    method WalkFollowed(fs: Fs, path: Path, entry: Entry, visit: Visitor) returns (errors: int, calls: seq<Call>)
      requires path in fs
      modifies this
      ensures recurse == old(recurse) && postorder == old(postorder) && symlinks == old(symlinks) && level == old(level)
      ensures Outcome(errors, calls) == Followed(fs, Policy(recurse, postorder, symlinks), path, entry, visit, level)
      decreases Room(fs, path), 2
    {
      ghost var pol := Policy(recurse, postorder, symlinks);
      ghost var o := Followed(fs, pol, path, entry, visit, level);
      errors, calls := 0, [];
      var own := Call(path, entry);
      if !postorder {
        errors, calls := errors + visit(own), calls + [own];
      }
      if recurse && entry.Dir? {
        var dir := Opendir(fs, path);
        if dir.Err? {
          errors := errors + 1;
          return;
        }
        ghost var lv := level;
        var kids := WalkChildren(fs, path, dir.value.children, visit);
        assert Policy(recurse, postorder, symlinks) == pol && level == lv;
        assert kids == ChildCalls(fs, pol, path, dir.value.children, 0, visit, lv);
        calls := calls + kids;
      }
      if postorder {
        errors, calls := errors + visit(own), calls + [own];
      }
      assert Outcome(errors, calls) == o;
    }

    /** The `readdir` loop: each child is walked one level down and its count is
        dropped. */
    method WalkChildren(fs: Fs, path: Path, names: seq<Name>, visit: Visitor) returns (calls: seq<Call>)
      requires path in fs
      modifies this
      ensures recurse == old(recurse) && postorder == old(postorder) && symlinks == old(symlinks) && level == old(level)
      ensures calls == ChildCalls(fs, Policy(recurse, postorder, symlinks), path, names, 0, visit, level)
      decreases Room(fs, path), 1
    {
      ghost var pol := Policy(recurse, postorder, symlinks);
      ghost var lv := level;
      calls := [];
      var i := 0;
      while i < |names|
        invariant 0 <= i <= |names|
        invariant Policy(recurse, postorder, symlinks) == pol && level == lv
        invariant calls + ChildCalls(fs, pol, path, names, i, visit, lv) == ChildCalls(fs, pol, path, names, 0, visit, lv)
      {
        ghost var rest := ChildCalls(fs, pol, path, names, i + 1, visit, lv);
        var sub := WalkChild(fs, path, names[i], visit);
        CallsStep(calls, sub, rest);
        calls := calls + sub;
        i := i + 1;
      }
    }

    /** The body of the `readdir` loop. */
    method WalkChild(fs: Fs, path: Path, name: Name, visit: Visitor) returns (calls: seq<Call>)
      requires path in fs
      modifies this
      ensures recurse == old(recurse) && postorder == old(postorder) && symlinks == old(symlinks) && level == old(level)
      ensures calls == ChildWalk(fs, Policy(recurse, postorder, symlinks), path, name, visit, level)
      decreases Room(fs, path), 0
    {
      calls := [];
      if !IsDotOrDotDot(name) {
        var child := ChildPath(path, name);
        var _, sub := WalkTree(fs, child, visit);
        calls := sub;
      }
    }
  }
}
