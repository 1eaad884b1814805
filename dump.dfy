/** What `getfattr` prints for one node of the walk. `get_one` prints the `# file:`
    header (once per node) and one line per attribute; `do_get_all` lists the
    attributes, keeps the names the pattern accepts, sorts them with `strcmp` and
    ends a node's block with a blank line; `do_get_one` does the same for one named
    attribute. Standard output is a sequence of lines; the extended attribute
    calls are functions given to the model and the pattern is a predicate. */
module Dump {
  import opened Common
  import opened Encode
  import opened NameOrder

  /** `opt_dump`, `opt_value_only`, `opt_strip_leading_slash` and `opt_encoding`
      (NULL and "text" both select the text encoding). */
  datatype Options = Options(dump: bool, valueOnly: bool, stripLeadingSlash: bool, encoding: Encoding)

  /** The options before the command line is read. */
  const Defaults := Options(false, false, true, Text)

  datatype Errno = ENOATTR | ENOTSUP | OtherErrno(code: int)

  /** An attribute name as `listxattr` returns it. */
  type AttrName = s: string | CName(s) witness "a"

  /** What `listxattr` gives for a path: the names in the order it lists them, or an
      error. */
  datatype Listing = Listed(names: seq<AttrName>) | ListFailed(errno: Errno)

  /** What `getxattr` gives for a path and a name: the value, or an error. */
  datatype Fetch = Got(value: seq<byte>) | GetFailed(errno: Errno)

  type Lister = string -> Listing
  type Getter = (string, string) -> Fetch

  // ---------------------------------------------------------------- paths

  /** The end of the run of slashes that starts at `i`. */
  function SlashesEnd(s: string, i: nat): (j: nat)
    requires i <= |s|
    ensures i <= j <= |s| && (j == |s| || s[j] != '/')
    ensures forall k | i <= k < j :: s[k] == '/'
    decreases |s| - i
  {
    if i == |s| || s[i] != '/' then i else SlashesEnd(s, i + 1)
  }

  /** The path `get_one` prints when stripping is on: leading slashes removed, or a
      leading `./` with the slashes after it, and `.` for what is left empty. A path
      is the text before its terminating NUL. */
  function StrippedPath(path: string): string
  {
    var start :=
      if At(path, 0) == '/' then SlashesEnd(path, 0)
      else if At(path, 0) == '.' && At(path, 1) == '/' then SlashesEnd(path, 1)
      else 0;
    if start == |path| then "." else path[start..]
  }

  /** The stripped path is never empty and never starts with `/`. It is `.`, or what
      is left of the path after a run of slashes or after `.` and a run of slashes;
      a path that starts with neither is kept as it is. */
  lemma StrippedPathShape(path: string)
    ensures var r := StrippedPath(path);
      && r != [] && r[0] != '/'
      && (r == "." || (|r| <= |path| && r == path[|path| - |r|..]))
      && (r != "." ==> forall k | 0 <= k < |path| - |r| :: path[k] == '/' || (k == 0 && path[0] == '.' && |path| - |r| > 1))
      && (path != [] && path[0] != '/' && !HasPrefix(path, "./") ==> r == path)
  {
    if path != [] && path[0] == '.' && At(path, 1) == '/' {
      assert HasPrefix(path, "./");
    }
  }

  /** The loops of `get_one` that advance `path`. */
  method StripLeadingSlash(path: string) returns (r: string)
    ensures r == StrippedPath(path)
  {
    var i := 0;
    if i < |path| && path[i] == '/' {
      while i < |path| && path[i] == '/'
        invariant i <= |path| && SlashesEnd(path, i) == SlashesEnd(path, 0)
      {
        i := i + 1;
      }
    } else if i + 1 < |path| && path[i] == '.' && path[i + 1] == '/' {
      i := i + 1;
      while i < |path| && path[i] == '/'
        invariant 1 <= i <= |path| && SlashesEnd(path, i) == SlashesEnd(path, 1)
      {
        i := i + 1;
      }
    }
    if i == |path| {
      r := ".";
    } else {
      r := path[i..];
    }
  }

  // ---------------------------------------------------------------- buffers

  const CHUNK_SIZE: nat := 256

  /** `(newsize + CHUNK_SIZE - 1) & ~(CHUNK_SIZE - 1)`: the least multiple of the chunk
      size that is not below `n`. */
  function RoundUp(n: int): (r: int)
    ensures r % CHUNK_SIZE == 0 && n <= r < n + CHUNK_SIZE
  {
    (n + CHUNK_SIZE - 1) / CHUNK_SIZE * CHUNK_SIZE
  }

  /** A buffer that only grows, in whole chunks: `high_water_alloc` on one static
      buffer and its size. */
  class HighWater {
    var bufsize: int
    var buf: array<char>

    predicate Valid()
      reads this
    {
      buf.Length == bufsize
    }

    constructor()
      ensures Valid() && bufsize == 0
    {
      bufsize := 0;
      buf := new char[0];
    }

    /** Makes room for `newsize` bytes, comparing against the current size. */
    method Alloc(newsize: int)
      requires Valid()
      modifies this
      ensures Valid() && newsize <= bufsize && old(bufsize) <= bufsize
      ensures bufsize == if old(bufsize) < newsize then RoundUp(newsize) else old(bufsize)
      ensures old(bufsize) >= newsize ==> buf == old(buf)
    {
      if bufsize < newsize {
        var n := RoundUp(newsize);
        buf := new char[n];
        bufsize := n;
      }
    }
  }

  // ---------------------------------------------------------------- output

  /** What `getfattr` has done so far: the lines on standard output, `header_printed`,
      whether the static `names` array exists, and `had_errors`. */
  datatype State = State(out: seq<string>, header: bool, haveNames: bool, hadErrors: nat)

  /** The path the header names: stripped when `opt_strip_leading_slash` is set. */
  function DumpedPath(o: Options, path: string): string
  {
    if o.stripLeadingSlash then StrippedPath(path) else path
  }

  function HeaderLine(o: Options, path: string): string
  {
    "# file: " + DumpedPath(o, path)
  }

  /** `puts(value)`: the value up to its first NUL. */
  function ValueText(v: seq<byte>): (r: string)
    ensures |r| <= |v|
    ensures forall k | 0 <= k < |r| :: r[k] != '\0' && ByteOf(r[k]) == v[k]
    ensures |r| < |v| ==> v[|r|] == 0
  {
    if v == [] || v[0] == 0 then "" else [CharOf(v[0])] + ValueText(v[1..])
  }

  /** The line `get_one` prints for an attribute it could read. */
  function ValueLine(o: Options, name: string, value: seq<byte>): string
  {
    if o.valueOnly then ValueText(value)
    else if |value| != 0 then name + "=" + Encoded(value, o.encoding)
    else name
  }

  /** Whether `get_one` reads the attribute and what it finds. */
  function Fetched(o: Options, get: Getter, path: string, name: string): Fetch
  {
    if o.dump || o.valueOnly then get(path, name) else Got([])
  }

  /** `get_one(path, name)`: its result and the state after it. */
  function GotOne(o: Options, get: Getter, path: string, name: string, s: State): (int, State)
  {
    match Fetched(o, get, path, name)
    case GetFailed(e) => (if HasPrefix(name, "system.") && e == ENOATTR then 0 else 1, s)
    case Got(value) =>
      var head := if !s.header && !o.valueOnly then [HeaderLine(o, path)] else [];
      (0, s.(out := s.out + head + [ValueLine(o, name, value)], header := s.header || !o.valueOnly))
  }

  /** `get_one` for each name in turn, as `do_get_all` calls it: results dropped. */
  function GotEach(o: Options, get: Getter, path: string, names: seq<string>, s: State): State
  {
    if names == [] then s else GotEach(o, get, path, names[1..], GotOne(o, get, path, names[0], s).1)
  }

  /** The names the pattern accepts, in listing order. */
  function Accepted(accept: string -> bool, names: seq<AttrName>): seq<AttrName>
  {
    if names == [] then []
    else
      var rest := Accepted(accept, names[1..]);
      if accept(names[0]) then [names[0]] + rest else rest
  }

  /** The filter keeps every accepted name as often as the listing has it, and no
      other name. */
  lemma {:induction false} AcceptedCounts(accept: string -> bool, names: seq<AttrName>)
    ensures var r := Accepted(accept, names);
      && (forall k | 0 <= k < |r| :: accept(r[k]))
      && (forall x :: multiset(r)[x] == if accept(x) then multiset(names)[x] else 0)
  {
    if names != [] {
      AcceptedCounts(accept, names[1..]);
      assert names == [names[0]] + names[1..];
    }
  }

  /** `do_get_all(path)`: its result and the state after it. */
  function GotAll(o: Options, list: Lister, get: Getter, accept: string -> bool, path: string, s: State): (int, State)
  {
    var l := list(path);
    if l.ListFailed? && l.errno != ENOATTR && l.errno != ENOTSUP then (1, s.(hadErrors := s.hadErrors + 1))
    else
      var names := if l.Listed? then Sort(Accepted(accept, l.names)) else [];
      var haveNames := s.haveNames || names != [];
      if !haveNames then (0, s)
      else
        var t := GotEach(o, get, path, names, s.(header := false, haveNames := true));
        (0, if t.header then t.(out := t.out + [""]) else t)
  }

  /** `do_get_one(path, name)`. */
  function GotNamed(o: Options, get: Getter, path: string, name: string, s: State): (int, State)
  {
    var r := GotOne(o, get, path, name, s.(header := false));
    (r.0, if r.1.header then r.1.(out := r.1.out + [""]) else r.1)
  }

  // ---------------------------------------------------------------- properties

  /** A missing `system.` attribute is expected: no output and no error. Any other
      failure to read an attribute prints nothing and counts one. */
  lemma GetFailures(o: Options, get: Getter, path: string, name: string, s: State)
    requires o.dump || o.valueOnly
    requires get(path, name).GetFailed?
    ensures GotOne(o, get, path, name, s).1 == s
    ensures GotOne(o, get, path, name, s).0 == 0 <==> HasPrefix(name, "system.") && get(path, name).errno == ENOATTR
  {
  }

  /** The value lines of each name in turn, the ones whose attribute could be read. */
  function ValueLines(o: Options, get: Getter, path: string, names: seq<string>): seq<string>
  {
    if names == [] then []
    else
      var f := Fetched(o, get, path, names[0]);
      (if f.Got? then [ValueLine(o, names[0], f.value)] else []) + ValueLines(o, get, path, names[1..])
  }

  /** Whether any name can be read. */
  predicate AnyRead(o: Options, get: Getter, path: string, names: seq<string>)
  {
    names != [] && (Fetched(o, get, path, names[0]).Got? || AnyRead(o, get, path, names[1..]))
  }

  /** One `get_one` call: a name that cannot be read leaves the state alone; one that
      can adds the header if it is due, then its value line. */
  lemma GotOneStep(o: Options, get: Getter, path: string, name: string, s: State)
    ensures var t := GotOne(o, get, path, name, s).1;
      var f := Fetched(o, get, path, name);
      && (f.GetFailed? ==> t == s)
      && (f.Got? && (s.header || o.valueOnly) ==> t == s.(out := s.out + [ValueLine(o, name, f.value)]))
      && (f.Got? && !s.header && !o.valueOnly ==>
            t == s.(out := s.out + [HeaderLine(o, path), ValueLine(o, name, f.value)], header := true))
  {
    var f := Fetched(o, get, path, name);
    if f.Got? {
      assert s.out + [] == s.out;
      assert s.out + [HeaderLine(o, path)] + [ValueLine(o, name, f.value)] == s.out + [HeaderLine(o, path), ValueLine(o, name, f.value)];
    }
  }

  /** Starting without a header, the `get_one` calls of a node print its header at
      most once, before all value lines, and only when a value line follows and the
      values are not printed alone. */
  lemma {:induction false} GotEachShape(o: Options, get: Getter, path: string, names: seq<string>, s: State)
    requires !s.header
    ensures var t := GotEach(o, get, path, names, s);
      && t.header == (!o.valueOnly && AnyRead(o, get, path, names))
      && t.out == s.out + (if t.header then [HeaderLine(o, path)] else []) + ValueLines(o, get, path, names)
      && t.haveNames == s.haveNames && t.hadErrors == s.hadErrors
    decreases |names|, 1
  {
    if names != [] {
      if Fetched(o, get, path, names[0]).Got? && !o.valueOnly {
        FirstPrintsHeader(o, get, path, names, s);
      } else {
        FirstPrintsNoHeader(o, get, path, names, s);
      }
    }
  }

  /** The first name is read and its header printed. */
  lemma {:induction false} FirstPrintsHeader(o: Options, get: Getter, path: string, names: seq<string>, s: State)
    requires !s.header && names != [] && Fetched(o, get, path, names[0]).Got? && !o.valueOnly
    ensures var t := GotEach(o, get, path, names, s);
      && t.header
      && t.out == s.out + [HeaderLine(o, path)] + ValueLines(o, get, path, names)
      && t.haveNames == s.haveNames && t.hadErrors == s.hadErrors
  {
    var s1 := GotOne(o, get, path, names[0], s).1;
    var f := Fetched(o, get, path, names[0]);
    var rest := ValueLines(o, get, path, names[1..]);
    GotOneStep(o, get, path, names[0], s);
    GotEachWithHeader(o, get, path, names[1..], s1);
    assert s1.out + rest == s.out + [HeaderLine(o, path)] + ([ValueLine(o, names[0], f.value)] + rest);
  }

  /** The first name prints no header: it cannot be read, or only values are
      printed. */
  lemma {:induction false} FirstPrintsNoHeader(o: Options, get: Getter, path: string, names: seq<string>, s: State)
    requires !s.header && names != [] && !(Fetched(o, get, path, names[0]).Got? && !o.valueOnly)
    ensures var t := GotEach(o, get, path, names, s);
      && t.header == (!o.valueOnly && AnyRead(o, get, path, names))
      && t.out == s.out + (if t.header then [HeaderLine(o, path)] else []) + ValueLines(o, get, path, names)
      && t.haveNames == s.haveNames && t.hadErrors == s.hadErrors
    decreases |names|, 0
  {
    var s1 := GotOne(o, get, path, names[0], s).1;
    var f := Fetched(o, get, path, names[0]);
    var rest := ValueLines(o, get, path, names[1..]);
    GotOneStep(o, get, path, names[0], s);
    GotEachShape(o, get, path, names[1..], s1);
    if f.Got? {
      assert s1.out + rest == s.out + ([ValueLine(o, names[0], f.value)] + rest);
    } else {
      assert [] + rest == rest;
    }
  }

  /** Once the header is printed, the remaining calls add only their value lines. */
  lemma {:induction false} GotEachWithHeader(o: Options, get: Getter, path: string, names: seq<string>, s: State)
    requires s.header
    ensures var t := GotEach(o, get, path, names, s);
      && t.header && t.out == s.out + ValueLines(o, get, path, names)
      && t.haveNames == s.haveNames && t.hadErrors == s.hadErrors
    decreases |names|
  {
    if names != [] {
      var s1 := GotOne(o, get, path, names[0], s).1;
      GotEachWithHeader(o, get, path, names[1..], s1);
    }
  }

  /** A node's block from `do_get_all`: nothing, or the header, the value lines of the
      accepted names in `strcmp` order and a blank line. In value-only mode the value
      lines come alone. A listing error adds nothing but counts in `had_errors`. */
  lemma GotAllShape(o: Options, list: Lister, get: Getter, accept: string -> bool, path: string, s: State)
    ensures var (r, t) := GotAll(o, list, get, accept, path, s);
      var l := list(path);
      var names := if l.Listed? then Sort(Accepted(accept, l.names)) else [];
      && (r == 1 <==> l.ListFailed? && l.errno != ENOATTR && l.errno != ENOTSUP)
      && (r == 1 ==> t == s.(hadErrors := s.hadErrors + 1))
      && (r == 0 ==> t.hadErrors == s.hadErrors)
      && (r == 0 && !o.valueOnly && AnyRead(o, get, path, names) ==>
            t.out == s.out + [HeaderLine(o, path)] + ValueLines(o, get, path, names) + [""])
      && (r == 0 && (o.valueOnly || !AnyRead(o, get, path, names)) ==>
            t.out == s.out + ValueLines(o, get, path, names))
  {
    var l := list(path);
    var names := if l.Listed? then Sort(Accepted(accept, l.names)) else [];
    if !(l.ListFailed? && l.errno != ENOATTR && l.errno != ENOTSUP) && (s.haveNames || names != []) {
      GotEachShape(o, get, path, names, s.(header := false, haveNames := true));
    }
  }

  /** `do_get_all` reads the accepted names, each as often as the listing has it, in
      `strcmp` order. */
  lemma GotAllNames(accept: string -> bool, names: seq<AttrName>)
    ensures var r := Sort(Accepted(accept, names));
      && Sorted(r)
      && (forall k | 0 <= k < |r| :: accept(r[k]))
      && (forall x :: multiset(r)[x] == if accept(x) then multiset(names)[x] else 0)
  {
    var a := Accepted(accept, names);
    AcceptedCounts(accept, names);
    assert AllNames(a);
    SortSortsAndPermutes(a);
    var r := Sort(a);
    forall k | 0 <= k < |r| ensures accept(r[k]) {
      assert r[k] in multiset(r);
      assert r[k] in multiset(a);
    }
  }

  /** `do_get_one` ends what it printed with a blank line, exactly when it printed the
      header, which it does when the attribute can be read and not only its value is
      printed. */
  lemma GotNamedShape(o: Options, get: Getter, path: string, name: string, s: State)
    ensures var (r, t) := GotNamed(o, get, path, name, s);
      var f := Fetched(o, get, path, name);
      && (f.Got? && !o.valueOnly ==> r == 0 && t.out == s.out + [HeaderLine(o, path), ValueLine(o, name, f.value), ""])
      && (f.Got? && o.valueOnly ==> r == 0 && t.out == s.out + [ValueLine(o, name, f.value)])
      && (f.GetFailed? ==> t.out == s.out && (r == 0 <==> HasPrefix(name, "system.") && f.errno == ENOATTR))
  {
  }

  // ---------------------------------------------------------------- the C routines

  /** The globals of `getfattr` that `get_one`, `do_get_all` and `do_get_one` use, with
      the options and the attribute calls they see. */
  class Dumper {
    var out: seq<string>
    var headerPrinted: bool
    var haveNames: bool
    var hadErrors: nat
    const opts: Options
    const list: Lister
    const get: Getter
    const accept: string -> bool

    function Current(): State
      reads this
    {
      State(out, headerPrinted, haveNames, hadErrors)
    }

    constructor(opts: Options, list: Lister, get: Getter, accept: string -> bool)
      ensures Current() == State([], false, false, 0)
      ensures this.opts == opts && this.list == list && this.get == get && this.accept == accept
    {
      this.opts := opts;
      this.list := list;
      this.get := get;
      this.accept := accept;
      out := [];
      headerPrinted := false;
      haveNames := false;
      hadErrors := 0;
    }

    /** `get_one(path, name)`. */
    method GetOne(path: string, name: string) returns (error: int)
      modifies this
      ensures (error, Current()) == GotOne(opts, get, path, name, old(Current()))
    {
      ghost var s0 := Current();
      ghost var g := GotOne(opts, get, path, name, s0);
      var value: seq<byte> := [];
      if opts.dump || opts.valueOnly {
        var f := get(path, name);
        if f.GetFailed? {
          if HasPrefix(name, "system.") && f.errno == ENOATTR {
            return 0;
          }
          return 1;
        }
        value := f.value;
      }
      assert Fetched(opts, get, path, name) == Got(value);
      var p := path;
      if opts.stripLeadingSlash {
        p := StripLeadingSlash(path);
      }
      assert "# file: " + p == HeaderLine(opts, path);
      if !headerPrinted && !opts.valueOnly {
        out := out + ["# file: " + p];
        headerPrinted := true;
      }
      ghost var head := if !s0.header && !opts.valueOnly then [HeaderLine(opts, path)] else [];
      assert out == s0.out + head;
      if opts.valueOnly {
        out := out + [ValueText(value)];
      } else if |value| != 0 {
        var e := Encode.Encode(value, opts.encoding);
        out := out + [name + "=" + e];
      } else {
        out := out + [name];
      }
      assert out == s0.out + head + [ValueLine(opts, name, value)];
      error := 0;
    }

    /** `do_get_all(path, ...)`. */
    method DoGetAll(path: string) returns (r: int)
      modifies this
      ensures (r, Current()) == GotAll(opts, list, get, accept, path, old(Current()))
    {
      ghost var s0 := Current();
      var l := list(path);
      var names: seq<string> := [];
      if l.ListFailed? {
        if l.errno != ENOATTR && l.errno != ENOTSUP {
          hadErrors := hadErrors + 1;
          return 1;
        }
      } else if |l.names| > 0 {
        names := SortedAccepted(l.names);
        if |names| > 0 {
          haveNames := true;
        }
      }
      assert names == if l.Listed? then Sort(Accepted(accept, l.names)) else [];
      assert Current() == s0.(haveNames := s0.haveNames || names != []);
      if haveNames {
        headerPrinted := false;
        ghost var s1 := Current();
        assert s1 == s0.(header := false, haveNames := true);
        GetEach(path, names);
        assert Current() == GotEach(opts, get, path, names, s1);
        if headerPrinted {
          out := out + [""];
        }
      }
      r := 0;
    }

    /** The two passes over the listing and the `qsort`: the names the pattern accepts,
        in `strcmp` order. */
    method SortedAccepted(names: seq<AttrName>) returns (r: seq<AttrName>)
      ensures r == Sort(Accepted(accept, names))
    {
      var kept := KeepAccepted(names);
      r := kept;
      if |kept| > 0 {
        var a := new string[|kept|](k requires 0 <= k < |kept| => kept[k]);
        assert a[..] == kept;
        assert AllNames(kept);
        SortNames(a);
        PermutedNames(kept, a[..]);
        SortedIsSort(kept, a[..]);
        r := a[..];
      }
    }

    /** `get_one(path, names[n])` for `n` from 0 up to `count`. */
    method GetEach(path: string, names: seq<string>)
      modifies this
      ensures Current() == GotEach(opts, get, path, names, old(Current()))
    {
      ghost var start := Current();
      var n := 0;
      while n < |names|
        invariant 0 <= n <= |names|
        invariant GotEach(opts, get, path, names[n..], Current()) == GotEach(opts, get, path, names, start)
      {
        ghost var before := Current();
        var _ := GetOne(path, names[n]);
        assert names[n..][1..] == names[n + 1..];
        assert GotEach(opts, get, path, names[n..], before) == GotEach(opts, get, path, names[n + 1..], Current());
        n := n + 1;
      }
    }

    /** The pass over the listing that keeps the names the pattern accepts. */
    method KeepAccepted(names: seq<AttrName>) returns (kept: seq<AttrName>)
      ensures kept == Accepted(accept, names)
    {
      kept := [];
      var n := 0;
      while n < |names|
        invariant 0 <= n <= |names|
        invariant kept + Accepted(accept, names[n..]) == Accepted(accept, names)
      {
        assert names[n..][1..] == names[n + 1..];
        if accept(names[n]) {
          assert kept + Accepted(accept, names[n..]) == (kept + [names[n]]) + Accepted(accept, names[n + 1..]);
          kept := kept + [names[n]];
        }
        n := n + 1;
      }
      assert kept + [] == kept;
    }

    /** `do_get_one(path, ..., name)`. */
    method DoGetOne(path: string, name: string) returns (error: int)
      modifies this
      ensures (error, Current()) == GotNamed(opts, get, path, name, old(Current()))
    {
      headerPrinted := false;
      error := GetOne(path, name);
      if headerPrinted {
        out := out + [""];
      }
    }
  }
}
