/** `setfattr --restore`: reading back what `getfattr --dump` prints. `next_line` reads
    the file line by line with `fgets` and strips the line ends; `restore` skips blank
    lines, wants a `# file: ` header for each block and hands every attribute line of
    the block, split at its first `=`, to `do_set`, which decodes the value and calls
    `setxattr` (or `removexattr` when `-x` was given). The file is a string; the
    attribute calls are recorded in a trace, and whether each succeeds is a function
    given to the model. */
module Restore {
  import opened Common
  import Decode

  // ---------------------------------------------------------------- reading lines

  /** The size of `next_line`'s static buffer: `_POSIX_PATH_MAX + 32`. */
  const LINE_SIZE: nat := 256 + 32

  /** Where `fgets` into the `LINE_SIZE` buffer stops, reading from `i` on: after a
      newline, at the end of the file, or when the buffer is full. */
  function ChunkEnd(rest: string, i: nat): (j: nat)
    requires i <= |rest| && i < LINE_SIZE
    ensures i <= j <= |rest|
    decreases |rest| - i
  {
    if i == |rest| || i == LINE_SIZE - 1 then i
    else if rest[i] == '\n' then i + 1
    else ChunkEnd(rest, i + 1)
  }

  lemma {:induction false} ChunkEndMoves(rest: string, i: nat)
    requires i <= |rest| && i < LINE_SIZE
    ensures ChunkEnd(rest, i) < LINE_SIZE
    ensures i < |rest| && i < LINE_SIZE - 1 ==> i < ChunkEnd(rest, i)
    decreases |rest| - i
  {
    if !(i == |rest| || i == LINE_SIZE - 1 || rest[i] == '\n') {
      ChunkEndMoves(rest, i + 1);
    }
  }

  /** What `fgets` reads and what it leaves of the file; `None` at the end of the file. */
  function Fgets(rest: string): (r: Option<(string, string)>)
  {
    if rest == [] then None
    else
      var k := ChunkEnd(rest, 0);
      Some((rest[..k], rest[k..]))
  }

  /** A chunk `fgets` reads has at most `LINE_SIZE - 1` characters and a newline only
      at its end; it ends with a newline, fills the buffer or takes the rest of the file. */
  lemma FgetsChunk(rest: string)
    requires rest != []
    ensures var (c, r) := Fgets(rest).value;
      && c + r == rest && c != []
      && |c| <= LINE_SIZE - 1
      && (forall k | 0 <= k < |c| - 1 :: c[k] != '\n')
      && (c[|c| - 1] == '\n' || |c| == LINE_SIZE - 1 || r == [])
  {
    var k := ChunkEnd(rest, 0);
    ChunkEndMoves(rest, 0);
    ChunkEndShape(rest, 0);
    assert rest[..k] + rest[k..] == rest;
  }

  lemma {:induction false} ChunkEndShape(rest: string, i: nat)
    requires i <= |rest| && i < LINE_SIZE
    ensures var j := ChunkEnd(rest, i);
      && (forall k | i <= k < j - 1 :: rest[k] != '\n')
      && (j == |rest| || j == LINE_SIZE - 1 || (j > i && rest[j - 1] == '\n'))
    decreases |rest| - i
  {
    if !(i == |rest| || i == LINE_SIZE - 1) && rest[i] != '\n' {
      ChunkEndShape(rest, i + 1);
    }
  }

  /** The C string in the buffer: what comes before the first NUL. */
  function BeforeNul(s: string): (r: string)
  {
    if s == [] || s[0] == '\0' then [] else [s[0]] + BeforeNul(s[1..])
  }

  /** The C string is a prefix of the buffer without a NUL, followed in the buffer by a
      NUL unless it fills the buffer. */
  lemma {:induction false} BeforeNulShape(s: string)
    ensures var r := BeforeNul(s);
      && |r| <= |s| && r == s[..|r|]
      && (forall k | 0 <= k < |r| :: r[k] != '\0')
      && (|r| < |s| ==> s[|r|] == '\0')
    decreases |s|
  {
    if s != [] && s[0] != '\0' {
      BeforeNulShape(s[1..]);
    }
  }

  predicate IsLineEnd(c: char)
  {
    c == '\n' || c == '\r'
  }

  /** The line with every `\n` and `\r` at its end removed. */
  function TrimEol(s: string): string
  {
    if s != [] && IsLineEnd(s[|s| - 1]) then TrimEol(s[..|s| - 1]) else s
  }

  /** Trimming keeps a prefix of the line, removes only line ends, and leaves no
      line end at the end. */
  lemma {:induction false} TrimEolShape(s: string)
    ensures var r := TrimEol(s);
      && |r| <= |s| && r == s[..|r|]
      && (forall k | |r| <= k < |s| :: IsLineEnd(s[k]))
      && (r == [] || !IsLineEnd(r[|r| - 1]))
    decreases |s|
  {
    if s != [] && IsLineEnd(s[|s| - 1]) {
      var t := s[..|s| - 1];
      TrimEolShape(t);
      assert TrimEol(t) == t[..|TrimEol(t)|] == s[..|TrimEol(t)|];
    }
  }

  /** The rest of the line is left as it is: a line that does not end in a line end,
      followed by line ends, trims to itself. */
  lemma {:induction false} TrimEolKeeps(line: string, ends: string)
    requires line == [] || !IsLineEnd(line[|line| - 1])
    requires forall k | 0 <= k < |ends| :: IsLineEnd(ends[k])
    ensures TrimEol(line + ends) == line
    decreases |ends|
  {
    if ends == [] {
      assert line + ends == line;
    } else {
      var s := line + ends;
      assert s[..|s| - 1] == line + ends[..|ends| - 1];
      TrimEolKeeps(line, ends[..|ends| - 1]);
    }
  }

  /** What `next_line` gives: a line without its line ends and what is left of the
      file, or the end of the file. */
  datatype Read = Eof | Line(text: string, rest: string)

  /** `next_line` on what is left of the file. */
  function NextLineOf(file: string): (r: Read)
    ensures r.Eof? <==> file == []
    ensures r.Line? ==> |r.rest| < |file|
  {
    ChunkEndMoves(file, 0);
    match Fgets(file)
    case None => Eof
    case Some((c, rest)) => Line(TrimEol(BeforeNul(c)), rest)
  }

  /** A way of reading lines that always consumes some of the file; the restore is
      stated for any of them, and `setfattr` reads with `NextLineOf`. */
  type Reader = next: string -> Read | forall file :: next(file).Line? ==> |next(file).rest| < |file|
    witness (file: string) => Eof

  /** Every line `next` returns for a file, in order. */
  function Lines(next: Reader, file: string): seq<string>
    decreases |file|
  {
    var r := next(file);
    if r.Eof? then [] else [r.text] + Lines(next, r.rest)
  }

  // ---------------------------------------------------------------- printed files

  /** A file as `puts` and `printf("...\n")` write it: each line followed by a newline. */
  function Printed(lines: seq<string>): string
  {
    if lines == [] then [] else lines[0] + "\n" + Printed(lines[1..])
  }

  /** A line that can come back as it was printed: no newline or NUL inside it, and no
      carriage return at its end for `next_line` to strip. */
  predicate Unbroken(l: string)
  {
    && (forall k | 0 <= k < |l| :: l[k] != '\n' && l[k] != '\0')
    && (l == [] || l[|l| - 1] != '\r')
  }

  /** A printed line that fits `next_line`'s buffer together with its newline and NUL. */
  predicate FitsBuffer(l: string)
  {
    Unbroken(l) && |l| <= LINE_SIZE - 2
  }

  lemma UnbrokenJoin(a: string, b: string)
    requires Unbroken(a) && Unbroken(b)
    ensures Unbroken(a + b)
  {
    forall k | 0 <= k < |a + b| ensures (a + b)[k] != '\n' && (a + b)[k] != '\0' {
      if k >= |a| {
        assert (a + b)[k] == b[k - |a|];
      }
    }
    if b == [] {
      assert a + b == a;
    } else {
      assert (a + b)[|a + b| - 1] == b[|b| - 1];
    }
  }

  /** `fgets` stops just after the first newline when it comes before the buffer is full. */
  lemma {:induction false} ChunkEndAtNewline(s: string, i: nat, n: nat)
    requires i <= n < |s| && n < LINE_SIZE - 1 && s[n] == '\n'
    requires forall k | i <= k < n :: s[k] != '\n'
    ensures ChunkEnd(s, i) == n + 1
    decreases n - i
  {
    if i < n {
      ChunkEndAtNewline(s, i + 1, n);
    }
  }

  /** `fgets` stops with a full buffer when the first `LINE_SIZE - 1` characters hold
      no newline. */
  lemma {:induction false} ChunkEndFull(s: string, i: nat)
    requires i <= LINE_SIZE - 1 <= |s|
    requires forall k | i <= k < LINE_SIZE - 1 :: s[k] != '\n'
    ensures ChunkEnd(s, i) == LINE_SIZE - 1
    decreases LINE_SIZE - 1 - i
  {
    if i < LINE_SIZE - 1 {
      ChunkEndFull(s, i + 1);
    }
  }

  /** A buffer without a NUL is read whole as a C string. */
  lemma {:induction false} BeforeNulFree(s: string)
    requires forall k | 0 <= k < |s| :: s[k] != '\0'
    ensures BeforeNul(s) == s
    decreases |s|
  {
    if s != [] {
      BeforeNulFree(s[1..]);
      assert [s[0]] + s[1..] == s;
    }
  }

  /** A printed line, its newline removed, read back as a C string. */
  lemma PrintedLineText(l: string)
    requires Unbroken(l)
    ensures TrimEol(BeforeNul(l + "\n")) == l
  {
    var c := l + "\n";
    forall k | 0 <= k < |c| ensures c[k] != '\0' {
      if k < |l| {
        assert c[k] == l[k];
      }
    }
    BeforeNulFree(c);
    TrimEolKeeps(l, "\n");
  }

  /** `next_line` reads a printed line that fits its buffer back as it was printed,
      and leaves the lines after it. */
  lemma NextLineOfPrinted(l: string, rest: string)
    requires FitsBuffer(l)
    ensures NextLineOf(l + "\n" + rest) == Line(l, rest)
  {
    var s := l + "\n" + rest;
    forall k | 0 <= k < |l| ensures s[k] != '\n' {
      assert s[k] == l[k];
    }
    ChunkEndAtNewline(s, 0, |l|);
    assert s[..|l| + 1] == l + "\n" && s[|l| + 1..] == rest;
    PrintedLineText(l);
  }

  /** A printed line of `LINE_SIZE - 1` characters or more does not come back: one
      `fgets` call stops with the buffer full, and what it leaves is not the lines
      after it but the end of this one. */
  lemma LongLineSplits(l: string, rest: string)
    requires Unbroken(l) && |l| >= LINE_SIZE - 1
    ensures NextLineOf(l + "\n" + rest) != Line(l, rest)
  {
    var s := l + "\n" + rest;
    forall k | 0 <= k < LINE_SIZE - 1 ensures s[k] != '\n' {
      assert s[k] == l[k];
    }
    ChunkEndFull(s, 0);
    assert NextLineOf(s).rest == s[LINE_SIZE - 1..];
    assert |s[LINE_SIZE - 1..]| > |rest|;
  }

  /** `next_line` reads back every line of a printed file whose lines all fit its buffer. */
  lemma {:induction false} PrintedReadBack(lines: seq<string>)
    requires forall k | 0 <= k < |lines| :: FitsBuffer(lines[k])
    ensures Lines(NextLineOf, Printed(lines)) == lines
    decreases |lines|
  {
    if lines != [] {
      NextLineOfPrinted(lines[0], Printed(lines[1..]));
      PrintedReadBack(lines[1..]);
      assert [lines[0]] + lines[1..] == lines;
    }
  }

  /** Where a line read whole ends: at its newline, or at the end of the file. */
  function WholeLineEnd(file: string, i: nat): (j: nat)
    requires i <= |file|
    ensures i <= j <= |file| && (j < |file| ==> file[j] == '\n')
    decreases |file| - i
  {
    if i == |file| || file[i] == '\n' then i else WholeLineEnd(file, i + 1)
  }

  /** No newline comes before the end `WholeLineEnd` finds. */
  lemma {:induction false} WholeLineEndFirst(file: string, i: nat, n: nat)
    requires i <= n < |file| && file[n] == '\n'
    requires forall k | i <= k < n :: file[k] != '\n'
    ensures WholeLineEnd(file, i) == n
    decreases n - i
  {
    if i < n {
      WholeLineEndFirst(file, i + 1, n);
    }
  }

  /** `next_line` as it reads when its buffer grows until the whole line is in: up to
      and including the newline, or the rest of the file, then cut at a NUL and
      trimmed as before. */
  function NextWholeLine(file: string): (r: Read)
    ensures r.Eof? <==> file == []
    ensures r.Line? ==> |r.rest| < |file|
  {
    if file == [] then Eof
    else
      var j := WholeLineEnd(file, 0);
      var k := if j < |file| then j + 1 else j;
      Line(TrimEol(BeforeNul(file[..k])), file[k..])
  }

  /** The whole-line reader reads every printed line without a newline, NUL or final
      carriage return back as it was printed, however long. */
  lemma NextWholeLinePrinted(l: string, rest: string)
    requires Unbroken(l)
    ensures NextWholeLine(l + "\n" + rest) == Line(l, rest)
  {
    var s := l + "\n" + rest;
    forall k | 0 <= k < |l| ensures s[k] != '\n' {
      assert s[k] == l[k];
    }
    WholeLineEndFirst(s, 0, |l|);
    assert s[..|l| + 1] == l + "\n" && s[|l| + 1..] == rest;
    PrintedLineText(l);
  }

  /** The whole-line reader reads back every line of a printed file whose lines hold no
      newline, no NUL and no final carriage return. */
  lemma {:induction false} PrintedWholeReadBack(lines: seq<string>)
    requires forall k | 0 <= k < |lines| :: Unbroken(lines[k])
    ensures Lines(NextWholeLine, Printed(lines)) == lines
    decreases |lines|
  {
    if lines != [] {
      NextWholeLinePrinted(lines[0], Printed(lines[1..]));
      PrintedWholeReadBack(lines[1..]);
      assert [lines[0]] + lines[1..] == lines;
    }
  }

  // ---------------------------------------------------------------- attribute lines

  /** An attribute line split at its first `=`: the name, and the text after the `=`,
      or `None` when the line has no `=`. */
  datatype Attr = Attr(name: string, value: Option<string>)

  /** `strchr(l, '=')` from `i` on: the index of the first `=`, or the length. */
  function FirstEq(l: string, i: nat): (k: nat)
    requires i <= |l|
    ensures i <= k <= |l|
    decreases |l| - i
  {
    if i == |l| || l[i] == '=' then i else FirstEq(l, i + 1)
  }

  /** `strchr` finds the first `=` from `i` on, or there is none. */
  lemma {:induction false} FirstEqShape(l: string, i: nat)
    requires i <= |l|
    ensures var k := FirstEq(l, i);
      && (k < |l| ==> l[k] == '=')
      && (forall j | i <= j < k :: l[j] != '=')
    decreases |l| - i
  {
    if i < |l| && l[i] != '=' {
      FirstEqShape(l, i + 1);
    }
  }

  function Split(l: string): Attr
  {
    var k := FirstEq(l, 0);
    if k == |l| then Attr(l, None) else Attr(l[..k], Some(l[k + 1..]))
  }

  /** The name never holds a `=`; with a value, the line is the name, `=` and the
      value; without one, the line has no `=` and is all name. */
  lemma SplitAtFirstEq(l: string)
    ensures var a := Split(l);
      && (forall j | 0 <= j < |a.name| :: a.name[j] != '=')
      && (a.value.None? <==> forall j | 0 <= j < |l| :: l[j] != '=')
      && (a.value.Some? ==> l == a.name + "=" + a.value.value)
      && (a.value.None? ==> l == a.name)
  {
    var k := FirstEq(l, 0);
    FirstEqShape(l, 0);
    if k < |l| {
      assert l == l[..k] + "=" + l[k + 1..];
    }
  }

  /** A line made of a name without `=`, `=` and a value splits back into both. */
  lemma SplitJoin(name: string, value: string)
    requires forall j | 0 <= j < |name| :: name[j] != '='
    ensures Split(name + "=" + value) == Attr(name, Some(value))
  {
    var l := name + "=" + value;
    assert l[|name|] == '=';
    FirstEqAt(l, 0, |name|);
    assert l[..|name|] == name && l[|name| + 1..] == value;
  }

  lemma {:induction false} FirstEqAt(l: string, i: nat, k: nat)
    requires i <= k < |l| && l[k] == '='
    requires forall j | i <= j < k :: l[j] != '='
    ensures FirstEq(l, i) == k
    decreases k - i
  {
    if i < k {
      FirstEqAt(l, i + 1, k);
    }
  }

  // ---------------------------------------------------------------- setting attributes

  /** One attribute call: `setxattr(path, name, value)` or `removexattr(path, name)`. */
  datatype Op = SetValue(path: string, name: string, value: seq<byte>) | Remove(path: string, name: string)

  /** How a value is decoded: `decode`, `None` when the value is malformed. */
  type Decoder = string -> Option<seq<byte>>

  /** What `do_set` depends on besides its arguments: the decoder, `opt_remove`, and
      whether each attribute call succeeds. The restore is stated for any decoder;
      `setfattr` uses `Decode.Decoded`. */
  datatype Env = Env(next: Reader, decode: Decoder, remove: bool, applies: Op -> bool)

  /** The calls made so far and `had_errors`. */
  datatype SetState = SetState(ops: seq<Op>, hadErrors: nat)

  /** `do_set(name, value, path)`: its result and the state after it. */
  function DoneSet(env: Env, a: Attr, path: string, s: SetState): (int, SetState)
  {
    var decoded := if a.value.Some? then env.decode(a.value.value) else Some([]);
    if decoded.None? then (1, s.(hadErrors := s.hadErrors + 1))
    else
      var op := if env.remove then Remove(path, a.name) else SetValue(path, a.name, decoded.value);
      var t := s.(ops := s.ops + [op]);
      if env.applies(op) then (0, t) else (1, t.(hadErrors := t.hadErrors + 1))
  }

  /** `t` is `s` with calls added after the ones `s` made and no error uncounted. */
  predicate Extends(s: SetState, t: SetState)
  {
    |s.ops| <= |t.ops| && t.ops[..|s.ops|] == s.ops && s.hadErrors <= t.hadErrors
  }

  lemma ExtendsTrans(s: SetState, t: SetState, u: SetState)
    requires Extends(s, t) && Extends(t, u)
    ensures Extends(s, u)
  {
    assert u.ops[..|s.ops|] == u.ops[..|t.ops|][..|s.ops|];
  }

  /** `do_set` makes at most one call, returns 1 exactly when it counts an error, and
      sets the decoded value (the empty value for a line without `=`). A value that
      does not decode makes no call. */
  lemma DoneSetShape(env: Env, a: Attr, path: string, s: SetState)
    ensures var (r, t) := DoneSet(env, a, path, s);
      && (r == 0 || r == 1)
      && t.hadErrors == s.hadErrors + r
      && Extends(s, t) && |t.ops| <= |s.ops| + 1
      && (a.value.Some? && env.decode(a.value.value).None? ==> r == 1 && t.ops == s.ops)
      && (!env.remove && a.value.None? ==> t.ops == s.ops + [SetValue(path, a.name, [])])
      && (!env.remove && a.value.Some? && env.decode(a.value.value).Some? ==>
            t.ops == s.ops + [SetValue(path, a.name, env.decode(a.value.value).value)])
      && (env.remove && (a.value.None? || env.decode(a.value.value).Some?) ==>
            t.ops == s.ops + [Remove(path, a.name)])
      && (|t.ops| > |s.ops| ==> (r == 0 <==> env.applies(t.ops[|s.ops|])))
  {
    var (r, t) := DoneSet(env, a, path, s);
    assert t.ops[..|s.ops|] == s.ops;
  }

  // ---------------------------------------------------------------- restore, line by line

  const HEADER := "# file: "

  /** How many `next_line` calls a read has left to give: none at the end of the file. */
  function Left(r: Read): nat
  {
    if r.Eof? then 0 else |r.rest| + 1
  }

  /** The loop of `restore` that skips blank lines, from the line `r` just read, with
      `line` lines counted: the first line that is not blank and the count. */
  function SkipBlanks(next: Reader, r: Read, line: nat): (Read, nat)
    decreases Left(r)
  {
    if r.Line? && r.text == "" then SkipBlanks(next, next(r.rest), line + 1) else (r, line)
  }

  /** What the attribute loop of `restore` leaves: the line that ended the block, the
      line count, `status` and the state. */
  datatype Run = Run(stop: Read, line: nat, status: int, state: SetState)

  /** The loop of `restore` over the attribute lines of a block, from the line `r` just
      read: `do_set` for each line up to a blank one or the end of the file, each
      result replacing `status`. */
  function SetLines(env: Env, r: Read, line: nat, path: string, status: int, s: SetState): Run
    decreases Left(r)
  {
    if r.Eof? || r.text == "" then Run(r, line, status, s)
    else
      var (st, t) := DoneSet(env, Split(r.text), path, s);
      SetLines(env, env.next(r.rest), line + 1, path, st, t)
  }

  /** What `restore` gives back: its status, the line number its "No filename found"
      message reports when it aborts, and the state. */
  datatype Restored = Restored(status: int, abortLine: Option<nat>, state: SetState)

  /** The `for (;;)` loop of `restore` on what is left of the file, with `line` lines
      counted: `status` is the result of the last `do_set`. */
  function RestoreFrom(env: Env, file: string, line: nat, status: int, s: SetState): Restored
    decreases |file|, 2
  {
    var (r, n) := SkipBlanks(env.next, env.next(file), line);
    SkipIsLater(env.next, env.next(file), line);
    if r.Eof? then Restored(status, None, s)
    else if !HasPrefix(r.text, HEADER) then Restored(1, Some(line), s)
    else RestoreBlock(env, r, n + 1, status, s)
  }

  /** The rest of `restore` once the header line `header` is read, `line` lines
      counted: the attribute lines of the block, then the loop again. */
  function RestoreBlock(env: Env, header: Read, line: nat, status: int, s: SetState): Restored
    requires header.Line? && HasPrefix(header.text, HEADER)
    decreases Left(header), 1
  {
    StopIsLater(env, env.next(header.rest), line, header.text[|HEADER|..], status, s);
    AfterBlock(env, SetLines(env, env.next(header.rest), line, header.text[|HEADER|..], status, s))
  }

  /** The rest of `restore` once a block ends with what `run` leaves. */
  function AfterBlock(env: Env, run: Run): Restored
    decreases Left(run.stop), 0
  {
    if run.stop.Eof? then Restored(run.status, None, run.state)
    else RestoreFrom(env, run.stop.rest, run.line + 1, run.status, run.state)
  }

  /** What `RestoreFrom` does once the blank lines are skipped, up to the line `r`
      with `n` lines counted. */
  lemma StepFrom(env: Env, file: string, line: nat, status: int, s: SetState, r: Read, n: nat)
    requires SkipBlanks(env.next, env.next(file), line) == (r, n)
    ensures r.Eof? ==> RestoreFrom(env, file, line, status, s) == Restored(status, None, s)
    ensures r.Line? && !HasPrefix(r.text, HEADER) ==> RestoreFrom(env, file, line, status, s) == Restored(1, Some(line), s)
    ensures r.Line? && HasPrefix(r.text, HEADER) ==> RestoreFrom(env, file, line, status, s) == RestoreBlock(env, r, n + 1, status, s)
  {
  }

  /** What `AfterBlock` does at the end of the file and before the blank line `stop`. */
  lemma StepAfter(env: Env, stop: Read, line: nat, status: int, s: SetState)
    ensures stop.Eof? ==> AfterBlock(env, Run(stop, line, status, s)) == Restored(status, None, s)
    ensures stop.Line? ==> AfterBlock(env, Run(stop, line, status, s)) == RestoreFrom(env, stop.rest, line + 1, status, s)
  {
  }

  /** What `RestoreBlock` does once the attribute lines are read. */
  lemma StepAfterBlock(env: Env, header: Read, line: nat, status: int, s: SetState)
    requires header.Line? && HasPrefix(header.text, HEADER)
    ensures RestoreBlock(env, header, line, status, s) ==
      AfterBlock(env, SetLines(env, env.next(header.rest), line, header.text[|HEADER|..], status, s))
  {
  }

  /** The first line that is not blank comes later in the file. */
  lemma {:induction false} SkipIsLater(next: Reader, r: Read, line: nat)
    ensures Left(SkipBlanks(next, r, line).0) <= Left(r)
    decreases Left(r)
  {
    if r.Line? && r.text == "" {
      SkipIsLater(next, next(r.rest), line + 1);
    }
  }

  /** The line that ends a block comes later in the file. */
  lemma {:induction false} StopIsLater(env: Env, r: Read, line: nat, path: string, status: int, s: SetState)
    ensures Left(SetLines(env, r, line, path, status, s).stop) <= Left(r)
    decreases Left(r)
  {
    if !(r.Eof? || r.text == "") {
      var (st, t) := DoneSet(env, Split(r.text), path, s);
      StopIsLater(env, env.next(r.rest), line + 1, path, st, t);
    }
  }

  /** `restore(file, filename)`. */
  function Restoring(env: Env, file: string, s: SetState): Restored
  {
    RestoreFrom(env, file, 0, 0, s)
  }

  // ---------------------------------------------------------------- restore, on the list of lines

  /** The first line from `i` on that is not blank, or the number of lines. */
  function Blanks(lines: seq<string>, i: nat): (j: nat)
    requires i <= |lines|
    ensures i <= j <= |lines| && (j < |lines| ==> lines[j] != "")
    decreases |lines| - i
  {
    if i == |lines| || lines[i] != "" then i else Blanks(lines, i + 1)
  }

  /** The first blank line from `i` on, or the number of lines: where a block ends. */
  function BlockEnd(lines: seq<string>, i: nat): (j: nat)
    requires i <= |lines|
    ensures i <= j <= |lines| && (j < |lines| ==> lines[j] == "")
    decreases |lines| - i
  {
    if i == |lines| || lines[i] == "" then i else BlockEnd(lines, i + 1)
  }

  /** `do_set` for the attribute lines `k` up to `e`, each result replacing `status`. */
  function SetRun(env: Env, lines: seq<string>, k: nat, e: nat, path: string, status: int, s: SetState): (int, SetState)
    requires k <= e <= |lines|
    decreases e - k
  {
    if k == e then (status, s)
    else
      var (r, t) := DoneSet(env, Split(lines[k]), path, s);
      SetRun(env, lines, k + 1, e, path, r, t)
  }

  /** The restore as a function of the lines of the file, from line `i` on: blank lines
      are skipped, a block starts with a header, and its attribute lines run up to the
      next blank line. */
  function RestoreLines(env: Env, lines: seq<string>, i: nat, status: int, s: SetState): Restored
    requires i <= |lines|
    decreases |lines| - i, 1
  {
    var j := Blanks(lines, i);
    if j == |lines| then Restored(status, None, s)
    else if !HasPrefix(lines[j], HEADER) then Restored(1, Some(i), s)
    else BlockLines(env, lines, j, status, s)
  }

  /** The block whose header is line `j`. */
  function BlockLines(env: Env, lines: seq<string>, j: nat, status: int, s: SetState): Restored
    requires j < |lines| && HasPrefix(lines[j], HEADER)
    decreases |lines| - j, 0
  {
    var e := BlockEnd(lines, j + 1);
    var (r, t) := SetRun(env, lines, j + 1, e, lines[j][|HEADER|..], status, s);
    if e == |lines| then Restored(r, None, t) else RestoreLines(env, lines, e + 1, r, t)
  }

  /** The read `r` is line `i` of `lines` with the lines after it still to come, or
      the end once all lines are read. */
  predicate ReadsAt(next: Reader, r: Read, lines: seq<string>, i: nat)
  {
    i <= |lines|
    && (r.Eof? <==> i == |lines|)
    && (r.Line? ==> r.text == lines[i] && Lines(next, r.rest) == lines[i + 1..])
  }

  /** Reading the next line of a file whose remaining lines are `lines[i..]`. */
  lemma NextReadsAt(next: Reader, file: string, lines: seq<string>, i: nat)
    requires i <= |lines| && Lines(next, file) == lines[i..]
    ensures ReadsAt(next, next(file), lines, i)
  {
    var r := next(file);
    if r.Line? {
      assert lines[i..][0] == r.text;
      assert lines[i..][1..] == lines[i + 1..];
    }
  }

  lemma {:induction false} SkipBlanksIsBlanks(next: Reader, r: Read, lines: seq<string>, i: nat)
    requires ReadsAt(next, r, lines, i)
    ensures var (r', n) := SkipBlanks(next, r, i); n == Blanks(lines, i) && ReadsAt(next, r', lines, n)
    decreases |lines| - i
  {
    if r.Line? && r.text == "" {
      NextReadsAt(next, r.rest, lines, i + 1);
      SkipBlanksIsBlanks(next, next(r.rest), lines, i + 1);
    }
  }

  lemma {:induction false} SetLinesIsSetRun(env: Env, r: Read, lines: seq<string>, i: nat, path: string, status: int, s: SetState)
    requires ReadsAt(env.next, r, lines, i)
    ensures var run := SetLines(env, r, i, path, status, s);
      && run.line == BlockEnd(lines, i) && ReadsAt(env.next, run.stop, lines, run.line)
      && (run.status, run.state) == SetRun(env, lines, i, run.line, path, status, s)
    decreases |lines| - i
  {
    if !(r.Eof? || r.text == "") {
      var (st, t) := DoneSet(env, Split(r.text), path, s);
      NextReadsAt(env.next, r.rest, lines, i + 1);
      SetLinesIsSetRun(env, env.next(r.rest), lines, i + 1, path, st, t);
      var run := SetLines(env, env.next(r.rest), i + 1, path, st, t);
      assert SetLines(env, r, i, path, status, s) == run;
      assert lines[i] != "" && lines[i] == r.text;
      assert BlockEnd(lines, i) == BlockEnd(lines, i + 1);
      assert SetRun(env, lines, i, run.line, path, status, s) == SetRun(env, lines, i + 1, run.line, path, st, t);
    } else {
      assert BlockEnd(lines, i) == i;
    }
  }

  /** Reading line by line is restoring from the file's lines: the two agree on the
      status, the line reported and every call made. */
  lemma {:induction false} RestoreFromIsRestoreLines(env: Env, file: string, lines: seq<string>, i: nat, status: int, s: SetState)
    requires i <= |lines| && Lines(env.next, file) == lines[i..]
    ensures RestoreFrom(env, file, i, status, s) == RestoreLines(env, lines, i, status, s)
    decreases |file|
  {
    NextReadsAt(env.next, file, lines, i);
    SkipBlanksIsBlanks(env.next, env.next(file), lines, i);
    SkipIsLater(env.next, env.next(file), i);
    var (r, n) := SkipBlanks(env.next, env.next(file), i);
    if r.Line? && HasPrefix(r.text, HEADER) {
      var run := BlockIsBlockLines(env, r, lines, n, status, s);
      if run.stop.Line? {
        RestoreFromIsRestoreLines(env, run.stop.rest, lines, run.line + 1, run.status, run.state);
      }
    }
  }

  /** A block read line by line is the block of the file's lines, up to what follows. */
  lemma BlockIsBlockLines(env: Env, header: Read, lines: seq<string>, j: nat, status: int, s: SetState) returns (run: Run)
    requires ReadsAt(env.next, header, lines, j) && header.Line? && HasPrefix(header.text, HEADER)
    ensures ReadsAt(env.next, run.stop, lines, run.line) && Left(run.stop) < Left(header)
    ensures RestoreBlock(env, header, j + 1, status, s) == AfterBlock(env, run)
    ensures BlockLines(env, lines, j, status, s) ==
      if run.line == |lines| then Restored(run.status, None, run.state)
      else RestoreLines(env, lines, run.line + 1, run.status, run.state)
  {
    var path := header.text[|HEADER|..];
    var r := env.next(header.rest);
    NextReadsAt(env.next, header.rest, lines, j + 1);
    SetLinesIsSetRun(env, r, lines, j + 1, path, status, s);
    StopIsLater(env, r, j + 1, path, status, s);
    run := SetLines(env, r, j + 1, path, status, s);
    StepAfterBlock(env, header, j + 1, status, s);
    StepBlockLines(env, lines, j, status, s, run.line, run.status, run.state);
  }

  /** What `BlockLines` does once the attribute lines up to `e` are set. */
  lemma StepBlockLines(env: Env, lines: seq<string>, j: nat, status: int, s: SetState, e: nat, r: int, t: SetState)
    requires j < |lines| && HasPrefix(lines[j], HEADER)
    requires j + 1 <= e <= |lines| && e == BlockEnd(lines, j + 1)
    requires (r, t) == SetRun(env, lines, j + 1, e, lines[j][|HEADER|..], status, s)
    ensures BlockLines(env, lines, j, status, s) ==
      if e == |lines| then Restored(r, None, t) else RestoreLines(env, lines, e + 1, r, t)
  {
  }

  /** `restore` on a file is the restore of the lines `next_line` reads from it. */
  lemma RestoringIsRestoreLines(env: Env, file: string, s: SetState)
    ensures Restoring(env, file, s) == RestoreLines(env, Lines(env.next, file), 0, 0, s)
  {
    RestoreFromIsRestoreLines(env, file, Lines(env.next, file), 0, 0, s);
  }

  // ---------------------------------------------------------------- properties

  /** A block whose first line that is not blank lacks the header aborts the restore
      with status 1, reporting the line where the block began, and makes no call. */
  lemma HeaderMissingAborts(env: Env, lines: seq<string>, i: nat, status: int, s: SetState)
    requires i <= |lines|
    requires Blanks(lines, i) < |lines| && !HasPrefix(lines[Blanks(lines, i)], HEADER)
    ensures RestoreLines(env, lines, i, status, s) == Restored(1, Some(i), s)
  {
  }

  /** A blank line between blocks is skipped: the result is that of the lines after it,
      except that an abort reports the earlier line. */
  lemma BlankSkipped(env: Env, lines: seq<string>, i: nat, status: int, s: SetState)
    requires i < |lines| && lines[i] == ""
    ensures var r := RestoreLines(env, lines, i, status, s);
      var r' := RestoreLines(env, lines, i + 1, status, s);
      && r.status == r'.status && r.state == r'.state
      && (r.abortLine == r'.abortLine || (r.abortLine == Some(i) && r'.abortLine == Some(i + 1)))
  {
    assert Blanks(lines, i) == Blanks(lines, i + 1);
  }

  /** A header with no attribute lines after it changes nothing. */
  lemma EmptyBlockNoop(env: Env, lines: seq<string>, i: nat, status: int, s: SetState)
    requires i <= |lines|
    requires var j := Blanks(lines, i); j < |lines| && HasPrefix(lines[j], HEADER)
    requires var j := Blanks(lines, i); j + 1 == |lines| || lines[j + 1] == ""
    ensures var j := Blanks(lines, i);
      RestoreLines(env, lines, i, status, s) ==
        if j + 1 == |lines| then Restored(status, None, s)
        else RestoreLines(env, lines, j + 2, status, s)
  {
  }

  lemma {:induction false} SetRunGrows(env: Env, lines: seq<string>, k: nat, e: nat, path: string, status: int, s: SetState)
    requires k <= e <= |lines|
    ensures Extends(s, SetRun(env, lines, k, e, path, status, s).1)
    decreases e - k
  {
    if k < e {
      var (r, t) := DoneSet(env, Split(lines[k]), path, s);
      DoneSetShape(env, Split(lines[k]), path, s);
      SetRunGrows(env, lines, k + 1, e, path, r, t);
      ExtendsTrans(s, t, SetRun(env, lines, k + 1, e, path, r, t).1);
    } else {
      assert s.ops[..|s.ops|] == s.ops;
    }
  }

  /** The abort line and the status 1 come together; a restore that aborts keeps every
      call made before the bad block, and calls are only ever added. */
  lemma {:induction false} RestoreShape(env: Env, lines: seq<string>, i: nat, status: int, s: SetState)
    requires i <= |lines|
    ensures var r := RestoreLines(env, lines, i, status, s);
      && (r.abortLine.Some? ==> r.status == 1 && i <= r.abortLine.value < |lines|)
      && Extends(s, r.state)
    decreases |lines| - i
  {
    var j := Blanks(lines, i);
    if j < |lines| && HasPrefix(lines[j], HEADER) {
      var e := BlockEnd(lines, j + 1);
      var (r, t) := SetRun(env, lines, j + 1, e, lines[j][|HEADER|..], status, s);
      SetRunGrows(env, lines, j + 1, e, lines[j][|HEADER|..], status, s);
      if e < |lines| {
        RestoreShape(env, lines, e + 1, r, t);
        ExtendsTrans(s, t, RestoreLines(env, lines, e + 1, r, t).state);
      }
    } else {
      assert s.ops[..|s.ops|] == s.ops;
    }
  }

  // ---------------------------------------------------------------- the C routines

  /** The read that `next_line`'s result `l` stands for, `rest` being what is left of
      the file after it. */
  function ReadOf(l: Option<string>, rest: string): Read
  {
    if l.None? then Eof else Line(l.value, rest)
  }

  /** The state of `setfattr` during a restore: what is left of the file, the calls
      made so far and `had_errors`, with what `do_set` depends on. */
  class Restorer {
    var input: string
    var ops: seq<Op>
    var hadErrors: nat
    const env: Env

    function Current(): SetState
      reads this`ops, this`hadErrors
    {
      SetState(ops, hadErrors)
    }

    constructor(file: string, remove: bool, applies: Op -> bool)
      ensures input == file && Current() == SetState([], 0)
      ensures env == Env(NextLineOf, Decode.Decoded, remove, applies)
    {
      input := file;
      ops := [];
      hadErrors := 0;
      env := Env(NextLineOf, Decode.Decoded, remove, applies);
    }

    /** `next_line(file)`. */
    method NextLine() returns (l: Option<string>)
      requires env.next == NextLineOf
      modifies this`input
      ensures ReadOf(l, input) == env.next(old(input))
    {
      ghost var file := input;
      var f := Fgets(input);
      if f.None? {
        assert NextLineOf(file) == Eof;
        return None;
      }
      var line := BeforeNul(f.value.0);
      input := f.value.1;
      var t := TrimLineEnds(line);
      l := Some(t);
      assert NextLineOf(file) == Line(l.value, input);
    }

    /** The loop of `next_line` that overwrites the line ends at the end of the line. */
    static method TrimLineEnds(line: string) returns (t: string)
      ensures t == TrimEol(line)
    {
      var c := |line|;
      assert line[..c] == line;
      while c > 0 && (line[c - 1] == '\n' || line[c - 1] == '\r')
        invariant 0 <= c <= |line| && TrimEol(line[..c]) == TrimEol(line)
      {
        assert line[..c][..c - 1] == line[..c - 1];
        c := c - 1;
      }
      assert line[..c] == TrimEol(line[..c]);
      t := line[..c];
    }

    /** `do_set(name, value, path)`, with the decoding error `decode` counts. */
    method DoSet(a: Attr, path: string) returns (status: int)
      requires env.decode == Decode.Decoded
      modifies this`ops, this`hadErrors
      ensures (status, Current()) == DoneSet(env, a, path, old(Current()))
    {
      var decoded: seq<byte> := [];
      if a.value.Some? {
        var d := Decode.Decode(a.value.value);
        if d.None? {
          hadErrors := hadErrors + 1;
          return 1;
        }
        decoded := d.value;
      }
      var op := if env.remove then Remove(path, a.name) else SetValue(path, a.name, decoded);
      ops := ops + [op];
      if !env.applies(op) {
        hadErrors := hadErrors + 1;
        return 1;
      }
      status := 0;
    }

    /** The loop of `restore` that skips blank lines: `line` counts them. */
    method SkipBlankLines(line0: nat) returns (l: Option<string>, line: nat)
      requires env.next == NextLineOf
      modifies this`input
      ensures (ReadOf(l, input), line) == SkipBlanks(env.next, env.next(old(input)), line0)
    {
      line := line0;
      l := NextLine();
      while l.Some? && l.value == ""
        invariant SkipBlanks(env.next, ReadOf(l, input), line) == SkipBlanks(env.next, env.next(old(input)), line0)
        decreases Left(ReadOf(l, input))
      {
        line := line + 1;
        l := NextLine();
      }
    }

    /** The loop of `restore` over the attribute lines of a block: `do_set` for each,
        `line` counting them. */
    method SetAttributes(line0: nat, path: string, status0: int) returns (l: Option<string>, line: nat, status: int)
      requires env.next == NextLineOf && env.decode == Decode.Decoded
      modifies this
      ensures Run(ReadOf(l, input), line, status, Current()) == SetLines(env, env.next(old(input)), line0, path, status0, old(Current()))
    {
      line, status := line0, status0;
      l := NextLine();
      while l.Some? && l.value != ""
        invariant SetLines(env, ReadOf(l, input), line, path, status, Current()) == SetLines(env, env.next(old(input)), line0, path, status0, old(Current()))
        decreases Left(ReadOf(l, input))
      {
        ghost var r := ReadOf(l, input);
        ghost var (st, t) := DoneSet(env, Split(l.value), path, Current());
        line := line + 1;
        status := DoSet(Split(l.value), path);
        assert (status, Current()) == (st, t);
        l := NextLine();
        assert ReadOf(l, input) == env.next(r.rest);
      }
    }

    /** The block of `restore` after the header line `text`: the path is what follows
        `# file: `, and the attribute lines are set on it. */
    method SetBlock(text: string, line0: nat, status0: int) returns (l: Option<string>, line: nat, status: int)
      requires env.next == NextLineOf && env.decode == Decode.Decoded
      requires HasPrefix(text, HEADER)
      modifies this
      ensures AfterBlock(env, Run(ReadOf(l, input), line, status, Current())) ==
        RestoreBlock(env, Line(text, old(input)), line0, status0, old(Current()))
      ensures l.Some? ==> |input| < |old(input)|
    {
      var path := text[|HEADER|..];
      ghost var header := Line(text, input);
      StepAfterBlock(env, header, line0, status0, Current());
      StopIsLater(env, env.next(input), line0, path, status0, Current());
      l, line, status := SetAttributes(line0, path, status0);
    }

    /** One turn of the `for (;;)` loop of `restore`, with `line0` lines counted and
        `status0` the last result: `done` when the loop ends or aborts. */
    method RestoreStep(line0: nat, status0: int) returns (done: bool, line: nat, status: int, abortLine: Option<nat>)
      requires env.next == NextLineOf && env.decode == Decode.Decoded
      modifies this
      ensures done ==> Restored(status, abortLine, Current()) == RestoreFrom(env, old(input), line0, status0, old(Current()))
      ensures !done ==> RestoreFrom(env, input, line, status, Current()) == RestoreFrom(env, old(input), line0, status0, old(Current()))
      ensures !done ==> |input| < |old(input)|
    {
      ghost var file, s := input, Current();
      ghost var goal := RestoreFrom(env, file, line0, status0, s);
      var l;
      l, line := SkipBlankLines(line0);
      ghost var r := ReadOf(l, input);
      assert Current() == s;
      StepFrom(env, file, line0, status0, s, r, line);
      if l.None? {
        assert Restored(status0, None, Current()) == goal;
        return true, line, status0, None;
      }
      assert |input| < |file| by {
        SkipIsLater(env.next, env.next(file), line0);
      }
      line := line + 1;
      if !HasPrefix(l.value, HEADER) {
        assert Restored(1, Some(line0), Current()) == goal;
        return true, line, 1, Some(line0);
      }
      assert goal == RestoreBlock(env, r, line, status0, s);
      done, line, status := FinishBlock(l.value, line, status0);
      abortLine := None;
    }

    /** The rest of a turn of the `for (;;)` loop once the header line `text` is read:
        the block, and then either the end of the file or the blank line after it. */
    method FinishBlock(text: string, line0: nat, status0: int) returns (done: bool, line: nat, status: int)
      requires env.next == NextLineOf && env.decode == Decode.Decoded
      requires HasPrefix(text, HEADER)
      modifies this
      ensures done ==> Restored(status, None, Current()) == RestoreBlock(env, Line(text, old(input)), line0, status0, old(Current()))
      ensures !done ==> RestoreFrom(env, input, line, status, Current()) == RestoreBlock(env, Line(text, old(input)), line0, status0, old(Current()))
      ensures !done ==> |input| < |old(input)|
    {
      var l;
      l, line, status := SetBlock(text, line0, status0);
      StepAfter(env, ReadOf(l, input), line, status, Current());
      if l.None? {
        return true, line, status;
      }
      line := line + 1;
      done := false;
    }

    /** `restore(file, filename)`: the status, and the line number of the "No filename
        found" message when it aborts. */
    method Restore() returns (status: int, abortLine: Option<nat>)
      requires env.next == NextLineOf && env.decode == Decode.Decoded
      modifies this
      ensures Restored(status, abortLine, Current()) == Restoring(env, old(input), old(Current()))
    {
      status := 0;
      var line := 0;
      while true
        invariant RestoreFrom(env, input, line, status, Current()) == Restoring(env, old(input), old(Current()))
        decreases |input|
      {
        var done;
        done, line, status, abortLine := RestoreStep(line, status);
        if done {
          return;
        }
      }
    }
  }
}
