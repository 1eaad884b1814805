/** What `getfattr --dump` prints for a node is read back by `setfattr --restore`: the
    block of a node makes one `setxattr` per dumped attribute, on the path the header
    names, with the bytes `getfattr` read. This joins the dump formatter, `encode`,
    the restore parser and `decode`. */
module DumpRestore {
  import opened Common
  import opened Encode
  import Decode
  import RoundTrip
  import opened NameOrder
  import opened Dump
  import opened Restore

  /** The value a fetch found, or nothing when it failed. */
  function ValueOf(f: Fetch): seq<byte>
  {
    if f.Got? then f.value else []
  }

  /** Names that can be dumped and read back: each is readable, not empty and holds
      no `=`, so the restore splits its line where the dump joined it. */
  predicate Dumpable(get: Getter, path: string, names: seq<string>)
  {
    && (forall k | 0 <= k < |names| :: names[k] != "" && get(path, names[k]).Got?)
    && (forall k, j | 0 <= k < |names| && 0 <= j < |names[k]| :: names[k][j] != '=')
  }

  /** The calls a restore of the block makes: `setxattr` of each name with its value,
      in the order of the names, on the path `p` of the header. */
  function Restores(p: string, get: Getter, path: string, names: seq<string>): seq<Op>
  {
    if names == [] then [] else [SetValue(p, names[0], ValueOf(get(path, names[0])))] + Restores(p, get, path, names[1..])
  }

  lemma DumpableTail(get: Getter, path: string, names: seq<string>)
    requires names != [] && Dumpable(get, path, names)
    ensures Dumpable(get, path, names[1..])
  {
    forall k | 0 <= k < |names[1..]| ensures names[1..][k] == names[k + 1] {
    }
  }

  /** The call `do_set` records for an attribute line, or None when its value does
      not decode. */
  function LineOp(env: Env, l: string, p: string): Option<Op>
  {
    var a := Split(l);
    var decoded := if a.value.Some? then env.decode(a.value.value) else Some([]);
    if decoded.None? then None
    else Some(if env.remove then Remove(p, a.name) else SetValue(p, a.name, decoded.value))
  }

  lemma DoneSetRecords(env: Env, l: string, p: string, s: SetState)
    requires LineOp(env, l, p).Some?
    ensures DoneSet(env, Split(l), p, s).1.ops == s.ops + [LineOp(env, l, p).value]
  {
  }

  /** `do_set` over the lines `k` up to `e` records the calls of those lines, in order. */
  lemma {:induction false} SetRunRecords(env: Env, lines: seq<string>, k: nat, e: nat, p: string, status: int, s: SetState, want: seq<Op>)
    requires k <= e <= |lines| && |want| == e - k
    requires forall i | k <= i < e :: LineOp(env, lines[i], p) == Some(want[i - k])
    ensures SetRun(env, lines, k, e, p, status, s).1.ops == s.ops + want
    decreases e - k
  {
    if k == e {
      assert s.ops + want == s.ops;
    } else {
      assert LineOp(env, lines[k], p) == Some(want[0]);
      DoneSetRecords(env, lines[k], p, s);
      var (r, t) := DoneSet(env, Split(lines[k]), p, s);
      forall i | k + 1 <= i < e ensures LineOp(env, lines[i], p) == Some(want[1..][i - (k + 1)]) {
        assert want[1..][i - (k + 1)] == want[i - k];
      }
      SetRunRecords(env, lines, k + 1, e, p, r, t, want[1..]);
      assert s.ops + [want[0]] + want[1..] == s.ops + want;
    }
  }

  /** One dumped attribute line, read back: it is not blank, and `do_set` sets the
      value it was dumped from. An empty value is dumped as the bare name, which
      sets the empty value. */
  lemma ValueLineRestores(o: Options, name: string, value: seq<byte>, env: Env, p: string)
    requires o.dump && !o.valueOnly && !env.remove && env.decode == Decode.Decoded
    requires name != [] && forall j | 0 <= j < |name| :: name[j] != '='
    ensures ValueLine(o, name, value) != ""
    ensures LineOp(env, ValueLine(o, name, value), p) == Some(SetValue(p, name, value))
  {
    if |value| != 0 {
      SplitJoin(name, Encoded(value, o.encoding));
      RoundTrip.RoundTrip(value, o.encoding);
    } else {
      SplitAtFirstEq(name);
    }
  }

  /** The value lines of readable names: one per name. */
  lemma {:induction false} ValueLinesAt(o: Options, get: Getter, path: string, names: seq<string>)
    requires o.dump && Dumpable(get, path, names)
    ensures |ValueLines(o, get, path, names)| == |names|
    ensures forall i | 0 <= i < |names| :: ValueLines(o, get, path, names)[i] == ValueLine(o, names[i], ValueOf(get(path, names[i])))
  {
    if names != [] {
      DumpableTail(get, path, names);
      ValueLinesAt(o, get, path, names[1..]);
      var rest := ValueLines(o, get, path, names[1..]);
      assert ValueLines(o, get, path, names) == [ValueLine(o, names[0], ValueOf(get(path, names[0])))] + rest;
      forall i | 1 <= i < |names| ensures ValueLines(o, get, path, names)[i] == ValueLine(o, names[i], ValueOf(get(path, names[i]))) {
        assert names[1..][i - 1] == names[i];
      }
    }
  }

  /** The calls of `Restores`, one per name. */
  lemma {:induction false} RestoresAt(p: string, get: Getter, path: string, names: seq<string>)
    ensures |Restores(p, get, path, names)| == |names|
    ensures forall i | 0 <= i < |names| :: Restores(p, get, path, names)[i] == SetValue(p, names[i], ValueOf(get(path, names[i])))
  {
    if names != [] {
      RestoresAt(p, get, path, names[1..]);
      forall i | 1 <= i < |names| ensures Restores(p, get, path, names)[i] == SetValue(p, names[i], ValueOf(get(path, names[i]))) {
        assert names[1..][i - 1] == names[i];
      }
    }
  }

  /** A block of lines that are not blank ends at the blank line after it. */
  lemma {:induction false} BlockEndAt(lines: seq<string>, i: nat, e: nat)
    requires i <= e <= |lines| && (e == |lines| || lines[e] == "")
    requires forall j | i <= j < e :: lines[j] != ""
    ensures BlockEnd(lines, i) == e
    decreases e - i
  {
    if i < e {
      BlockEndAt(lines, i + 1, e);
    }
  }

  /** A file of one block, a header naming `p` and then lines that are not blank,
      restores without an abort and records the calls of those lines. */
  lemma SingleBlock(env: Env, lines: seq<string>, p: string, s: SetState, want: seq<Op>)
    requires |lines| == |want| + 2 && lines[0] == HEADER + p && lines[|lines| - 1] == ""
    requires forall i | 1 <= i < |lines| - 1 :: lines[i] != "" && LineOp(env, lines[i], p) == Some(want[i - 1])
    ensures var r := RestoreLines(env, lines, 0, 0, s);
      r.abortLine == None && r.state.ops == s.ops + want
  {
    var e := |lines| - 1;
    BlockEndAt(lines, 1, e);
    assert HasPrefix(lines[0], HEADER) && lines[0][|HEADER|..] == p;
    assert Blanks(lines, 0) == 0;
    SetRunRecords(env, lines, 1, e, p, 0, s, want);
    assert RestoreLines(env, lines, 0, 0, s) == BlockLines(env, lines, 0, 0, s);
    var (r, t) := SetRun(env, lines, 1, e, p, 0, s);
    assert BlockLines(env, lines, 0, 0, s) == RestoreLines(env, lines, e + 1, r, t);
    assert Blanks(lines, e + 1) == |lines|;
  }

  /** The lines of a node's block: the header names the dumped path, and each value
      line is not blank and records the call `Restores` lists for its name. */
  lemma BlockLinesRecord(o: Options, get: Getter, path: string, names: seq<string>, env: Env)
    requires o.dump && !o.valueOnly && !env.remove && env.decode == Decode.Decoded
    requires Dumpable(get, path, names)
    ensures var lines := [HeaderLine(o, path)] + ValueLines(o, get, path, names) + [""];
      var want := Restores(DumpedPath(o, path), get, path, names);
      && |lines| == |want| + 2 && lines[0] == HEADER + DumpedPath(o, path) && lines[|lines| - 1] == ""
      && forall i | 1 <= i < |lines| - 1 :: lines[i] != "" && LineOp(env, lines[i], DumpedPath(o, path)) == Some(want[i - 1])
  {
    var p := DumpedPath(o, path);
    var vl := ValueLines(o, get, path, names);
    var want := Restores(p, get, path, names);
    var lines := [HeaderLine(o, path)] + vl + [""];
    ValueLinesAt(o, get, path, names);
    RestoresAt(p, get, path, names);
    forall i | 1 <= i < |lines| - 1 ensures lines[i] != "" && LineOp(env, lines[i], p) == Some(want[i - 1]) {
      var name, v := names[i - 1], ValueOf(get(path, names[i - 1]));
      assert lines[i] == vl[i - 1] == ValueLine(o, name, v);
      assert want[i - 1] == SetValue(p, name, v);
      assert name != [] && forall j | 0 <= j < |name| :: name[j] != '=';
      ValueLineRestores(o, name, v, env, p);
    }
  }

  /** The block a node's dump ends with, restored: no abort, and one `setxattr` per
      name, in order, on the dumped path, with the bytes that were read. */
  lemma BlockRestores(o: Options, get: Getter, path: string, names: seq<string>, env: Env, s: SetState)
    requires o.dump && !o.valueOnly && !env.remove && env.decode == Decode.Decoded
    requires Dumpable(get, path, names)
    ensures var lines := [HeaderLine(o, path)] + ValueLines(o, get, path, names) + [""];
      var r := RestoreLines(env, lines, 0, 0, s);
      r.abortLine == None && r.state.ops == s.ops + Restores(DumpedPath(o, path), get, path, names)
  {
    BlockLinesRecord(o, get, path, names, env);
    SingleBlock(env, [HeaderLine(o, path)] + ValueLines(o, get, path, names) + [""], DumpedPath(o, path), s,
                Restores(DumpedPath(o, path), get, path, names));
  }

  /** A listed node with a readable accepted name prints its header, its value lines
      and a blank line after what was printed before. */
  lemma GotAllBlock(o: Options, list: Lister, get: Getter, accept: string -> bool, path: string, ds: Dump.State)
    requires !o.valueOnly && list(path).Listed?
    requires AnyRead(o, get, path, Sort(Accepted(accept, list(path).names)))
    ensures GotAll(o, list, get, accept, path, ds).1.out
      == ds.out + ([HeaderLine(o, path)] + ValueLines(o, get, path, Sort(Accepted(accept, list(path).names))) + [""])
  {
    GotAllShape(o, list, get, accept, path, ds);
  }

  /** The lines a node's dump adds after what was printed before: its header, its value
      lines and a blank line. */
  lemma DumpedBlock(o: Options, list: Lister, get: Getter, accept: string -> bool, path: string, ds: Dump.State)
    requires !o.valueOnly && list(path).Listed? && Sort(Accepted(accept, list(path).names)) != []
    requires Dumpable(get, path, Sort(Accepted(accept, list(path).names)))
    ensures var t := GotAll(o, list, get, accept, path, ds).1;
      && |ds.out| <= |t.out|
      && t.out[|ds.out|..] == [HeaderLine(o, path)] + ValueLines(o, get, path, Sort(Accepted(accept, list(path).names))) + [""]
  {
    var names := Sort(Accepted(accept, list(path).names));
    assert Fetched(o, get, path, names[0]).Got?;
    GotAllBlock(o, list, get, accept, path, ds);
  }

  /** `getfattr --dump` of a node, then `setfattr --restore` of the lines it printed,
      handed over as a list: the attributes the pattern accepts are set again, in
      `strcmp` order, each with the value `getfattr` read, on the path the header names. */
  lemma DumpThenRestoreLines(o: Options, list: Lister, get: Getter, accept: string -> bool, path: string, ds: Dump.State, env: Env, s: SetState)
    requires o.dump && !o.valueOnly && !env.remove && env.decode == Decode.Decoded
    requires list(path).Listed? && Sort(Accepted(accept, list(path).names)) != []
    requires Dumpable(get, path, Sort(Accepted(accept, list(path).names)))
    ensures var t := GotAll(o, list, get, accept, path, ds).1;
      && |ds.out| <= |t.out|
      && var r := RestoreLines(env, t.out[|ds.out|..], 0, 0, s);
      && r.abortLine == None
      && r.state.ops == s.ops + Restores(DumpedPath(o, path), get, path, Sort(Accepted(accept, list(path).names)))
  {
    DumpedBlock(o, list, get, accept, path, ds);
    BlockRestores(o, get, path, Sort(Accepted(accept, list(path).names)), env, s);
  }

  /** Printable characters never break a line. */
  lemma PrintableUnbroken(l: string)
    requires forall i | 0 <= i < |l| :: Printable(l[i])
    ensures Unbroken(l)
  {
  }

  /** The value line of a name that holds no newline, NUL or final carriage return
      holds none either: the encodings print only printable characters. */
  lemma ValueLineUnbroken(o: Options, name: string, value: seq<byte>)
    requires !o.valueOnly && Unbroken(name)
    ensures Unbroken(ValueLine(o, name, value))
  {
    if |value| != 0 {
      var e := Encoded(value, o.encoding);
      EncodedPrintable(value, o.encoding);
      PrintableUnbroken(e);
      UnbrokenJoin("=", e);
      UnbrokenJoin(name, "=" + e);
      assert name + "=" + e == name + ("=" + e);
    }
  }

  /** Every line of a node's block is unbroken when its path and its names are. */
  lemma BlockUnbroken(o: Options, get: Getter, path: string, names: seq<string>)
    requires o.dump && !o.valueOnly && Dumpable(get, path, names)
    requires Unbroken(DumpedPath(o, path))
    requires forall k | 0 <= k < |names| :: Unbroken(names[k])
    ensures var lines := [HeaderLine(o, path)] + ValueLines(o, get, path, names) + [""];
      forall i | 0 <= i < |lines| :: Unbroken(lines[i])
  {
    var vl := ValueLines(o, get, path, names);
    var lines := [HeaderLine(o, path)] + vl + [""];
    UnbrokenJoin("# file: ", DumpedPath(o, path));
    ValueLinesAt(o, get, path, names);
    forall i | 0 <= i < |lines| ensures Unbroken(lines[i]) {
      if 1 <= i < |lines| - 1 {
        assert lines[i] == vl[i - 1];
        ValueLineUnbroken(o, names[i - 1], ValueOf(get(path, names[i - 1])));
      }
    }
  }

  /** Every line of a node's block fits `next_line`'s buffer when its path and names are
      unbroken and its header and value lines are short enough. */
  lemma BlockFits(o: Options, get: Getter, path: string, names: seq<string>)
    requires o.dump && !o.valueOnly && Dumpable(get, path, names)
    requires Unbroken(DumpedPath(o, path)) && |HeaderLine(o, path)| <= LINE_SIZE - 2
    requires forall k | 0 <= k < |names| ::
      Unbroken(names[k]) && |ValueLine(o, names[k], ValueOf(get(path, names[k])))| <= LINE_SIZE - 2
    ensures var lines := [HeaderLine(o, path)] + ValueLines(o, get, path, names) + [""];
      forall i | 0 <= i < |lines| :: FitsBuffer(lines[i])
  {
    var lines := [HeaderLine(o, path)] + ValueLines(o, get, path, names) + [""];
    BlockUnbroken(o, get, path, names);
    ValueLinesAt(o, get, path, names);
    forall i | 0 <= i < |lines| ensures FitsBuffer(lines[i]) {
      if 1 <= i < |lines| - 1 {
        assert lines[i] == ValueLine(o, names[i - 1], ValueOf(get(path, names[i - 1])));
      }
    }
  }

  /** `getfattr --dump` of a node, printed, then `setfattr --restore` of that file read
      with `next_line`: when the path and the names hold no newline, NUL or final
      carriage return and every printed line fits the line buffer with its newline and
      NUL, the attributes the pattern accepts are set again, in `strcmp` order, each
      with the value `getfattr` read, on the path the header names. */
  lemma DumpThenRestore(o: Options, list: Lister, get: Getter, accept: string -> bool, path: string, ds: Dump.State, env: Env, s: SetState)
    requires o.dump && !o.valueOnly && !env.remove && env.decode == Decode.Decoded && env.next == NextLineOf
    requires list(path).Listed? && Sort(Accepted(accept, list(path).names)) != []
    requires Dumpable(get, path, Sort(Accepted(accept, list(path).names)))
    requires Unbroken(DumpedPath(o, path)) && |HeaderLine(o, path)| <= LINE_SIZE - 2
    requires forall k | 0 <= k < |Sort(Accepted(accept, list(path).names))| ::
      var name := Sort(Accepted(accept, list(path).names))[k];
      Unbroken(name) && |ValueLine(o, name, ValueOf(get(path, name)))| <= LINE_SIZE - 2
    ensures var t := GotAll(o, list, get, accept, path, ds).1;
      && |ds.out| <= |t.out|
      && var r := Restoring(env, Printed(t.out[|ds.out|..]), s);
      && r.abortLine == None
      && r.state.ops == s.ops + Restores(DumpedPath(o, path), get, path, Sort(Accepted(accept, list(path).names)))
  {
    var names := Sort(Accepted(accept, list(path).names));
    DumpedBlock(o, list, get, accept, path, ds);
    var lines := [HeaderLine(o, path)] + ValueLines(o, get, path, names) + [""];
    BlockFits(o, get, path, names);
    PrintedReadBack(lines);
    RestoringIsRestoreLines(env, Printed(lines), s);
    BlockRestores(o, get, path, names, env, s);
  }

  /** A dumped value line too long for the line buffer is not read back as one line. */
  lemma LongValueLineSplits(o: Options, name: string, value: seq<byte>, rest: string)
    requires !o.valueOnly && Unbroken(name) && |ValueLine(o, name, value)| >= LINE_SIZE - 1
    ensures NextLineOf(ValueLine(o, name, value) + "\n" + rest) != Line(ValueLine(o, name, value), rest)
  {
    ValueLineUnbroken(o, name, value);
    LongLineSplits(ValueLine(o, name, value), rest);
  }

  /** 200 zero bytes dumped in hex under the name `a` make a line of 404 characters,
      which `next_line` does not read back whole. */
  lemma HexZerosSplit(rest: string)
    ensures var l := ValueLine(Options(true, false, false, Hex), "a", seq(200, _ => 0 as byte));
      |l| == 404 && NextLineOf(l + "\n" + rest) != Line(l, rest)
  {
    var o := Options(true, false, false, Hex);
    var value := seq(200, _ => 0 as byte);
    HexEncodingAt(value);
    assert ValueLine(o, "a", value) == "a" + "=" + HexEncoding(value);
    assert Unbroken("a");
    LongValueLineSplits(o, "a", value, rest);
  }

  /** A name holding `=` does not come back: the restore splits its dumped line at the
      first `=` of the name and takes what precedes it for the name. */
  lemma EqualsInNameMisread(o: Options, name: string, value: seq<byte>, k: nat)
    requires !o.valueOnly && k < |name| && name[k] == '='
    requires forall j | 0 <= j < k :: name[j] != '='
    ensures Split(ValueLine(o, name, value)).name == name[..k] != name
  {
    var l := ValueLine(o, name, value);
    assert l[..|name|] == name;
    assert l[k] == name[k];
    FirstEqAt(l, 0, k);
  }

  /** `user.a=b` holding `x` is dumped as `user.a=b="x"` and restored as `user.a`
      holding the text `b="x"`. */
  lemma UserAEqualsBMisread()
    ensures Split(ValueLine(Options(true, false, false, Text), "user.a=b", [120])) == Attr("user.a", Some("b=\"x\""))
  {
    assert TextBody([120]) == Escape(120) + TextBody([]);
    var l := ValueLine(Options(true, false, false, Text), "user.a=b", [120]);
    assert l == "user.a=b=\"x\"";
    FirstEqAt(l, 0, 6);
    assert l[7..] == "b=\"x\"";
  }

  /** `getfattr --dump` of a node, printed, then `setfattr --restore` of that file read
      a whole line at a time: when the path and the names hold no newline, NUL or final
      carriage return, the attributes the pattern accepts are set again, however long
      the lines, each with the value `getfattr` read, on the path the header names. */
  lemma DumpThenRestoreWhole(o: Options, list: Lister, get: Getter, accept: string -> bool, path: string, ds: Dump.State, env: Env, s: SetState)
    requires o.dump && !o.valueOnly && !env.remove && env.decode == Decode.Decoded && env.next == NextWholeLine
    requires list(path).Listed? && Sort(Accepted(accept, list(path).names)) != []
    requires Dumpable(get, path, Sort(Accepted(accept, list(path).names)))
    requires Unbroken(DumpedPath(o, path))
    requires forall k | 0 <= k < |Sort(Accepted(accept, list(path).names))| :: Unbroken(Sort(Accepted(accept, list(path).names))[k])
    ensures var t := GotAll(o, list, get, accept, path, ds).1;
      && |ds.out| <= |t.out|
      && var r := Restoring(env, Printed(t.out[|ds.out|..]), s);
      && r.abortLine == None
      && r.state.ops == s.ops + Restores(DumpedPath(o, path), get, path, Sort(Accepted(accept, list(path).names)))
  {
    var names := Sort(Accepted(accept, list(path).names));
    DumpedBlock(o, list, get, accept, path, ds);
    var lines := [HeaderLine(o, path)] + ValueLines(o, get, path, names) + [""];
    BlockUnbroken(o, get, path, names);
    PrintedWholeReadBack(lines);
    RestoringIsRestoreLines(env, Printed(lines), s);
    BlockRestores(o, get, path, names, env, s);
  }

  /** The one attribute of the example file is accepted and can be dumped and read
      back, and the header names the file and fits the buffer. */
  lemma ExampleDumpable(list: Lister, get: Getter, accept: string -> bool)
    requires list("f") == Listed(["user.a"]) && get("f", "user.a") == Got([65]) && accept("user.a")
    ensures Sort(Accepted(accept, list("f").names)) == ["user.a"]
    ensures Dumpable(get, "f", Sort(Accepted(accept, list("f").names)))
    ensures Unbroken(DumpedPath(Options(true, false, false, Text), "f"))
    ensures |HeaderLine(Options(true, false, false, Text), "f")| <= LINE_SIZE - 2
    ensures Restores("f", get, "f", ["user.a"]) == [SetValue("f", "user.a", [65])]
  {
    assert Accepted(accept, list("f").names) == ["user.a"];
    assert Sort(["user.a"]) == ["user.a"];
  }

  /** The value line of the example file fits `next_line`'s buffer. */
  lemma ExampleFits(list: Lister, get: Getter, accept: string -> bool)
    requires list("f") == Listed(["user.a"]) && get("f", "user.a") == Got([65]) && accept("user.a")
    ensures forall k | 0 <= k < |Sort(Accepted(accept, list("f").names))| ::
      var name := Sort(Accepted(accept, list("f").names))[k];
      Unbroken(name) && |ValueLine(Options(true, false, false, Text), name, ValueOf(get("f", name)))| <= LINE_SIZE - 2
  {
    ExampleDumpable(list, get, accept);
    assert Unbroken("user.a");
    TextEncodingLength([65]);
  }

  /** A file `f` whose listing holds one attribute, `user.a`, with the value `A`,
      dumped as text and restored with `next_line`: the restore sets `user.a` on `f`
      to `A` again. */
  lemma DumpThenRestoreExample(list: Lister, get: Getter, accept: string -> bool, ds: Dump.State, env: Env, s: SetState)
    requires list("f") == Listed(["user.a"]) && get("f", "user.a") == Got([65]) && accept("user.a")
    requires env.next == NextLineOf && env.decode == Decode.Decoded && !env.remove
    ensures var t := GotAll(Options(true, false, false, Text), list, get, accept, "f", ds).1;
      && |ds.out| <= |t.out|
      && var r := Restoring(env, Printed(t.out[|ds.out|..]), s);
      && r.abortLine == None
      && r.state.ops == s.ops + [SetValue("f", "user.a", [65])]
  {
    ExampleDumpable(list, get, accept);
    ExampleFits(list, get, accept);
    DumpThenRestore(Options(true, false, false, Text), list, get, accept, "f", ds, env, s);
  }
}
