/**
 * `run_cmd` of git_tool.py once the process has been run: the decoded standard output
 * is trimmed and split into lines, the
 * lines go through `preprocess_line` (one callable, or a list of callables applied in
 * turn), and `preprocess_whole`, when callable, reduces the resulting list. The helpers
 * `chomp_quotes` and `first` that the ingestion passes as these hooks are here too.
 */
module Runner {
  import opened Maybe
  import opened Text
  import opened Commits

  /**
   * The values the hooks see and return. The source is dynamically typed: a line starts as
   * a string, `parse` turns it into a datetime, and `first` may return a list.
   */
  datatype Value = Str(s: string) | Time(t: Timestamp) | List(items: seq<Value>)

  /**
   * The `preprocess_line` argument: absent (or neither callable nor a list), one callable,
   * or a list whose elements are callables (`Some`) or not (`None`).
   */
  datatype LineStep = NoStep | Single(f: Value -> Value) | Chain(fs: seq<Option<Value -> Value>>)

  // ---------------------------------------------------------------------------
  // The lines of the output
  // ---------------------------------------------------------------------------

  /**
   * `stdout.decode().strip().split("\n")`: never empty, no line holds a newline, the lines
   * joined with newlines give back the trimmed output, and the output is trimmed at both
   * ends.
   */
  function Lines(stdout: string): (r: seq<string>)
    ensures |r| >= 1
    ensures forall i :: 0 <= i < |r| ==> '\n' !in r[i]
    ensures JoinLines(r) == PyStrip(stdout)
  {
    SplitLines(PyStrip(stdout))
  }

  /** An output that is blank still yields one line, the empty one. */
  lemma BlankOutputOneLine(stdout: string)
    requires PyStrip(stdout) == ""
    ensures Lines(stdout) == [""]
  {
  }

  /** The lines of trimmed text are found again from its newline-join. */
  lemma LinesOfJoin(lines: seq<string>)
    requires |lines| >= 1
    requires forall i :: 0 <= i < |lines| ==> '\n' !in lines[i]
    requires PyStrip(JoinLines(lines)) == JoinLines(lines)
    ensures Lines(JoinLines(lines)) == lines
  {
    SplitJoin(lines);
  }

  /** The lines as the `Str` values the hooks receive. */
  function Texts(lines: seq<string>): (r: seq<Value>)
    ensures |r| == |lines|
    ensures forall i :: 0 <= i < |lines| ==> r[i] == Str(lines[i])
  {
    seq(|lines|, i requires 0 <= i < |lines| => Str(lines[i]))
  }

  // ---------------------------------------------------------------------------
  // preprocess_line and preprocess_whole
  // ---------------------------------------------------------------------------

  /**
   * `list(map(f, xs))`, and equally the ordered `pool.map(f, xs)` of the ingestion: one
   * result per element, in the order of the elements.
   */
  function MapAll<A, B>(f: A -> B, xs: seq<A>): (r: seq<B>)
    ensures |r| == |xs|
    ensures forall i :: 0 <= i < |xs| ==> r[i] == f(xs[i])
  {
    seq(|xs|, i requires 0 <= i < |xs| => f(xs[i]))
  }

  /** `all(map(callable, preprocess_line))`. */
  predicate AllCallable(fs: seq<Option<Value -> Value>>) {
    forall i :: 0 <= i < |fs| ==> fs[i].Some?
  }

  /** The callables of a list that holds nothing else. */
  function Callables(fs: seq<Option<Value -> Value>>): (r: seq<Value -> Value>)
    requires AllCallable(fs)
    ensures |r| == |fs|
    ensures forall i :: 0 <= i < |fs| ==> fs[i] == Some(r[i])
  {
    seq(|fs|, i requires 0 <= i < |fs| => fs[i].value)
  }

  /** The composition of `fs` in list order: `fs[0]` is applied first. */
  function ApplyAll(fs: seq<Value -> Value>, v: Value): Value {
    if fs == [] then v else fs[|fs| - 1](ApplyAll(fs[..|fs| - 1], v))
  }

  /** `lambda v: fs[-1](...fs[0](v))`, the composition as one callable. */
  function Composed(fs: seq<Value -> Value>): Value -> Value {
    (v: Value) => ApplyAll(fs, v)
  }

  lemma ApplyAllSnoc(fs: seq<Value -> Value>, f: Value -> Value, v: Value)
    ensures ApplyAll(fs + [f], v) == f(ApplyAll(fs, v))
  {
    assert (fs + [f])[..|fs|] == fs;
  }

  /** Applying a concatenation of transforms is applying the second list to the results of the first. */
  lemma {:induction false} ApplyAllConcat(fs: seq<Value -> Value>, gs: seq<Value -> Value>, v: Value)
    ensures ApplyAll(fs + gs, v) == ApplyAll(gs, ApplyAll(fs, v))
    decreases |gs|
  {
    if gs == [] {
      assert fs + gs == fs;
    } else {
      var init, last := gs[..|gs| - 1], gs[|gs| - 1];
      assert gs == init + [last];
      assert fs + gs == (fs + init) + [last];
      ApplyAllConcat(fs, init, v);
      ApplyAllSnoc(fs + init, last, v);
      ApplyAllSnoc(init, last, ApplyAll(fs, v));
    }
  }

  /**
   * Reference definition of the lines after `preprocess_line`: one callable is mapped over
   * the lines; a list of callables acts on each line as the composition of its elements in
   * list order; a list holding anything not callable, or no hook, leaves the lines as they are.
   */
  function StepLines(lines: seq<string>, step: LineStep): seq<Value> {
    match step
    case NoStep => Texts(lines)
    case Single(f) => MapAll(f, Texts(lines))
    case Chain(fs) =>
      if AllCallable(fs) then MapAll(Composed(Callables(fs)), Texts(lines))
      else Texts(lines)
  }

  /** The value `run_cmd` returns for a process that printed `stdout`. */
  function Output(stdout: string, step: LineStep, whole: Option<Value -> Value>): Value {
    var out := StepLines(Lines(stdout), step);
    if whole.Some? then whole.value(List(out)) else List(out)
  }

  /**
   * `run_cmd(cmd, preprocess_line=..., preprocess_whole=...)`: `exec` stands for running
   * the command and decoding what it printed. The list of transforms is applied by
   * mapping each one over all the lines in turn, which the contract relates to mapping
   * their composition once.
   */
  method RunCmd(cmd: string, exec: string -> string, step: LineStep, whole: Option<Value -> Value>)
    returns (r: Value)
    ensures r == Output(exec(cmd), step, whole)
  {
    var lines := Lines(exec(cmd));
    var out := Texts(lines);
    match step {
      case NoStep =>
      case Single(f) =>
        out := MapAll(f, out);
      case Chain(fs) =>
        if AllCallable(fs) {
          var gs := Callables(fs);
          var i := 0;
          while i < |gs|
            invariant 0 <= i <= |gs|
            invariant |out| == |lines|
            invariant forall j :: 0 <= j < |lines| ==> out[j] == ApplyAll(gs[..i], Str(lines[j]))
          {
            out := MapAll(gs[i], out);
            forall j | 0 <= j < |lines| ensures out[j] == ApplyAll(gs[..i + 1], Str(lines[j])) {
              assert gs[..i + 1] == gs[..i] + [gs[i]];
              ApplyAllSnoc(gs[..i], gs[i], Str(lines[j]));
            }
            i := i + 1;
          }
          assert gs[..|gs|] == gs;
          assert out == MapAll(Composed(gs), Texts(lines));
        }
    }
    if whole.Some? {
      r := whole.value(List(out));
    } else {
      r := List(out);
    }
  }

  /** Without `preprocess_whole` the result is a list with one element per line; with it, that list is what it receives. */
  lemma OutputShape(stdout: string, step: LineStep, whole: Option<Value -> Value>)
    ensures var out := StepLines(Lines(stdout), step);
      && |out| == |Lines(stdout)|
      && (whole.None? ==> Output(stdout, step, whole) == List(out))
      && (whole.Some? ==> Output(stdout, step, whole) == whole.value(List(out)))
  {
  }

  /** A list holding one callable acts as that callable alone. */
  lemma ChainOfOne(stdout: string, f: Value -> Value, whole: Option<Value -> Value>)
    ensures Output(stdout, Chain([Some(f)]), whole) == Output(stdout, Single(f), whole)
  {
    var lines := Lines(stdout);
    assert AllCallable([Some(f)]);
    var gs := Callables([Some(f)]);
    assert gs == [f];
    forall v ensures ApplyAll(gs, v) == f(v) {
      ApplyAllSnoc([], f, v);
      assert [] + [f] == gs;
    }
    assert StepLines(lines, Chain([Some(f)])) == StepLines(lines, Single(f));
  }

  /** A list of two callables maps each line through the first and then the second. */
  lemma ChainOfTwo(lines: seq<string>, f: Value -> Value, g: Value -> Value)
    ensures |StepLines(lines, Chain([Some(f), Some(g)]))| == |lines|
    ensures forall i :: 0 <= i < |lines| ==> StepLines(lines, Chain([Some(f), Some(g)]))[i] == g(f(Str(lines[i])))
  {
    var fs := [Some(f), Some(g)];
    assert AllCallable(fs);
    assert Callables(fs) == [f, g];
    forall v ensures ApplyAll([f, g], v) == g(f(v)) {
      ApplyAllSnoc([], f, v);
      assert [] + [f] == [f];
      ApplyAllSnoc([f], g, v);
      assert [f] + [g] == [f, g];
    }
  }

  /** One element that is not callable disables the whole list. */
  lemma ChainNotCallable(stdout: string, fs: seq<Option<Value -> Value>>, i: nat, whole: Option<Value -> Value>)
    requires i < |fs| && fs[i].None?
    ensures Output(stdout, Chain(fs), whole) == Output(stdout, NoStep, whole)
  {
  }

  /** Splitting a list of transforms into two consecutive ones gives the same lines. */
  lemma ChainSplit(lines: seq<string>, fs: seq<Value -> Value>, gs: seq<Value -> Value>)
    ensures StepLines(lines, Chain(seq(|fs + gs|, i requires 0 <= i < |fs + gs| => Some((fs + gs)[i]))))
    == MapAll(Composed(gs), MapAll(Composed(fs), Texts(lines)))
  {
    var hs := seq(|fs + gs|, i requires 0 <= i < |fs + gs| => Some((fs + gs)[i]));
    assert AllCallable(hs);
    assert Callables(hs) == fs + gs;
    forall j | 0 <= j < |lines| ensures ApplyAll(fs + gs, Str(lines[j])) == ApplyAll(gs, ApplyAll(fs, Str(lines[j]))) {
      ApplyAllConcat(fs, gs, Str(lines[j]));
    }
  }

  // ---------------------------------------------------------------------------
  // The hooks the ingestion passes
  // ---------------------------------------------------------------------------

  /** `chomp_quotes` as a line hook. */
  function ChompLine(v: Value): (r: Value)
    ensures v.Str? ==> r == Str(ChompQuotes(v.s))
  {
    if v.Str? then Str(ChompQuotes(v.s)) else v
  }

  /** `dateutil.parser.parse` as a line hook, for a given parser from text to timestamps. */
  function ParseLine(parse: string -> Timestamp): Value -> Value {
    (v: Value) => if v.Str? then Time(parse(v.s)) else v
  }

  /** `first`: element 0 of a non-empty list, and anything else unchanged. */
  function First(v: Value): (r: Value)
    ensures v.List? && |v.items| > 0 ==> r == v.items[0]
    ensures !(v.List? && |v.items| > 0) ==> r == v
  {
    if v.List? && |v.items| > 0 then v.items[0] else v
  }

  /** Since the split output is never empty, `first` as `preprocess_whole` always picks the first processed line. */
  lemma FirstOfOutput(stdout: string, step: LineStep)
    ensures Output(stdout, step, Some(First)) == StepLines(Lines(stdout), step)[0]
  {
  }
}
