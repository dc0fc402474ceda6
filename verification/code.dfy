/** Compiling and running the editor's program: `code.go`.

    The GX compiler, tracer and runtime are not part of this model. They
    enter as the fields of a `Backend`: the device error found at start-up,
    the build of a source string into a package, the lookup of `Main`, the
    tracing of a function into a runner, the run itself, the conversion of
    the run's values to host values (`values.ToHost`) and the printing of a
    host value (`fmt.Sprint`, which is also what the verb `%v` prints). */
module Code {
  import opened Wrappers
  import opened Strings

  // ---------------------------------------------------------------------
  // flatten
  // ---------------------------------------------------------------------

  /** A value a GX function returns: a slice of values, or any other value
      (`a` stands for it). */
  datatype Value<A> = Atom(a: A) | Slice(elems: seq<Value<A>>)

  /** `flatten`: the atoms of `out`, depth first, left to right. */
  function Flatten<A>(out: seq<Value<A>>): (r: seq<Value<A>>)
    ensures forall i :: 0 <= i < |r| ==> r[i].Atom?
    decreases out
  {
    if out == [] then []
    else
      (match out[0]
       case Atom(_) => [out[0]]
       case Slice(elems) => Flatten(elems))
      + Flatten(out[1..])
  }

  /** `flatten` as it is written: a loop over `out` appending each value, or
      the flattened elements of each slice. */
  method FlattenLoop<A>(out: seq<Value<A>>) returns (flat: seq<Value<A>>)
    ensures flat == Flatten(out)
    decreases out
  {
    flat := [];
    for i := 0 to |out|
      invariant flat == Flatten(out[..i])
    {
      assert out[..i + 1] == out[..i] + [out[i]];
      FlattenAppend(out[..i], [out[i]]);
      match out[i]
      case Atom(_) =>
        flat := flat + [out[i]];
      case Slice(elems) =>
        var vals := FlattenLoop(elems);
        flat := flat + vals;
    }
    assert out[..|out|] == out;
  }

  /** `a` occurs in `out`, at any depth. */
  predicate Holds<A(==)>(out: seq<Value<A>>, a: A)
    decreases out
  {
    out != [] &&
    ((match out[0]
      case Atom(x) => x == a
      case Slice(elems) => Holds(elems, a))
     || Holds(out[1..], a))
  }

  lemma {:induction false} FlattenAppend<A>(a: seq<Value<A>>, b: seq<Value<A>>)
    ensures Flatten(a + b) == Flatten(a) + Flatten(b)
    decreases a
  {
    if a != [] {
      assert (a + b)[0] == a[0] && (a + b)[1..] == a[1..] + b;
      FlattenAppend(a[1..], b);
    } else {
      assert a + b == b;
    }
  }

  /** Flattening keeps exactly the atoms: an atom is in the result if and
      only if it occurs somewhere in the input. */
  lemma {:induction false} FlattenHolds<A>(out: seq<Value<A>>, a: A)
    ensures Atom(a) in Flatten(out) <==> Holds(out, a)
    decreases out
  {
    if out != [] {
      FlattenHolds(out[1..], a);
      var head := match out[0] case Atom(_) => [out[0]] case Slice(elems) => Flatten(elems);
      assert Flatten(out) == head + Flatten(out[1..]);
      if out[0].Slice? {
        FlattenHolds(out[0].elems, a);
      }
    }
  }

  /** A list without slices comes back unchanged. */
  lemma {:induction false} FlattenAtoms<A>(out: seq<Value<A>>)
    requires forall i :: 0 <= i < |out| ==> out[i].Atom?
    ensures Flatten(out) == out
  {
    if out != [] {
      FlattenAtoms(out[1..]);
      assert out == [out[0]] + out[1..];
    }
  }

  /** Flattening twice is flattening once. */
  lemma FlattenIdempotent<A>(out: seq<Value<A>>)
    ensures Flatten(Flatten(out)) == Flatten(out)
  {
    FlattenAtoms(Flatten(out));
  }

  /** `[[1, 2], [], 3]` flattens to `[1, 2, 3]`: the empty slice adds
      nothing. */
  lemma FlattenExample()
    ensures Flatten([Slice([Atom(1), Atom(2)]), Slice([]), Atom(3)]) == [Atom(1), Atom(2), Atom(3)]
  {
    var one := [Atom(1), Atom(2)];
    FlattenAtoms(one);
    FlattenAtoms([Atom(3)]);
    var empty: Value<int> := Slice([]);
    var out := [Slice(one), empty, Atom(3)];
    assert out[1..] == [empty] + [Atom(3)];
    FlattenAppend([empty], [Atom(3)]);
    assert Flatten([empty]) == [] by {
      assert [empty][1..] == [];
    }
  }

  // ---------------------------------------------------------------------
  // buildString
  // ---------------------------------------------------------------------

  /** One line of the listing: `fmt.Sprintf("%d: %v\n", i, v)` without its
      newline. */
  function Entry(i: nat, text: string): string {
    Decimal(i) + ": " + text
  }

  /** The entries of `hs`, numbered from `k`. */
  function Entries<H>(hs: seq<H>, show: H -> string, k: nat): (r: seq<string>)
    ensures |r| == |hs|
    ensures forall i :: 0 <= i < |hs| ==> r[i] == Entry(k + i, show(hs[i]))
  {
    if hs == [] then [] else [Entry(k, show(hs[0]))] + Entries(hs[1..], show, k + 1)
  }

  /** The loop of `buildString`: each entry followed by a newline. */
  function Listing<H>(hs: seq<H>, show: H -> string, k: nat): string {
    if hs == [] then [] else Entry(k, show(hs[0])) + "\n" + Listing(hs[1..], show, k + 1)
  }

  /** `buildString`: flatten, convert to host values, then print nothing,
      the only value, or a numbered listing. */
  function BuildString<A, H>(out: seq<Value<A>>, toHost: seq<Value<A>> -> Result<seq<H>>, show: H -> string): (r: Result<string>)
    ensures toHost(Flatten(out)).Err? ==> r == Err(toHost(Flatten(out)).error)
    ensures toHost(Flatten(out)).Ok? ==> r.Ok?
    ensures toHost(Flatten(out)).Ok? && |toHost(Flatten(out)).value| == 0 ==> r == Ok("")
    ensures toHost(Flatten(out)).Ok? && |toHost(Flatten(out)).value| == 1 ==> r == Ok(show(toHost(Flatten(out)).value[0]))
  {
    match toHost(Flatten(out))
    case Err(e) => Err(e)
    case Ok(hs) =>
      if |hs| == 0 then Ok("")
      else if |hs| == 1 then Ok(show(hs[0]))
      else Ok(Listing(hs, show, 0))
  }

  /** The listing is the entries joined by newlines, with a newline after
      the last one as well. */
  lemma {:induction false} ListingJoin<H>(hs: seq<H>, show: H -> string, k: nat)
    ensures Listing(hs, show, k) == Join(Entries(hs, show, k) + [[]], '\n')
  {
    if hs != [] {
      ListingJoin(hs[1..], show, k + 1);
      var es := Entries(hs, show, k) + [[]];
      assert es[1..] == Entries(hs[1..], show, k + 1) + [[]];
    }
  }

  /** When no printed value holds a newline, splitting a listing of `n`
      values on newlines gives back the `n` entries and an empty tail: every
      line, the last included, ends in a newline. */
  lemma ListingLines<H>(hs: seq<H>, show: H -> string, k: nat)
    requires forall i :: 0 <= i < |hs| ==> '\n' !in show(hs[i])
    ensures Split(Listing(hs, show, k), '\n') == Entries(hs, show, k) + [[]]
    ensures Count(Listing(hs, show, k), '\n') == |hs|
  {
    var es := Entries(hs, show, k) + [[]];
    forall i | 0 <= i < |es| ensures '\n' !in es[i] {
      if i < |hs| {
        EntryLine(k + i, show(hs[i]));
      }
    }
    ListingJoin(hs, show, k);
    SplitJoin(es, '\n');
    SplitCount(Listing(hs, show, k), '\n');
  }

  lemma EntryLine(i: nat, text: string)
    requires '\n' !in text
    ensures '\n' !in Entry(i, text)
  {
    var d := Decimal(i);
    assert forall j :: 0 <= j < |d| ==> IsDigit(d[j]);
  }

  /** An entry reads back: its leading digits are the index, and what
      follows `": "` is the printed value. */
  lemma EntryRead(i: nat, text: string)
    ensures DigitRun(Entry(i, text)) == Decimal(i)
    ensures DigitsValue(DigitRun(Entry(i, text))) == i
    ensures Entry(i, text)[|Decimal(i)| + 2..] == text
  {
    var d := Decimal(i);
    assert Entry(i, text) == d + (": " + text);
    DigitRunAppend(d, ": " + text);
    DecimalValue(i);
  }

  /** Two or more values give every entry followed by a newline: the
      entries joined by newlines, with one more after the last. */
  lemma BuildStringJoin<A, H>(out: seq<Value<A>>, toHost: seq<Value<A>> -> Result<seq<H>>, show: H -> string)
    requires toHost(Flatten(out)).Ok? && |toHost(Flatten(out)).value| >= 2
    ensures var hs := toHost(Flatten(out)).value;
      BuildString(out, toHost, show) == Ok(Join(Entries(hs, show, 0) + [[]], '\n'))
  {
    ListingJoin(toHost(Flatten(out)).value, show, 0);
  }

  /** Two or more values give the numbered listing. */
  lemma BuildStringListing<A, H>(out: seq<Value<A>>, toHost: seq<Value<A>> -> Result<seq<H>>, show: H -> string)
    requires toHost(Flatten(out)).Ok? && |toHost(Flatten(out)).value| >= 2
    requires var hs := toHost(Flatten(out)).value;
      forall i :: 0 <= i < |hs| ==> '\n' !in show(hs[i])
    ensures var hs := toHost(Flatten(out)).value;
      BuildString(out, toHost, show).Ok?
      && Split(BuildString(out, toHost, show).value, '\n') == Entries(hs, show, 0) + [[]]
  {
    var hs := toHost(Flatten(out)).value;
    ListingLines(hs, show, 0);
  }

  // ---------------------------------------------------------------------
  // Compiling and running
  // ---------------------------------------------------------------------

  /** The GX toolchain, as far as `code.go` uses it: `P` packages, `F`
      functions, `R` runners, `A` device values, `H` host values. */
  datatype Backend<!P, !F, !R, !A, !H> = Backend(
    devErr: Option<string>,
    build: string -> Result<P>,
    findMain: P -> Option<F>,
    trace: F -> Result<R>,
    run: R -> Result<seq<Value<A>>>,
    toHost: seq<Value<A>> -> Result<seq<H>>,
    show: H -> string)

  const BackendPrefix := "Cannot initialise backend: "
  const MainNotFound := "function Main not found"

  /** `compileCode`: a device error is reported before anything is built. */
  function CompileCode<P, F, R, A, H>(b: Backend<P, F, R, A, H>, src: string): (r: Result<P>)
    ensures b.devErr.Some? ==> r == Err(BackendPrefix + b.devErr.value)
    ensures b.devErr.None? ==> r == b.build(src)
  {
    if b.devErr.Some? then Err(BackendPrefix + b.devErr.value)
    else b.build(src)
  }

  /** `compileAndWrite`: on success the output is cleared; `Ok(t)` means
      `t` was written to the output. */
  function CompileAndWrite<P, F, R, A, H>(b: Backend<P, F, R, A, H>, src: string): (r: Result<string>)
    ensures r.Ok? <==> CompileCode(b, src).Ok?
    ensures r.Ok? ==> r.value == ""
    ensures r.Err? ==> r.error == CompileCode(b, src).error
  {
    match CompileCode(b, src)
    case Err(e) => Err(e)
    case Ok(_) => Ok("")
  }

  /** `runCode`: compile, find `Main`, trace, run and print, stopping at the
      first failure; `Ok(t)` means `t` was written to the output. */
  function RunCode<P, F, R, A, H>(b: Backend<P, F, R, A, H>, src: string): (r: Result<string>)
    ensures CompileCode(b, src).Err? ==> r == Err(CompileCode(b, src).error)
    ensures CompileCode(b, src).Ok? && b.findMain(CompileCode(b, src).value).None? ==> r == Err(MainNotFound)
  {
    match CompileCode(b, src)
    case Err(e) => Err(e)
    case Ok(pkg) =>
      match b.findMain(pkg)
      case None => Err(MainNotFound)
      case Some(f) =>
        match b.trace(f)
        case Err(e) => Err(e)
        case Ok(runner) =>
          match b.run(runner)
          case Err(e) => Err(e)
          case Ok(vals) => BuildString(vals, b.toHost, b.show)
  }

  /** Output is written only once every step has succeeded, and what is
      written is the printed result of the run. */
  lemma RunCodeWrites<P, F, R, A, H>(b: Backend<P, F, R, A, H>, src: string)
    requires RunCode(b, src).Ok?
    ensures b.devErr.None? && b.build(src).Ok?
    ensures var pkg := b.build(src).value;
      b.findMain(pkg).Some?
      && b.trace(b.findMain(pkg).value).Ok?
      && b.run(b.trace(b.findMain(pkg).value).value).Ok?
      && RunCode(b, src) == BuildString(b.run(b.trace(b.findMain(pkg).value).value).value, b.toHost, b.show)
  {
  }

  /** A program that runs also compiles, and one that does not compile
      fails to run with the same error. */
  lemma RunNeedsCompile<P, F, R, A, H>(b: Backend<P, F, R, A, H>, src: string)
    ensures RunCode(b, src).Ok? ==> CompileAndWrite(b, src) == Ok("")
    ensures CompileAndWrite(b, src).Err? ==> RunCode(b, src) == CompileAndWrite(b, src)
  {
  }

  /** `callAndWrite`: run `f` on the source and, when it fails, write the
      error. The result is the last text written to the output, if any. */
  function CallAndWrite(f: string -> Result<string>, src: string): (r: string)
    ensures f(src).Err? ==> r == "ERROR: " + f(src).error
    ensures f(src).Ok? ==> r == f(src).value
  {
    match f(src)
    case Err(e) => "ERROR: " + e
    case Ok(written) => written
  }

  /** The Run button with no device: the output shows the backend error,
      whatever the source. */
  lemma RunWithoutDevice<P, F, R, A, H>(b: Backend<P, F, R, A, H>, src: string)
    requires b.devErr.Some?
    ensures CallAndWrite(s => RunCode(b, s), src) == "ERROR: " + BackendPrefix + b.devErr.value
    ensures CallAndWrite(s => CompileAndWrite(b, s), src) == "ERROR: " + BackendPrefix + b.devErr.value
  {
  }

  // ---------------------------------------------------------------------
  // The order of errors
  // ---------------------------------------------------------------------

  /** What became of one step of a run. */
  datatype Outcome = Passed | Failed(error: string) | Skipped

  /** The number of steps of a run: open the device, build the package,
      find `Main`, trace it, run it, convert and print its values. */
  const StepCount := 6

  /** The first `k` steps passed, step `k` failed with `e`, the rest were
      not attempted. */
  function Stop(k: nat, e: string): (r: seq<Outcome>)
    requires k < StepCount
    ensures |r| == StepCount && r[k] == Failed(e)
    ensures forall i :: 0 <= i < k ==> r[i].Passed?
    ensures forall i :: k < i < StepCount ==> r[i].Skipped?
  {
    seq(StepCount, i => if i < k then Passed else if i == k then Failed(e) else Skipped)
  }

  /** Every step passed. */
  const AllPassed: seq<Outcome> := seq(StepCount, _ => Passed)

  /** The outcome of each step of `runCode` on `src`, in the order the
      steps are taken; the steps of `compileCode` are the first two. */
  function Steps<P, F, R, A, H>(b: Backend<P, F, R, A, H>, src: string): (r: seq<Outcome>)
    ensures |r| == StepCount
    ensures r[0] == if b.devErr.Some? then Failed(BackendPrefix + b.devErr.value) else Passed
    ensures b.devErr.None? ==> r[1] == if b.build(src).Err? then Failed(b.build(src).error) else Passed
    ensures b.devErr.None? && b.build(src).Ok? ==>
      var pkg := b.build(src).value;
      r[2] == if b.findMain(pkg).None? then Failed(MainNotFound) else Passed
    ensures b.devErr.None? && b.build(src).Ok? && b.findMain(b.build(src).value).Some? ==>
      var f := b.findMain(b.build(src).value).value;
      r[3] == if b.trace(f).Err? then Failed(b.trace(f).error) else Passed
    ensures (b.devErr.None? && b.build(src).Ok? && b.findMain(b.build(src).value).Some?
             && b.trace(b.findMain(b.build(src).value).value).Ok?) ==>
      var runner := b.trace(b.findMain(b.build(src).value).value).value;
      r[4] == if b.run(runner).Err? then Failed(b.run(runner).error) else Passed
    ensures (b.devErr.None? && b.build(src).Ok? && b.findMain(b.build(src).value).Some?
             && b.trace(b.findMain(b.build(src).value).value).Ok?
             && b.run(b.trace(b.findMain(b.build(src).value).value).value).Ok?) ==>
      var vals := b.run(b.trace(b.findMain(b.build(src).value).value).value).value;
      var printed := BuildString(vals, b.toHost, b.show);
      r[5] == if printed.Err? then Failed(printed.error) else Passed
    ensures forall i, j :: 0 <= i < j < |r| && !r[i].Passed? ==> r[j].Skipped?
    ensures forall j :: 0 <= j < |r| && r[j].Skipped? ==> 0 < j && !r[j - 1].Passed?
  {
    if b.devErr.Some? then Stop(0, BackendPrefix + b.devErr.value)
    else
      match b.build(src)
      case Err(e) => Stop(1, e)
      case Ok(pkg) =>
        match b.findMain(pkg)
        case None => Stop(2, MainNotFound)
        case Some(f) =>
          match b.trace(f)
          case Err(e) => Stop(3, e)
          case Ok(runner) =>
            match b.run(runner)
            case Err(e) => Stop(4, e)
            case Ok(vals) =>
              match BuildString(vals, b.toHost, b.show)
              case Err(e) => Stop(5, e)
              case Ok(_) => AllPassed
  }

  /** The error of the first step that failed, if any did. */
  function FirstFailure(os: seq<Outcome>): (r: Option<string>)
    ensures r.None? <==> forall i :: 0 <= i < |os| ==> !os[i].Failed?
    ensures r.Some? ==>
      exists i :: 0 <= i < |os| && os[i] == Failed(r.value) && forall j :: 0 <= j < i ==> !os[j].Failed?
  {
    if os == [] then None
    else if os[0].Failed? then Some(os[0].error)
    else
      var rest := FirstFailure(os[1..]);
      if rest.Some? then
        var i :| 0 <= i < |os[1..]| && os[1..][i] == Failed(rest.value)
          && forall j :: 0 <= j < i ==> !os[1..][j].Failed?;
        assert os[i + 1] == Failed(rest.value);
        assert forall j :: 0 <= j < i + 1 ==> !os[j].Failed? by {
          forall j | 0 <= j < i + 1 ensures !os[j].Failed? {
            if j > 0 { assert os[j] == os[1..][j - 1]; }
          }
        }
        rest
      else
        assert forall i :: 0 < i < |os| ==> os[i] == os[1..][i - 1];
        rest
  }

  /** A failure among the first `k` steps is the first failure of the whole
      sequence: later steps cannot change which error is reported. */
  lemma FirstFailurePrefix(os: seq<Outcome>, k: nat)
    requires k <= |os|
    ensures FirstFailure(os[..k]).Some? ==> FirstFailure(os) == FirstFailure(os[..k])
    ensures FirstFailure(os).None? ==> FirstFailure(os[..k]).None?
  {
    if os != [] && k > 0 && !os[0].Failed? {
      FirstFailurePrefix(os[1..], k - 1);
      assert os[..k][1..] == os[1..][..k - 1];
    }
  }

  /** The first failure of a run that stopped at step `k` is that step's. */
  lemma StopFirst(k: nat, e: string)
    requires k < StepCount
    ensures FirstFailure(Stop(k, e)) == Some(e)
  {
    var os := Stop(k, e);
    var r := FirstFailure(os);
    assert r.Some?;
    var i :| 0 <= i < |os| && os[i] == Failed(r.value) && forall j :: 0 <= j < i ==> !os[j].Failed?;
    assert i == k;
  }

  /** `runCode` fails exactly when a step fails, and its error is that of
      the first failing step: the Run button writes `ERROR: ` and that
      error, or, when every step passed, the printed values. */
  lemma RunErrorOrder<P, F, R, A, H>(b: Backend<P, F, R, A, H>, src: string)
    ensures RunCode(b, src).Err? <==> FirstFailure(Steps(b, src)).Some?
    ensures FirstFailure(Steps(b, src)).Some? ==>
      RunCode(b, src) == Err(FirstFailure(Steps(b, src)).value)
      && CallAndWrite(s => RunCode(b, s), src) == "ERROR: " + FirstFailure(Steps(b, src)).value
    ensures FirstFailure(Steps(b, src)).None? ==> Steps(b, src) == AllPassed
  {
    if b.devErr.Some? {
      StopFirst(0, BackendPrefix + b.devErr.value);
    } else {
      match b.build(src)
      case Err(e) => StopFirst(1, e);
      case Ok(pkg) =>
        match b.findMain(pkg)
        case None => StopFirst(2, MainNotFound);
        case Some(f) =>
          match b.trace(f)
          case Err(e) => StopFirst(3, e);
          case Ok(runner) =>
            match b.run(runner)
            case Err(e) => StopFirst(4, e);
            case Ok(vals) =>
              match BuildString(vals, b.toHost, b.show)
              case Err(e) => StopFirst(5, e);
              case Ok(_) => assert !AllPassed[0].Failed?;
    }
  }

  /** The Compile button writes `ERROR: ` and the error of the first of
      the two compile steps that failed, or clears the output when both
      passed; the compile steps are the run's first two. */
  lemma CompileErrorOrder<P, F, R, A, H>(b: Backend<P, F, R, A, H>, src: string)
    ensures CompileAndWrite(b, src).Ok? <==> FirstFailure(Steps(b, src)[..2]).None?
    ensures FirstFailure(Steps(b, src)[..2]).Some? ==>
      CallAndWrite(s => CompileAndWrite(b, s), src) == "ERROR: " + FirstFailure(Steps(b, src)[..2]).value
      && RunCode(b, src) == CompileAndWrite(b, src)
    ensures FirstFailure(Steps(b, src)[..2]).None? ==> CallAndWrite(s => CompileAndWrite(b, s), src) == ""
    ensures FirstFailure(Steps(b, src)[..2]).Some? ==>
      FirstFailure(Steps(b, src)) == FirstFailure(Steps(b, src)[..2])
  {
    var os := Steps(b, src);
    FirstFailurePrefix(os, 2);
    var front := os[..2];
    if b.devErr.Some? {
      assert front[0] == Failed(BackendPrefix + b.devErr.value);
      var r := FirstFailure(front);
      var i :| 0 <= i < |front| && front[i] == Failed(r.value) && forall j :: 0 <= j < i ==> !front[j].Failed?;
      assert i == 0;
    } else if b.build(src).Err? {
      assert front == [Passed, Failed(b.build(src).error)];
      var r := FirstFailure(front);
      var i :| 0 <= i < |front| && front[i] == Failed(r.value) && forall j :: 0 <= j < i ==> !front[j].Failed?;
      assert i == 1;
    } else {
      assert front == [Passed, Passed];
    }
  }
}
