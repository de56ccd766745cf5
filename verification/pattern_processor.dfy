/** util/text/PatternProcessor.go: rewrite every hit of a regular expression
    with the text of a resolver, and repeat until the text stops changing.

    A pass scans the current text once. When the scan finds exactly one hit
    and that hit covers the whole text, the resolver's value is taken as it
    is: a string becomes the next text, any other value ends processing and
    is the result (so `${port}` can resolve to a number). Otherwise the
    pass splices the printed resolver values between the untouched gaps.

    Go's resolver may panic; here it returns a `Result`, and a failure ends
    processing with that failure. Go's loop has no bound; here it carries
    `fuel`, and running out of it is `Failure(DidNotConverge)`. */
module Text {
  import opened Wrappers
  import opened Strings
  import opened Values
  import opened Regex
  import WordScan

  datatype PatternProcessor = PatternProcessor(re: Regexp, resolve: Match -> Result<Value>)

  /** The pattern handed to the compiler: multi-line and dot-all flags are
      added unless the pattern sets its own flags. */
  function CompiledSource(pattern: string): (r: string)
    ensures HasPrefix(pattern, "(?") ==> r == pattern
    ensures !HasPrefix(pattern, "(?") ==> r == "(?ms)" + pattern
  {
    if HasPrefix(pattern, "(?") then pattern else "(?ms)" + pattern
  }

  /** `PatternProcessorOf(pattern)`; `compile` stands for `regexp.MustCompile`.
      The resolver of a fresh processor panics with "Not implemented". */
  function PatternProcessorOf(pattern: string, compile: string -> Regexp): (p: PatternProcessor)
    ensures p.re == compile(CompiledSource(pattern))
    ensures forall m :: p.resolve(m) == Failure(Panic("Not implemented"))
  {
    PatternProcessor(compile(CompiledSource(pattern)), m => Failure(Panic("Not implemented")))
  }

  /** `OverrideResolve(f)`: the new resolver is `f`, handed the hit and then
      the previous resolver as its `super`. */
  function OverrideResolve(p: PatternProcessor, f: Match -> (Match -> Result<Value>) -> Result<Value>): (q: PatternProcessor)
    ensures q.re == p.re
    ensures forall m :: q.resolve(m) == f(m)(p.resolve)
  {
    var super := p.resolve;
    PatternProcessor(p.re, m => f(m)(super))
  }

  /** The outcome of one pass: the next text, or a non-string value that a
      whole-text hit resolved to. */
  datatype Step = Spliced(text: string) | Native(value: Value)

  /** The single hit of `ms` covers all of `s`. */
  predicate WholeMatch(names: seq<string>, s: string, ms: seq<seq<int>>)
    requires ValidScan(names, s, ms)
  {
    |ms| == 1 && ms[0][1] - ms[0][0] == |s|
  }

  /** The hits `ms[i..]` replaced by their printed resolved values, the text
      between them copied; `last` is where the previous hit ended. */
  function Splice(p: PatternProcessor, s: string, ms: seq<seq<int>>, i: nat, last: nat): Result<string>
    requires ValidScan(p.re.names, s, ms)
    requires i <= |ms| && last <= |s|
    requires i < |ms| ==> last <= ms[i][0]
    decreases |ms| - i
  {
    if i == |ms| then Success(s[last..])
    else
      var hit := ms[i];
      assert ValidGroups(p.re.names, s, hit);
      var v :- p.resolve(MatchOf(p.re.names, s, hit));
      var rest :- Splice(p, s, ms, i + 1, hit[1]);
      Success(s[last..hit[0]] + Sprint(v) + rest)
  }

  /** One step of `Splice`: the text before the hit at `i`, then the hit
      resolved, then the splice of the hits after it. */
  lemma SpliceStep(p: PatternProcessor, s: string, ms: seq<seq<int>>, i: nat, last: nat, v: Value, t: string)
    requires ValidScan(p.re.names, s, ms)
    requires i < |ms| && last <= ms[i][0] && ms[i][1] <= |s|
    requires ValidGroups(p.re.names, s, ms[i])
    requires p.resolve(MatchOf(p.re.names, s, ms[i])) == Success(v)
    requires Splice(p, s, ms, i + 1, ms[i][1]) == Success(t)
    ensures Splice(p, s, ms, i, last) == Success(s[last..ms[i][0]] + Sprint(v) + t)
  {
  }

  /** One iteration of the loop of `ProcessRecursive`. */
  function Pass(p: PatternProcessor, s: string): Result<Step>
    requires ValidRegexp(p.re)
  {
    var ms := p.re.findAll(s);
    assert ValidScan(p.re.names, s, ms);
    if WholeMatch(p.re.names, s, ms) then
      var v :- p.resolve(MatchOf(p.re.names, s, ms[0]));
      if v.Str? then Success(Spliced(v.s)) else Success(Native(v))
    else
      var t :- Splice(p, s, ms, 0, 0);
      Success(Spliced(t))
  }

  /** The loop of `ProcessRecursive` from the text `resolved` on. A string
      result of a recursive run is a fixed point of `Pass`. */
  function Loop(p: PatternProcessor, resolved: string, recursive: bool, fuel: nat): (r: Result<Value>)
    requires ValidRegexp(p.re)
    ensures r.Success? && r.value.Str? && recursive ==> Pass(p, r.value.s) == Success(Spliced(r.value.s))
    ensures r.Success? && r.value.Str? && !recursive ==> Pass(p, resolved) == Success(Spliced(r.value.s))
    ensures fuel == 0 ==> r == Failure(DidNotConverge)
    decreases fuel
  {
    if fuel == 0 then Failure(DidNotConverge)
    else
      var step :- Pass(p, resolved);
      match step
      case Native(v) => Success(v)
      case Spliced(t) =>
        if !recursive || t == resolved then Success(Str(t))
        else Loop(p, t, recursive, fuel - 1)
  }

  /** `ProcessRecursive(str, recursive)`: the empty text is returned without
      consulting the expression; a string result of a recursive run is text
      on which a further pass changes nothing. */
  function ProcessRecursive(p: PatternProcessor, s: string, recursive: bool, fuel: nat): (r: Result<Value>)
    requires ValidRegexp(p.re)
    ensures s == "" ==> r == Success(Str(""))
    ensures s != "" && r.Success? && r.value.Str? && recursive ==> Pass(p, r.value.s) == Success(Spliced(r.value.s))
  {
    if s == "" then Success(Str(s)) else Loop(p, s, recursive, fuel)
  }

  /** `Process(str)`: the recursive mode. */
  function Process(p: PatternProcessor, s: string, fuel: nat): (r: Result<Value>)
    requires ValidRegexp(p.re)
    ensures s == "" ==> r == Success(Str(""))
    ensures s != "" && r.Success? && r.value.Str? ==> Pass(p, r.value.s) == Success(Spliced(r.value.s))
  {
    ProcessRecursive(p, s, true, fuel)
  }

  /** The value a single pass contributes to the result. */
  function StepValue(step: Step): Value {
    match step
    case Spliced(t) => Str(t)
    case Native(v) => v
  }

  /** The non-recursive mode is exactly one pass. */
  lemma NonRecursiveIsOnePass(p: PatternProcessor, s: string, fuel: nat)
    requires ValidRegexp(p.re) && s != "" && fuel >= 1
    ensures Pass(p, s).Failure? ==> ProcessRecursive(p, s, false, fuel) == Failure(Pass(p, s).error)
    ensures Pass(p, s).Success? ==> ProcessRecursive(p, s, false, fuel) == Success(StepValue(Pass(p, s).value))
  {
  }

  /** Extra fuel never changes a result that was reached: the bound only
      decides whether a run converges, never what it converges to. */
  lemma {:induction false} LoopFuelMonotonic(p: PatternProcessor, s: string, recursive: bool, fuel: nat, more: nat)
    requires ValidRegexp(p.re)
    requires Loop(p, s, recursive, fuel) != Failure(DidNotConverge) && fuel <= more
    ensures Loop(p, s, recursive, more) == Loop(p, s, recursive, fuel)
    decreases fuel
  {
    var step := Pass(p, s);
    if step.Success? && step.value.Spliced? && recursive && step.value.text != s {
      LoopFuelMonotonic(p, step.value.text, recursive, fuel - 1, more - 1);
    }
  }

  /** A scan without hits leaves the text as it is. */
  lemma PassWithoutHits(p: PatternProcessor, s: string)
    requires ValidRegexp(p.re) && p.re.findAll(s) == []
    ensures Pass(p, s) == Success(Spliced(s))
  {
  }

  /** A single hit covering the text hands the resolver's value through
      unprinted: a string becomes the next text, anything else the result. */
  lemma PassWholeMatch(p: PatternProcessor, s: string, v: Value)
    requires ValidRegexp(p.re)
    requires |p.re.findAll(s)| == 1 && p.re.findAll(s)[0][1] - p.re.findAll(s)[0][0] == |s|
    requires p.resolve(MatchOf(p.re.names, s, p.re.findAll(s)[0])) == Success(v)
    ensures v.Str? ==> Pass(p, s) == Success(Spliced(v.s))
    ensures !v.Str? ==> Pass(p, s) == Success(Native(v))
  {
  }

  /** A scan with a single hit that runs to the end of the text: a string
      value replaces the hit and the text before it is kept. */
  lemma PassSingleHit(p: PatternProcessor, s: string, start: int, v: Value)
    requires ValidRegexp(p.re)
    requires |p.re.findAll(s)| == 1 && p.re.findAll(s)[0][0] == start && p.re.findAll(s)[0][1] == |s|
    requires p.resolve(MatchOf(p.re.names, s, p.re.findAll(s)[0])) == Success(v)
    requires v.Str?
    ensures 0 <= start <= |s|
    ensures Pass(p, s) == Success(Spliced(s[..start] + v.s))
  {
    var ms := p.re.findAll(s);
    assert ValidScan(p.re.names, s, ms);
    assert ValidGroups(p.re.names, s, ms[0]);
    assert Sprint(v) == v.s;
    if start != 0 {
      assert !WholeMatch(p.re.names, s, ms);
      assert s[|s|..] == "";
      assert Splice(p, s, ms, 1, |s|) == Success("");
      assert Splice(p, s, ms, 0, 0) == Success(s[0..start] + v.s + "");
      assert Pass(p, s) == Success(Spliced(s[0..start] + v.s + ""));
      assert s[0..start] + v.s + "" == s[..start] + v.s;
    } else {
      assert WholeMatch(p.re.names, s, ms);
      assert s[..start] + v.s == v.s;
    }
  }

  /** A pass that changes the text hands the new text to the next
      iteration of a recursive run. */
  lemma LoopStep(p: PatternProcessor, s: string, t: string, fuel: nat)
    requires ValidRegexp(p.re) && fuel >= 1
    requires Pass(p, s) == Success(Spliced(t)) && t != s
    ensures Loop(p, s, true, fuel) == Loop(p, t, true, fuel - 1)
  {
  }

  /** A recursive run over texts `f(n), f(n + 1), ...` in which every pass
      changes the text never converges, whatever the fuel. */
  lemma {:induction false} EndlessGrowthDiverges(p: PatternProcessor, f: nat -> string, n: nat, fuel: nat)
    requires ValidRegexp(p.re)
    requires forall k: nat :: Pass(p, f(k)) == Success(Spliced(f(k + 1))) && f(k + 1) != f(k)
    ensures Loop(p, f(n), true, fuel) == Failure(DidNotConverge)
    decreases fuel
  {
    if fuel > 0 {
      LoopStep(p, f(n), f(n + 1), fuel);
      EndlessGrowthDiverges(p, f, n + 1, fuel - 1);
    }
  }

  /** A resolver that answers every hit with its own text leaves the text
      between `last` and the end unchanged. */
  lemma {:induction false} SpliceIdentity(p: PatternProcessor, s: string, ms: seq<seq<int>>, i: nat, last: nat)
    requires ValidScan(p.re.names, s, ms)
    requires i <= |ms| && last <= |s|
    requires i < |ms| ==> last <= ms[i][0]
    requires forall k :: i <= k < |ms| ==>
               p.resolve(MatchOf(p.re.names, s, ms[k])) == Success(Str(MatchOf(p.re.names, s, ms[k]).expr))
    ensures Splice(p, s, ms, i, last) == Success(s[last..])
    decreases |ms| - i
  {
    if i < |ms| {
      var hit := ms[i];
      assert ValidGroups(p.re.names, s, hit);
      SpliceIdentity(p, s, ms, i + 1, hit[1]);
      assert s[last..hit[0]] + s[hit[0]..hit[1]] + s[hit[1]..] == s[last..];
    }
  }

  /** A resolver that answers every hit with its own text makes a pass the
      identity, so processing stops after one pass. */
  lemma PassIdentity(p: PatternProcessor, s: string)
    requires ValidRegexp(p.re)
    requires forall m :: p.resolve(m) == Success(Str(m.expr))
    ensures Pass(p, s) == Success(Spliced(s))
  {
    var ms := p.re.findAll(s);
    assert ValidScan(p.re.names, s, ms);
    if WholeMatch(p.re.names, s, ms) {
      assert ValidGroups(p.re.names, s, ms[0]);
      assert s[ms[0][0]..ms[0][1]] == s;
    } else {
      SpliceIdentity(p, s, ms, 0, 0);
    }
  }

  /** A panic of the resolver on the first hit ends processing with that
      panic. */
  lemma ResolverFailureStops(p: PatternProcessor, s: string, recursive: bool, fuel: nat, e: Error)
    requires ValidRegexp(p.re) && s != "" && fuel >= 1
    requires |p.re.findAll(s)| >= 1
    requires p.resolve(MatchOf(p.re.names, s, p.re.findAll(s)[0])) == Failure(e)
    ensures ProcessRecursive(p, s, recursive, fuel) == Failure(e)
  {
    var ms := p.re.findAll(s);
    assert ValidScan(p.re.names, s, ms);
    assert ValidGroups(p.re.names, s, ms[0]);
  }

  /** The resolver of util/text/PatternProcessor_test.go: "World" becomes
      "Mike", every other word stays. */
  function MikeResolver(m: Match): (Match -> Result<Value>) -> Result<Value> {
    super => if m.expr == "World" then Success(Str("Mike")) else Success(Str(m.expr))
  }

  /** The hits of `\w+` in " Hello World! " are the two words. */
  lemma HelloWorldHits()
    ensures WordScan.WordRunsFrom(" Hello World! ", 0) == [[1, 6], [7, 12]]
  {
    var s := " Hello World! ";
    assert !IsWordChar(s[0]);
    assert WordScan.RunEnd(s, 1) == 6 by {
      assert IsWordChar(s[1]) && IsWordChar(s[2]) && IsWordChar(s[3]) && IsWordChar(s[4]) && IsWordChar(s[5]);
      assert !IsWordChar(s[6]);
    }
    assert WordScan.RunEnd(s, 7) == 12 by {
      assert IsWordChar(s[7]) && IsWordChar(s[8]) && IsWordChar(s[9]) && IsWordChar(s[10]) && IsWordChar(s[11]);
      assert !IsWordChar(s[12]);
    }
    assert !IsWordChar(s[12]) && !IsWordChar(s[13]);
    assert WordScan.WordRunsFrom(s, 12) == [];
    assert WordScan.WordRunsFrom(s, 7) == [[7, 12]];
    assert WordScan.WordRunsFrom(s, 1) == [[1, 6], [7, 12]];
  }

  /** The hits of `\w+` in " Hello Mike! " are the two words. */
  lemma HelloMikeHits()
    ensures WordScan.WordRunsFrom(" Hello Mike! ", 0) == [[1, 6], [7, 11]]
  {
    var s := " Hello Mike! ";
    assert !IsWordChar(s[0]);
    assert WordScan.RunEnd(s, 1) == 6 by {
      assert IsWordChar(s[1]) && IsWordChar(s[2]) && IsWordChar(s[3]) && IsWordChar(s[4]) && IsWordChar(s[5]);
      assert !IsWordChar(s[6]);
    }
    assert WordScan.RunEnd(s, 7) == 11 by {
      assert IsWordChar(s[7]) && IsWordChar(s[8]) && IsWordChar(s[9]) && IsWordChar(s[10]);
      assert !IsWordChar(s[11]);
    }
    assert !IsWordChar(s[11]) && !IsWordChar(s[12]);
    assert WordScan.WordRunsFrom(s, 11) == [];
    assert WordScan.WordRunsFrom(s, 7) == [[7, 11]];
    assert WordScan.WordRunsFrom(s, 1) == [[1, 6], [7, 11]];
  }

  /** The processor of util/text/PatternProcessor_test.go. */
  ghost predicate RenamesWorld(p: PatternProcessor) {
    && p.re == WordScan.WordRegexp()
    && forall m :: p.resolve(m) == (if m.expr == "World" then Success(Str("Mike")) else Success(Str(m.expr)))
  }

  lemma RenamesWorldFirstPass(p: PatternProcessor)
    requires RenamesWorld(p) && ValidRegexp(p.re)
    ensures Pass(p, " Hello World! ") == Success(Spliced(" Hello Mike! "))
  {
    var s := " Hello World! ";
    HelloWorldHits();
    var ms := p.re.findAll(s);
    assert ms == [[1, 6], [7, 12]];
    RenamesWorldSplice(p, s, ms);
    assert !WholeMatch(p.re.names, s, ms);
  }

  lemma RenamesWorldSplice(p: PatternProcessor, s: string, ms: seq<seq<int>>)
    requires RenamesWorld(p) && ValidRegexp(p.re)
    requires s == " Hello World! " && ms == [[1, 6], [7, 12]] && ValidScan(p.re.names, s, ms)
    ensures Splice(p, s, ms, 0, 0) == Success(" Hello Mike! ")
  {
    assert p.re.names == [""];
    var m1 := MatchOf(p.re.names, s, ms[1]);
    assert m1.expr == s[7..12] == "World";
    assert Splice(p, s, ms, 2, 12) == Success("! ");
    SpliceStep(p, s, ms, 1, 6, Str("Mike"), "! ");
    assert s[6..7] == " ";
    assert " " + "Mike" + "! " == " Mike! ";
    var m0 := MatchOf(p.re.names, s, ms[0]);
    assert m0.expr == s[1..6] == "Hello";
    SpliceStep(p, s, ms, 0, 0, Str("Hello"), " Mike! ");
    assert s[0..1] == " ";
    assert " " + "Hello" + " Mike! " == " Hello Mike! ";
  }

  lemma RenamesWorldSecondPass(p: PatternProcessor)
    requires RenamesWorld(p) && ValidRegexp(p.re)
    ensures Pass(p, " Hello Mike! ") == Success(Spliced(" Hello Mike! "))
  {
    var t := " Hello Mike! ";
    HelloMikeHits();
    var ns := p.re.findAll(t);
    assert ns == [[1, 6], [7, 11]];
    HelloMikeUnchanged(p, t, ns);
    SpliceIdentity(p, t, ns, 0, 0);
    assert !WholeMatch(p.re.names, t, ns);
  }

  /** Neither hit of the second pass is "World". */
  lemma HelloMikeUnchanged(p: PatternProcessor, t: string, ns: seq<seq<int>>)
    requires RenamesWorld(p) && ValidRegexp(p.re)
    requires t == " Hello Mike! " && ns == [[1, 6], [7, 11]] && ValidScan(p.re.names, t, ns)
    ensures forall k :: 0 <= k < |ns| ==>
              p.resolve(MatchOf(p.re.names, t, ns[k])) == Success(Str(MatchOf(p.re.names, t, ns[k]).expr))
  {
    assert MatchOf(p.re.names, t, ns[0]).expr == t[1..6] == "Hello";
    assert MatchOf(p.re.names, t, ns[1]).expr == t[7..11] == "Mike";
  }

  /** The word pattern of util/text/PatternProcessor_test.go. */
  const WordPattern: string := "\\w+"

  /** The case of util/text/PatternProcessor_test.go: with `WordPattern` and the
      resolver that renames "World", " Hello World! " becomes
      " Hello Mike! " after two passes, the second finding nothing to
      change. */
  lemma HelloWorldExample(p: PatternProcessor, compile: string -> Regexp)
    requires compile("(?ms)" + WordPattern) == WordScan.WordRegexp()
    requires p == OverrideResolve(PatternProcessorOf(WordPattern, compile), MikeResolver)
    ensures ValidRegexp(p.re)
    ensures Process(p, " Hello World! ", 2) == Success(Str(" Hello Mike! "))
  {
    WordScan.ScannersAreValid();
    assert !HasPrefix(WordPattern, "(?") by {
      assert WordPattern[0] != "(?"[0];
    }
    assert CompiledSource(WordPattern) == "(?ms)" + WordPattern;
    assert p.re == WordScan.WordRegexp();
    assert RenamesWorld(p);
    RenamesWorldFirstPass(p);
    RenamesWorldSecondPass(p);
  }
}
