/** env/ExprProcessor.go: the placeholder language of property values.

    Four kinds of placeholder are recognised by one regular expression:
    `${key}` and `${key:default}` look a property up, `#{expr}` and
    `###{expr}###` evaluate an expression against the processor's context.
    The template loop of `Text` repeats the substitution until the text
    stops changing, so a property value that itself holds placeholders is
    expanded by later passes, never by `Resolve` itself.

    Two collaborators are parameters: the raw property lookup of the
    environment the resolver consults (`Lookup`), and the expression backend
    (`Eval`), which parses, compiles and runs an expression and may fail. */
module ExprProcessing {
  import opened Wrappers
  import opened Values
  import opened Optionals
  import opened Regex
  import Lang
  import Text

  /** The placeholder expression (Go raw-string syntax): the `complex`,
      `expr`, `prop` and `defaultValue` groups. */
  const ExprPattern: string :=
    "\\#\\#\\#\\{(?P<complex>([^\\$#]\\{|[^\\{])*?)\\}\\#\\#\\#|\\#\\{(?P<expr>([^\\$#]\\{|[^\\{])*?)\\}|\\$\\{(?P<prop>([^\\$#:]\\{|[^\\{\\}:])*)(:(?P<defaultValue>([^\\$#]\\{|[^\\{])*?))?\\}"

  /** The group names of `ExprPattern`, as Go's `SubexpNames` lists them. */
  const ExprGroupNames: seq<string> := ["", "complex", "", "expr", "", "prop", "", "", "defaultValue", ""]

  /** The raw property lookup of the environment: a value, nothing, or a
      failure of a source consulted on the way. */
  type Lookup = string -> Result<Optional<string>>

  /** The expression backend: evaluate source text against a context. */
  type Eval = string -> map<string, Value> -> Result<Value>

  datatype ExprProcessor = ExprProcessor(re: Regexp, context: map<string, Value>, strict: bool)

  const Nanosecond: int := 1
  const Microsecond: int := 1000 * Nanosecond
  const Millisecond: int := 1000 * Microsecond
  const Second: int := 1000 * Millisecond
  const Minute: int := 60 * Second
  const Hour: int := 60 * Minute

  /** The `time` binding of a new processor: Go's duration units and a
      24-hour `Day`, kept in the key order `fmt` prints a map in. */
  function TimeUnits(): (v: Value)
    ensures v.Dict?
    ensures forall k :: 0 <= k < |v.entries| ==> v.entries[k].value.Duration? && v.entries[k].value.nanos > 0
    ensures forall j, k :: 0 <= j < k < |v.entries| ==> v.entries[j].key != v.entries[k].key
  {
    Dict([
      Entry("Day", Duration(24 * Hour)),
      Entry("Hour", Duration(Hour)),
      Entry("Microsecond", Duration(Microsecond)),
      Entry("Millisecond", Duration(Millisecond)),
      Entry("Minute", Duration(Minute)),
      Entry("Nanosecond", Duration(Nanosecond)),
      Entry("Second", Duration(Second))
    ])
  }

  /** `ExprProcessorOf(strict)`; `compile` stands for `regexp.MustCompile`.
      The context holds nothing but the `time` units. */
  function ExprProcessorOf(strict: bool, compile: string -> Regexp): (p: ExprProcessor)
    ensures p.strict == strict
    ensures p.context.Keys == {"time"} && p.context["time"] == TimeUnits()
    ensures p.re == compile(Text.CompiledSource(ExprPattern))
  {
    ExprProcessor(compile(Text.CompiledSource(ExprPattern)), map["time" := TimeUnits()], strict)
  }

  /** `Define(key, value)`: binds `key`, every other binding unchanged. */
  function Define(p: ExprProcessor, key: string, value: Value): (r: ExprProcessor)
    ensures key in r.context && r.context[key] == value
    ensures forall k :: k != key ==> (k in r.context <==> k in p.context)
    ensures forall k :: k != key && k in p.context ==> r.context[k] == p.context[k]
    ensures r.re == p.re && r.strict == p.strict
  {
    p.(context := p.context[key := value])
  }

  /** `Reset()`: an empty context. */
  function Reset(p: ExprProcessor): (r: ExprProcessor)
    ensures r.context == map[]
    ensures r.re == p.re && r.strict == p.strict
  {
    p.(context := map[])
  }

  /** `SetStrict(strict)`: only the flag changes. */
  function SetStrict(p: ExprProcessor, strict: bool): (r: ExprProcessor)
    ensures r.strict == strict
    ensures r.re == p.re && r.context == p.context
  {
    p.(strict := strict)
  }

  /** The source text of an expression placeholder: the `expr` group unless
      it is empty, else the `complex` group. */
  function ExpressionText(hit: Match): (e: string)
    ensures Present(NamedGroup(hit, "expr")) && NamedGroup(hit, "expr").value != "" ==> e == NamedGroup(hit, "expr").value
    ensures OrElse(NamedGroup(hit, "expr"), "") == "" ==> e == OrElse(NamedGroup(hit, "complex"), "")
  {
    var candidates := [OrElse(NamedGroup(hit, "expr"), ""), OrElse(NamedGroup(hit, "complex"), "")];
    assert candidates[0] == "" && candidates[1] != "" ==> Lang.FirstNonEmpty("", candidates) == candidates[1] by {
      if candidates[0] == "" && candidates[1] != "" {
        Lang.FirstNonEmptyPicksEarliest("", candidates, 1);
      }
    }
    Lang.FirstNonEmpty("", candidates)
  }

  /** The body of `Resolve` up to its recovery of panics. A property
      placeholder resolves to the raw value text, else to the default, else
      fails; an expression placeholder resolves to the value of the
      expression, and a nil value fails. */
  function ResolveStrict(p: ExprProcessor, lookup: Lookup, eval: Eval, hit: Match): Result<Value> {
    var prop := NamedGroup(hit, "prop");
    if Present(prop) then
      var raw :- lookup(prop.value);
      var defaultValue := NamedGroup(hit, "defaultValue");
      if Present(raw) then Success(Str(Sprint(Str(raw.value))))
      else if Present(defaultValue) then Success(Str(defaultValue.value))
      else Failure(Panic("Cannot resolve property " + Expr(hit)))
    else
      var v :- eval(ExpressionText(hit))(p.context);
      OrElsePanic(OfNilable(v), "Cannot evaluate expression " + Expr(hit))
  }

  /** `Resolve(match, super)`: a strict processor lets every failure through;
      a lenient one recovers from any failure by leaving the placeholder
      text where it was, and otherwise agrees with the strict one. */
  function Resolve(p: ExprProcessor, lookup: Lookup, eval: Eval, hit: Match): (r: Result<Value>)
    ensures p.strict ==> r == ResolveStrict(p, lookup, eval, hit)
    ensures !p.strict ==> r.Success?
    ensures !p.strict && ResolveStrict(p, lookup, eval, hit).Success? ==> r == ResolveStrict(p, lookup, eval, hit)
    ensures !p.strict && ResolveStrict(p, lookup, eval, hit).Failure? ==> r == Success(Str(Expr(hit)))
  {
    var resolved := ResolveStrict(p, lookup, eval, hit);
    if !p.strict && resolved.Failure? then Success(Str(Expr(hit))) else resolved
  }

  /** The template processor `ExprProcessorOf` installs: `Resolve` over the
      current context and strictness. */
  function Processor(p: ExprProcessor, lookup: Lookup, eval: Eval): (t: Text.PatternProcessor)
    ensures t.re == p.re
    ensures forall hit :: t.resolve(hit) == Resolve(p, lookup, eval, hit)
  {
    Text.PatternProcessor(p.re, hit => Resolve(p, lookup, eval, hit))
  }

  /** `Process(str)` of the embedded template processor. */
  function Process(p: ExprProcessor, lookup: Lookup, eval: Eval, s: string, fuel: nat): (r: Result<Value>)
    requires ValidRegexp(p.re)
    ensures s == "" ==> r == Success(Str(""))
    ensures s != "" && r.Success? && r.value.Str? ==>
              Text.Pass(Processor(p, lookup, eval), r.value.s) == Success(Text.Spliced(r.value.s))
  {
    Text.Process(Processor(p, lookup, eval), s, fuel)
  }

  /** A found key is replaced by its raw value text: placeholders inside it
      are left for the next pass, and the default is ignored. */
  lemma ResolveFoundKey(p: ExprProcessor, lookup: Lookup, eval: Eval, hit: Match, key: string, raw: string)
    requires NamedGroup(hit, "prop") == Of(key) && lookup(key) == Success(Of(raw))
    ensures Resolve(p, lookup, eval, hit) == Success(Str(raw))
  {
  }

  /** A missing key with a default is replaced by the default text. */
  lemma ResolveDefault(p: ExprProcessor, lookup: Lookup, eval: Eval, hit: Match, key: string, default: string)
    requires NamedGroup(hit, "prop") == Of(key) && lookup(key) == Success(Empty)
    requires NamedGroup(hit, "defaultValue") == Of(default)
    ensures Resolve(p, lookup, eval, hit) == Success(Str(default))
  {
  }

  /** A missing key without a default fails in strict mode with the
      placeholder text, and stays as it is in lenient mode. */
  lemma ResolveMissing(p: ExprProcessor, lookup: Lookup, eval: Eval, hit: Match, key: string)
    requires NamedGroup(hit, "prop") == Of(key) && lookup(key) == Success(Empty)
    requires !Present(NamedGroup(hit, "defaultValue"))
    ensures p.strict ==> Resolve(p, lookup, eval, hit) == Failure(Panic("Cannot resolve property " + Expr(hit)))
    ensures !p.strict ==> Resolve(p, lookup, eval, hit) == Success(Str(Expr(hit)))
  {
  }

  /** An expression placeholder evaluates its expression text in the
      context; a nil value is a failure naming the placeholder. */
  lemma ResolveExpression(p: ExprProcessor, lookup: Lookup, eval: Eval, hit: Match, v: Value)
    requires p.strict && !Present(NamedGroup(hit, "prop"))
    requires eval(ExpressionText(hit))(p.context) == Success(v)
    ensures !IsNil(v) ==> Resolve(p, lookup, eval, hit) == Success(v)
    ensures IsNil(v) ==> Resolve(p, lookup, eval, hit) == Failure(Panic("Cannot evaluate expression " + Expr(hit)))
  {
  }

  /** The scan of `s` finds a single hit, from `start` to the end of `s`:
      a property placeholder for `key` without a default. */
  ghost predicate OnlyPropertyHit(re: Regexp, s: string, start: int, key: string) {
    var ms := re.findAll(s);
    && |ms| == 1
    && ValidGroups(re.names, s, ms[0])
    && ms[0][0] == start && ms[0][1] == |s|
    && NamedGroup(MatchOf(re.names, s, ms[0]), "prop") == Of(key)
    && !Present(NamedGroup(MatchOf(re.names, s, ms[0]), "defaultValue"))
  }

  /** The scan of `s` finds a single hit covering `s`: an expression
      placeholder whose expression is `e`. */
  ghost predicate OnlyExpressionHit(re: Regexp, s: string, e: string) {
    var ms := re.findAll(s);
    && |ms| == 1
    && ValidGroups(re.names, s, ms[0])
    && ms[0][0] == 0 && ms[0][1] == |s|
    && !Present(NamedGroup(MatchOf(re.names, s, ms[0]), "prop"))
    && ExpressionText(MatchOf(re.names, s, ms[0])) == e
  }

  function Placeholder(key: string): string {
    "${" + key + "}"
  }

  /** A property whose value is its own placeholder, `x=${x}`, is already a
      fixed point: processing it returns the placeholder text. */
  lemma SelfReferenceIsFixedPoint(p: ExprProcessor, lookup: Lookup, eval: Eval, key: string, fuel: nat)
    requires ValidRegexp(p.re) && fuel >= 1
    requires OnlyPropertyHit(p.re, Placeholder(key), 0, key)
    requires lookup(key) == Success(Of(Placeholder(key)))
    ensures Process(p, lookup, eval, Placeholder(key), fuel) == Success(Str(Placeholder(key)))
  {
    var t := Processor(p, lookup, eval);
    var s := Placeholder(key);
    var m := p.re.findAll(s)[0];
    ResolveFoundKey(p, lookup, eval, MatchOf(p.re.names, s, m), key, s);
    Text.PassWholeMatch(t, s, Str(s));
  }

  /** `n` copies of `c`. */
  function Repeat(c: string, n: nat): string {
    if n == 0 then "" else Repeat(c, n - 1) + c
  }

  /** The text after `n` passes over a value that prefixes its own
      placeholder with `c`. */
  function Grown(c: string, key: string, n: nat): string {
    Repeat(c, n) + Placeholder(key)
  }

  /** One pass over `Grown(c, key, n)` prefixes one more copy of `c`. */
  lemma GrowingPass(p: ExprProcessor, lookup: Lookup, eval: Eval, c: string, key: string, n: nat)
    requires ValidRegexp(p.re) && c != ""
    requires OnlyPropertyHit(p.re, Grown(c, key, n), |Repeat(c, n)|, key)
    requires lookup(key) == Success(Of(c + Placeholder(key)))
    ensures Text.Pass(Processor(p, lookup, eval), Grown(c, key, n)) == Success(Text.Spliced(Grown(c, key, n + 1)))
  {
    var t := Processor(p, lookup, eval);
    var s := Grown(c, key, n);
    var m := p.re.findAll(s)[0];
    ResolveFoundKey(p, lookup, eval, MatchOf(p.re.names, s, m), key, c + Placeholder(key));
    assert t.resolve(MatchOf(p.re.names, s, m)) == Success(Str(c + Placeholder(key)));
    Text.PassSingleHit(t, s, |Repeat(c, n)|, Str(c + Placeholder(key)));
    assert s[..|Repeat(c, n)|] == Repeat(c, n);
    assert Repeat(c, n) + (c + Placeholder(key)) == Grown(c, key, n + 1);
  }


  /** Each pass makes the text strictly longer. */
  lemma GrowingLonger(c: string, key: string, k: nat)
    requires c != ""
    ensures Grown(c, key, k + 1) != Grown(c, key, k)
  {
    assert Repeat(c, k + 1) == Repeat(c, k) + c;
    assert |Grown(c, key, k + 1)| == |Grown(c, key, k)| + |c|;
  }

  /** Every pass over the growing text grows it once more. */
  lemma GrowingPasses(p: ExprProcessor, lookup: Lookup, eval: Eval, c: string, key: string)
    requires ValidRegexp(p.re) && c != ""
    requires forall k: nat :: OnlyPropertyHit(p.re, Grown(c, key, k), |Repeat(c, k)|, key)
    requires lookup(key) == Success(Of(c + Placeholder(key)))
    ensures forall k: nat :: Text.Pass(Processor(p, lookup, eval), Grown(c, key, k)) == Success(Text.Spliced(Grown(c, key, k + 1)))
    ensures forall k: nat :: Grown(c, key, k + 1) != Grown(c, key, k)
  {
    forall k: nat
      ensures Text.Pass(Processor(p, lookup, eval), Grown(c, key, k)) == Success(Text.Spliced(Grown(c, key, k + 1)))
      ensures Grown(c, key, k + 1) != Grown(c, key, k)
    {
      GrowingPass(p, lookup, eval, c, key, k);
      GrowingLonger(c, key, k);
    }
  }

  /** A value that prefixes its own placeholder (`a=x${a}`) grows on every
      pass and never converges, however much fuel is given. */
  lemma GrowingSelfReferenceDiverges(p: ExprProcessor, lookup: Lookup, eval: Eval, c: string, key: string, fuel: nat)
    requires ValidRegexp(p.re) && c != ""
    requires forall k: nat :: OnlyPropertyHit(p.re, Grown(c, key, k), |Repeat(c, k)|, key)
    requires lookup(key) == Success(Of(c + Placeholder(key)))
    ensures Process(p, lookup, eval, Placeholder(key), fuel) == Failure(DidNotConverge)
  {
    var t := Processor(p, lookup, eval);
    GrowingPasses(p, lookup, eval, c, key);
    var f := (k: nat) => Grown(c, key, k);
    Text.EndlessGrowthDiverges(t, f, 0, fuel);
    assert f(0) == Placeholder(key);
  }

  /** The case `a=x${a}`: processing `${a}` does not converge. */
  lemma GrowingSelfReferenceExample(p: ExprProcessor, lookup: Lookup, eval: Eval, fuel: nat)
    requires ValidRegexp(p.re)
    requires forall k: nat :: OnlyPropertyHit(p.re, Grown("x", "a", k), |Repeat("x", k)|, "a")
    requires lookup("a") == Success(Of("x${a}"))
    ensures Process(p, lookup, eval, "${a}", fuel) == Failure(DidNotConverge)
  {
    assert Placeholder("a") == "${a}";
    assert "x" + Placeholder("a") == "x${a}";
    GrowingSelfReferenceDiverges(p, lookup, eval, "x", "a", fuel);
  }

  /** A single property hit covering the text is replaced by the raw value. */
  lemma PassOfPlaceholder(p: ExprProcessor, lookup: Lookup, eval: Eval, key: string, raw: string)
    requires ValidRegexp(p.re)
    requires OnlyPropertyHit(p.re, Placeholder(key), 0, key)
    requires lookup(key) == Success(Of(raw))
    ensures Text.Pass(Processor(p, lookup, eval), Placeholder(key)) == Success(Text.Spliced(raw))
  {
    var t := Processor(p, lookup, eval);
    var s := Placeholder(key);
    var hs := MatchOf(p.re.names, s, p.re.findAll(s)[0]);
    ResolveFoundKey(p, lookup, eval, hs, key, raw);
    Text.PassWholeMatch(t, s, Str(raw));
  }

  /** A single expression hit covering the text whose value is not a string
      ends processing with that value. */
  lemma PassOfExpression(p: ExprProcessor, lookup: Lookup, eval: Eval, x: string, e: string, v: Value)
    requires ValidRegexp(p.re) && p.strict
    requires !v.Str? && !IsNil(v)
    requires OnlyExpressionHit(p.re, x, e)
    requires eval(e)(p.context) == Success(v)
    ensures Text.Pass(Processor(p, lookup, eval), x) == Success(Text.Native(v))
  {
    var t := Processor(p, lookup, eval);
    var hx := MatchOf(p.re.names, x, p.re.findAll(x)[0]);
    ResolveExpression(p, lookup, eval, hx, v);
    Text.PassWholeMatch(t, x, v);
  }

  /** A placeholder whose value is an expression yields the expression's
      value, not its text: `${key}` with `key=#{e}` gives what `e`
      evaluates to (the integer 123 for `#{123}`). */
  lemma PlaceholderOfExpression(p: ExprProcessor, lookup: Lookup, eval: Eval, key: string, e: string, v: Value, fuel: nat)
    requires ValidRegexp(p.re) && p.strict && fuel >= 2
    requires !v.Str? && !IsNil(v)
    requires OnlyPropertyHit(p.re, Placeholder(key), 0, key)
    requires OnlyExpressionHit(p.re, "#{" + e + "}", e)
    requires lookup(key) == Success(Of("#{" + e + "}"))
    requires eval(e)(p.context) == Success(v)
    ensures Process(p, lookup, eval, Placeholder(key), fuel) == Success(v)
  {
    var t := Processor(p, lookup, eval);
    var s := Placeholder(key);
    var x := "#{" + e + "}";
    PassOfPlaceholder(p, lookup, eval, key, x);
    PassOfExpression(p, lookup, eval, x, e, v);
    assert s != x by {
      assert s[0] != x[0];
    }
    Text.LoopStep(t, s, x, fuel);
  }


}
