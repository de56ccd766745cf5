/** The profile matcher of env/Environment.go (`MatchesProfiles`).

    A profile expression such as `prod & !cloud` is first rewritten by a
    one-pass template processor over `(?P<word>\w+)|(?P<sign>\W)`: every
    word becomes `true` or `false` by whether it names an active profile,
    `&` becomes `&&`, `|` becomes `||`, and every other character stays.
    The rewritten text is then evaluated as a boolean expression. Go hands
    it to the expression backend; here a small evaluator of `true`, `false`,
    `!`, `&&`, `||` and parentheses stands in for it. */
module Profiles {
  import opened Wrappers
  import opened Strings
  import opened Values
  import opened Optionals
  import opened Regex
  import Text
  import WordScan
  import Collection

  /** The tokeniser pattern of the matcher. It sets its own flags, so it
      is compiled as written. */
  const MatcherPattern: string := "(?P<word>\\w+)|(?P<sign>\\W)"

  // ---------------------------------------------------------------------
  // The rewrite
  // ---------------------------------------------------------------------

  /** The resolver `MatchesProfiles` installs: a word is `true` exactly when
      it is active; a sign `&` or `|` is doubled; any other hit is kept. A
      hit with neither group is the panic of `Value()` on the absent sign. */
  function ResolveToken(active: set<string>, m: Match): (r: Result<Value>)
    ensures Present(NamedGroup(m, "word")) ==> r == Success(Bool(NamedGroup(m, "word").value in active))
    ensures !Present(NamedGroup(m, "word")) && NamedGroup(m, "sign") == Of("&") ==> r == Success(Str("&&"))
    ensures !Present(NamedGroup(m, "word")) && NamedGroup(m, "sign") == Of("|") ==> r == Success(Str("||"))
  {
    var word := NamedGroup(m, "word");
    var sign := NamedGroup(m, "sign");
    if Present(word) then Success(Bool(word.value in active))
    else
      var s :- Optionals.Value(sign);
      if s == "&" then Success(Str("&&"))
      else if s == "|" then Success(Str("||"))
      else Success(Str(Expr(m)))
  }

  /** The processor of `MatchesProfiles` for the active set `active`;
      `compile` stands for `regexp.MustCompile`. */
  function MatcherProcessor(active: set<string>, compile: string -> Regexp): (p: Text.PatternProcessor)
    ensures p.re == compile(MatcherPattern)
    ensures forall m :: p.resolve(m) == ResolveToken(active, m)
  {
    assert Text.CompiledSource(MatcherPattern) == MatcherPattern by {
      assert MatcherPattern[..2] == "(?";
    }
    Text.OverrideResolve(Text.PatternProcessorOf(MatcherPattern, compile), m => super => ResolveToken(active, m))
  }

  /** What the rewrite makes of one character that is not a word
      character. */
  function SignText(c: char): string {
    if c == '&' then "&&" else if c == '|' then "||" else [c]
  }

  /** The rewrite of `s[i..]`, stated character by character: a maximal
      run of word characters becomes `true` or `false`, any other character
      its `SignText`. */
  function Rewritten(active: set<string>, s: string, i: nat): string
    requires i <= |s|
    decreases |s| - i
  {
    if i == |s| then ""
    else if IsWordChar(s[i]) then
      var j := WordScan.RunEnd(s, i);
      (if s[i..j] in active then "true" else "false") + Rewritten(active, s, j)
    else SignText(s[i]) + Rewritten(active, s, i + 1)
  }

  /** The text a processor hit contributes to the rewrite. */
  function Piece(active: set<string>, s: string, i: nat): string
    requires i < |s|
  {
    if IsWordChar(s[i]) then
      (if s[i..WordScan.RunEnd(s, i)] in active then "true" else "false")
    else SignText(s[i])
  }

  /** The group names of `MatcherPattern`. */
  const MatcherNames: seq<string> := ["", "word", "sign"]

  /** The index vector of a hit of the `word` alternative over `s[i..j]`. */
  function WordVector(i: int, j: int): seq<int> {
    [i, j, i, j, -1, -1]
  }

  /** The index vector of a hit of the `sign` alternative at `i`. */
  function SignVector(i: int): seq<int> {
    [i, i + 1, -1, -1, i, i + 1]
  }

  lemma WordHit(s: string, i: nat, j: nat)
    requires i < j <= |s|
    ensures ValidGroups(MatcherNames, s, WordVector(i, j))
    ensures NamedGroup(MatchOf(MatcherNames, s, WordVector(i, j)), "word") == Of(s[i..j])
  {
    var hit := WordVector(i, j);
    assert GroupInBounds(s, hit, 0) && GroupInBounds(s, hit, 1) && GroupInBounds(s, hit, 2);
    assert forall k: nat :: k < |MatcherNames| && k != 1 ==> MatcherNames[k] != MatcherNames[1];
    NamedGroupAgrees(MatcherNames, s, hit, 1);
    GroupPresence(MatcherNames, s, hit, 1);
  }

  lemma SignHit(s: string, i: nat)
    requires i < |s|
    ensures ValidGroups(MatcherNames, s, SignVector(i))
    ensures var m := MatchOf(MatcherNames, s, SignVector(i));
            !Present(NamedGroup(m, "word")) && NamedGroup(m, "sign") == Of([s[i]]) && Expr(m) == [s[i]]
  {
    var hit := SignVector(i);
    assert GroupInBounds(s, hit, 0) && GroupInBounds(s, hit, 1) && GroupInBounds(s, hit, 2);
    assert forall k: nat :: k < |MatcherNames| && MatcherNames[k] == "word" ==> k == 1;
    NamedGroupAbsent(MatcherNames, s, hit, "word");
    assert forall k: nat :: k < |MatcherNames| && k != 2 ==> MatcherNames[k] != MatcherNames[2];
    NamedGroupAgrees(MatcherNames, s, hit, 2);
    GroupPresence(MatcherNames, s, hit, 2);
    assert s[i..i + 1] == [s[i]];
  }

  /** A word resolves to `true` or `false`. */
  lemma ResolveWord(active: set<string>, s: string, i: nat, j: nat)
    requires i < j <= |s|
    ensures ValidGroups(MatcherNames, s, WordVector(i, j))
    ensures ResolveToken(active, MatchOf(MatcherNames, s, WordVector(i, j))) == Success(Bool(s[i..j] in active))
  {
    WordHit(s, i, j);
  }

  /** Any other character resolves to its `SignText`. */
  lemma ResolveSign(active: set<string>, s: string, i: nat)
    requires i < |s|
    ensures ValidGroups(MatcherNames, s, SignVector(i))
    ensures ResolveToken(active, MatchOf(MatcherNames, s, SignVector(i))) == Success(Str(SignText(s[i])))
  {
    SignHit(s, i);
  }

  /** The resolver turns the hit the scanner finds at `i` into `Piece`. */
  lemma ResolveHit(active: set<string>, s: string, i: nat)
    requires i < |s|
    ensures var ms := WordScan.WordSignFrom(s, i);
            && |ms| >= 1
            && ms[0][0] == i
            && ms[0][1] == (if IsWordChar(s[i]) then WordScan.RunEnd(s, i) else i + 1)
            && ValidGroups(MatcherNames, s, ms[0])
            && ResolveToken(active, MatchOf(MatcherNames, s, ms[0])).Success?
            && Sprint(ResolveToken(active, MatchOf(MatcherNames, s, ms[0])).value) == Piece(active, s, i)
  {
    var ms := WordScan.WordSignFrom(s, i);
    if IsWordChar(s[i]) {
      var j := WordScan.RunEnd(s, i);
      assert ms[0] == WordVector(i, j);
      ResolveWord(active, s, i, j);
    } else {
      assert ms[0] == SignVector(i);
      ResolveSign(active, s, i);
    }
  }

  /** The processor with this resolver and the real scanner. */
  ghost predicate IsMatcher(p: Text.PatternProcessor, active: set<string>) {
    && p.re == WordScan.WordSignRegexp()
    && forall m :: p.resolve(m) == ResolveToken(active, m)
  }

  /** The rewrite of `s[i..]` is the piece at `i` followed by the rewrite
      after the hit. */
  lemma RewrittenStep(active: set<string>, s: string, i: nat)
    requires i < |s|
    ensures var next := if IsWordChar(s[i]) then WordScan.RunEnd(s, i) else i + 1;
            i < next <= |s| && Rewritten(active, s, i) == Piece(active, s, i) + Rewritten(active, s, next)
  {
  }

  /** The scan from `i` is its first hit followed by the scan after it. */
  lemma ScanStep(s: string, i: nat)
    requires i < |s|
    ensures var next := if IsWordChar(s[i]) then WordScan.RunEnd(s, i) else i + 1;
            var ms := WordScan.WordSignFrom(s, i);
            && i < next <= |s| && |ms| >= 1 && ms[0][0] == i && ms[0][1] == next
            && ms[1..] == WordScan.WordSignFrom(s, next)
  {
  }

  /** A splice that starts right at the hit `i` begins with the resolved
      hit. */
  lemma SpliceAtHit(p: Text.PatternProcessor, s: string, ms: seq<seq<int>>, i: nat, v: Value, t: string)
    requires ValidScan(p.re.names, s, ms)
    requires i < |ms| && ms[i][0] <= ms[i][1] <= |s|
    requires ValidGroups(p.re.names, s, ms[i])
    requires p.resolve(MatchOf(p.re.names, s, ms[i])) == Success(v)
    requires Text.Splice(p, s, ms, i + 1, ms[i][1]) == Success(t)
    ensures Text.Splice(p, s, ms, i, ms[i][0]) == Success(Sprint(v) + t)
  {
    var last := ms[i][0];
    assert s[last..ms[i][0]] == "";
    assert s[last..ms[i][0]] + Sprint(v) + t == Sprint(v) + t;
  }

  /** Splicing the remaining hits of a scan that starts at `last` yields
      the rewrite of the text from `last` on. */
  lemma {:induction false} SpliceIsRewrite(p: Text.PatternProcessor, active: set<string>, s: string,
                                           ms: seq<seq<int>>, i: nat, last: nat)
    requires IsMatcher(p, active)
    requires ms == WordScan.WordSignFrom(s, 0)
    requires i <= |ms| && last <= |s| && ms[i..] == WordScan.WordSignFrom(s, last)
    ensures i < |ms| ==> last <= ms[i][0]
    ensures Text.Splice(p, s, ms, i, last) == Success(Rewritten(active, s, last))
    decreases |s| - last
  {
    if last == |s| {
      assert |ms[i..]| == 0;
      assert i == |ms|;
      assert s[last..] == "";
    } else {
      var next := if IsWordChar(s[last]) then WordScan.RunEnd(s, last) else last + 1;
      ScanStep(s, last);
      ResolveHit(active, s, last);
      assert ms[i..][0] == ms[i];
      assert ms[i + 1..] == ms[i..][1..];
      SpliceIsRewrite(p, active, s, ms, i + 1, next);
      var m := MatchOf(p.re.names, s, ms[i]);
      assert p.resolve(m) == ResolveToken(active, m);
      RewrittenStep(active, s, last);
      SpliceAtHit(p, s, ms, i, ResolveToken(active, m).value, Rewritten(active, s, next));
    }
  }

  /** One pass of the matcher processor prints as the reference rewrite,
      whether or not the text is a single hit. */
  lemma PassIsRewrite(p: Text.PatternProcessor, active: set<string>, s: string)
    requires IsMatcher(p, active)
    ensures ValidRegexp(p.re)
    ensures Text.Pass(p, s).Success?
    ensures Sprint(Text.StepValue(Text.Pass(p, s).value)) == Rewritten(active, s, 0)
  {
    WordScan.ScannersAreValid();
    var ms := p.re.findAll(s);
    assert ms == WordScan.WordSignFrom(s, 0);
    if Text.WholeMatch(p.re.names, s, ms) {
      WholeHitIsRewrite(p, active, s);
    } else {
      assert ms[0..] == ms;
      SpliceIsRewrite(p, active, s, ms, 0, 0);
    }
  }

  /** When the first hit spans the whole text, the rewrite is its piece. */
  lemma RewrittenOfOneHit(active: set<string>, s: string)
    requires s != ""
    requires (if IsWordChar(s[0]) then WordScan.RunEnd(s, 0) else 1) == |s|
    ensures Rewritten(active, s, 0) == Piece(active, s, 0)
  {
    RewrittenStep(active, s, 0);
    assert Rewritten(active, s, |s|) == "";
    assert Piece(active, s, 0) + "" == Piece(active, s, 0);
  }

  /** A text that is one hit is resolved whole: its piece is its rewrite. */
  lemma WholeHitIsRewrite(p: Text.PatternProcessor, active: set<string>, s: string)
    requires IsMatcher(p, active)
    requires ValidRegexp(p.re)
    requires Text.WholeMatch(p.re.names, s, p.re.findAll(s))
    ensures Text.Pass(p, s).Success?
    ensures Sprint(Text.StepValue(Text.Pass(p, s).value)) == Rewritten(active, s, 0)
  {
    var ms := p.re.findAll(s);
    assert ms == WordScan.WordSignFrom(s, 0);
    assert s != "";
    ResolveHit(active, s, 0);
    var m := MatchOf(p.re.names, s, ms[0]);
    assert p.resolve(m) == ResolveToken(active, m);
    var v := ResolveToken(active, m).value;
    Text.PassWholeMatch(p, s, v);
    assert ms[0][0] == 0 && ms[0][1] == |s|;
    RewrittenOfOneHit(active, s);
  }

  // ---------------------------------------------------------------------
  // The stand-in evaluator
  // ---------------------------------------------------------------------

  datatype Token = TrueToken | FalseToken | NotToken | AndToken | OrToken | Open | Close

  /** How a token is written. */
  function Spelling(t: Token): string {
    match t
    case TrueToken => "true"
    case FalseToken => "false"
    case NotToken => "!"
    case AndToken => "&&"
    case OrToken => "||"
    case Open => "("
    case Close => ")"
  }

  /** A keyword at the front of `s` that does not run on into a longer
      word. */
  predicate StartsWithWord(s: string, word: string) {
    HasPrefix(s, word) && (|s| == |word| || !IsWordChar(s[|word|]))
  }

  /** The token at the front of `s`, if any. */
  function Leading(s: string): (t: Option<Token>)
    ensures t.Some? ==> HasPrefix(s, Spelling(t.value))
  {
    if StartsWithWord(s, "true") then Some(TrueToken)
    else if StartsWithWord(s, "false") then Some(FalseToken)
    else if HasPrefix(s, "&&") then Some(AndToken)
    else if HasPrefix(s, "||") then Some(OrToken)
    else if HasPrefix(s, "!") then Some(NotToken)
    else if HasPrefix(s, "(") then Some(Open)
    else if HasPrefix(s, ")") then Some(Close)
    else None
  }

  /** The tokens of `s`, white space skipped; anything else fails. */
  function Tokenize(s: string): Option<seq<Token>>
    decreases |s|
  {
    if s == "" then Some([])
    else if IsSpace(s[0]) then Tokenize(s[1..])
    else
      match Leading(s)
      case None => None
      case Some(t) =>
        match Tokenize(s[|Spelling(t)|..])
        case None => None
        case Some(rest) => Some([t] + rest)
  }

  /** Tokens written out, each followed by a blank. */
  function TokensText(ts: seq<Token>): string {
    if ts == [] then "" else Spelling(ts[0]) + " " + TokensText(ts[1..])
  }

  /** A text does not start with a word whose first character it lacks. */
  lemma NotPrefix(s: string, w: string)
    requires |s| > 0 && |w| > 0 && s[0] != w[0]
    ensures !HasPrefix(s, w) && !StartsWithWord(s, w)
  {
    if |w| <= |s| {
      assert s[..|w|][0] == s[0];
    }
  }

  /** A written-out token followed by a blank is read back as itself. */
  lemma LeadingOfSpelling(t: Token, rest: string)
    ensures Leading(Spelling(t) + " " + rest) == Some(t)
  {
    var s := Spelling(t) + " " + rest;
    assert s[..|Spelling(t)|] == Spelling(t);
    assert s[|Spelling(t)|] == ' ';
    assert s[0] == Spelling(t)[0];
    match t {
      case TrueToken =>
      case FalseToken =>
        NotPrefix(s, "true");
      case AndToken =>
        NotPrefix(s, "true");
        NotPrefix(s, "false");
      case OrToken =>
        NotPrefix(s, "true");
        NotPrefix(s, "false");
        NotPrefix(s, "&&");
      case NotToken =>
        NotPrefix(s, "true");
        NotPrefix(s, "false");
        NotPrefix(s, "&&");
        NotPrefix(s, "||");
      case Open =>
        NotPrefix(s, "true");
        NotPrefix(s, "false");
        NotPrefix(s, "&&");
        NotPrefix(s, "||");
        NotPrefix(s, "!");
      case Close =>
        NotPrefix(s, "true");
        NotPrefix(s, "false");
        NotPrefix(s, "&&");
        NotPrefix(s, "||");
        NotPrefix(s, "!");
        NotPrefix(s, "(");
    }
  }

  /** Written-out tokens read back as themselves. */
  lemma {:induction false} TokenizeTokensText(ts: seq<Token>)
    ensures Tokenize(TokensText(ts)) == Some(ts)
  {
    if ts != [] {
      var t := ts[0];
      var rest := TokensText(ts[1..]);
      var s := Spelling(t) + " " + rest;
      LeadingOfSpelling(t, rest);
      assert s[0] == Spelling(t)[0];
      assert !IsSpace(s[0]);
      assert s[|Spelling(t)|..] == " " + rest;
      assert (" " + rest)[1..] == rest;
      TokenizeTokensText(ts[1..]);
      assert ts == [t] + ts[1..];
    }
  }

  /** A parsed value and the tokens after it. */
  datatype Parsed = Parsed(value: bool, rest: seq<Token>)

  /** A literal, a negation, or a parenthesised disjunction. */
  function ParseUnary(ts: seq<Token>): (r: Option<Parsed>)
    ensures r.Some? ==> |r.value.rest| < |ts|
    decreases |ts|, 0
  {
    if ts == [] then None
    else match ts[0]
      case TrueToken => Some(Parsed(true, ts[1..]))
      case FalseToken => Some(Parsed(false, ts[1..]))
      case NotToken =>
        (match ParseUnary(ts[1..])
         case None => None
         case Some(u) => Some(Parsed(!u.value, u.rest)))
      case Open =>
        (match ParseOr(ts[1..])
         case None => None
         case Some(e) => if e.rest != [] && e.rest[0] == Close then Some(Parsed(e.value, e.rest[1..])) else None)
      case _ => None
  }

  /** Further `&& operand`s after the conjunction so far, `acc`. */
  function AndTail(acc: bool, ts: seq<Token>): (r: Option<Parsed>)
    ensures r.Some? ==> |r.value.rest| <= |ts|
    decreases |ts|, 0
  {
    if ts != [] && ts[0] == AndToken then
      match ParseUnary(ts[1..])
      case None => None
      case Some(u) => AndTail(acc && u.value, u.rest)
    else Some(Parsed(acc, ts))
  }

  /** A conjunction: `&&` binds tighter than `||`. */
  function ParseAnd(ts: seq<Token>): (r: Option<Parsed>)
    ensures r.Some? ==> |r.value.rest| < |ts|
    decreases |ts|, 1
  {
    match ParseUnary(ts)
    case None => None
    case Some(u) => AndTail(u.value, u.rest)
  }

  /** Further `|| operand`s after the disjunction so far, `acc`. */
  function OrTail(acc: bool, ts: seq<Token>): (r: Option<Parsed>)
    ensures r.Some? ==> |r.value.rest| <= |ts|
    decreases |ts|, 1
  {
    if ts != [] && ts[0] == OrToken then
      match ParseAnd(ts[1..])
      case None => None
      case Some(a) => OrTail(acc || a.value, a.rest)
    else Some(Parsed(acc, ts))
  }

  /** A disjunction, the whole grammar. */
  function ParseOr(ts: seq<Token>): (r: Option<Parsed>)
    ensures r.Some? ==> |r.value.rest| < |ts|
    decreases |ts|, 2
  {
    match ParseAnd(ts)
    case None => None
    case Some(a) => OrTail(a.value, a.rest)
  }

  /** The value of a rewritten profile expression; text that is not a
      well-formed boolean expression is a panic, as the backend's compile
      error is. */
  function EvaluateBool(text: string): (r: Result<bool>)
    ensures r.Success? ==> Tokenize(text).Some? && ParseOr(Tokenize(text).value).Some?
  {
    var failure := Failure(Panic("Cannot evaluate expression #{" + text + "}"));
    match Tokenize(text)
    case None => failure
    case Some(ts) =>
      match ParseOr(ts)
      case None => failure
      case Some(p) => if p.rest == [] then Success(p.value) else failure
  }

  /** Boolean expressions, the reference meaning of the evaluator. */
  datatype BoolExpr = Literal(b: bool) | Not(e: BoolExpr) | And(l: BoolExpr, r: BoolExpr) | Or(l: BoolExpr, r: BoolExpr)

  function Eval(e: BoolExpr): bool {
    match e
    case Literal(b) => b
    case Not(x) => !Eval(x)
    case And(l, r) => Eval(l) && Eval(r)
    case Or(l, r) => Eval(l) || Eval(r)
  }

  /** An expression written with every binary operation parenthesised. */
  function Render(e: BoolExpr): seq<Token> {
    match e
    case Literal(b) => if b then [TrueToken] else [FalseToken]
    case Not(x) => [NotToken] + Render(x)
    case And(l, r) => [Open] + Render(l) + [AndToken] + Render(r) + [Close]
    case Or(l, r) => [Open] + Render(l) + [OrToken] + Render(r) + [Close]
  }

  /** A `(` followed by a disjunction and its `)`. */
  lemma ParseGroup(ts: seq<Token>, v: bool, rest: seq<Token>)
    requires ts != [] && ts[0] == Open
    requires ParseOr(ts[1..]) == Some(Parsed(v, [Close] + rest))
    ensures ParseUnary(ts) == Some(Parsed(v, rest))
  {
    assert ([Close] + rest)[1..] == rest;
  }

  /** An operand followed by `)` is a whole disjunction. */
  lemma ParseClosed(ts: seq<Token>, v: bool, rest: seq<Token>)
    requires ParseUnary(ts) == Some(Parsed(v, [Close] + rest))
    ensures ParseOr(ts) == Some(Parsed(v, [Close] + rest))
  {
    assert ParseAnd(ts) == AndTail(v, [Close] + rest);
  }

  /** `&& operand` before a `)`. */
  lemma AndStep(acc: bool, operand: seq<Token>, v: bool, rest: seq<Token>)
    requires ParseUnary(operand) == Some(Parsed(v, [Close] + rest))
    ensures AndTail(acc, [AndToken] + operand) == Some(Parsed(acc && v, [Close] + rest))
  {
    assert ([AndToken] + operand)[1..] == operand;
  }

  /** `|| operand` before a `)`. */
  lemma OrStep(acc: bool, operand: seq<Token>, v: bool, rest: seq<Token>)
    requires ParseUnary(operand) == Some(Parsed(v, [Close] + rest))
    ensures OrTail(acc, [OrToken] + operand) == Some(Parsed(acc || v, [Close] + rest))
  {
    assert ([OrToken] + operand)[1..] == operand;
    ParseClosed(operand, v, rest);
  }

  /** `( a && b )` parses to the conjunction once `a` and `b` do. */
  lemma ParseAndGroup(a: seq<Token>, b: seq<Token>, va: bool, vb: bool, rest: seq<Token>)
    requires ParseUnary(a + ([AndToken] + (b + ([Close] + rest)))) == Some(Parsed(va, [AndToken] + (b + ([Close] + rest))))
    requires ParseUnary(b + ([Close] + rest)) == Some(Parsed(vb, [Close] + rest))
    ensures ParseUnary([Open] + (a + ([AndToken] + (b + ([Close] + rest))))) == Some(Parsed(va && vb, rest))
  {
    var tail := [Close] + rest;
    var bt := b + tail;
    var x := a + ([AndToken] + bt);
    AndStep(va, bt, vb, rest);
    assert ParseAnd(x) == Some(Parsed(va && vb, tail));
    assert ParseOr(x) == OrTail(va && vb, tail);
    assert ([Open] + x)[1..] == x;
    ParseGroup([Open] + x, va && vb, rest);
  }

  /** `( a || b )` parses to the disjunction once `a` and `b` do. */
  lemma ParseOrGroup(a: seq<Token>, b: seq<Token>, va: bool, vb: bool, rest: seq<Token>)
    requires ParseUnary(a + ([OrToken] + (b + ([Close] + rest)))) == Some(Parsed(va, [OrToken] + (b + ([Close] + rest))))
    requires ParseUnary(b + ([Close] + rest)) == Some(Parsed(vb, [Close] + rest))
    ensures ParseUnary([Open] + (a + ([OrToken] + (b + ([Close] + rest))))) == Some(Parsed(va || vb, rest))
  {
    var tail := [Close] + rest;
    var bt := b + tail;
    var after := [OrToken] + bt;
    var x := a + after;
    assert ParseAnd(x) == AndTail(va, after);
    OrStep(va, bt, vb, rest);
    assert ParseOr(x) == Some(Parsed(va || vb, tail));
    assert ([Open] + x)[1..] == x;
    ParseGroup([Open] + x, va || vb, rest);
  }

  /** A rendered binary expression, regrouped around its operator. */
  lemma RenderGroup(l: BoolExpr, op: Token, r: BoolExpr, rest: seq<Token>)
    requires op == AndToken || op == OrToken
    ensures op == AndToken ==> Render(And(l, r)) + rest == [Open] + (Render(l) + ([op] + (Render(r) + ([Close] + rest))))
    ensures op == OrToken ==> Render(Or(l, r)) + rest == [Open] + (Render(l) + ([op] + (Render(r) + ([Close] + rest))))
  {
  }

  /** A rendered expression parses to its value, whatever follows it. */
  lemma {:induction false} ParseRender(e: BoolExpr, rest: seq<Token>)
    ensures ParseUnary(Render(e) + rest) == Some(Parsed(Eval(e), rest))
    decreases e
  {
    match e {
      case Literal(b) =>
        assert (Render(e) + rest)[1..] == rest;
      case Not(x) =>
        assert (Render(e) + rest)[1..] == Render(x) + rest;
        ParseRender(x, rest);
      case And(l, r) =>
        ParseRender(l, [AndToken] + (Render(r) + ([Close] + rest)));
        ParseRender(r, [Close] + rest);
        RenderGroup(l, AndToken, r, rest);
        ParseAndGroup(Render(l), Render(r), Eval(l), Eval(r), rest);
      case Or(l, r) =>
        ParseRender(l, [OrToken] + (Render(r) + ([Close] + rest)));
        ParseRender(r, [Close] + rest);
        RenderGroup(l, OrToken, r, rest);
        ParseOrGroup(Render(l), Render(r), Eval(l), Eval(r), rest);
    }
  }

  /** Text that reads as a rendered expression evaluates to its value. */
  lemma EvaluateOfTokens(text: string, e: BoolExpr)
    requires Tokenize(text) == Some(Render(e))
    ensures EvaluateBool(text) == Success(Eval(e))
  {
    var ts := Render(e);
    ParseRender(e, []);
    assert ts + [] == ts;
    assert AndTail(Eval(e), []) == Some(Parsed(Eval(e), []));
    assert ParseAnd(ts) == Some(Parsed(Eval(e), []));
    assert OrTail(Eval(e), []) == Some(Parsed(Eval(e), []));
    assert ParseOr(ts) == Some(Parsed(Eval(e), []));
  }

  /** The evaluator computes the value of every fully parenthesised
      expression written out as text. */
  lemma EvaluateRendered(e: BoolExpr)
    ensures EvaluateBool(TokensText(Render(e))) == Success(Eval(e))
  {
    TokenizeTokensText(Render(e));
    EvaluateOfTokens(TokensText(Render(e)), e);
  }

  /** Without parentheses `&&` binds tighter than `||`:
      `true || false && false` is true, and `!` binds tighter than `&&`. */
  lemma PrecedenceExample()
    ensures EvaluateBool(TokensText([TrueToken, OrToken, FalseToken, AndToken, FalseToken])) == Success(true)
    ensures EvaluateBool(TokensText([NotToken, FalseToken, AndToken, FalseToken])) == Success(false)
  {
    TokenizeTokensText([TrueToken, OrToken, FalseToken, AndToken, FalseToken]);
    TokenizeTokensText([NotToken, FalseToken, AndToken, FalseToken]);
  }

  // ---------------------------------------------------------------------
  // MatchesProfiles
  // ---------------------------------------------------------------------

  /** One profile expression against the processor: rewritten in a single
      pass, printed and evaluated. */
  function MatchesProfile(p: Text.PatternProcessor, profile: string): (r: Result<bool>)
    requires ValidRegexp(p.re)
  {
    var v :- Text.ProcessRecursive(p, profile, false, 1);
    EvaluateBool(Sprint(v))
  }

  /** Whether some profile expression holds, trying them in order; the
      first failure stops the search. */
  function AnyMatches(p: Text.PatternProcessor, profiles: seq<string>): (r: Result<bool>)
    requires ValidRegexp(p.re)
  {
    if profiles == [] then Success(false)
    else
      var b :- MatchesProfile(p, profiles[0]);
      if b then Success(true) else AnyMatches(p, profiles[1..])
  }

  /** Profile `i` is the first expression that holds. */
  ghost predicate FirstHit(p: Text.PatternProcessor, profiles: seq<string>, i: int)
    requires ValidRegexp(p.re)
  {
    && 0 <= i < |profiles|
    && MatchesProfile(p, profiles[i]) == Success(true)
    && forall j :: 0 <= j < i ==> MatchesProfile(p, profiles[j]) == Success(false)
  }

  /** Every expression evaluates to false. */
  ghost predicate AllMiss(p: Text.PatternProcessor, profiles: seq<string>)
    requires ValidRegexp(p.re)
  {
    forall i :: 0 <= i < |profiles| ==> MatchesProfile(p, profiles[i]) == Success(false)
  }

  /** The hits of `profiles` after a first expression that is false are
      the hits of the rest, one place later. */
  lemma FirstHitOfTail(p: Text.PatternProcessor, profiles: seq<string>)
    requires ValidRegexp(p.re)
    requires profiles != [] && MatchesProfile(p, profiles[0]) == Success(false)
    ensures forall k :: FirstHit(p, profiles[1..], k) <==> FirstHit(p, profiles, k + 1)
    ensures !FirstHit(p, profiles, 0)
    ensures AllMiss(p, profiles[1..]) <==> AllMiss(p, profiles)
  {
    var tail := profiles[1..];
    assert forall i :: 1 <= i < |profiles| ==> profiles[i] == tail[i - 1];
    forall k | FirstHit(p, profiles, k + 1)
      ensures FirstHit(p, tail, k)
    {
      assert forall j :: 0 <= j < k ==> MatchesProfile(p, tail[j]) == MatchesProfile(p, profiles[j + 1]);
    }
  }

  /** True exactly when some expression holds and every one before it is
      false; false exactly when every expression is false. */
  lemma {:induction false} AnyMatchesIsFirstHit(p: Text.PatternProcessor, profiles: seq<string>)
    requires ValidRegexp(p.re)
    ensures AnyMatches(p, profiles) == Success(true) <==> exists i :: FirstHit(p, profiles, i)
    ensures AnyMatches(p, profiles) == Success(false) <==> AllMiss(p, profiles)
  {
    if profiles == [] {
    } else if MatchesProfile(p, profiles[0]) == Success(true) {
      assert FirstHit(p, profiles, 0);
    } else if MatchesProfile(p, profiles[0]) == Success(false) {
      AnyMatchesIsFirstHit(p, profiles[1..]);
      FirstHitOfTail(p, profiles);
      if exists i :: FirstHit(p, profiles, i) {
        var i :| FirstHit(p, profiles, i);
        assert FirstHit(p, profiles[1..], i - 1);
      }
      if exists k :: FirstHit(p, profiles[1..], k) {
        var k :| FirstHit(p, profiles[1..], k);
        assert FirstHit(p, profiles, k + 1);
      }
    } else {
      assert !FirstHit(p, profiles, 0);
      assert !AllMiss(p, profiles);
      assert forall i :: !FirstHit(p, profiles, i);
    }
  }

  /** `MatchesProfiles(profiles...)` with the active profile list
      `activeProfiles`: true with no arguments, otherwise whether any
      argument holds. */
  function MatchesProfiles(activeProfiles: seq<string>, compile: string -> Regexp, profiles: seq<string>): (r: Result<bool>)
    requires ValidRegexp(compile(MatcherPattern))
    ensures profiles == [] ==> r == Success(true)
    ensures profiles != [] ==> r == AnyMatches(MatcherProcessor(Collection.SliceToSet(activeProfiles), compile), profiles)
  {
    if profiles == [] then Success(true)
    else AnyMatches(MatcherProcessor(Collection.SliceToSet(activeProfiles), compile), profiles)
  }

  /** A profile expression is rewritten by the reference rewrite and then
      evaluated. */
  lemma MatchesProfileIsRewrite(activeProfiles: seq<string>, compile: string -> Regexp, profile: string)
    requires compile(MatcherPattern) == WordScan.WordSignRegexp()
    requires profile != ""
    ensures var p := MatcherProcessor(Collection.SliceToSet(activeProfiles), compile);
            ValidRegexp(p.re) &&
            MatchesProfile(p, profile) == EvaluateBool(Rewritten(Collection.SliceToSet(activeProfiles), profile, 0))
  {
    var active := Collection.SliceToSet(activeProfiles);
    var p := MatcherProcessor(active, compile);
    assert IsMatcher(p, active);
    PassIsRewrite(p, active, profile);
    Text.NonRecursiveIsOnePass(p, profile, 1);
  }

  /** A keyword that ends the text is read as itself. */
  lemma LeadingOfKeyword(t: Token)
    requires t == TrueToken || t == FalseToken
    ensures Leading(Spelling(t)) == Some(t)
  {
    var s := Spelling(t);
    assert s[..|s|] == s;
    if t == FalseToken {
      NotPrefix(s, "true");
    }
  }

  /** A keyword alone is one token. */
  lemma TokenizeKeyword(t: Token)
    requires t == TrueToken || t == FalseToken
    ensures Tokenize(Spelling(t)) == Some([t])
  {
    var s := Spelling(t);
    LeadingOfKeyword(t);
    assert s[0] == 't' || s[0] == 'f';
    assert s[|s|..] == "";
    assert Tokenize(s[|Spelling(t)|..]) == Some([]);
    assert [t] + [] == [t];
  }

  /** `!` before a keyword is a negation token. */
  lemma TokenizeNegated(t: Token)
    requires t == TrueToken || t == FalseToken
    ensures Tokenize("!" + Spelling(t)) == Some([NotToken, t])
  {
    var s := "!" + Spelling(t);
    assert s[0] == '!';
    NotPrefix(s, "true");
    NotPrefix(s, "false");
    NotPrefix(s, "&&");
    NotPrefix(s, "||");
    assert s[..1] == "!";
    assert Leading(s) == Some(NotToken);
    assert s[1..] == Spelling(t);
    TokenizeKeyword(t);
    assert Tokenize(s[|Spelling(NotToken)|..]) == Some([t]);
    assert [NotToken] + [t] == [NotToken, t];
  }

  /** The spelling of a boolean, as the rewrite writes it. */
  function BoolText(b: bool): string {
    if b then "true" else "false"
  }

  /** A rewritten profile name evaluates to its truth value. */
  lemma EvaluateBoolText(b: bool)
    ensures EvaluateBool(BoolText(b)) == Success(b)
  {
    var t := if b then TrueToken else FalseToken;
    assert Spelling(t) == BoolText(b);
    TokenizeKeyword(t);
    EvaluateOfTokens(BoolText(b), Literal(b));
  }

  /** With a `!` before it, a rewritten profile name evaluates to the
      negation. */
  lemma EvaluateNegatedText(b: bool)
    ensures EvaluateBool("!" + BoolText(b)) == Success(!b)
  {
    var t := if b then TrueToken else FalseToken;
    var text := "!" + BoolText(b);
    assert Spelling(t) == BoolText(b);
    assert text == "!" + Spelling(t);
    TokenizeNegated(t);
    assert Render(Literal(b)) == [t];
    assert Render(Not(Literal(b))) == [NotToken, t];
    EvaluateOfTokens(text, Not(Literal(b)));
  }

  /** A profile name: a non-empty run of word characters. */
  predicate IsProfileName(w: string) {
    w != "" && forall k :: 0 <= k < |w| ==> IsWordChar(w[k])
  }

  /** The rewrite of a profile name from position `i` of `s` on, where the
      name fills the rest of `s`. */
  lemma RewrittenName(active: set<string>, s: string, i: nat)
    requires i < |s| && IsProfileName(s[i..])
    ensures Rewritten(active, s, i) == BoolText(s[i..] in active)
  {
    assert IsWordChar(s[i..][0]);
    var j := WordScan.RunEnd(s, i);
    forall k | i <= k < |s|
      ensures IsWordChar(s[k])
    {
      assert s[k] == s[i..][k - i];
    }
    assert j == |s|;
    assert s[i..j] == s[i..];
  }

  /** `MatchesProfiles("p")` holds exactly when `p` is active. */
  lemma NameMatches(activeProfiles: seq<string>, compile: string -> Regexp, w: string)
    requires compile(MatcherPattern) == WordScan.WordSignRegexp()
    requires IsProfileName(w)
    ensures ValidRegexp(compile(MatcherPattern))
    ensures MatchesProfiles(activeProfiles, compile, [w]) == Success(w in activeProfiles)
  {
    WordScan.ScannersAreValid();
    var active := Collection.SliceToSet(activeProfiles);
    var p := MatcherProcessor(active, compile);
    MatchesProfileIsRewrite(activeProfiles, compile, w);
    assert w[0..] == w;
    RewrittenName(active, w, 0);
    EvaluateBoolText(w in active);
    AnyMatchesIsFirstHit(p, [w]);
    if w in activeProfiles {
      assert FirstHit(p, [w], 0);
    } else {
      assert AllMiss(p, [w]);
    }
  }

  /** The rewrite of `!` and a profile name. */
  lemma RewrittenNegatedName(active: set<string>, w: string)
    requires IsProfileName(w)
    ensures Rewritten(active, "!" + w, 0) == "!" + BoolText(w in active)
  {
    var s := "!" + w;
    assert s[1..] == w;
    assert !IsWordChar(s[0]);
    RewrittenName(active, s, 1);
  }

  /** `MatchesProfiles("!p")` holds exactly when `p` is not active. */
  lemma NegatedNameMatches(activeProfiles: seq<string>, compile: string -> Regexp, w: string)
    requires compile(MatcherPattern) == WordScan.WordSignRegexp()
    requires IsProfileName(w)
    ensures ValidRegexp(compile(MatcherPattern))
    ensures MatchesProfiles(activeProfiles, compile, ["!" + w]) == Success(w !in activeProfiles)
  {
    WordScan.ScannersAreValid();
    var active := Collection.SliceToSet(activeProfiles);
    var p := MatcherProcessor(active, compile);
    var s := "!" + w;
    MatchesProfileIsRewrite(activeProfiles, compile, s);
    RewrittenNegatedName(active, w);
    EvaluateNegatedText(w in active);
    AnyMatchesIsFirstHit(p, [s]);
    if w !in activeProfiles {
      assert FirstHit(p, [s], 0);
    } else {
      assert AllMiss(p, [s]);
    }
  }
}
