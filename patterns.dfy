/**
 * The snippet classifier of src/NerdamerWidget.ts: the four anchored
 * regular expressions tried by handleInlineCodeNode, written as matchers
 * that return the capture groups, each beside a predicate that states the
 * language of its expression as a grammar, with lemmas tying the two.
 */
module Patterns {

  import opened Wrappers
  import opened Chars

  /** The intent of an inline-code snippet, with the captures the code passes on. */
  datatype Snippet =
    | VariableDeclaration(name: string, value: string)
    | Solve(equation: string, variable: string)
    | Evaluate(expression: string)
    | FunctionDefinition(name: string, parameter: string, body: string)
    | Unrecognized

  /** `[a-z_][a-z\d_]*` under the `i` flag. */
  predicate IsIdentifier(s: string) {
    |s| >= 1 && IsWordStart(s[0]) && forall i :: 0 <= i < |s| ==> IsWordChar(s[i])
  }

  /** The leading word characters of `t` form an identifier when the first is a word start. */
  lemma LeadingIdentifier(t: string)
    requires LeadingRun(IsWordChar, t) >= 1 && IsWordStart(t[0])
    ensures IsIdentifier(t[..LeadingRun(IsWordChar, t)])
  {
    LeadingRunStops(IsWordChar, t);
  }

  /** Every character is matched by `.`. */
  predicate NoLineTerminator(s: string) {
    forall i :: 0 <= i < |s| ==> !IsLineTerminator(s[i])
  }

  predicate NotComma(c: char) { c != ',' }

  predicate NotCloseParen(c: char) { c != ')' }

  predicate NotEquals(c: char) { c != '=' }

  /** What a greedy `\s*` followed by a capture `(X+)` leaves in the capture. */
  predicate GreedyCapture(v: string) {
    v != [] && (!IsSpace(v[0]) || |v| == 1)
  }

  /**
   * The capture of `\s*(X+)` matched against all of `s` (whose characters
   * are all in X): the greedy `\s*` takes every leading blank, and gives
   * one back when nothing else is left.
   */
  function SkipSpaces(s: string): Option<string> {
    var w := LeadingRun(IsSpace, s);
    if w < |s| then Some(s[w..])
    else if s != [] then Some(s[|s| - 1..])
    else None
  }

  /** The capture is a non-empty suffix, after blanks only, and starts as a greedy `\s*` leaves it. */
  lemma {:induction false} SkipSpacesSound(s: string)
    ensures SkipSpaces(s).None? <==> s == []
    ensures SkipSpaces(s).Some? ==>
      var v := SkipSpaces(s).value;
      |v| <= |s| && s[|s| - |v|..] == v && AllSpace(s[..|s| - |v|]) && GreedyCapture(v)
  {
    LeadingRunStops(IsSpace, s);
  }

  /** Any split into blanks and a greedy capture is the one `SkipSpaces` finds. */
  lemma {:induction false} SkipSpacesOfSplit(ws: string, v: string)
    requires AllSpace(ws) && GreedyCapture(v)
    ensures SkipSpaces(ws + v) == Some(v)
  {
    var s := ws + v;
    if !IsSpace(v[0]) {
      LeadingRunOfConcat(IsSpace, ws, v);
      assert s[|ws|..] == v;
    } else {
      assert s + [] == s;
      LeadingRunOfConcat(IsSpace, s, []);
      assert s[|s| - 1..] == v;
    }
  }

  // ---------------------------------------------------------------
  // Variable declaration: /^([a-z_][a-z\d\_]*):=(.+)$/gi
  // ---------------------------------------------------------------

  function MatchDeclaration(t: string): Option<(string, string)> {
    var k := LeadingRun(IsWordChar, t);
    if 1 <= k && IsWordStart(t[0]) && k + 2 < |t| && t[k] == ':' && t[k + 1] == '='
       && NoLineTerminator(t[k + 2..])
    then Some((t[..k], t[k + 2..]))
    else None
  }

  /** The language of the declaration expression, with its two groups. */
  predicate DeclarationShape(t: string, name: string, value: string) {
    t == name + ":=" + value && IsIdentifier(name) && value != [] && NoLineTerminator(value)
  }

  lemma {:induction false} DeclarationMatchIff(t: string, name: string, value: string)
    ensures MatchDeclaration(t) == Some((name, value)) <==> DeclarationShape(t, name, value)
  {
    if DeclarationShape(t, name, value) {
      assert t == name + (":=" + value);
      LeadingRunOfConcat(IsWordChar, name, ":=" + value);
      assert t[..|name|] == name && t[|name| + 2..] == value;
    }
    if MatchDeclaration(t) == Some((name, value)) {
      LeadingRunStops(IsWordChar, t);
      var k := |name|;
      assert t == t[..k] + t[k..k + 2] + t[k + 2..];
      assert t[k..k + 2] == ":=";
    }
  }

  // ---------------------------------------------------------------
  // Solve: /^solve\(([^,]+),\s*([^)]+)\)$/gi
  // ---------------------------------------------------------------

  /** `\s*([^)]+)\)$`: the variable of a solve snippet, after its comma. */
  function ClosingCapture(after: string): Option<string> {
    if after == [] || after[|after| - 1] != ')' || ')' in after[..|after| - 1] then None
    else SkipSpaces(after[..|after| - 1])
  }

  lemma {:induction false} ClosingCaptureSound(after: string) returns (ws: string)
    requires ClosingCapture(after).Some?
    ensures var v := ClosingCapture(after).value;
      after == ws + v + ")" && AllSpace(ws) && GreedyCapture(v) && ')' !in v
  {
    var inner := after[..|after| - 1];
    assert ')' !in inner;
    var r := SkipSpaces(inner);
    SkipSpacesSound(inner);
    assert ClosingCapture(after) == r;
    var v := r.value;
    ws := inner[..|inner| - |v|];
    assert inner == ws + v;
    assert after == inner + [')'];
    AbsentFromSlice(inner, ')', |ws|, |inner|);
  }

  lemma {:induction false} ClosingCaptureComplete(ws: string, v: string)
    requires AllSpace(ws) && GreedyCapture(v) && ')' !in v
    ensures ClosingCapture(ws + v + ")") == Some(v)
  {
    var after := ws + v + ")";
    assert after[..|after| - 1] == ws + v;
    assert ')' !in ws + v by {
      assert forall i :: 0 <= i < |ws| ==> IsSpace((ws + v)[i]);
      assert forall i :: |ws| <= i < |ws + v| ==> (ws + v)[i] == v[i - |ws|];
    }
    SkipSpacesOfSplit(ws, v);
  }

  /** `([^,]+),\s*([^)]+)\)$`: equation and variable, after `solve(`. */
  function SolveArguments(rest: string): Option<(string, string)> {
    var c := LeadingRun(NotComma, rest);
    if c == 0 || c == |rest| then None
    else
      match ClosingCapture(rest[c + 1..])
      case None => None
      case Some(v) => Some((rest[..c], v))
  }

  /** `solve\(` under the `i` flag: upper-casing its ASCII letters gives `SOLVE(`. */
  predicate SolveKeyword(h: string) {
    && |h| == 6
    && [UpperAscii(h[0]), UpperAscii(h[1]), UpperAscii(h[2]), UpperAscii(h[3]), UpperAscii(h[4]), UpperAscii(h[5])]
       == "SOLVE("
  }

  /** The letter-by-letter test is the case-insensitive comparison with `solve(`. */
  lemma {:induction false} SolveKeywordIgnoringCase(h: string, lower: string)
    requires lower == "solve("
    ensures SolveKeyword(h) <==> EqualsIgnoringCase(h, lower)
  {
    assert UpperAscii('s') == 'S' && UpperAscii('o') == 'O' && UpperAscii('l') == 'L';
    assert UpperAscii('v') == 'V' && UpperAscii('e') == 'E' && UpperAscii('(') == '(';
    if EqualsIgnoringCase(h, lower) {
      assert forall i :: 0 <= i < 6 ==> h[i] == lower[i] || h[i] == UpperAscii(lower[i]);
    }
  }

  function MatchSolve(t: string): Option<(string, string)> {
    if |t| < 6 || !SolveKeyword(t[..6]) then None else SolveArguments(t[6..])
  }

  /** The language of the solve expression: keyword, equation, blanks and variable. */
  predicate SolveShape(t: string, head: string, equation: string, ws: string, variable: string) {
    && t == head + equation + "," + ws + variable + ")"
    && SolveKeyword(head)
    && equation != [] && ',' !in equation
    && AllSpace(ws) && GreedyCapture(variable) && ')' !in variable
  }

  lemma {:induction false} SolveArgumentsSound(rest: string) returns (ws: string)
    requires SolveArguments(rest).Some?
    ensures var (e, v) := SolveArguments(rest).value;
      rest == e + "," + (ws + v + ")") && e != [] && ',' !in e
      && AllSpace(ws) && GreedyCapture(v) && ')' !in v
  {
    var c := LeadingRun(NotComma, rest);
    var e := rest[..c];
    LeadingRunStops(NotComma, rest);
    ws := ClosingCaptureSound(rest[c + 1..]);
    assert rest == e + "," + rest[c + 1..];
    assert ',' !in e by {
      assert forall i :: 0 <= i < |e| ==> NotComma(e[i]);
    }
  }

  lemma {:induction false} SolveMatchSound(t: string) returns (ws: string)
    requires MatchSolve(t).Some?
    ensures var (e, v) := MatchSolve(t).value; SolveShape(t, t[..6], e, ws, v)
  {
    var (e, v) := MatchSolve(t).value;
    ws := SolveArgumentsSound(t[6..]);
    CutBefore(t, 6);
    ConcatRegroup(t[..6], e, ws, v);
  }

  /** The grouping `SolveArguments` reads, flattened. */
  lemma ConcatRegroup(h: string, e: string, ws: string, v: string)
    ensures h + (e + "," + (ws + v + ")")) == h + e + "," + ws + v + ")"
  {
  }

  lemma {:induction false} SolveArgumentsComplete(e: string, ws: string, v: string)
    requires e != [] && ',' !in e
    requires AllSpace(ws) && GreedyCapture(v) && ')' !in v
    ensures SolveArguments(e + ("," + (ws + v + ")"))) == Some((e, v))
  {
    var after := ws + v + ")";
    var rest := e + ("," + after);
    assert forall i :: 0 <= i < |e| ==> NotComma(e[i]);
    LeadingRunOfConcat(NotComma, e, "," + after);
    assert rest[..|e|] == e && rest[|e| + 1..] == after;
    ClosingCaptureComplete(ws, v);
  }

  lemma {:induction false} SolveMatchComplete(t: string, head: string, e: string, ws: string, v: string)
    requires SolveShape(t, head, e, ws, v)
    ensures MatchSolve(t) == Some((e, v))
  {
    var rest := e + ("," + (ws + v + ")"));
    assert t == head + rest;
    assert t[..6] == head && t[6..] == rest;
    SolveArgumentsComplete(e, ws, v);
  }

  // ---------------------------------------------------------------
  // Evaluate: /^([^=]+)=\?$/gi
  // ---------------------------------------------------------------

  function MatchEvaluate(t: string): Option<string> {
    var k := LeadingRun(NotEquals, t);
    if 1 <= k && k + 2 == |t| && t[k] == '=' && t[k + 1] == '?' then Some(t[..k]) else None
  }

  /** The language of the evaluate expression. */
  predicate EvaluateShape(t: string, expression: string) {
    t == expression + "=?" && expression != [] && '=' !in expression
  }

  lemma {:induction false} EvaluateMatchIff(t: string, e: string)
    ensures MatchEvaluate(t) == Some(e) <==> EvaluateShape(t, e)
  {
    if EvaluateShape(t, e) {
      assert forall i :: 0 <= i < |e| ==> NotEquals(e[i]);
      LeadingRunOfConcat(NotEquals, e, "=?");
      assert t[..|e|] == e;
    }
    if MatchEvaluate(t) == Some(e) {
      LeadingRunStops(NotEquals, t);
      assert t == t[..|e|] + t[|e|..];
      assert t[|e|..] == "=?";
      assert forall i :: 0 <= i < |e| ==> NotEquals(e[i]);
    }
  }

  /** An evaluate snippet holds exactly one `=`, just before its final `?`. */
  lemma {:induction false} EvaluateHasOneEquals(t: string)
    ensures MatchEvaluate(t).Some? <==>
      |t| >= 3 && t[|t| - 1] == '?' && forall i :: 0 <= i < |t| ==> (t[i] == '=' <==> i == |t| - 2)
  {
    if |t| >= 3 && t[|t| - 1] == '?' && forall i :: 0 <= i < |t| ==> (t[i] == '=' <==> i == |t| - 2) {
      var e := t[..|t| - 2];
      assert t == e + "=?";
      assert '=' !in e by {
        assert forall i :: 0 <= i < |e| ==> e[i] == t[i];
      }
      EvaluateMatchIff(t, e);
    }
    if MatchEvaluate(t).Some? {
      var e := MatchEvaluate(t).value;
      EvaluateMatchIff(t, e);
      assert forall i :: 0 <= i < |e| ==> t[i] == e[i];
    }
  }

  // ---------------------------------------------------------------------------
  // Function definition:
  //   /^([a-zA-Z_][a-zA-Z_0-9]*)\s*\(\s*([^)]+)\s*\)\s*:=\s*([^$]+)$/gi
  // ---------------------------------------------------------------------------

  /** `\s*:=\s*([^$]+)$`: the body, after the closing parenthesis. */
  function AssignedBody(r3: string): Option<string> {
    var s3 := LeadingRun(IsSpace, r3);
    if s3 + 2 > |r3| || r3[s3] != ':' || r3[s3 + 1] != '=' || '$' in r3[s3 + 2..] then None
    else SkipSpaces(r3[s3 + 2..])
  }

  predicate AssignedBodyShape(r3: string, ws3: string, ws4: string, body: string) {
    r3 == ws3 + ":=" + (ws4 + body) && AllSpace(ws3) && AllSpace(ws4) && GreedyCapture(body) && '$' !in body
  }

  lemma {:induction false} AssignedBodySound(r3: string) returns (ws3: string, ws4: string)
    requires AssignedBody(r3).Some?
    ensures AssignedBodyShape(r3, ws3, ws4, AssignedBody(r3).value)
  {
    var s3 := LeadingRun(IsSpace, r3);
    var area := r3[s3 + 2..];
    var body := SkipSpaces(area).value;
    SkipSpacesSound(area);
    assert AssignedBody(r3) == Some(body);
    ws3 := r3[..s3];
    ws4 := area[..|area| - |body|];
    LeadingSpaces(r3);
    CutPairAt(r3, s3);
    CutBefore(area, |area| - |body|);
    AbsentFromSlice(area, '$', |ws4|, |area|);
  }

  lemma {:induction false} AssignedBodyComplete(r3: string, ws3: string, ws4: string, body: string)
    requires AssignedBodyShape(r3, ws3, ws4, body)
    ensures AssignedBody(r3) == Some(body)
  {
    var area := ws4 + body;
    assert r3 == ws3 + (":=" + area);
    LeadingRunOfConcat(IsSpace, ws3, ":=" + area);
    assert r3[|ws3| + 2..] == area;
    assert '$' !in area by {
      assert forall i :: |ws4| <= i < |area| ==> area[i] == body[i - |ws4|];
    }
    SkipSpacesOfSplit(ws4, body);
  }

  /** `\s*([^)]+)\s*\)`: the parameter, after the opening parenthesis, and the text after it. */
  function ParameterGroup(r2: string): Option<(string, string)> {
    var p := LeadingRun(NotCloseParen, r2);
    if p == |r2| then None
    else
      match SkipSpaces(r2[..p])
      case None => None
      case Some(param) => Some((param, r2[p + 1..]))
  }

  predicate ParameterShape(r2: string, ws2: string, param: string, r3: string) {
    r2 == ws2 + param + (")" + r3) && AllSpace(ws2) && GreedyCapture(param) && ')' !in param
  }

  lemma {:induction false} ParameterGroupSound(r2: string) returns (ws2: string)
    requires ParameterGroup(r2).Some?
    ensures ParameterShape(r2, ws2, ParameterGroup(r2).value.0, ParameterGroup(r2).value.1)
  {
    var p := LeadingRun(NotCloseParen, r2);
    var area := r2[..p];
    var param := SkipSpaces(area).value;
    SkipSpacesSound(area);
    LeadingRunStops(NotCloseParen, r2);
    ws2 := area[..|area| - |param|];
    assert area == ws2 + param;
    CutAt(r2, p);
    assert ')' !in area by {
      assert forall i :: 0 <= i < |area| ==> NotCloseParen(area[i]);
    }
    AbsentFromSlice(area, ')', |ws2|, |area|);
  }

  lemma {:induction false} ParameterGroupComplete(r2: string, ws2: string, param: string, r3: string)
    requires ParameterShape(r2, ws2, param, r3)
    ensures ParameterGroup(r2) == Some((param, r3))
  {
    var area := ws2 + param;
    assert ')' !in area by {
      assert forall i :: 0 <= i < |ws2| ==> IsSpace(area[i]);
      assert forall i :: |ws2| <= i < |area| ==> area[i] == param[i - |ws2|];
    }
    assert forall i :: 0 <= i < |area| ==> NotCloseParen(area[i]);
    LeadingRunOfConcat(NotCloseParen, area, ")" + r3);
    assert r2[..|area|] == area && r2[|area| + 1..] == r3;
    SkipSpacesOfSplit(ws2, param);
  }

  /** `\s*\(\s*([^)]+)\s*\)`, after the name: the parameter and the text after it. */
  function FunctionHead(r1: string): Option<(string, string)> {
    var s1 := LeadingRun(IsSpace, r1);
    if s1 == |r1| || r1[s1] != '(' then None else ParameterGroup(r1[s1 + 1..])
  }

  /** Everything after the name, `\s*\(\s*([^)]+)\s*\)\s*:=\s*([^$]+)$`, with the name `n` in front. */
  function FunctionTail(n: string, r1: string): Option<(string, string, string)> {
    match FunctionHead(r1)
    case None => None
    case Some((param, r3)) =>
      match AssignedBody(r3)
      case None => None
      case Some(body) => Some((n, param, body))
  }

  function MatchFunction(t: string): Option<(string, string, string)> {
    var k := LeadingRun(IsWordChar, t);
    if k == 0 || !IsWordStart(t[0]) then None else FunctionTail(t[..k], t[k..])
  }

  /** The language of the function expression: name, parameter and body, with the blanks between. */
  predicate FunctionShape(t: string, name: string, ws1: string, ws2: string, param: string,
                          ws3: string, ws4: string, body: string) {
    && t == name + ws1 + "(" + ws2 + param + ")" + ws3 + ":=" + ws4 + body
    && IsIdentifier(name)
    && AllSpace(ws1) && AllSpace(ws2) && AllSpace(ws3) && AllSpace(ws4)
    && GreedyCapture(param) && ')' !in param
    && GreedyCapture(body) && '$' !in body
  }

  /** The flat concatenation of the shape, grouped the way the stages consume it. */
  lemma FunctionShapeGrouping(name: string, ws1: string, ws2: string, param: string,
                              ws3: string, ws4: string, body: string)
    ensures name + ws1 + "(" + ws2 + param + ")" + ws3 + ":=" + ws4 + body
         == name + (ws1 + ("(" + (ws2 + param + (")" + (ws3 + ":=" + (ws4 + body))))))
  {
  }

  /** The stages' pieces put together make the whole shape. */
  lemma {:induction false} FunctionShapeOfStages(t: string, name: string, r1: string, ws1: string, r2: string,
                                                 ws2: string, param: string, r3: string,
                                                 ws3: string, ws4: string, body: string)
    requires t == name + r1 && IsIdentifier(name)
    requires r1 == ws1 + ("(" + r2) && AllSpace(ws1)
    requires ParameterShape(r2, ws2, param, r3)
    requires AssignedBodyShape(r3, ws3, ws4, body)
    ensures FunctionShape(t, name, ws1, ws2, param, ws3, ws4, body)
  {
    FunctionShapeGrouping(name, ws1, ws2, param, ws3, ws4, body);
  }

  /** `\s*\(` before the parameter group: the blanks and the opening parenthesis. */
  lemma {:induction false} FunctionHeadSplit(r1: string) returns (ws1: string, r2: string)
    requires FunctionHead(r1).Some?
    ensures r1 == ws1 + ("(" + r2) && AllSpace(ws1)
    ensures FunctionHead(r1) == ParameterGroup(r2)
  {
    var s1 := LeadingRun(IsSpace, r1);
    ws1 := r1[..s1];
    r2 := r1[s1 + 1..];
    CutAt(r1, s1);
    LeadingSpaces(r1);
  }

  /** A successful match, cut into the name and the text after it. */
  lemma {:induction false} FunctionMatchStages(t: string) returns (n: string, r1: string)
    requires MatchFunction(t).Some?
    ensures t == n + r1 && IsIdentifier(n)
    ensures MatchFunction(t) == FunctionTail(n, r1)
  {
    var k := LeadingRun(IsWordChar, t);
    n := t[..k];
    r1 := t[k..];
    CutBefore(t, k);
    LeadingIdentifier(t);
  }

  lemma {:induction false} FunctionMatchSound(t: string) returns (ws1: string, ws2: string, ws3: string, ws4: string)
    requires MatchFunction(t).Some?
    ensures var (n, p, b) := MatchFunction(t).value; FunctionShape(t, n, ws1, ws2, p, ws3, ws4, b)
  {
    var n, r1 := FunctionMatchStages(t);
    var r2;
    ws1, r2 := FunctionHeadSplit(r1);
    var (param, r3) := ParameterGroup(r2).value;
    var body := AssignedBody(r3).value;
    ws2 := ParameterGroupSound(r2);
    ws3, ws4 := AssignedBodySound(r3);
    FunctionShapeOfStages(t, n, r1, ws1, r2, ws2, param, r3, ws3, ws4, body);
  }

  /** The name stage: an identifier followed by a non-word character is cut off whole. */
  lemma {:induction false} FunctionNameComplete(t: string, name: string, r1: string)
    requires t == name + r1 && IsIdentifier(name) && r1 != [] && !IsWordChar(r1[0])
    ensures MatchFunction(t) == FunctionTail(name, r1)
  {
    LeadingRunOfConcat(IsWordChar, name, r1);
    assert t[..|name|] == name && t[|name|..] == r1;
  }

  /** The `\s*\(` stage after the name. */
  lemma {:induction false} FunctionHeadComplete(r1: string, ws1: string, r2: string)
    requires r1 == ws1 + ("(" + r2) && AllSpace(ws1)
    ensures FunctionHead(r1) == ParameterGroup(r2)
  {
    LeadingRunOfConcat(IsSpace, ws1, "(" + r2);
    assert r1[|ws1| + 1..] == r2;
  }

  lemma {:induction false} FunctionMatchComplete(t: string, name: string, ws1: string, ws2: string, param: string,
                                                 ws3: string, ws4: string, body: string)
    requires FunctionShape(t, name, ws1, ws2, param, ws3, ws4, body)
    ensures MatchFunction(t) == Some((name, param, body))
  {
    FunctionShapeGrouping(name, ws1, ws2, param, ws3, ws4, body);
    var r3 := ws3 + ":=" + (ws4 + body);
    var r2 := ws2 + param + (")" + r3);
    var r1 := ws1 + ("(" + r2);
    assert t == name + r1;
    assert r1[0] == '(' || IsSpace(r1[0]);
    FunctionNameComplete(t, name, r1);
    FunctionHeadComplete(r1, ws1, r2);
    ParameterGroupComplete(r2, ws2, param, r3);
    AssignedBodyComplete(r3, ws3, ws4, body);
  }

  // ---------------------------------------------------------------
  // Classification in the code's priority order
  // ---------------------------------------------------------------

  /** The patterns are tried in the order declaration, solve, evaluate, function; the first match wins. */
  function Classify(t: string): Snippet {
    match MatchDeclaration(t)
    case Some((n, v)) => VariableDeclaration(n, v)
    case None =>
      match MatchSolve(t)
      case Some((e, x)) => Solve(e, x)
      case None =>
        match MatchEvaluate(t)
        case Some(e) => Evaluate(e)
        case None =>
          match MatchFunction(t)
          case Some((n, p, b)) => FunctionDefinition(n, p, b)
          case None => Unrecognized
  }

  /** The evaluate reading is taken when neither earlier pattern matches. */
  lemma ClassifiedAsEvaluate(t: string, e: string)
    requires MatchDeclaration(t).None? && MatchSolve(t).None? && MatchEvaluate(t) == Some(e)
    ensures Classify(t) == Evaluate(e)
  {
  }

  /** The solve reading is taken when the declaration pattern does not match. */
  lemma ClassifiedAsSolve(t: string, e: string, x: string)
    requires MatchDeclaration(t).None? && MatchSolve(t) == Some((e, x))
    ensures Classify(t) == Solve(e, x)
  {
  }

  /** The function reading is taken when none of the three earlier patterns matches. */
  lemma ClassifiedAsFunction(t: string, name: string, param: string, body: string)
    requires MatchDeclaration(t).None? && MatchSolve(t).None? && MatchEvaluate(t).None?
    requires MatchFunction(t) == Some((name, param, body))
    ensures Classify(t) == FunctionDefinition(name, param, body)
  {
  }

  /** A function definition that neither a solve nor an evaluate claims is classified as one. */
  lemma {:induction false} FunctionClassified(t: string, name: string, ws1: string, ws2: string, param: string,
                                              ws3: string, ws4: string, body: string)
    requires FunctionShape(t, name, ws1, ws2, param, ws3, ws4, body)
    requires MatchSolve(t).None? && MatchEvaluate(t).None?
    ensures Classify(t) == FunctionDefinition(name, param, body)
  {
    FunctionMatchComplete(t, name, ws1, ws2, param, ws3, ws4, body);
    DeclarationExcludesFunction(t);
    ClassifiedAsFunction(t, name, param, body);
  }

  /** The snippet is rendered by one of the four evaluator actions. */
  predicate Recognized(t: string) {
    !Classify(t).Unrecognized?
  }

  // ---------------------------------------------------------------
  // How the four languages overlap, and what the priority order decides
  // ---------------------------------------------------------------

  /** A declaration never reads as a solve: its name runs into `:`, where `solve(` has a parenthesis. */
  lemma {:induction false} DeclarationExcludesSolve(t: string)
    ensures MatchDeclaration(t).Some? ==> MatchSolve(t).None?
  {
    if MatchDeclaration(t).Some? && |t| >= 6 {
      var k := LeadingRun(IsWordChar, t);
      LeadingRunStops(IsWordChar, t);
      if k < 6 {
        assert t[..6][k] == ':';
      } else {
        assert t[..6][5] == t[5] && IsWordChar(t[5]);
      }
    }
  }

  /** A declaration never reads as a function definition: its name is followed by `:`, not blanks and `(`. */
  lemma {:induction false} DeclarationExcludesFunction(t: string)
    ensures MatchDeclaration(t).Some? ==> MatchFunction(t).None?
  {
    if MatchDeclaration(t).Some? {
      var k := LeadingRun(IsWordChar, t);
      var r1 := t[k..];
      assert r1[0] == ':' && !IsSpace(r1[0]);
      assert LeadingRun(IsSpace, r1) == 0;
    }
  }

  /** A solve ends with `)`, an evaluate with `?`. */
  lemma SolveExcludesEvaluate(t: string)
    ensures MatchSolve(t).Some? ==> MatchEvaluate(t).None?
  {
  }

  /** `x:=?` fits both the declaration and the evaluate pattern; the declaration wins. */
  lemma {:induction false} DeclarationBeforeEvaluate(t: string)
    requires t == "x:=?"
    ensures MatchEvaluate(t) == Some("x:")
    ensures Classify(t) == VariableDeclaration("x", "?")
  {
    assert t == "x" + ":=" + "?" && IsIdentifier("x");
    DeclarationMatchIff(t, "x", "?");
    assert t == "x:" + "=?" && '=' !in "x:";
    EvaluateMatchIff(t, "x:");
  }

  /** The function pattern reads `f(x):=?` as `f`, `x` and `?`. */
  lemma {:induction false} FunctionReadingOfEvaluate(t: string)
    requires t == "f(x):=?"
    ensures MatchFunction(t) == Some(("f", "x", "?"))
  {
    assert t == "f" + "" + "(" + "" + "x" + ")" + "" + ":=" + "" + "?";
    assert IsIdentifier("f") && GreedyCapture("x") && GreedyCapture("?");
    FunctionMatchComplete(t, "f", "", "", "x", "", "", "?");
  }

  /** `f(x):=?` fits both the evaluate and the function pattern; the evaluate wins. */
  lemma {:induction false} EvaluateBeforeFunction(t: string)
    requires t == "f(x):=?"
    ensures MatchFunction(t).Some?
    ensures Classify(t) == Evaluate("f(x):")
  {
    assert t == "f(x):" + "=?" && '=' !in "f(x):";
    assert t[..6][0] == 'f';
    EvaluateMatchIff(t, "f(x):");
    FunctionReadingOfEvaluate(t);
    DeclarationExcludesFunction(t);
    ClassifiedAsEvaluate(t, "f(x):");
  }

  /** The function pattern reads `solve(a):=b,c)` as `solve`, `a` and `b,c)`. */
  lemma {:induction false} FunctionReadingOfSolve(t: string)
    requires t == "solve(a):=b,c)"
    ensures MatchFunction(t) == Some(("solve", "a", "b,c)"))
  {
    assert t == "solve" + "" + "(" + "" + "a" + ")" + "" + ":=" + "" + "b,c)";
    assert IsIdentifier("solve") by {
      assert forall i :: 0 <= i < 5 ==> IsWordChar("solve"[i]);
    }
    assert GreedyCapture("a") && GreedyCapture("b,c)") && '$' !in "b,c)";
    FunctionMatchComplete(t, "solve", "", "", "a", "", "", "b,c)");
  }

  /** `solve(a):=b,c)` fits both the solve and the function pattern; the solve wins. */
  lemma {:induction false} SolveBeforeFunction(t: string)
    requires t == "solve(a):=b,c)"
    ensures MatchFunction(t).Some?
    ensures Classify(t) == Solve("a):=b", "c")
  {
    assert t == "solve(" + "a):=b" + "," + "" + "c" + ")";
    assert SolveKeyword("solve(");
    assert ',' !in "a):=b" && GreedyCapture("c");
    SolveMatchComplete(t, "solve(", "a):=b", "", "c");
    FunctionReadingOfSolve(t);
    DeclarationExcludesFunction(t);
    ClassifiedAsSolve(t, "a):=b", "c");
  }

  /** Blanks around `:=` are not part of the declaration pattern: `x := 5` is left alone. */
  lemma {:induction false} SpacedDeclarationUnrecognized(t: string)
    requires t == "x := 5"
    ensures Classify(t) == Unrecognized
  {
    assert MatchDeclaration(t).None? by {
      assert LeadingRun(IsWordChar, t[1..]) == 0;
    }
    assert MatchSolve(t).None? by {
      assert t[..6][0] == 'x';
    }
    assert MatchEvaluate(t).None? by {
      assert t[|t| - 1] != '?';
      EvaluateHasOneEquals(t);
    }
    assert MatchFunction(t).None? by {
      var r1 := t[1..];
      assert LeadingRun(IsWordChar, t[1..]) == 0;
      assert LeadingRun(IsSpace, r1[1..]) == 0;
    }
  }
}
