/**
 * The algebra engine as src/NerdamerWidget.ts uses it, kept abstract: its
 * state is a table of variables and a table of functions, `solve` and
 * `evaluate` are uninterpreted functions of that state, and the four
 * display builders of src/NerdamerWidget.ts (lines 91-113) format what the
 * engine returns.
 */
module Nerdamer {

  import opened Chars

  /** A user function registered with `setFunction`: its parameter and body text. */
  datatype FunctionDef = FunctionDef(parameter: string, body: string)

  /** The engine's global state: the variable and function tables. */
  datatype Tables = Tables(variables: map<string, string>, functions: map<string, FunctionDef>)

  /** What a call into the engine gives back: the text of its result, or an exception. */
  datatype Answer = Value(text: string) | Threw

  /**
   * The engine's algebra, left uninterpreted: `solve(tables, equation, variable)`
   * and `evaluate(tables, expression)` depend on the current tables only, and
   * `setVar(tables, name, value)` and `setFunction(tables, name, parameter, body)`
   * say whether the library accepts a declaration or definition (`false`: it throws).
   */
  datatype Algebra = Algebra(
    solve: (Tables, string, string) -> Answer,
    evaluate: (Tables, string) -> Answer,
    setVar: (Tables, string, string) -> bool,
    setFunction: (Tables, string, string, string) -> bool)

  /** The tables after `setVar(name, value)`. */
  function Declare(t: Tables, name: string, value: string): Tables {
    t.(variables := t.variables[name := value])
  }

  /** The tables after `setFunction(name, parameter, body)`. */
  function Define(t: Tables, name: string, parameter: string, body: string): Tables {
    t.(functions := t.functions[name := FunctionDef(parameter, body)])
  }

  /** `setVar` binds exactly the one variable and leaves every other entry as it was. */
  lemma DeclareBindsOnlyName(t: Tables, name: string, value: string)
    ensures name in Declare(t, name, value).variables && Declare(t, name, value).variables[name] == value
    ensures forall m :: m != name ==>
      (m in Declare(t, name, value).variables <==> m in t.variables)
      && (m in t.variables ==> Declare(t, name, value).variables[m] == t.variables[m])
    ensures Declare(t, name, value).functions == t.functions
  {
  }

  /** `setFunction` binds exactly the one function and leaves every other entry as it was. */
  lemma DefineBindsOnlyName(t: Tables, name: string, parameter: string, body: string)
    ensures name in Define(t, name, parameter, body).functions
    ensures Define(t, name, parameter, body).functions[name] == FunctionDef(parameter, body)
    ensures forall m :: m != name ==>
      (m in Define(t, name, parameter, body).functions <==> m in t.functions)
      && (m in t.functions ==> Define(t, name, parameter, body).functions[m] == t.functions[m])
    ensures Define(t, name, parameter, body).variables == t.variables
  {
  }

  /** `${variable} := ${value}`. */
  function DeclarationText(variable: string, value: string): string {
    variable + " := " + value
  }

  /** `${expression} => ${variable} = ${result}`. */
  function SolveText(expression: string, variable: string, result: string): string {
    expression + " => " + variable + " = " + result
  }

  /** `${expression} => ${result}`. */
  function EvaluateText(expression: string, result: string): string {
    expression + " => " + result
  }

  /** `${name}(${variable}) = ${expression}`. */
  function FunctionText(name: string, variable: string, expression: string): string {
    name + "(" + variable + ") = " + expression
  }

  /** What `setNerdamerVariable` returns, or the exception `setVar` lets through. */
  function DeclarationDisplay(t: Tables, alg: Algebra, variable: string, value: string): Answer {
    if alg.setVar(t, variable, value) then Value(DeclarationText(variable, value)) else Threw
  }

  /** What `createFunction` returns, or the exception `setFunction` lets through. */
  function FunctionDisplay(t: Tables, alg: Algebra, name: string, variable: string, expression: string): Answer {
    if alg.setFunction(t, name, variable, expression) then Value(FunctionText(name, variable, expression)) else Threw
  }

  /** What `solveExpression` returns, or the exception it lets through. */
  function SolveDisplay(t: Tables, alg: Algebra, expression: string, variable: string): Answer {
    match alg.solve(t, expression, variable)
    case Threw => Threw
    case Value(result) => Value(SolveText(expression, variable, result))
  }

  /** What `evaluateExpression` returns: `replace("=?", "")` first, then the engine. */
  function EvaluateDisplay(t: Tables, alg: Algebra, content: string): Answer {
    var expression := ReplaceFirst(content, "=?", "");
    match alg.evaluate(t, expression)
    case Threw => Threw
    case Value(result) => Value(EvaluateText(expression, result))
  }

  /**
   * On a text without `=`, which is all the evaluate pattern ever captures,
   * the `replace("=?", "")` of `evaluateExpression` changes nothing: the
   * engine sees the capture itself.
   */
  lemma {:induction false} EvaluateDisplayOfCapture(t: Tables, alg: Algebra, content: string)
    requires '=' !in content
    ensures EvaluateDisplay(t, alg, content)
         == match alg.evaluate(t, content)
            case Threw => Threw
            case Value(result) => Value(content + " => " + result)
  {
    ReplaceFirstAbsent(content, "=?", "");
  }

  /** The engine object: its algebra is fixed, its tables change in place. */
  class Engine {
    const algebra: Algebra
    var variables: map<string, string>
    var functions: map<string, FunctionDef>

    constructor (algebra: Algebra)
      ensures this.algebra == algebra
      ensures variables == map[] && functions == map[]
    {
      this.algebra := algebra;
      variables := map[];
      functions := map[];
    }

    /** The tables as a value. */
    function State(): Tables
      reads this
    {
      Tables(variables, functions)
    }

    /** `nerdamer.setVar(name, value)`: binds the variable, or throws and changes nothing. */
    method SetVar(name: string, value: string) returns (accepted: bool)
      modifies this
      ensures accepted == algebra.setVar(old(State()), name, value)
      ensures State() == if accepted then Declare(old(State()), name, value) else old(State())
    {
      accepted := algebra.setVar(State(), name, value);
      if accepted {
        variables := variables[name := value];
      }
    }

    /** `nerdamer.setFunction(name, parameter, body)`: binds the function, or throws and changes nothing. */
    method SetFunction(name: string, parameter: string, body: string) returns (accepted: bool)
      modifies this
      ensures accepted == algebra.setFunction(old(State()), name, parameter, body)
      ensures State() == if accepted then Define(old(State()), name, parameter, body) else old(State())
    {
      accepted := algebra.setFunction(State(), name, parameter, body);
      if accepted {
        functions := functions[name := FunctionDef(parameter, body)];
      }
    }

    /** `nerdamer.solve(equation, variable)`, converted to text. */
    method Solve(equation: string, variable: string) returns (a: Answer)
      ensures a == algebra.solve(State(), equation, variable)
    {
      a := algebra.solve(State(), equation, variable);
    }

    /** `nerdamer(expression).evaluate()`, converted to text. */
    method Evaluate(expression: string) returns (a: Answer)
      ensures a == algebra.evaluate(State(), expression)
    {
      a := algebra.evaluate(State(), expression);
    }
  }

  /** `setNerdamerVariable`: registers the variable, then formats the declaration. */
  method SetNerdamerVariable(engine: Engine, variable: string, value: string) returns (r: Answer)
    modifies engine
    ensures r == DeclarationDisplay(old(engine.State()), engine.algebra, variable, value)
    ensures engine.State() == if r.Value? then Declare(old(engine.State()), variable, value) else old(engine.State())
  {
    var accepted := engine.SetVar(variable, value);
    if !accepted {
      return Threw;
    }
    r := Value(variable + " := " + value);
  }

  /** `solveExpression`: asks the engine, then formats the answer. */
  method SolveExpression(engine: Engine, expression: string, variable: string) returns (r: Answer)
    ensures r == SolveDisplay(engine.State(), engine.algebra, expression, variable)
  {
    var result := engine.Solve(expression, variable);
    match result
    case Threw => r := Threw;
    case Value(text) => r := Value(expression + " => " + variable + " = " + text);
  }

  /** `evaluateExpression`: strips the first `=?`, asks the engine, then formats the answer. */
  method EvaluateExpression(engine: Engine, content: string) returns (r: Answer)
    ensures r == EvaluateDisplay(engine.State(), engine.algebra, content)
  {
    var expression := ReplaceFirst(content, "=?", "");
    var result := engine.Evaluate(expression);
    match result
    case Threw => r := Threw;
    case Value(text) => r := Value(expression + " => " + text);
  }

  /** `createFunction`: registers the function, then formats its definition. */
  method CreateFunction(engine: Engine, name: string, variable: string, expression: string) returns (r: Answer)
    modifies engine
    ensures r == FunctionDisplay(old(engine.State()), engine.algebra, name, variable, expression)
    ensures engine.State() == if r.Value? then Define(old(engine.State()), name, variable, expression) else old(engine.State())
  {
    var accepted := engine.SetFunction(name, variable, expression);
    if !accepted {
      return Threw;
    }
    r := Value(name + "(" + variable + ") = " + expression);
  }
}
