/**
 * The decoration state field of src/NerdamerWidget.ts: on every transaction
 * with a cursor, `update` walks the inline-code spans in document order,
 * lets `handleInlineCodeNode` classify each one, call the engine and (unless
 * the cursor is next to it) add a replace decoration, and returns the new
 * decoration set.
 *
 * The scan is specified by the functions `HandleNode`, `Scan` and
 * `UpdateSpec`; the methods `HandleInlineCodeNode` and `Update` follow the
 * code step by step over an `Engine` and a `DecorationBuilder`, and are
 * proved to agree with them.
 */
module Widget {

  import opened Wrappers
  import opened Patterns
  import opened Nerdamer

  /** An inline-code node of the syntax tree: its range and the document text inside it. */
  datatype Span = Span(from: int, to: int, text: string)

  /** `Decoration.replace` over `[from, to]` with a widget rendering `widget`. */
  datatype Decoration = Replace(from: int, to: int, widget: string)

  /** What a call returns, or that an exception escaped from it. */
  datatype Outcome<T> = Returned(value: T) | Raised

  /** The engine's tables after a call, and what the call gave back. */
  datatype Pass = Pass(tables: Tables, result: Outcome<seq<Decoration>>)

  /** How far `cursor` is from the range `[s.from, s.to]`. */
  function Distance(cursor: int, s: Span): nat {
    if cursor < s.from then s.from - cursor else if cursor > s.to then cursor - s.to else 0
  }

  /** `isCursorInsideNode`: the cursor is in the span or at most one position away from it. */
  function IsCursorInsideNode(cursorPos: int, node: Span): (inside: bool)
    ensures node.from <= node.to ==> (inside <==> Distance(cursorPos, node) <= 1)
  {
    cursorPos >= node.from - 1 && cursorPos <= node.to + 1
  }

  // ---------------------------------------------------------------
  // Specification of one span and of the scan
  // ---------------------------------------------------------------

  /** What `handleInlineCodeNode` does before the cursor test. */
  datatype Effect =
    | Ignored                          // no pattern matched: `return`, nothing registered
    | Failed                           // the engine threw
    | Shown(tables: Tables, widget: string)  // the new tables and the widget's content

  /** The classification and the engine call of `handleInlineCodeNode`. */
  function Interpret(t: Tables, alg: Algebra, content: string): Effect {
    Act(t, alg, Classify(content), content)
  }

  /** The engine call for a classified snippet. */
  function Act(t: Tables, alg: Algebra, snippet: Snippet, content: string): Effect {
    match snippet
    case VariableDeclaration(name, value) =>
      if alg.setVar(t, name, value) then Shown(Declare(t, name, value), DeclarationText(name, value)) else Failed
    case Solve(e, x) =>
      (match SolveDisplay(t, alg, e, x)
       case Threw => Failed
       case Value(w) => Shown(t, w))
    case Evaluate(e) =>
      (match EvaluateDisplay(t, alg, e)
       case Threw => Failed
       case Value(w) => Shown(t, w))
    case FunctionDefinition(name, parameter, body) =>
      // the text `createFunction` returns is dropped: the widget shows the snippet
      if alg.setFunction(t, name, parameter, body) then Shown(Define(t, name, parameter, body), content) else Failed
    case Unrecognized => Ignored
  }

  /** `handleInlineCodeNode` on one span: the tables after it and the decorations it adds. */
  function HandleNode(t: Tables, alg: Algebra, cursorPos: int, node: Span): Pass {
    match Interpret(t, alg, node.text)
    case Ignored => Pass(t, Returned([]))
    case Failed => Pass(t, Raised)
    case Shown(t1, w) =>
      Pass(t1, Returned(if IsCursorInsideNode(cursorPos, node) then [] else [Replace(node.from, node.to, w)]))
  }

  /**
   * One span gets at most one decoration, over its own range; it gets one
   * exactly when it is recognized and away from the cursor; an unrecognized
   * span changes nothing; only a recognized span can throw, and a throw
   * leaves the tables as they were.
   */
  lemma HandleNodeDecorations(t: Tables, alg: Algebra, cursorPos: int, node: Span)
    ensures var p := HandleNode(t, alg, cursorPos, node);
      && (p.result.Returned? ==> |p.result.value| <= 1)
      && (p.result.Returned? ==> forall d :: d in p.result.value ==> d.from == node.from && d.to == node.to)
      && (p.result.Returned? ==>
            (p.result.value != [] <==> Recognized(node.text) && !IsCursorInsideNode(cursorPos, node)))
      && (!Recognized(node.text) ==> p == Pass(t, Returned([])))
      && (p.result.Raised? ==> Recognized(node.text) && p.tables == t)
  {
    var e := Interpret(t, alg, node.text);
    assert e.Ignored? <==> !Recognized(node.text);
    if e.Shown? {
      HandleShown(t, alg, cursorPos, node, e.tables, e.widget);
    }
  }

  /** Puts `ds` in front of the decorations of a pass that returned. */
  function Prepend(ds: seq<Decoration>, p: Pass): Pass {
    match p.result
    case Raised => p
    case Returned(rest) => Pass(p.tables, Returned(ds + rest))
  }

  /** The tree walk of `update`: every span in order, threading the engine's tables. */
  function Scan(t: Tables, alg: Algebra, cursorPos: int, spans: seq<Span>): Pass
    decreases |spans|
  {
    if spans == [] then Pass(t, Returned([]))
    else
      var p := HandleNode(t, alg, cursorPos, spans[0]);
      match p.result
      case Raised => p
      case Returned(ds) => Prepend(ds, Scan(p.tables, alg, cursorPos, spans[1..]))
  }

  /** `update`: no cursor, or a cursor at offset 0, keeps the old set; otherwise the scan builds a new one. */
  function UpdateSpec(t: Tables, alg: Algebra, oldState: seq<Decoration>, cursorPos: Option<int>,
                      spans: seq<Span>): Pass
  {
    if cursorPos.None? || cursorPos.value == 0 then Pass(t, Returned(oldState))
    else Scan(t, alg, cursorPos.value, spans)
  }

  /** The spans of a syntax tree walk: each a range, each ending before the next begins. */
  predicate InDocumentOrder(spans: seq<Span>) {
    && (forall i :: 0 <= i < |spans| ==> spans[i].from <= spans[i].to)
    && (forall i, j :: 0 <= i < j < |spans| ==> spans[i].to <= spans[j].from)
  }

  /** Decorations sorted by position and not overlapping, as a decoration set holds them. */
  predicate Ascending(ds: seq<Decoration>) {
    && (forall i :: 0 <= i < |ds| ==> ds[i].from <= ds[i].to)
    && (forall i, j :: 0 <= i < j < |ds| ==> ds[i].to <= ds[j].from)
  }

  /** The ranges of some decorations, in order. */
  function Ranges(ds: seq<Decoration>): seq<(int, int)> {
    if ds == [] then [] else [(ds[0].from, ds[0].to)] + Ranges(ds[1..])
  }

  /** The ranges of the spans that are recognized and not next to the cursor, in order. */
  function Emitted(cursorPos: int, spans: seq<Span>): seq<(int, int)> {
    if spans == [] then []
    else
      (if Recognized(spans[0].text) && !IsCursorInsideNode(cursorPos, spans[0])
       then [(spans[0].from, spans[0].to)] else [])
      + Emitted(cursorPos, spans[1..])
  }

  /** What a snippet registers with the engine: a variable, a function, or nothing. */
  function Register(t: Tables, content: string): Tables {
    match Classify(content)
    case VariableDeclaration(name, value) => Declare(t, name, value)
    case FunctionDefinition(name, parameter, body) => Define(t, name, parameter, body)
    case _ => t
  }

  /** A span that returns has registered its declaration or definition, if any. */
  lemma HandleRegisters(t: Tables, alg: Algebra, c: int, node: Span)
    requires HandleNode(t, alg, c, node).result.Returned?
    ensures HandleNode(t, alg, c, node).tables == Register(t, node.text)
  {
    match Classify(node.text)
    case VariableDeclaration(name, value) =>
    case FunctionDefinition(name, parameter, body) =>
    case _ =>
  }

  /** The declarations and definitions of `spans`, registered in order. */
  function Registered(t: Tables, spans: seq<Span>): Tables
    decreases |spans|
  {
    if spans == [] then t else Registered(Register(t, spans[0].text), spans[1..])
  }

  // ---------------------------------------------------------------
  // The widget of each kind of snippet
  // ---------------------------------------------------------------

  /** The decorations of a span whose widget shows `w`. */
  function Shows(cursorPos: int, node: Span, w: string): seq<Decoration> {
    if IsCursorInsideNode(cursorPos, node) then [] else [Replace(node.from, node.to, w)]
  }

  /** A span whose snippet is shown gets the decorations `Shows` gives. */
  lemma HandleShown(t: Tables, alg: Algebra, cursorPos: int, node: Span, t1: Tables, w: string)
    requires Interpret(t, alg, node.text) == Shown(t1, w)
    ensures HandleNode(t, alg, cursorPos, node) == Pass(t1, Returned(Shows(cursorPos, node, w)))
  {
  }

  /** A span classified as a function definition, whatever its shape. */
  lemma HandleDefinition(t: Tables, alg: Algebra, cursorPos: int, node: Span, name: string, param: string, body: string)
    requires Classify(node.text) == FunctionDefinition(name, param, body)
    ensures HandleNode(t, alg, cursorPos, node)
         == if alg.setFunction(t, name, param, body)
            then Pass(Define(t, name, param, body), Returned(Shows(cursorPos, node, node.text)))
            else Pass(t, Raised)
  {
    if alg.setFunction(t, name, param, body) {
      HandleShown(t, alg, cursorPos, node, Define(t, name, param, body), node.text);
    }
  }

  /**
   * A declaration the library accepts registers its variable, even next to
   * the cursor, and shows `name := value`; one it refuses throws.
   */
  lemma {:induction false} DeclarationWidget(t: Tables, alg: Algebra, cursorPos: int, node: Span,
                                             name: string, value: string)
    requires DeclarationShape(node.text, name, value)
    ensures HandleNode(t, alg, cursorPos, node)
         == if alg.setVar(t, name, value)
            then Pass(Declare(t, name, value), Returned(Shows(cursorPos, node, name + " := " + value)))
            else Pass(t, Raised)
  {
    DeclarationMatchIff(node.text, name, value);
  }

  /** A solve asks the engine for its equation and variable and shows `eq => var = result`. */
  lemma {:induction false} SolveWidget(t: Tables, alg: Algebra, cursorPos: int, node: Span,
                                       head: string, e: string, ws: string, x: string)
    requires SolveShape(node.text, head, e, ws, x)
    ensures HandleNode(t, alg, cursorPos, node)
         == match alg.solve(t, e, x)
            case Threw => Pass(t, Raised)
            case Value(r) => Pass(t, Returned(Shows(cursorPos, node, e + " => " + x + " = " + r)))
  {
    SolveMatchComplete(node.text, head, e, ws, x);
    DeclarationExcludesSolve(node.text);
  }

  /**
   * An evaluate that is not also a declaration asks the engine for the text
   * before `=?`, unchanged, and shows `expr => result`.
   */
  lemma {:induction false} EvaluateWidget(t: Tables, alg: Algebra, cursorPos: int, node: Span, e: string)
    requires EvaluateShape(node.text, e) && MatchDeclaration(node.text).None?
    ensures HandleNode(t, alg, cursorPos, node)
         == match alg.evaluate(t, e)
            case Threw => Pass(t, Raised)
            case Value(r) => Pass(t, Returned(Shows(cursorPos, node, e + " => " + r)))
  {
    EvaluateMatchIff(node.text, e);
    SolveExcludesEvaluate(node.text);
    EvaluateDisplayOfCapture(t, alg, e);
  }

  /**
   * A function definition that no earlier pattern claims, once the library
   * accepts it, registers the function, even next to the cursor, and shows
   * the snippet as written; one the library refuses throws.
   */
  lemma {:induction false} FunctionWidget(t: Tables, alg: Algebra, cursorPos: int, node: Span,
                                          name: string, ws1: string, ws2: string, param: string,
                                          ws3: string, ws4: string, body: string)
    requires FunctionShape(node.text, name, ws1, ws2, param, ws3, ws4, body)
    requires MatchSolve(node.text).None? && MatchEvaluate(node.text).None?
    ensures HandleNode(t, alg, cursorPos, node)
         == if alg.setFunction(t, name, param, body)
            then Pass(Define(t, name, param, body), Returned(Shows(cursorPos, node, node.text)))
            else Pass(t, Raised)
  {
    FunctionClassified(node.text, name, ws1, ws2, param, ws3, ws4, body);
    HandleDefinition(t, alg, cursorPos, node, name, param, body);
  }

  // ---------------------------------------------------------------
  // Properties of update and of the scan
  // ---------------------------------------------------------------

  /** Without a cursor, or with the cursor at offset 0, the old set comes back and the engine is untouched. */
  lemma UpdateWithoutCursor(t: Tables, alg: Algebra, oldState: seq<Decoration>, cursorPos: Option<int>,
                            spans: seq<Span>)
    requires cursorPos.None? || cursorPos == Some(0)
    ensures UpdateSpec(t, alg, oldState, cursorPos, spans) == Pass(t, Returned(oldState))
  {
  }

  /** With a cursor, the old set plays no part: the new set is built from scratch. */
  lemma UpdateReplacesOldSet(t: Tables, alg: Algebra, old1: seq<Decoration>, old2: seq<Decoration>,
                             cursorPos: Option<int>, spans: seq<Span>)
    requires cursorPos.Some? && cursorPos.value != 0
    ensures UpdateSpec(t, alg, old1, cursorPos, spans) == UpdateSpec(t, alg, old2, cursorPos, spans)
  {
  }

  lemma PrependNothing(p: Pass)
    ensures Prepend([], p) == p
  {
    if p.result.Returned? {
      assert [] + p.result.value == p.result.value;
    }
  }

  /** The scan of the spans from position `i` on, one span at a time. */
  lemma ScanStep(t: Tables, alg: Algebra, c: int, spans: seq<Span>, i: nat)
    requires i < |spans|
    ensures Scan(t, alg, c, spans[i..])
         == (var p := HandleNode(t, alg, c, spans[i]);
             match p.result
             case Raised => p
             case Returned(ds) => Prepend(ds, Scan(p.tables, alg, c, spans[i + 1..])))
  {
    assert spans[i..][0] == spans[i] && spans[i..][1..] == spans[i + 1..];
  }

  /**
   * One more span of a scan that is resumed after the decorations `done`:
   * if the span throws, so does the whole scan ...
   */
  lemma {:induction false} ScanResumeRaised(t0: Tables, t: Tables, alg: Algebra, c: int, spans: seq<Span>, i: nat,
                                            done: seq<Decoration>)
    requires i < |spans|
    requires Scan(t0, alg, c, spans) == Prepend(done, Scan(t, alg, c, spans[i..]))
    requires HandleNode(t, alg, c, spans[i]).result.Raised?
    ensures Scan(t0, alg, c, spans) == HandleNode(t, alg, c, spans[i])
  {
    ScanStep(t, alg, c, spans, i);
  }

  /** ... and otherwise its decorations join `done`. */
  lemma {:induction false} ScanResume(t0: Tables, t: Tables, alg: Algebra, c: int, spans: seq<Span>, i: nat,
                                      done: seq<Decoration>)
    requires i < |spans|
    requires Scan(t0, alg, c, spans) == Prepend(done, Scan(t, alg, c, spans[i..]))
    requires HandleNode(t, alg, c, spans[i]).result.Returned?
    ensures var p := HandleNode(t, alg, c, spans[i]);
      Scan(t0, alg, c, spans) == Prepend(done + p.result.value, Scan(p.tables, alg, c, spans[i + 1..]))
  {
    ScanStep(t, alg, c, spans, i);
    var p := HandleNode(t, alg, c, spans[i]);
    PrependPrepend(done, p.result.value, Scan(p.tables, alg, c, spans[i + 1..]));
  }

  lemma PrependPrepend(a: seq<Decoration>, b: seq<Decoration>, p: Pass)
    ensures Prepend(a, Prepend(b, p)) == Prepend(a + b, p)
  {
    if p.result.Returned? {
      assert a + (b + p.result.value) == (a + b) + p.result.value;
    }
  }

  /** Scanning `a + b` is scanning `a`, then scanning `b` from the tables `a` left. */
  lemma {:induction false} ScanAppend(t: Tables, alg: Algebra, c: int, a: seq<Span>, b: seq<Span>)
    ensures Scan(t, alg, c, a + b)
         == (var p := Scan(t, alg, c, a);
             match p.result
             case Raised => p
             case Returned(ds) => Prepend(ds, Scan(p.tables, alg, c, b)))
    decreases |a|
  {
    if a == [] {
      assert a + b == b;
      PrependNothing(Scan(t, alg, c, b));
    } else {
      ScanStep(t, alg, c, a + b, 0);
      assert (a + b)[0] == a[0] && (a + b)[1..] == a[1..] + b;
      var p := HandleNode(t, alg, c, a[0]);
      if p.result.Returned? {
        ScanAppend(p.tables, alg, c, a[1..], b);
        var q := Scan(p.tables, alg, c, a[1..]);
        if q.result.Returned? {
          PrependPrepend(p.result.value, q.result.value, Scan(q.tables, alg, c, b));
        }
      }
    }
  }

  /** A scan that returns leaves the engine with the declarations and definitions of every span. */
  lemma {:induction false} ScanRegisters(t: Tables, alg: Algebra, c: int, spans: seq<Span>)
    requires Scan(t, alg, c, spans).result.Returned?
    ensures Scan(t, alg, c, spans).tables == Registered(t, spans)
    decreases |spans|
  {
    if spans != [] {
      var p := HandleNode(t, alg, c, spans[0]);
      HandleRegisters(t, alg, c, spans[0]);
      ScanRegisters(p.tables, alg, c, spans[1..]);
    }
  }

  /**
   * Declare before use: once the spans before position `i` are handled,
   * the rest of the scan runs against the tables holding every declaration
   * and definition among them.
   */
  lemma {:induction false} LaterSpansSeeEarlierDeclarations(t: Tables, alg: Algebra, c: int,
                                                            spans: seq<Span>, i: nat)
    requires i <= |spans|
    requires Scan(t, alg, c, spans[..i]).result.Returned?
    ensures Scan(t, alg, c, spans)
         == Prepend(Scan(t, alg, c, spans[..i]).result.value, Scan(Registered(t, spans[..i]), alg, c, spans[i..]))
  {
    assert spans == spans[..i] + spans[i..];
    ScanAppend(t, alg, c, spans[..i], spans[i..]);
    ScanRegisters(t, alg, c, spans[..i]);
  }

  /** The cursor decides what is shown, never what reaches the engine nor whether it throws. */
  lemma {:induction false} ScanEngineIgnoresCursor(t: Tables, alg: Algebra, c1: int, c2: int, spans: seq<Span>)
    ensures Scan(t, alg, c1, spans).tables == Scan(t, alg, c2, spans).tables
    ensures Scan(t, alg, c1, spans).result.Raised? == Scan(t, alg, c2, spans).result.Raised?
    decreases |spans|
  {
    if spans != [] {
      var p1 := HandleNode(t, alg, c1, spans[0]);
      var p2 := HandleNode(t, alg, c2, spans[0]);
      assert p1.tables == p2.tables && p1.result.Raised? == p2.result.Raised?;
      ScanEngineIgnoresCursor(p1.tables, alg, c1, c2, spans[1..]);
    }
  }

  /** Only a recognized span, one that reaches the engine, can make the scan throw. */
  lemma {:induction false} ScanRaisesAtRecognizedSpan(t: Tables, alg: Algebra, c: int, spans: seq<Span>)
    requires Scan(t, alg, c, spans).result.Raised?
    ensures exists i :: 0 <= i < |spans| && Recognized(spans[i].text)
    decreases |spans|
  {
    var p := HandleNode(t, alg, c, spans[0]);
    HandleNodeDecorations(t, alg, c, spans[0]);
    if p.result.Returned? {
      ScanRaisesAtRecognizedSpan(p.tables, alg, c, spans[1..]);
      var i :| 0 <= i < |spans[1..]| && Recognized(spans[1..][i].text);
      assert spans[1..][i] == spans[i + 1];
    }
  }

  lemma {:induction false} RangesAppend(a: seq<Decoration>, b: seq<Decoration>)
    ensures Ranges(a + b) == Ranges(a) + Ranges(b)
    decreases |a|
  {
    if a == [] {
      assert a + b == b;
    } else {
      assert (a + b)[0] == a[0] && (a + b)[1..] == a[1..] + b;
      RangesAppend(a[1..], b);
    }
  }

  /**
   * A scan that returns puts exactly one decoration on each recognized span
   * away from the cursor, over that span's range and in span order, and none
   * on any other span.
   */
  lemma {:induction false} ScanDecoratesRecognizedSpans(t: Tables, alg: Algebra, c: int, spans: seq<Span>)
    requires Scan(t, alg, c, spans).result.Returned?
    ensures Ranges(Scan(t, alg, c, spans).result.value) == Emitted(c, spans)
    decreases |spans|
  {
    if spans != [] {
      var p := HandleNode(t, alg, c, spans[0]);
      HandleNodeDecorations(t, alg, c, spans[0]);
      var ds := p.result.value;
      ScanDecoratesRecognizedSpans(p.tables, alg, c, spans[1..]);
      RangesAppend(ds, Scan(p.tables, alg, c, spans[1..]).result.value);
      if ds != [] {
        assert ds == [ds[0]] && ds[0] in ds;
      }
    }
  }

  /** Every decoration of a scan lies within the spans' reach: it starts at or after `lo`. */
  lemma {:induction false} ScanStartsAfter(t: Tables, alg: Algebra, c: int, spans: seq<Span>, lo: int)
    requires forall i :: 0 <= i < |spans| ==> lo <= spans[i].from
    requires Scan(t, alg, c, spans).result.Returned?
    ensures forall d :: d in Scan(t, alg, c, spans).result.value ==> lo <= d.from
    decreases |spans|
  {
    if spans != [] {
      var p := HandleNode(t, alg, c, spans[0]);
      HandleNodeDecorations(t, alg, c, spans[0]);
      ScanStartsAfter(p.tables, alg, c, spans[1..], lo);
    }
  }

  /** Two ascending runs of decorations, the first ending before the second starts, make one. */
  lemma AscendingConcat(ds: seq<Decoration>, qs: seq<Decoration>)
    requires Ascending(ds) && Ascending(qs)
    requires forall d, q :: d in ds && q in qs ==> d.to <= q.from
    ensures Ascending(ds + qs)
  {
    var all := ds + qs;
    forall i, j | 0 <= i < j < |all| ensures all[i].to <= all[j].from {
      if j >= |ds| {
        assert all[j] == qs[j - |ds|];
        if i < |ds| {
          assert all[i] == ds[i];
        } else {
          assert all[i] == qs[i - |ds|];
        }
      }
    }
  }

  /** Spans in document order give decorations in ascending, non-overlapping order. */
  lemma {:induction false} ScanAscending(t: Tables, alg: Algebra, c: int, spans: seq<Span>)
    requires InDocumentOrder(spans)
    requires Scan(t, alg, c, spans).result.Returned?
    ensures Ascending(Scan(t, alg, c, spans).result.value)
    decreases |spans|
  {
    if spans != [] {
      var p := HandleNode(t, alg, c, spans[0]);
      HandleNodeDecorations(t, alg, c, spans[0]);
      var rest := spans[1..];
      assert InDocumentOrder(rest) by {
        assert forall i :: 0 <= i < |rest| ==> rest[i] == spans[i + 1];
      }
      assert forall i :: 0 <= i < |rest| ==> spans[0].to <= rest[i].from by {
        assert forall i :: 0 <= i < |rest| ==> rest[i] == spans[i + 1];
      }
      var qs := Scan(p.tables, alg, c, rest).result.value;
      ScanAscending(p.tables, alg, c, rest);
      ScanStartsAfter(p.tables, alg, c, rest, spans[0].to);
      var ds := p.result.value;
      assert Ascending(ds) by {
        if ds != [] {
          assert ds[0] in ds;
        }
      }
      AscendingConcat(ds, qs);
    }
  }

  // ---------------------------------------------------------------
  // The code itself: a builder, the node handler and the update
  // ---------------------------------------------------------------

  /** `RangeSetBuilder`: decorations are added in order of their start. */
  class DecorationBuilder {
    var added: seq<Decoration>

    constructor ()
      ensures added == []
    {
      added := [];
    }

    /** `builder.add(from, to, Decoration.replace(...))`; ranges must come sorted by start. */
    method Add(from: int, to: int, widget: string)
      requires added == [] || added[|added| - 1].from <= from
      modifies this
      ensures added == old(added) + [Replace(from, to, widget)]
    {
      added := added + [Replace(from, to, widget)];
    }
  }

  /** How `Interpret` reads the four matchers, tried in order; one lemma per outcome of the order. */
  lemma InterpretDeclaration(t: Tables, alg: Algebra, content: string, variable: string, value: string)
    requires MatchDeclaration(content) == Some((variable, value))
    ensures Interpret(t, alg, content)
         == if alg.setVar(t, variable, value)
            then Shown(Declare(t, variable, value), DeclarationText(variable, value))
            else Failed
  {
  }

  lemma InterpretSolve(t: Tables, alg: Algebra, content: string, e: string, x: string)
    requires MatchDeclaration(content).None? && MatchSolve(content) == Some((e, x))
    ensures Interpret(t, alg, content)
         == match SolveDisplay(t, alg, e, x) case Threw => Failed case Value(w) => Shown(t, w)
  {
    ClassifiedAsSolve(content, e, x);
  }

  lemma InterpretEvaluate(t: Tables, alg: Algebra, content: string, e: string)
    requires MatchDeclaration(content).None? && MatchSolve(content).None? && MatchEvaluate(content) == Some(e)
    ensures Interpret(t, alg, content)
         == match EvaluateDisplay(t, alg, e) case Threw => Failed case Value(w) => Shown(t, w)
  {
    ClassifiedAsEvaluate(content, e);
  }

  lemma InterpretFunction(t: Tables, alg: Algebra, content: string, name: string, parameter: string, body: string)
    requires MatchDeclaration(content).None? && MatchSolve(content).None? && MatchEvaluate(content).None?
    requires MatchFunction(content) == Some((name, parameter, body))
    ensures Interpret(t, alg, content)
         == if alg.setFunction(t, name, parameter, body) then Shown(Define(t, name, parameter, body), content) else Failed
  {
    ClassifiedAsFunction(content, name, parameter, body);
  }

  lemma InterpretNothing(t: Tables, alg: Algebra, content: string)
    requires MatchDeclaration(content).None? && MatchSolve(content).None? && MatchEvaluate(content).None?
    requires MatchFunction(content).None?
    ensures Interpret(t, alg, content) == Ignored
  {
  }

  /** `handleInlineCodeNode`: returns whether the engine threw. */
  method HandleInlineCodeNode(engine: Engine, node: Span, cursorPos: int, builder: DecorationBuilder)
    returns (raised: bool)
    requires builder.added == [] || builder.added[|builder.added| - 1].from <= node.from
    modifies engine, builder
    ensures var p := HandleNode(old(engine.State()), engine.algebra, cursorPos, node);
      && engine.State() == p.tables
      && (raised <==> p.result.Raised?)
      && builder.added == old(builder.added) + (if raised then [] else p.result.value)
  {
    ghost var t0 := engine.State();
    ghost var alg := engine.algebra;
    var content := node.text;
    var variableDeclaration := MatchDeclaration(content);
    if variableDeclaration.Some? {
      var (variable, value) := variableDeclaration.value;
      InterpretDeclaration(t0, alg, node.text, variable, value);
      var answer := SetNerdamerVariable(engine, variable, value);
      if answer.Threw? {
        return true;
      }
      content := answer.text;
    } else {
      var solveString := MatchSolve(content);
      if solveString.Some? {
        var (expression, variable) := solveString.value;
        InterpretSolve(t0, alg, node.text, expression, variable);
        var answer := SolveExpression(engine, expression, variable);
        if answer.Threw? {
          return true;
        }
        content := answer.text;
      } else {
        var evaluateString := MatchEvaluate(content);
        if evaluateString.Some? {
          InterpretEvaluate(t0, alg, node.text, evaluateString.value);
          var answer := EvaluateExpression(engine, evaluateString.value);
          if answer.Threw? {
            return true;
          }
          content := answer.text;
        } else {
          var functionString := MatchFunction(content);
          if functionString.Some? {
            var (name, variable, expression) := functionString.value;
            InterpretFunction(t0, alg, node.text, name, variable, expression);
            var created := CreateFunction(engine, name, variable, expression);
            if created.Threw? {
              return true;
            }
          } else {
            InterpretNothing(t0, alg, node.text);
            return false;
          }
        }
      }
    }
    HandleShown(t0, alg, cursorPos, node, engine.State(), content);
    if IsCursorInsideNode(cursorPos, node) {
      return false;
    }
    builder.Add(node.from, node.to, content);
    return false;
  }

  /**
   * The loop invariant of `update`: after the spans before position `i`,
   * whose decorations are `done`, the rest of the scan from the tables `t`
   * completes the scan from the start; and `done` ends before span `i - 1`'s
   * start at the latest.
   */
  predicate Resumes(t0: Tables, t: Tables, alg: Algebra, c: int, spans: seq<Span>, i: nat, done: seq<Decoration>) {
    && i <= |spans|
    && Scan(t0, alg, c, spans) == Prepend(done, Scan(t, alg, c, spans[i..]))
    && (done != [] ==> 0 < i && done[|done| - 1].from <= spans[i - 1].from)
  }

  /** Nothing is handled before the first span. */
  lemma ResumesAtStart(t0: Tables, alg: Algebra, c: int, spans: seq<Span>)
    ensures Resumes(t0, t0, alg, c, spans, 0, [])
  {
    assert spans[0..] == spans;
    PrependNothing(Scan(t0, alg, c, spans));
  }

  /** In document order, the next span starts no earlier than the last decoration added. */
  lemma ResumesInOrder(t0: Tables, t: Tables, alg: Algebra, c: int, spans: seq<Span>, i: nat, done: seq<Decoration>)
    requires InDocumentOrder(spans) && i < |spans|
    requires Resumes(t0, t, alg, c, spans, i, done)
    ensures done == [] || done[|done| - 1].from <= spans[i].from
  {
    if done != [] {
      assert spans[i - 1].from <= spans[i - 1].to <= spans[i].from;
    }
  }

  /** At most one decoration starting at `from`, added after decorations starting no later. */
  lemma AddedInOrder(done: seq<Decoration>, ds: seq<Decoration>, from: int)
    requires done == [] || done[|done| - 1].from <= from
    requires |ds| <= 1 && forall d :: d in ds ==> d.from == from
    ensures done + ds == [] || (done + ds)[|done + ds| - 1].from <= from
  {
    if ds != [] {
      assert ds[0] in ds;
      assert (done + ds)[|done + ds| - 1] == ds[0];
    } else {
      assert done + ds == done;
    }
  }

  /** A span that returns moves the invariant on by one, its decorations joining `done`. */
  lemma {:induction false} ResumesStep(t0: Tables, t: Tables, alg: Algebra, c: int, spans: seq<Span>, i: nat,
                                       done: seq<Decoration>)
    requires i < |spans|
    requires Resumes(t0, t, alg, c, spans, i, done)
    requires done == [] || done[|done| - 1].from <= spans[i].from
    requires HandleNode(t, alg, c, spans[i]).result.Returned?
    ensures var p := HandleNode(t, alg, c, spans[i]);
      Resumes(t0, p.tables, alg, c, spans, i + 1, done + p.result.value)
  {
    ScanResume(t0, t, alg, c, spans, i, done);
    HandleNodeDecorations(t, alg, c, spans[i]);
    AddedInOrder(done, HandleNode(t, alg, c, spans[i]).result.value, spans[i].from);
  }

  /** After the last span the invariant is the whole scan. */
  lemma ResumesAtEnd(t0: Tables, t: Tables, alg: Algebra, c: int, spans: seq<Span>, done: seq<Decoration>)
    requires Resumes(t0, t, alg, c, spans, |spans|, done)
    ensures Scan(t0, alg, c, spans) == Pass(t, Returned(done))
  {
    assert spans[|spans|..] == [];
    assert done + [] == done;
  }

  /** One turn of the tree walk in `update`: the span at position `i`, handled against the engine. */
  method HandleNext(engine: Engine, builder: DecorationBuilder, cursor: int, spans: seq<Span>, i: nat,
                    ghost t0: Tables)
    returns (raised: bool)
    requires InDocumentOrder(spans) && i < |spans|
    requires Resumes(t0, engine.State(), engine.algebra, cursor, spans, i, builder.added)
    modifies engine, builder
    ensures raised ==> Scan(t0, engine.algebra, cursor, spans) == Pass(engine.State(), Raised)
    ensures !raised ==> Resumes(t0, engine.State(), engine.algebra, cursor, spans, i + 1, builder.added)
  {
    ghost var before := engine.State();
    ghost var done := builder.added;
    ResumesInOrder(t0, before, engine.algebra, cursor, spans, i, done);
    raised := HandleInlineCodeNode(engine, spans[i], cursor, builder);
    if raised {
      ScanResumeRaised(t0, before, engine.algebra, cursor, spans, i, done);
    } else {
      ResumesStep(t0, before, engine.algebra, cursor, spans, i, done);
    }
  }

  /** `update`: rebuilds the decoration set from the spans, or keeps the old one without a cursor. */
  method Update(engine: Engine, oldState: seq<Decoration>, cursorPos: Option<int>, spans: seq<Span>)
    returns (r: Outcome<seq<Decoration>>)
    requires InDocumentOrder(spans)
    modifies engine
    ensures Pass(engine.State(), r) == UpdateSpec(old(engine.State()), engine.algebra, oldState, cursorPos, spans)
  {
    if cursorPos.None? || cursorPos.value == 0 {
      return Returned(oldState);
    }
    var cursor := cursorPos.value;
    var builder := new DecorationBuilder();
    var i := 0;
    ResumesAtStart(engine.State(), engine.algebra, cursor, spans);
    while i < |spans|
      invariant Resumes(old(engine.State()), engine.State(), engine.algebra, cursor, spans, i, builder.added)
      decreases |spans| - i
    {
      var raised := HandleNext(engine, builder, cursor, spans, i, old(engine.State()));
      if raised {
        return Raised;
      }
      i := i + 1;
    }
    ResumesAtEnd(old(engine.State()), engine.State(), engine.algebra, cursor, spans, builder.added);
    return Returned(builder.added);
  }
}
