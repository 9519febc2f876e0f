/**
 * SI-prefix formatting of src/units.ts: the ordered `SI_PREFIXES` table,
 * `formatSI` (string validation, zero and sign handling, first-fit prefix
 * selection) and the lookup that decides whether `multiplyWithPrefix` scales
 * its number. Numbers are reals; the text JavaScript would print for a
 * number is left abstract, so a formatted result is a sign, a real mantissa
 * and a prefix symbol.
 */
module Units {

  import opened Wrappers
  import opened Numerals

  /** One entry of `SI_PREFIXES`: a symbol and the power of ten it stands for. */
  datatype Prefix = Prefix(symbol: string, limit: real)

  /** `SI_PREFIXES`, in the order `for...in` visits its keys (insertion order: none is an integer). */
  const SiPrefixes: seq<Prefix> := [
    Prefix("Q", 1e30), Prefix("R", 1e27), Prefix("Y", 1e24), Prefix("Z", 1e21),
    Prefix("E", 1e18), Prefix("P", 1e15), Prefix("T", 1e12), Prefix("G", 1e9),
    Prefix("M", 1e6), Prefix("k", 1e3), Prefix("", 1.0), Prefix("m", 1e-3),
    Prefix("\U{03BC}", 1e-6), Prefix("u", 1e-6), Prefix("n", 1e-9), Prefix("p", 1e-12),
    Prefix("f", 1e-15), Prefix("a", 1e-18), Prefix("z", 1e-21), Prefix("y", 1e-24),
    Prefix("r", 1e-27), Prefix("q", 1e-30)
  ]

  /** The power of a thousand the entry at index `i` stands for: 10 for `Q` down to -10 for `q`. */
  function Thousands(i: nat): int {
    if i <= 12 then 10 - i else 11 - i
  }

  /** Every entry is `1000^k` for some `k` in -10..10. */
  lemma {:induction false} LimitsArePowersOfThousand()
    ensures forall i :: 0 <= i < |SiPrefixes| ==>
      -10 <= Thousands(i) <= 10 && SiPrefixes[i].limit == Scale(3 * Thousands(i))
  {
    assert Scale(0) == 1.0;
    assert Scale(3) == 1e3 && Scale(6) == 1e6 && Scale(9) == 1e9;
    assert Scale(12) == 1e12 && Scale(15) == 1e15 && Scale(18) == 1e18;
    assert Scale(21) == 1e21 && Scale(24) == 1e24 && Scale(27) == 1e27 && Scale(30) == 1e30;
    assert Scale(-3) == 1e-3 && Scale(-6) == 1e-6 && Scale(-9) == 1e-9;
    assert Scale(-12) == 1e-12 && Scale(-15) == 1e-15 && Scale(-18) == 1e-18;
    assert Scale(-21) == 1e-21 && Scale(-24) == 1e-24 && Scale(-27) == 1e-27 && Scale(-30) == 1e-30;
  }

  /** No symbol is listed twice, so a key lookup is unambiguous. */
  predicate UniqueKeys(ps: seq<Prefix>) {
    forall i, j :: 0 <= i < j < |ps| ==> ps[i].symbol != ps[j].symbol
  }

  predicate Positive(ps: seq<Prefix>) {
    forall i :: 0 <= i < |ps| ==> ps[i].limit > 0.0
  }

  /** Later entries are never larger. */
  predicate Descending(ps: seq<Prefix>) {
    forall i, j :: 0 <= i <= j < |ps| ==> ps[j].limit <= ps[i].limit
  }

  /** At index `j`, the limit is a thousandth of the one before. */
  predicate Thousandth(ps: seq<Prefix>, j: nat) {
    0 < j < |ps| && ps[j - 1].limit == 1000.0 * ps[j].limit
  }

  /** The position of a one-letter symbol in the table, or -1 for a letter it does not list. */
  function SymbolRank(c: char): int {
    if c == 'Q' then 0 else if c == 'R' then 1 else if c == 'Y' then 2 else if c == 'Z' then 3
    else if c == 'E' then 4 else if c == 'P' then 5 else if c == 'T' then 6 else if c == 'G' then 7
    else if c == 'M' then 8 else if c == 'k' then 9 else if c == 'm' then 11
    else if c == '\U{03BC}' then 12 else if c == 'u' then 13 else if c == 'n' then 14
    else if c == 'p' then 15 else if c == 'f' then 16 else if c == 'a' then 17 else if c == 'z' then 18
    else if c == 'y' then 19 else if c == 'r' then 20 else if c == 'q' then 21
    else -1
  }

  /** Every symbol but the empty one at index 10 is one letter, whose rank is its index. */
  lemma SymbolRanks()
    ensures forall j :: 0 <= j < |SiPrefixes| && j != 10 ==>
      |SiPrefixes[j].symbol| == 1 && SymbolRank(SiPrefixes[j].symbol[0]) == j
    ensures SiPrefixes[10].symbol == ""
  {
  }

  /** No symbol is listed twice. */
  lemma {:induction false} KeysUnique()
    ensures UniqueKeys(SiPrefixes)
  {
    SymbolRanks();
  }

  /**
   * The shape of the table: limits are positive; `u` repeats the limit of
   * `μ`; `Q` comes first and `q`, at `1e-30`, last.
   */
  lemma TableShape()
    ensures |SiPrefixes| == 22 && Positive(SiPrefixes)
    ensures SiPrefixes[12] == Prefix("\U{03BC}", 1e-6) && SiPrefixes[13] == Prefix("u", 1e-6)
    ensures SiPrefixes[0].symbol == "Q" && SiPrefixes[21].limit == 1e-30
  {
  }

  /** Each limit is a thousandth of the one before, except at `u`. */
  lemma TableSteps()
    ensures forall j :: 0 < j < |SiPrefixes| && j != 13 ==> Thousandth(SiPrefixes, j)
  {
  }

  /** Step by step, the limits never grow along the table. */
  lemma {:induction false} LimitsDescend()
    ensures Descending(SiPrefixes)
  {
    TableShape();
    TableSteps();
    forall i, j | 0 <= i <= j < |SiPrefixes| ensures SiPrefixes[j].limit <= SiPrefixes[i].limit {
      StepsDescend(SiPrefixes, i, j);
    }
  }

  /** A table whose neighbours never grow never grows. */
  lemma {:induction false} StepsDescend(ps: seq<Prefix>, i: nat, j: nat)
    requires forall k :: 0 < k < |ps| ==> ps[k].limit <= ps[k - 1].limit
    requires i <= j < |ps|
    ensures ps[j].limit <= ps[i].limit
    decreases j - i
  {
    if i < j {
      StepsDescend(ps, i + 1, j);
    }
  }

  // ---------------------------------------------------------------
  // formatSI
  // ---------------------------------------------------------------

  /** The argument of `formatSI`: a number or a string. */
  datatype SiArgument = NumberValue(x: real) | StringValue(s: string)

  /** What `formatSI` returns, before numbers are turned into text. */
  datatype SiText =
    | Verbatim(text: string)                                  // a string the validator rejects, as given
    | ZeroText                                                 // `"0"`
    | Prefixed(negative: bool, mantissa: real, symbol: string)  // `sign + value / limit + prefix`
    | Unprefixed(negative: bool, magnitude: real)              // `sign + value.toString()`

  /** The index of the first entry of `ps` from `i` on whose limit `m` reaches. */
  function FirstFit(m: real, ps: seq<Prefix>, i: nat): (r: Option<nat>)
    requires i <= |ps|
    ensures r.Some? ==> i <= r.value < |ps|
    decreases |ps| - i
  {
    if i == |ps| then None
    else if m >= ps[i].limit then Some(i)
    else FirstFit(m, ps, i + 1)
  }

  /** Entry `j` is the first whose limit `m` reaches. */
  predicate FirstFitAt(m: real, ps: seq<Prefix>, j: nat) {
    j < |ps| && m >= ps[j].limit && forall k :: 0 <= k < j ==> m < ps[k].limit
  }

  /** `FirstFit` finds the first entry from `i` on that `m` reaches, and reports none only when there is none. */
  lemma {:induction false} FirstFitIsFirst(m: real, ps: seq<Prefix>, i: nat)
    requires i <= |ps|
    ensures FirstFit(m, ps, i).Some? ==>
      var j := FirstFit(m, ps, i).value;
      && i <= j < |ps| && m >= ps[j].limit
      && forall k :: i <= k < j ==> m < ps[k].limit
    ensures FirstFit(m, ps, i).None? <==> forall k :: i <= k < |ps| ==> m < ps[k].limit
    decreases |ps| - i
  {
    if i < |ps| && m < ps[i].limit {
      FirstFitIsFirst(m, ps, i + 1);
    }
  }

  function Abs(x: real): real {
    if x < 0.0 then -x else x
  }

  /** `formatSI` on a number, over the prefix table `ps`. */
  function FormatWith(x: real, ps: seq<Prefix>): SiText
    requires Positive(ps)
  {
    if x == 0.0 then ZeroText
    else
      var m := Abs(x);
      match FirstFit(m, ps, 0)
      case Some(j) => Prefixed(x < 0.0, m / ps[j].limit, ps[j].symbol)
      case None => Unprefixed(x < 0.0, m)
  }

  /** `formatSI` on a number. */
  function FormatNumber(x: real): SiText {
    TableShape();
    FormatWith(x, SiPrefixes)
  }

  /** `formatSI`: a string is validated and converted with `Number` first. */
  function FormatSpec(v: SiArgument): SiText {
    match v
    case NumberValue(x) => FormatNumber(x)
    case StringValue(s) =>
      match Parse(s)
      case None => Verbatim(s)
      case Some(n) => ParseSound(s); FormatNumber(Value(n))
  }

  /** `formatSI`, step by step: the validator, the zero test, the sign, then the first-fit loop. */
  method FormatSI(value: SiArgument) returns (r: SiText)
    ensures r == FormatSpec(value)
  {
    var x: real;
    match value {
      case NumberValue(v) =>
        x := v;
      case StringValue(s) =>
        var numeral := Parse(s);
        if numeral.None? {
          return Verbatim(s);
        }
        ParseSound(s);
        x := Value(numeral.value);
    }
    if x == 0.0 {
      return ZeroText;
    }
    var negative := x < 0.0;
    x := Abs(x);
    TableShape();
    var fit := FindPrefix(x, SiPrefixes);
    match fit {
      case Some(i) =>
        return Prefixed(negative, x / SiPrefixes[i].limit, SiPrefixes[i].symbol);
      case None =>
        return Unprefixed(negative, x);
    }
  }

  /** The `for...in` loop of `formatSI`: the first entry, in table order, whose limit `m` reaches. */
  method FindPrefix(m: real, ps: seq<Prefix>) returns (fit: Option<nat>)
    ensures fit == FirstFit(m, ps, 0)
  {
    for i := 0 to |ps|
      invariant FirstFit(m, ps, 0) == FirstFit(m, ps, i)
    {
      if m >= ps[i].limit {
        return Some(i);
      }
    }
    return None;
  }

  // ---------------------------------------------------------------
  // What formatSI promises
  // ---------------------------------------------------------------

  /** A string the validator rejects comes back unchanged, and only such a string. */
  lemma PassThrough(s: string)
    ensures FormatSpec(StringValue(s)) == Verbatim(s) <==> !Matches(s)
    ensures FormatSpec(StringValue(s)).Verbatim? ==> FormatSpec(StringValue(s)).text == s
  {
  }

  /** Zero, and only zero, formats as `"0"`. */
  lemma ZeroIff(x: real, ps: seq<Prefix>)
    requires Positive(ps)
    ensures FormatWith(x, ps) == ZeroText <==> x == 0.0
  {
  }

  /** A numeric string formats as `"0"` exactly when its mantissa digits are all `0`, whatever its sign and exponent. */
  lemma {:induction false} ZeroStringIff(s: string, n: Numeral)
    requires Parse(s) == Some(n)
    ensures FormatSpec(StringValue(s)) == ZeroText
      <==> forall i :: 0 <= i < |n.whole + n.fraction| ==> (n.whole + n.fraction)[i] == '0'
  {
    ParseSound(s);
    var x := Value(n);
    assert FormatSpec(StringValue(s)) == FormatNumber(x);
    TableShape();
    ZeroIff(x, SiPrefixes);
    ValueZero(n);
  }

  /** `"-0"` is accepted and formats as `"0"`. */
  lemma {:induction false} NegativeZeroString(s: string)
    requires s == "-0"
    ensures FormatSpec(StringValue(s)) == ZeroText
  {
    var n := Numeral(Minus, "0", false, "", None);
    assert Text(n) == s;
    ParseText(n);
    ZeroStringIff(s, n);
  }

  /** `"0.0"` is accepted and formats as `"0"`. */
  lemma {:induction false} PointZeroString(s: string)
    requires s == "0.0"
    ensures FormatSpec(StringValue(s)) == ZeroText
  {
    var n := Numeral(Unsigned, "0", true, "0", None);
    assert Text(n) == s;
    ParseText(n);
    ZeroStringIff(s, n);
  }

  /** `"0e5"` is accepted and formats as `"0"`. */
  lemma {:induction false} ScaledZeroString(s: string)
    requires s == "0e5"
    ensures FormatSpec(StringValue(s)) == ZeroText
  {
    var n := Numeral(Unsigned, "0", false, "", Some(Exponent('e', Unsigned, "5")));
    assert Text(n) == s;
    ParseText(n);
    ZeroStringIff(s, n);
  }

  /** A negative number formats as its absolute value with a minus sign; a positive one gets no sign. */
  lemma SignMirror(x: real, ps: seq<Prefix>)
    requires Positive(ps) && x > 0.0
    ensures FormatWith(x, ps).Prefixed? || FormatWith(x, ps).Unprefixed?
    ensures !FormatWith(x, ps).negative
    ensures FormatWith(-x, ps) == FormatWith(x, ps).(negative := true)
  {
  }

  /**
   * The chosen prefix is the first in table order whose limit `|x|` reaches,
   * and the mantissa times that limit gives back `|x|`.
   */
  lemma {:induction false} PrefixIsFirstFit(x: real, ps: seq<Prefix>)
    requires Positive(ps)
    requires FormatWith(x, ps).Prefixed?
    ensures exists j: nat :: (
      && FirstFitAt(Abs(x), ps, j)
      && FormatWith(x, ps).symbol == ps[j].symbol
      && FormatWith(x, ps).mantissa * ps[j].limit == Abs(x))
    ensures FormatWith(x, ps).negative <==> x < 0.0
  {
    FirstFitIsFirst(Abs(x), ps, 0);
    var j := FirstFit(Abs(x), ps, 0).value;
    assert FirstFitAt(Abs(x), ps, j);
    assert ps[j].limit > 0.0;
  }

  /** The first fit leaves a quotient of at least 1, and below 1000 where its limit is a thousandth of the one before. */
  lemma FitQuotient(m: real, ps: seq<Prefix>, j: nat)
    requires FirstFitAt(m, ps, j) && ps[j].limit > 0.0
    ensures m / ps[j].limit >= 1.0
    ensures Thousandth(ps, j) ==> m / ps[j].limit < 1000.0
    ensures j > 0 ==> ps[j - 1].limit != ps[j].limit
  {
    QuotientAtLeast(m, ps[j].limit, 1.0);
    if j > 0 {
      assert m < ps[j - 1].limit;
      if Thousandth(ps, j) {
        QuotientBelow(m, ps[j].limit, 1000.0);
      }
    }
  }

  /** `a >= k * l` with `l > 0` gives `a / l >= k`. */
  lemma QuotientAtLeast(a: real, l: real, k: real)
    requires l > 0.0 && a >= k * l
    ensures a / l >= k
  {
    assert (a / l - k) * l == a - k * l;
  }

  /** `a < k * l` with `l > 0` gives `a / l < k`. */
  lemma QuotientBelow(a: real, l: real, k: real)
    requires l > 0.0 && a < k * l
    ensures a / l < k
  {
    assert (k - a / l) * l == k * l - a;
  }

  /** The mantissa is at least 1, and below 1000 unless the prefix is `Q`. */
  lemma {:induction false} MantissaRange(x: real)
    requires FormatNumber(x).Prefixed?
    ensures FormatNumber(x).mantissa >= 1.0
    ensures FormatNumber(x).symbol != "Q" ==> FormatNumber(x).mantissa < 1000.0
  {
    var m := Abs(x);
    TableShape();
    TableSteps();
    FirstFitIsFirst(m, SiPrefixes, 0);
    var j := FirstFit(m, SiPrefixes, 0).value;
    assert FirstFitAt(m, SiPrefixes, j);
    FitQuotient(m, SiPrefixes, j);
  }

  /** `u` is never chosen: `μ`, with the same limit, comes first. */
  lemma {:induction false} MicroBeforeU(x: real)
    ensures FormatNumber(x).Prefixed? ==> FormatNumber(x).symbol != "u"
  {
    if FormatNumber(x).Prefixed? {
      var m := Abs(x);
      TableShape();
      KeysUnique();
      FirstFitIsFirst(m, SiPrefixes, 0);
      var j := FirstFit(m, SiPrefixes, 0).value;
      assert FirstFitAt(m, SiPrefixes, j);
      FitQuotient(m, SiPrefixes, j);
    }
  }

  /** Over a descending table, nothing fits exactly when the value is below the last limit. */
  lemma {:induction false} NothingFits(m: real, ps: seq<Prefix>)
    requires Descending(ps) && ps != []
    ensures FirstFit(m, ps, 0).None? <==> m < ps[|ps| - 1].limit
  {
    FirstFitIsFirst(m, ps, 0);
  }

  /** A non-zero number gets no prefix exactly when its absolute value is below `1e-30`. */
  lemma {:induction false} TooSmallIff(x: real)
    requires x != 0.0
    ensures FormatNumber(x).Unprefixed? <==> Abs(x) < 1e-30
    ensures FormatNumber(x).Unprefixed? ==> FormatNumber(x) == Unprefixed(x < 0.0, Abs(x))
  {
    TableShape();
    LimitsDescend();
    NothingFits(Abs(x), SiPrefixes);
  }

  // ---------------------------------------------------------------
  // multiplyWithPrefix
  // ---------------------------------------------------------------

  /** `table[key]`: the limit of the first entry from `i` on with that symbol, if any. */
  function Lookup(key: string, ps: seq<Prefix>, i: nat): Option<real>
    requires i <= |ps|
    decreases |ps| - i
  {
    if i == |ps| then None
    else if ps[i].symbol == key then Some(ps[i].limit)
    else Lookup(key, ps, i + 1)
  }

  /** With unique keys, the lookup finds the entry with that symbol, and fails only when there is none. */
  lemma {:induction false} LookupFinds(key: string, ps: seq<Prefix>, i: nat)
    requires UniqueKeys(ps) && i <= |ps|
    ensures Lookup(key, ps, i).None? <==> forall j :: i <= j < |ps| ==> ps[j].symbol != key
    ensures forall j :: i <= j < |ps| && ps[j].symbol == key ==> Lookup(key, ps, i) == Some(ps[j].limit)
    decreases |ps| - i
  {
    if i < |ps| {
      LookupFinds(key, ps, i + 1);
    }
  }

  /** What `multiplyWithPrefix` returns: its argument, or `parseFloat(number)` times a factor. */
  datatype Rewrite = Unchanged(text: string) | Scaled(number: string, factor: real)

  /** `multiplyWithPrefix(numberStr, prefix)`: scale only for a non-empty prefix the table holds. */
  function MultiplyWithPrefix(numberStr: string, prefix: Option<string>): Rewrite {
    if prefix.Some? && prefix.value != "" && Lookup(prefix.value, SiPrefixes, 0).Some? then
      Scaled(numberStr, Lookup(prefix.value, SiPrefixes, 0).value)
    else Unchanged(numberStr)
  }

  /**
   * The number string is left alone exactly when the prefix is absent, empty
   * or not a key; otherwise it is scaled by that key's entry.
   */
  lemma {:induction false} MultiplyDecision(numberStr: string, prefix: Option<string>)
    ensures MultiplyWithPrefix(numberStr, prefix) == Unchanged(numberStr)
      <==> prefix.None? || prefix.value == "" || forall j :: 0 <= j < |SiPrefixes| ==> SiPrefixes[j].symbol != prefix.value
    ensures forall j :: 0 <= j < |SiPrefixes| && prefix == Some(SiPrefixes[j].symbol) && prefix != Some("") ==>
      MultiplyWithPrefix(numberStr, prefix) == Scaled(numberStr, SiPrefixes[j].limit)
  {
    if prefix.Some? {
      KeysUnique();
      LookupFinds(prefix.value, SiPrefixes, 0);
    }
  }

  /** `h`, `d` and `c`, which the prefix pattern accepts, have no entry and leave the number alone. */
  lemma {:induction false} UnlistedLetters(numberStr: string)
    ensures MultiplyWithPrefix(numberStr, Some("h")) == Unchanged(numberStr)
    ensures MultiplyWithPrefix(numberStr, Some("d")) == Unchanged(numberStr)
    ensures MultiplyWithPrefix(numberStr, Some("c")) == Unchanged(numberStr)
  {
    SymbolRanks();
    assert SymbolRank('h') == -1 && SymbolRank('d') == -1 && SymbolRank('c') == -1;
    MultiplyDecision(numberStr, Some("h"));
    MultiplyDecision(numberStr, Some("d"));
    MultiplyDecision(numberStr, Some("c"));
  }

  /** Every key is at most one letter long, so a two-letter prefix such as `da` never scales. */
  lemma {:induction false} TwoLetterPrefixes(numberStr: string, p: string)
    requires |p| == 2
    ensures MultiplyWithPrefix(numberStr, Some(p)) == Unchanged(numberStr)
  {
    SymbolRanks();
    MultiplyDecision(numberStr, Some(p));
  }

  /** `μ` and `u` both stand for a millionth. */
  lemma {:induction false} MicroSymbols(numberStr: string)
    ensures MultiplyWithPrefix(numberStr, Some("\U{03BC}")) == Scaled(numberStr, 1e-6)
    ensures MultiplyWithPrefix(numberStr, Some("u")) == Scaled(numberStr, 1e-6)
  {
    TableShape();
    MultiplyDecision(numberStr, Some("\U{03BC}"));
    MultiplyDecision(numberStr, Some("u"));
  }
}
