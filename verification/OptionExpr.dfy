/**
 * Integer option expressions (src/cc_option.c): the shunting-yard conversion
 * to reverse Polish notation, the evaluator of that notation, and what the two
 * together compute.
 */
module OptionExpr {
  import opened Bytes
  import opened Arith
  import opened Digits

  predicate IsOp(c: char) { c == '+' || c == '-' || c == '*' || c == '/' }

  /** Strict: equal precedence does not pop, so equal operators group to the right. */
  predicate Binds(o2: char, o1: char) { (o2 == '*' || o2 == '/') && (o1 == '+' || o1 == '-') }

  // ------------------------------------------------------------------
  // The converter as a function of the characters read
  // ------------------------------------------------------------------

  datatype Conv = Conv(out: string, stack: string) | Mismatch | BadChar

  function Top(stack: string): char
    requires stack != ""
  {
    stack[|stack| - 1]
  }

  function Pop(stack: string): string
    requires stack != ""
  {
    stack[..|stack| - 1]
  }

  /**
   * Pops the operators that bind tighter than `op`. The source writes nothing between them and what follows;
   * `spaced` is the same with a blank behind each.
   */
  function PopTighter(out: string, stack: string, op: char, spaced: bool := false): (string, string)
    decreases |stack|
  {
    if stack != "" && Top(stack) != '(' && Binds(Top(stack), op)
    then PopTighter(out + if spaced then [Top(stack), ' '] else [Top(stack)], Pop(stack), op, spaced)
    else (out, stack)
  }

  function PopGroup(out: string, stack: string): (string, string)
    decreases |stack|
  {
    if stack != "" && Top(stack) != '(' then PopGroup(out + " " + [Top(stack)], Pop(stack))
    else (out, stack)
  }

  function Step(st: Conv, c: char, spaced: bool := false): Conv
    requires st.Conv?
  {
    if IsDigit(c) then Conv(st.out + [c], st.stack)
    else if IsOp(c) then
      var (out, stack) := PopTighter(st.out + " ", st.stack, c, spaced);
      Conv(out, stack + [c])
    else if c == '(' then Conv(st.out, st.stack + [c])
    else if c == ')' then
      var (out, stack) := PopGroup(st.out, st.stack);
      if stack == "" then Mismatch else Conv(out, Pop(stack))
    else if c == ' ' || c == '\t' then st
    else BadChar
  }

  function Run(st: Conv, s: string, spaced: bool := false): Conv
    decreases |s|
  {
    if s == "" || !st.Conv? then st else Run(Step(st, s[0], spaced), s[1..], spaced)
  }

  function Drain(st: Conv): Conv
    requires st.Conv?
    decreases |st.stack|
  {
    if st.stack == "" then st
    else if Top(st.stack) == '(' then Mismatch
    else Drain(Conv(st.out + " " + [Top(st.stack)], Pop(st.stack)))
  }

  function Convert(s: string, spaced: bool := false): Conv {
    var st := Run(Conv("", ""), s, spaced);
    if st.Conv? then Drain(st) else st
  }

  // ------------------------------------------------------------------
  // The evaluator
  // ------------------------------------------------------------------

  /** strtok with a blank: maximal runs of other characters. */
  function Tokens(s: string, cur: string := ""): seq<string>
    decreases |s|
  {
    var done := if cur == "" then [] else [cur];
    if s == "" then done
    else if s[0] == ' ' then done + Tokens(s[1..])
    else Tokens(s[1..], cur + [s[0]])
  }

  function LeadingDigits(t: string): string {
    if t == "" || !IsDigit(t[0]) then "" else [t[0]] + LeadingDigits(t[1..])
  }

  const LLONG_MAX: nat := 0x7FFF_FFFF_FFFF_FFFF

  /** atoll; the C library clamps what does not fit. */
  function Atoll(t: string): nat { Min(DecimalValue(LeadingDigits(t)), LLONG_MAX) }

  function Quotient(a: nat, b: nat): nat
    requires b > 0
  {
    DivNat(a, b);
    a / b
  }

  /** One operation over the non-negative 64-bit range, or the reason it has no value there. */
  function Exact(op: char, a: nat, b: nat): Option<nat> {
    match op
    case '+' => if a + b < TWO64 then Some(a + b) else None
    case '-' => if a >= b then Some(a - b) else None
    case '*' => if a * b < TWO64 then Some(a * b) else None
    case '/' => if b == 0 then None else Some(Quotient(a, b))
    case _ => Some(0)
  }

  /** Each operation by its inverse: when it has a value, and which. */
  lemma ExactMeans(op: char, a: nat, b: nat)
    ensures var r := Exact(op, a, b);
            && (op == '+' ==> (r.Some? <==> a + b <= 0xFFFF_FFFF_FFFF_FFFF) && (r.Some? ==> r.value - b == a))
            && (op == '-' ==> (r.Some? <==> b <= a) && (r.Some? ==> r.value + b == a))
            && (op == '*' ==> (r.Some? <==> a * b <= 0xFFFF_FFFF_FFFF_FFFF) && (r.Some? && b > 0 ==> r.value / b == a && r.value % b == 0)
                              && (b == 0 ==> r == Some(0)))
            && (op == '/' ==> (r.Some? <==> b > 0) && (r.Some? ==> r.value * b <= a < (r.value + 1) * b))
            && (!IsOp(op) ==> r == Some(0))
  {
    if op == '*' && b > 0 { MulNat(a, b); DivModUnique(a * b, b, a, 0); }
    if op == '/' && b > 0 { DivFacts(a, b); }
  }

  function EvalTokens(ts: seq<string>, stack: seq<nat>): Option<seq<nat>>
    decreases |ts|
  {
    if ts == [] then Some(stack)
    else
      var t := ts[0];
      if t != "" && IsDigit(t[0]) then EvalTokens(ts[1..], stack + [Atoll(t)])
      else if |stack| < 2 || t == "" then None
      else
        var v := Exact(t[0], stack[|stack| - 2], stack[|stack| - 1]);
        if v.None? then None else EvalTokens(ts[1..], stack[..|stack| - 2] + [v.value])
  }

  function EvalRpn(rpn: string): Option<nat> {
    var r := EvalTokens(Tokens(rpn), []);
    if r.Some? && |r.value| == 1 then Some(r.value[0]) else None
  }

  /** _option_eval_int_expr: None is CC_ERROR. */
  function EvalIntExpr(s: string): Option<nat> {
    var c := Convert(s);
    if c.Conv? then EvalRpn(c.out) else None
  }

  // ------------------------------------------------------------------
  // Expressions and their meaning
  // ------------------------------------------------------------------

  datatype Factor = Lit(digits: string) | Paren(e: Expr)
  datatype Expr = One(f: Factor) | More(f: Factor, op: char, rest: Expr)

  predicate WellFormed(e: Expr) {
    && WellFormedF(e.f)
    && (e.More? ==> IsOp(e.op) && WellFormed(e.rest))
  }

  predicate WellFormedF(f: Factor) {
    match f
    case Lit(ds) => ds != "" && AllDigits(ds)
    case Paren(e) => WellFormed(e)
  }

  function Show(e: Expr): string {
    ShowF(e.f) + if e.More? then [e.op] + Show(e.rest) else ""
  }

  function ShowF(f: Factor): string {
    match f
    case Lit(ds) => ds
    case Paren(e) => "(" + Show(e) + ")"
  }

  /** The exact value of the right-nested reading; None if any intermediate leaves the unsigned range. */
  function Eval(e: Expr): Option<nat> {
    var a := EvalF(e.f);
    if e.One? then a
    else
      var b := Eval(e.rest);
      if a.None? || b.None? then None else Exact(e.op, a.value, b.value)
  }

  function EvalF(f: Factor): Option<nat> {
    match f
    case Lit(ds) => Some(DecimalValue(ds))
    case Paren(e) => Eval(e)
  }

  /** Every literal fits the signed parse. */
  predicate Small(e: Expr) { SmallF(e.f) && (e.More? ==> Small(e.rest)) }

  predicate SmallF(f: Factor) {
    match f
    case Lit(ds) => DecimalValue(ds) <= LLONG_MAX
    case Paren(e) => Small(e)
  }

  /** Some + or - comes right after a * or / of the same group, `top` being the operator before `e`. */
  predicate Pops(e: Expr, top: Option<char>) {
    || PopsF(e.f)
    || (e.More? && ((top.Some? && Binds(top.value, e.op)) || Pops(e.rest, Some(e.op))))
  }

  predicate PopsF(f: Factor) { f.Paren? && Pops(f.e, None) }

  predicate Loose(op: char) { op == '+' || op == '-' }

  datatype Tree = Num(digits: string) | Node(op: char, left: Tree, right: Tree)

  function Postfix(t: Tree): seq<string> {
    match t
    case Num(ds) => [ds]
    case Node(op, l, r) => Postfix(l) + Postfix(r) + [[op]]
  }

  function Value(t: Tree): Option<nat> {
    match t
    case Num(ds) => Some(DecimalValue(ds))
    case Node(op, l, r) =>
      var a, b := Value(l), Value(r);
      if a.None? || b.None? then None else Exact(op, a.value, b.value)
  }

  function Size(e: Expr): nat { SizeF(e.f) + if e.One? then 0 else 1 + Size(e.rest) }
  function SizeF(f: Factor): nat { if f.Lit? then 1 else 1 + Size(f.e) }

  /**
   * The documented reading: * and / bind tighter than + and -, and operators of equal precedence, which do
   * not pop each other, group to the right. A group is its leading term and, behind a + or -, the rest.
   */
  function Reading(e: Expr): Tree
    decreases Size(e), 2
  {
    var r := Rest(e);
    if r.None? then TermTree(e) else Node(r.value.0, TermTree(e), Reading(r.value.1))
  }

  function TermTree(e: Expr): Tree
    decreases Size(e), 1
  {
    if e.One? || Loose(e.op) then TreeF(e.f) else Node(e.op, TreeF(e.f), TermTree(e.rest))
  }

  function TreeF(f: Factor): Tree
    decreases SizeF(f), 0
  {
    match f
    case Lit(ds) => Num(ds)
    case Paren(e) => Reading(e)
  }

  /** What follows the leading term. */
  function Rest(e: Expr): (r: Option<(char, Expr)>)
    ensures r.Some? ==> Size(r.value.1) < Size(e)
  {
    if e.One? then None else if Loose(e.op) then Some((e.op, e.rest)) else Rest(e.rest)
  }

  /** The notation and value of the reading that takes operators as they come; it is the documented one where nothing pops. */
  function Rpn(e: Expr): seq<string> {
    if e.One? then RpnF(e.f) else RpnF(e.f) + Rpn(e.rest) + [[e.op]]
  }

  function RpnF(f: Factor): seq<string> {
    match f
    case Lit(ds) => [ds]
    case Paren(e) => Rpn(e)
  }

  // ------------------------------------------------------------------
  // Converting a well-formed expression that pops nothing early
  // ------------------------------------------------------------------

  function Ops(e: Expr): string { if e.One? then "" else [e.op] + Ops(e.rest) }

  /** What `e` writes before its own operators are popped. */
  function Body(e: Expr): string { BodyF(e.f) + if e.One? then "" else " " + Body(e.rest) }

  function BodyF(f: Factor): string {
    match f
    case Lit(ds) => ds
    case Paren(e) => Body(e) + DrainText(Ops(e))
  }

  function DrainText(ops: string): string {
    if ops == "" then "" else " " + [Top(ops)] + DrainText(Pop(ops))
  }

  function GroupTop(stack: string): Option<char> {
    if stack == "" || Top(stack) == '(' then None else Some(Top(stack))
  }

  lemma {:induction false} RunConcat(st: Conv, a: string, b: string, spaced: bool := false)
    ensures Run(st, a + b, spaced) == Run(Run(st, a, spaced), b, spaced)
    decreases |a|
  {
    if a == "" {
      assert a + b == b;
    } else if st.Conv? {
      assert (a + b)[1..] == a[1..] + b;
      RunConcat(Step(st, a[0], spaced), a[1..], b, spaced);
    }
  }

  lemma {:induction false} RunDigits(out: string, stack: string, ds: string, spaced: bool := false)
    requires AllDigits(ds)
    ensures Run(Conv(out, stack), ds, spaced) == Conv(out + ds, stack)
    decreases |ds|
  {
    if ds == "" {
      assert out + ds == out;
    } else {
      RunDigits(out + [ds[0]], stack, ds[1..], spaced);
      assert out + [ds[0]] + ds[1..] == out + ds;
    }
  }

  lemma RunOne(st: Conv, c: char, spaced: bool := false)
    requires st.Conv?
    ensures Run(st, [c], spaced) == Step(st, c, spaced)
  {
    assert Run(Step(st, c, spaced), [c][1..], spaced) == Step(st, c, spaced);
  }

  lemma {:induction false} OpsAreOps(e: Expr)
    requires WellFormed(e)
    ensures forall c <- Ops(e) :: IsOp(c)
    decreases e
  {
    if e.More? { OpsAreOps(e.rest); }
  }

  /** Closing a group writes its pending operators, last pushed first. */
  lemma {:induction false} PopGroupOps(out: string, base: string, ops: string)
    requires forall c <- ops :: IsOp(c)
    requires GroupTop(base).None?
    ensures PopGroup(out, base + ops) == (out + DrainText(ops), base)
    decreases |ops|
  {
    if ops == "" {
      assert base + ops == base && out + DrainText(ops) == out;
    } else {
      assert Top(base + ops) == Top(ops) && Pop(base + ops) == base + Pop(ops);
      assert Top(ops) in ops;
      PopGroupOps(out + " " + [Top(ops)], base, Pop(ops));
      assert out + " " + [Top(ops)] + DrainText(Pop(ops)) == out + DrainText(ops);
    }
  }

  lemma RunOp(out: string, stack: string, op: char, text: string)
    requires IsOp(op) && (GroupTop(stack).Some? ==> !Binds(GroupTop(stack).value, op))
    ensures Run(Conv(out, stack), [op] + text) == Run(Conv(out + " ", stack + [op]), text)
    ensures GroupTop(stack + [op]) == Some(op)
  {
    hide Run;
    RunConcat(Conv(out, stack), [op], text);
    RunOne(Conv(out, stack), op);
  }

  lemma {:induction false} RunExpr(e: Expr, out: string, stack: string)
    requires WellFormed(e) && !Pops(e, GroupTop(stack))
    ensures Run(Conv(out, stack), Show(e)) == Conv(out + Body(e), stack + Ops(e))
    decreases e, 1
  {
    hide Run, Step, GroupTop;
    RunFactor(e.f, out, stack);
    var mid := Conv(out + BodyF(e.f), stack);
    if e.One? {
      assert Show(e) == ShowF(e.f) && Body(e) == BodyF(e.f) && stack + Ops(e) == stack;
    } else {
      var rest := [e.op] + Show(e.rest);
      assert Show(e) == ShowF(e.f) + rest;
      RunConcat(Conv(out, stack), ShowF(e.f), rest);
      RunOp(mid.out, stack, e.op, Show(e.rest));
      RunExpr(e.rest, mid.out + " ", stack + [e.op]);
      assert mid.out + " " + Body(e.rest) == out + Body(e);
      assert stack + [e.op] + Ops(e.rest) == stack + Ops(e);
    }
  }

  lemma {:induction false} RunFactor(f: Factor, out: string, stack: string)
    requires WellFormedF(f) && !PopsF(f)
    ensures Run(Conv(out, stack), ShowF(f)) == Conv(out + BodyF(f), stack)
    decreases f, 0
  {
    match f
    case Lit(ds) => RunDigits(out, stack, ds);
    case Paren(e) =>
      RunExpr(e, out, stack + "(");
      OpsAreOps(e);
      RunParen(Show(e), out, stack, out + Body(e), Ops(e));
      assert out + Body(e) + DrainText(Ops(e)) == out + BodyF(f);
  }

  /** A group between parentheses: its operators are written when it closes. */
  lemma RunParen(text: string, out: string, stack: string, out': string, ops: string, spaced: bool := false)
    requires forall c <- ops :: IsOp(c)
    requires Run(Conv(out, stack + "("), text, spaced) == Conv(out', stack + "(" + ops)
    ensures Run(Conv(out, stack), "(" + text + ")", spaced) == Conv(out' + DrainText(ops), stack)
  {
    assert "(" + text + ")" == "(" + (text + ")");
    RunConcat(Conv(out, stack), "(", text + ")", spaced);
    RunOne(Conv(out, stack), '(', spaced);
    RunConcat(Conv(out, stack + "("), text, ")", spaced);
    RunOne(Conv(out', stack + "(" + ops), ')', spaced);
    PopGroupOps(out', stack + "(", ops);
    assert Pop(stack + "(") == stack;
  }

  lemma {:induction false} DrainOps(out: string, ops: string)
    requires forall c <- ops :: IsOp(c)
    ensures Drain(Conv(out, ops)) == Conv(out + DrainText(ops), "")
    decreases |ops|
  {
    if ops == "" {
      assert out + DrainText(ops) == out;
    } else {
      assert Top(ops) in ops;
      DrainOps(out + " " + [Top(ops)], Pop(ops));
      assert out + " " + [Top(ops)] + DrainText(Pop(ops)) == out + DrainText(ops);
    }
  }

  lemma ConvertExpr(e: Expr)
    requires WellFormed(e) && !Pops(e, None)
    ensures Convert(Show(e)) == Conv(Body(e) + DrainText(Ops(e)), "")
  {
    RunExpr(e, "", "");
    assert "" + Body(e) == Body(e) && "" + Ops(e) == Ops(e);
    OpsAreOps(e);
    DrainOps(Body(e), Ops(e));
  }

  // ------------------------------------------------------------------
  // Tokens of what was written
  // ------------------------------------------------------------------

  lemma {:induction false} TokensSplit(a: string, b: string, cur: string)
    ensures Tokens(a + " " + b, cur) == Tokens(a, cur) + Tokens(b)
    decreases |a|
  {
    var s := a + " " + b;
    if a == "" {
      assert s[0] == ' ' && s[1..] == b;
    } else {
      assert s[0] == a[0] && s[1..] == a[1..] + " " + b;
      if a[0] == ' ' { TokensSplit(a[1..], b, ""); } else { TokensSplit(a[1..], b, cur + [a[0]]); }
    }
  }

  lemma {:induction false} TokensWord(w: string, cur: string)
    requires cur + w != "" && forall c <- w :: c != ' '
    ensures Tokens(w, cur) == [cur + w]
    decreases |w|
  {
    if w == "" {
      assert cur + w == cur;
    } else {
      assert w[0] in w && forall c <- w[1..] :: c in w;
      TokensWord(w[1..], cur + [w[0]]);
      assert cur + [w[0]] + w[1..] == cur + w;
    }
  }

  lemma {:induction false} DrainFront(op: char, ops: string)
    ensures DrainText([op] + ops) == DrainText(ops) + " " + [op]
    decreases |ops|
  {
    if ops == "" {
      assert [op] + ops == [op] && Pop([op]) == "";
      assert DrainText([op]) == " " + [op] + "";
    } else {
      assert Top([op] + ops) == Top(ops) && Pop([op] + ops) == [op] + Pop(ops);
      DrainFront(op, Pop(ops));
    }
  }

  lemma {:induction false} TokensOfExpr(e: Expr)
    requires WellFormed(e)
    ensures Tokens(Body(e) + DrainText(Ops(e))) == Rpn(e)
    decreases e, 1
  {
    TokensOfFactor(e.f);
    if e.One? {
      assert Body(e) + DrainText(Ops(e)) == BodyF(e.f);
    } else {
      var inner := Body(e.rest) + DrainText(Ops(e.rest));
      DrainFront(e.op, Ops(e.rest));
      assert Body(e) + DrainText(Ops(e)) == BodyF(e.f) + " " + (inner + " " + [e.op]);
      TokensSplit(BodyF(e.f), inner + " " + [e.op], "");
      TokensSplit(inner, [e.op], "");
      TokensOfExpr(e.rest);
      TokensWord([e.op], "");
      assert "" + [e.op] == [e.op];
    }
  }

  lemma {:induction false} TokensOfFactor(f: Factor)
    requires WellFormedF(f)
    ensures Tokens(BodyF(f)) == RpnF(f)
    decreases f, 0
  {
    match f
    case Lit(ds) =>
      TokensWord(ds, "");
      assert "" + ds == ds;
    case Paren(e) => TokensOfExpr(e);
  }

  // ------------------------------------------------------------------
  // Evaluating them
  // ------------------------------------------------------------------

  lemma {:induction false} EvalConcat(a: seq<string>, b: seq<string>, stack: seq<nat>)
    ensures EvalTokens(a + b, stack)
         == match EvalTokens(a, stack) case None => None case Some(st) => EvalTokens(b, st)
    decreases |a|
  {
    if a == [] {
      assert a + b == b;
    } else {
      assert (a + b)[0] == a[0] && (a + b)[1..] == a[1..] + b;
      var t := a[0];
      if t != "" && IsDigit(t[0]) {
        EvalConcat(a[1..], b, stack + [Atoll(t)]);
      } else if |stack| >= 2 && t != "" {
        var v := Exact(t[0], stack[|stack| - 2], stack[|stack| - 1]);
        if v.Some? { EvalConcat(a[1..], b, stack[..|stack| - 2] + [v.value]); }
      }
    }
  }

  lemma {:induction false} LeadingIsAll(ds: string)
    requires AllDigits(ds)
    ensures LeadingDigits(ds) == ds
  {
    if ds != "" { LeadingIsAll(ds[1..]); }
  }

  /** Running the notation of `e` pushes its exact value, or fails exactly when it has none. */
  lemma {:induction false} EvalExpr(e: Expr, stack: seq<nat>)
    requires WellFormed(e) && Small(e)
    ensures EvalTokens(Rpn(e), stack) == match Eval(e) case None => None case Some(v) => Some(stack + [v])
    decreases e, 1
  {
    EvalFactor(e.f, stack);
    if e.More? {
      var op := [[e.op]];
      EvalConcat(RpnF(e.f) + Rpn(e.rest), op, stack);
      EvalConcat(RpnF(e.f), Rpn(e.rest), stack);
      if EvalF(e.f).Some? {
        var a := EvalF(e.f).value;
        EvalExpr(e.rest, stack + [a]);
        if Eval(e.rest).Some? {
          EvalOp(e.op, stack, a, Eval(e.rest).value);
        }
      }
    }
  }

  lemma EvalOp(op: char, stack: seq<nat>, a: nat, b: nat)
    requires IsOp(op)
    ensures EvalTokens([[op]], stack + [a] + [b])
         == match Exact(op, a, b) case None => None case Some(v) => Some(stack + [v])
  {
    var st := stack + [a] + [b];
    assert [[op]][1..] == [] && st[..|st| - 2] == stack;
  }

  lemma {:induction false} EvalFactor(f: Factor, stack: seq<nat>)
    requires WellFormedF(f) && SmallF(f)
    ensures EvalTokens(RpnF(f), stack) == match EvalF(f) case None => None case Some(v) => Some(stack + [v])
    decreases f, 0
  {
    match f
    case Lit(ds) =>
      LeadingIsAll(ds);
      assert ds[0] in ds;
      assert [ds][1..] == [];
    case Paren(e) => EvalExpr(e, stack);
  }

  // ------------------------------------------------------------------
  // Blanks
  // ------------------------------------------------------------------

  function Strip(s: string): string {
    if s == "" then "" else (if s[0] == ' ' || s[0] == '\t' then "" else [s[0]]) + Strip(s[1..])
  }

  lemma {:induction false} RunStrip(st: Conv, s: string)
    ensures Run(st, s) == Run(st, Strip(s))
    decreases |s|
  {
    if s != "" && st.Conv? {
      RunStrip(Step(st, s[0]), s[1..]);
      if s[0] == ' ' || s[0] == '\t' {
        assert Strip(s) == Strip(s[1..]);
      } else {
        assert Strip(s)[1..] == Strip(s[1..]);
      }
    }
  }

  /** Trees whose leaves are numerals and whose nodes are operators. */
  predicate Proper(t: Tree) {
    match t
    case Num(ds) => ds != "" && AllDigits(ds)
    case Node(op, l, r) => IsOp(op) && Proper(l) && Proper(r)
  }

  predicate SmallT(t: Tree) {
    match t
    case Num(ds) => DecimalValue(ds) <= LLONG_MAX
    case Node(_, l, r) => SmallT(l) && SmallT(r)
  }

  lemma {:induction false} ReadingProper(e: Expr)
    requires WellFormed(e)
    ensures Proper(Reading(e)) && Proper(TermTree(e)) && (Small(e) ==> SmallT(Reading(e)) && SmallT(TermTree(e)))
    decreases Size(e), 1
  {
    FactorProper(e.f);
    if e.More? { ReadingProper(e.rest); }
  }

  lemma {:induction false} FactorProper(f: Factor)
    requires WellFormedF(f)
    ensures Proper(TreeF(f)) && (SmallF(f) ==> SmallT(TreeF(f)))
    decreases SizeF(f), 0
  {
    if f.Paren? { ReadingProper(f.e); }
  }

  /** Where nothing pops, loose operators come before tight ones in every group, and grouping to the right is right. */
  lemma {:induction false} NoPopReading(e: Expr, top: Option<char>)
    requires WellFormed(e) && !Pops(e, top) && (top.Some? ==> IsOp(top.value))
    ensures Postfix(Reading(e)) == Rpn(e) && (top.Some? && !Loose(top.value) ==> Rest(e).None?)
    decreases e
  {
    if e.f.Paren? { NoPopReading(e.f.e, None); }
    assert Postfix(TreeF(e.f)) == RpnF(e.f);
    if e.More? {
      NoPopReading(e.rest, Some(e.op));
      if !Loose(e.op) { assert Reading(e) == Node(e.op, TreeF(e.f), Reading(e.rest)); }
    }
  }

  /** Evaluating the notation of a tree gives its exact value, or fails exactly when it has none. */
  lemma {:induction false} EvalTree(t: Tree, stack: seq<nat>)
    requires Proper(t) && SmallT(t)
    ensures EvalTokens(Postfix(t), stack) == match Value(t) case None => None case Some(v) => Some(stack + [v])
  {
    match t
    case Num(ds) =>
      LeadingIsAll(ds);
      assert ds[0] in ds && [ds][1..] == [];
    case Node(op, l, r) =>
      EvalTree(l, stack);
      EvalConcat(Postfix(l) + Postfix(r), [[op]], stack);
      EvalConcat(Postfix(l), Postfix(r), stack);
      if Value(l).Some? {
        EvalTree(r, stack + [Value(l).value]);
        if Value(r).Some? { EvalOp(op, stack, Value(l).value, Value(r).value); }
      }
  }

  /**
   * Convert then evaluate gives the exact value of the documented reading, and an error exactly when some
   * intermediate is negative, too large or a division by zero; grouping all operators to the right then agrees.
   */
  lemma EvaluatesExactly(s: string, e: Expr)
    requires Strip(s) == Show(e) && WellFormed(e) && Small(e) && !Pops(e, None)
    ensures EvalIntExpr(s) == Value(Reading(e)) == Eval(e)
  {
    hide Reading, Rpn, EvalTokens, Tokens;
    RunStrip(Conv("", ""), s);
    ConvertExpr(e);
    TokensOfExpr(e);
    EvalExpr(e, []);
    NoPopReading(e, None);
    ReadingProper(e);
    EvalTree(Reading(e), []);
  }

  lemma OneNumber(ds: string, op: char)
    requires IsNumber(ds) && DecimalValue(ds) <= LLONG_MAX
    ensures var e := One(Lit(ds));
            WellFormed(e) && Small(e) && !Pops(e, Some(op)) && Show(e) == ds && Eval(e) == Some(DecimalValue(ds))
  {
    assert WellFormedF(Lit(ds)) && SmallF(Lit(ds)) && !PopsF(Lit(ds)) && ShowF(Lit(ds)) == ds;
  }

  lemma OneMoreNumber(ds: string, op: char, rest: Expr, top: Option<char>)
    requires IsNumber(ds) && IsOp(op) && DecimalValue(ds) <= LLONG_MAX && (top.Some? ==> !Binds(top.value, op))
    requires WellFormed(rest) && Small(rest) && !Pops(rest, Some(op))
    ensures var e := More(Lit(ds), op, rest);
            && WellFormed(e) && Small(e) && !Pops(e, top) && Show(e) == ds + [op] + Show(rest)
            && Eval(e) == if Eval(rest).None? then None else Exact(op, DecimalValue(ds), Eval(rest).value)
  {
    assert WellFormedF(Lit(ds)) && SmallF(Lit(ds)) && !PopsF(Lit(ds)) && ShowF(Lit(ds)) == ds;
    assert EvalF(Lit(ds)) == Some(DecimalValue(ds));
  }

  /** Two numbers: the operands are taken in the order they are written. */
  lemma TwoNumbers(a: string, op: char, b: string)
    requires IsNumber(a) && IsNumber(b) && IsOp(op) && DecimalValue(a) <= LLONG_MAX && DecimalValue(b) <= LLONG_MAX
    ensures EvalIntExpr(a + [op] + b) == Exact(op, DecimalValue(a), DecimalValue(b))
  {
    hide EvalIntExpr, DecimalValue, Exact;
    var last := One(Lit(b));
    var e := More(Lit(a), op, last);
    OneNumber(b, op);
    OneMoreNumber(a, op, last, None);
    NoBlanks(e);
    EvaluatesExactly(Show(e), e);
  }

  /** Three numbers: where the second operator does not bind looser, it is applied first. */
  lemma ThreeNumbers(a: string, op1: char, b: string, op2: char, c: string)
    requires IsNumber(a) && IsNumber(b) && IsNumber(c) && IsOp(op1) && IsOp(op2)
    requires DecimalValue(a) <= LLONG_MAX && DecimalValue(b) <= LLONG_MAX && DecimalValue(c) <= LLONG_MAX
    requires (op1 == '+' || op1 == '-') || (op2 == '*' || op2 == '/')
    ensures EvalIntExpr(a + [op1] + b + [op2] + c)
         == match Exact(op2, DecimalValue(b), DecimalValue(c))
            case None => None
            case Some(v) => Exact(op1, DecimalValue(a), v)
  {
    hide EvalIntExpr, DecimalValue, Exact;
    var last := One(Lit(c));
    var rest := More(Lit(b), op2, last);
    var e := More(Lit(a), op1, rest);
    OneNumber(c, op2);
    OneMoreNumber(b, op2, last, Some(op1));
    OneMoreNumber(a, op1, rest, None);
    assert a + [op1] + (b + [op2] + c) == a + [op1] + b + [op2] + c;
    NoBlanks(e);
    EvaluatesExactly(Show(e), e);
  }

  lemma {:induction false} StripConcat(a: string, b: string)
    ensures Strip(a + b) == Strip(a) + Strip(b)
    decreases |a|
  {
    if a == "" { assert a + b == b; } else { assert (a + b)[1..] == a[1..] + b; StripConcat(a[1..], b); }
  }

  lemma {:induction false} StripNone(s: string)
    requires forall c <- s :: c != ' ' && c != '\t'
    ensures Strip(s) == s
  {
    if s != "" { assert s[0] in s && forall c <- s[1..] :: c in s; StripNone(s[1..]); }
  }

  lemma {:induction false} NoBlanks(e: Expr)
    requires WellFormed(e)
    ensures Strip(Show(e)) == Show(e)
    decreases e, 1
  {
    NoBlanksF(e.f);
    if e.More? {
      NoBlanks(e.rest);
      StripNone([e.op]);
      StripConcat([e.op], Show(e.rest));
      StripConcat(ShowF(e.f), [e.op] + Show(e.rest));
    } else {
      assert Show(e) == ShowF(e.f);
    }
  }

  lemma {:induction false} NoBlanksF(f: Factor)
    requires WellFormedF(f)
    ensures Strip(ShowF(f)) == ShowF(f)
    decreases f, 0
  {
    match f
    case Lit(ds) => StripNone(ds);
    case Paren(e) =>
      NoBlanks(e);
      StripNone("(");
      StripNone(")");
      StripConcat("(", Show(e));
      StripConcat("(" + Show(e), ")");
  }

  // ------------------------------------------------------------------
  // The early pop
  // ------------------------------------------------------------------

  /** An operator that is not followed by a blank: it shares its token with what comes next. */
  ghost predicate Glued(out: string) {
    exists k :: 0 <= k < |out| - 1 && IsOp(out[k]) && out[k + 1] != ' '
  }

  lemma GluedPrefix(a: string, b: string)
    requires a <= b && Glued(a)
    ensures Glued(b)
  {
    var k :| 0 <= k < |a| - 1 && IsOp(a[k]) && a[k + 1] != ' ';
    assert b[k] == a[k] && b[k + 1] == a[k + 1];
  }

  lemma {:induction false} PopTighterShape(out: string, base: string, ops: string, op: char)
    returns (out': string, ops': string)
    requires GroupTop(base).None? && (forall c <- ops :: IsOp(c)) && IsOp(op)
    ensures PopTighter(out, base + ops, op) == (out', base + ops')
    ensures out <= out' && forall c <- ops' :: IsOp(c)
    ensures (ops != "" && Binds(Top(ops), op)) ==> out < out' && IsOp(Top(out'))
    ensures !(ops != "" && Binds(Top(ops), op)) ==> out' == out && ops' == ops
    decreases |ops|
  {
    if ops != "" {
      assert Top(base + ops) == Top(ops) && Pop(base + ops) == base + Pop(ops) && Top(ops) in ops;
      if Binds(Top(ops), op) {
        out', ops' := PopTighterShape(out + [Top(ops)], base, Pop(ops), op);
        return;
      }
    } else {
      assert base + ops == base;
    }
    out', ops' := out, ops;
  }

  /** An operator: what it pops is written behind a blank, and it is pushed. */
  lemma RunOpAny(out: string, base: string, ops: string, op: char, text: string) returns (out': string, ops': string)
    requires GroupTop(base).None? && (forall c <- ops :: IsOp(c)) && IsOp(op)
    ensures PopTighter(out + " ", base + ops, op) == (out', base + ops')
    ensures Run(Conv(out, base + ops), [op] + text) == Run(Conv(out', base + (ops' + [op])), text)
    ensures out + " " <= out' && forall c <- ops' :: IsOp(c)
    ensures (ops != "" && Binds(Top(ops), op)) ==> IsOp(Top(out'))
  {
    hide Run, PopTighter;
    var st := Conv(out, base + ops);
    RunConcat(st, [op], text);
    RunOne(st, op);
    out', ops' := PopTighterShape(out + " ", base, ops, op);
    assert base + ops' + [op] == base + (ops' + [op]);
  }

  /** In general a group leaves its base alone, only appends to the output, and glues where it pops early. */
  lemma {:induction false} RunAny(e: Expr, out: string, base: string, ops: string)
    returns (out': string, ops': string)
    requires WellFormed(e) && GroupTop(base).None? && forall c <- ops :: IsOp(c)
    ensures Run(Conv(out, base + ops), Show(e)) == Conv(out', base + ops')
    ensures out <= out' && forall c <- ops' :: IsOp(c)
    ensures out != "" && IsOp(Top(out)) ==> Glued(out')
    ensures Pops(e, if ops == "" then None else Some(Top(ops))) ==> Glued(out')
    decreases e, 1
  {
    hide Run, Step, PopTighter, GroupTop;
    var stack := base + ops;
    var out1 := RunAnyFactor(e.f, out, stack);
    if e.One? {
      assert Show(e) == ShowF(e.f);
      out', ops' := out1, ops;
      return;
    }
    var rest := [e.op] + Show(e.rest);
    assert Show(e) == ShowF(e.f) + rest;
    RunConcat(Conv(out, stack), ShowF(e.f), rest);
    var out2, ops2 := RunOpAny(out1, base, ops, e.op, Show(e.rest));
    out', ops' := RunAny(e.rest, out2, base, ops2 + [e.op]);
    if Glued(out1) { GluedPrefix(out1, out'); }
  }

  lemma {:induction false} RunAnyFactor(f: Factor, out: string, stack: string) returns (out': string)
    requires WellFormedF(f)
    ensures Run(Conv(out, stack), ShowF(f)) == Conv(out', stack)
    ensures out <= out'
    ensures out != "" && IsOp(Top(out)) ==> Glued(out')
    ensures PopsF(f) ==> Glued(out')
    decreases f, 0
  {
    match f
    case Lit(ds) =>
      RunDigits(out, stack, ds);
      out' := out + ds;
      assert ds[0] in ds;
      assert out != "" ==> out'[|out| - 1] == Top(out) && out'[|out|] == ds[0];
    case Paren(e) =>
      assert stack + "(" + "" == stack + "(";
      var out1, ops1 := RunAny(e, out, stack + "(", "");
      RunParen(Show(e), out, stack, out1, ops1);
      out' := out1 + DrainText(ops1);
      if Glued(out1) { GluedPrefix(out1, out'); }
  }

  /** Tokens of the intended notation: a number, or an operator alone. */
  predicate CleanToken(t: string) { (forall c <- t :: !IsOp(c)) || |t| == 1 }

  lemma {:induction false} PostfixClean(t: Tree)
    requires Proper(t)
    ensures forall w <- Postfix(t) :: CleanToken(w)
  {
    match t
    case Num(ds) =>
      assert forall c <- ds :: !IsOp(c);
    case Node(_, l, r) =>
      PostfixClean(l);
      PostfixClean(r);
  }

  /** A glued operator makes some token that is no longer a number or an operator alone. */
  lemma {:induction false} GluedToken(s: string, cur: string)
    requires Glued(cur + s) && forall c <- cur :: c != ' '
    ensures exists t <- Tokens(s, cur) :: !CleanToken(t)
    decreases |s|
  {
    if s == "" {
      assert cur + s == cur;
      var k :| 0 <= k < |cur| - 1 && IsOp(cur[k]) && cur[k + 1] != ' ';
      assert Tokens(s, cur) == [cur] && cur in [cur] && cur[k] in cur;
    } else {
      var all := cur + s;
      var k :| 0 <= k < |all| - 1 && IsOp(all[k]) && all[k + 1] != ' ';
      if s[0] != ' ' {
        assert cur + [s[0]] + s[1..] == all;
        GluedToken(s[1..], cur + [s[0]]);
      } else if k < |cur| {
        assert all[|cur|] == ' ';
        assert cur[k] in cur && cur in Tokens(s, cur);
      } else {
        var rest := "" + s[1..];
        assert all[k] == rest[k - |cur| - 1] && all[k + 1] == rest[k - |cur|];
        GluedToken(s[1..], "");
      }
    }
  }

  /** The converter writes the notation of the documented reading if and only if it never pops early. */
  lemma ConvertsIffNoPop(e: Expr)
    requires WellFormed(e)
    ensures Convert(Show(e)).Conv?
    ensures Tokens(Convert(Show(e)).out) == Postfix(Reading(e)) <==> !Pops(e, None)
  {
    hide Reading, Postfix, Tokens;
    if !Pops(e, None) {
      ConvertExpr(e);
      TokensOfExpr(e);
      NoPopReading(e, None);
    } else {
      assert "" + "" == "";
      var out, ops := RunAny(e, "", "", "");
      assert "" + ops == ops;
      DrainOps(out, ops);
      GluedPrefix(out, out + DrainText(ops));
      var text := Convert(Show(e)).out;
      assert "" + text == text;
      GluedToken(text, "");
      ReadingProper(e);
      PostfixClean(Reading(e));
    }
  }

  // ------------------------------------------------------------------
  // With the blank
  // ------------------------------------------------------------------

  predicate StartsToken(s: string) { s == "" || Top(s) == ' ' }

  /** Pending operators as tokens, last pushed first. */
  function Reversed(ops: string): seq<string> {
    if ops == "" then [] else [[Top(ops)]] + Reversed(Pop(ops))
  }

  lemma {:induction false} ReversedConcat(a: string, b: string)
    ensures Reversed(a + b) == Reversed(b) + Reversed(a)
    decreases |b|
  {
    if b == "" {
      assert a + b == a;
    } else {
      assert Top(a + b) == Top(b) && Pop(a + b) == a + Pop(b);
      ReversedConcat(a, Pop(b));
    }
  }

  lemma TokensBlank(s: string)
    ensures Tokens(s + " ") == Tokens(s)
  {
    TokensSplit(s, "", "");
    assert s + " " + "" == s + " ";
  }

  lemma TokensNew(s: string, w: string)
    requires StartsToken(s) && w != "" && forall c <- w :: c != ' '
    ensures Tokens(s + w) == Tokens(s) + [w]
  {
    hide Tokens;
    TokensWord(w, "");
    assert "" + w == w;
    if s == "" {
      assert s + w == w;
      TokensOfNothing();
    } else {
      assert s == Pop(s) + " ";
      TokensSplit(Pop(s), w, "");
      TokensBlank(Pop(s));
    }
  }

  lemma TokensOfNothing()
    ensures Tokens("") == []
  {}

  lemma TokensOp(s: string, op: char)
    requires IsOp(op)
    ensures Tokens(s + " " + [op]) == Tokens(s) + [[op]]
  {
    hide Tokens;
    TokensBlank(s);
    TokensNew(s + " ", [op]);
  }

  lemma TokensBehind(s: string, op: char)
    requires IsOp(op) && StartsToken(s)
    ensures Tokens(s + [op, ' ']) == Tokens(s) + [[op]] && StartsToken(s + [op, ' '])
  {
    hide Tokens;
    TokensNew(s, [op]);
    TokensBlank(s + [op]);
    assert s + [op] + " " == s + [op, ' '];
  }

  lemma DrainUnfold(ops: string)
    ensures DrainText(ops) == if ops == "" then "" else " " + [Top(ops)] + DrainText(Pop(ops))
    ensures Reversed(ops) == if ops == "" then [] else [[Top(ops)]] + Reversed(Pop(ops))
  {}

  lemma {:induction false} TokensDrain(s: string, ops: string)
    requires forall c <- ops :: IsOp(c)
    ensures Tokens(s + DrainText(ops)) == Tokens(s) + Reversed(ops)
    decreases |ops|
  {
    hide Tokens, DrainText, Reversed;
    DrainUnfold(ops);
    if ops == "" {
      assert s + DrainText(ops) == s;
    } else {
      assert Top(ops) in ops && forall c <- Pop(ops) :: c in ops;
      TokensOp(s, Top(ops));
      TokensDrain(s + " " + [Top(ops)], Pop(ops));
      assert s + " " + [Top(ops)] + DrainText(Pop(ops)) == s + DrainText(ops);
      assert Tokens(s) + [[Top(ops)]] + Reversed(Pop(ops)) == Tokens(s) + Reversed(ops);
    }
  }

  /** Pending operators of a group: the loose ones, then the tight ones. */
  predicate Pending(loose: string, tight: string) {
    (forall c <- loose :: Loose(c)) && (forall c <- tight :: IsOp(c) && !Loose(c))
  }

  /** A loose operator pops all tight ones, each a token of its own. */
  lemma {:induction false} PopSpaced(out: string, base: string, loose: string, tight: string, op: char)
    returns (out': string)
    requires GroupTop(base).None? && Pending(loose, tight) && Loose(op) && StartsToken(out)
    ensures PopTighter(out, base + (loose + tight), op, true) == (out', base + loose)
    ensures Tokens(out') == Tokens(out) + Reversed(tight) && StartsToken(out')
    decreases |tight|
  {
    hide Tokens, StartsToken, PopTighter, Reversed, Pending, GroupTop;
    DrainUnfold(tight);
    PopOneSpaced(out, base, loose, tight, op);
    if tight == "" {
      out' := out;
    } else {
      var c := Top(tight);
      PendingPop(loose, tight);
      TokensBehind(out, c);
      out' := PopSpaced(out + [c, ' '], base, loose, Pop(tight), op);
      assert Tokens(out) + [[c]] + Reversed(Pop(tight)) == Tokens(out) + Reversed(tight);
    }
  }

  lemma PendingPop(loose: string, tight: string)
    requires Pending(loose, tight) && tight != ""
    ensures IsOp(Top(tight)) && Pending(loose, Pop(tight))
  {
    assert Top(tight) in tight && forall x <- Pop(tight) :: x in tight;
  }

  lemma PopOneSpaced(out: string, base: string, loose: string, tight: string, op: char)
    requires GroupTop(base).None? && Pending(loose, tight) && Loose(op)
    ensures PopTighter(out, base + (loose + tight), op, true)
         == if tight == "" then (out, base + loose)
            else PopTighter(out + [Top(tight), ' '], base + (loose + Pop(tight)), op, true)
  {
    var stack := base + (loose + tight);
    if tight != "" {
      assert Top(stack) == Top(tight) && Pop(stack) == base + (loose + Pop(tight)) && Top(tight) in tight;
    } else if loose != "" {
      assert stack == base + loose && Top(stack) == Top(loose) && Top(loose) in loose;
    } else {
      assert stack == base && base + loose == base;
    }
  }

  lemma RunLooseSpaced(out: string, base: string, loose: string, tight: string, op: char, text: string)
    returns (out': string)
    requires GroupTop(base).None? && Pending(loose, tight) && Loose(op)
    ensures Run(Conv(out, base + (loose + tight)), [op] + text, true) == Run(Conv(out', base + (loose + [op])), text, true)
    ensures Tokens(out') == Tokens(out) + Reversed(tight) && StartsToken(out') && Pending(loose + [op], "")
  {
    hide Tokens, Run;
    var st := Conv(out, base + (loose + tight));
    RunConcat(st, [op], text, true);
    RunOne(st, op, true);
    TokensBlank(out);
    out' := PopSpaced(out + " ", base, loose, tight, op);
    assert base + loose + [op] == base + (loose + [op]);
  }

  lemma RunTightSpaced(out: string, base: string, loose: string, tight: string, op: char, text: string)
    requires Pending(loose, tight) && IsOp(op) && !Loose(op)
    ensures Run(Conv(out, base + (loose + tight)), [op] + text, true)
         == Run(Conv(out + " ", base + (loose + (tight + [op]))), text, true)
    ensures Tokens(out + " ") == Tokens(out) && StartsToken(out + " ") && Pending(loose, tight + [op])
  {
    hide Tokens, Run;
    var st := Conv(out, base + (loose + tight));
    RunConcat(st, [op], text, true);
    RunOne(st, op, true);
    TokensBlank(out);
    assert base + (loose + tight) + [op] == base + (loose + (tight + [op]));
  }

  /** What the rest of a group adds behind its leading term. */
  function Behind(e: Expr): seq<string> {
    var r := Rest(e);
    if r.None? then [] else Postfix(Reading(r.value.1)) + [[r.value.0]]
  }

  lemma BehindIs(e: Expr)
    ensures Postfix(Reading(e)) == Postfix(TermTree(e)) + Behind(e)
  {}

  /** What `e` adds to tokens `t`: its leading term completes the tight operators, the loose ones wait for the end. */
  function Written(e: Expr, t: seq<string>, loose: string, tight: string): seq<string> {
    t + Postfix(TermTree(e)) + Reversed(tight) + Behind(e) + Reversed(loose)
  }

  lemma WrittenOne(e: Expr, t: seq<string>, loose: string, tight: string)
    requires e.One?
    ensures t + Postfix(TreeF(e.f)) + Reversed(loose + tight) == Written(e, t, loose, tight)
  {
    hide Reversed, Postfix, TreeF;
    ReversedConcat(loose, tight);
  }

  lemma WrittenLoose(e: Expr, t: seq<string>, loose: string, tight: string)
    requires e.More? && Loose(e.op)
    ensures Written(e.rest, t + Postfix(TreeF(e.f)) + Reversed(tight), loose + [e.op], "") == Written(e, t, loose, tight)
  {
    var f, rt, rl, o := Postfix(TreeF(e.f)), Reversed(tight), Reversed(loose), [[e.op]];
    var pt, b := Postfix(TermTree(e.rest)), Behind(e.rest);
    assert Postfix(Reading(e.rest)) == pt + b by { BehindIs(e.rest); }
    assert Reversed(loose + [e.op]) == o + rl by { ReversedConcat(loose, [e.op]); ReversedOne(e.op); }
    assert Behind(e) == pt + b + o && TermTree(e) == TreeF(e.f) && Reversed("") == [];
    hide Reversed, Postfix, TreeF, TermTree, Behind;
    assert t + f + rt + pt + [] + b + (o + rl) == t + f + rt + (pt + b + o) + rl;
  }

  lemma WrittenTight(e: Expr, t: seq<string>, loose: string, tight: string)
    requires e.More? && !Loose(e.op)
    ensures Written(e.rest, t + Postfix(TreeF(e.f)), loose, tight + [e.op]) == Written(e, t, loose, tight)
  {
    hide Reversed, Postfix, TreeF, TermTree, Behind;
    var f, rt, rl, o := Postfix(TreeF(e.f)), Reversed(tight), Reversed(loose), [[e.op]];
    var pt, b := Postfix(TermTree(e.rest)), Behind(e.rest);
    ReversedConcat(tight, [e.op]);
    ReversedOne(e.op);
    TightTerm(e);
    assert t + f + pt + (o + rt) + b + rl == t + (f + pt + o) + rt + b + rl;
  }

  lemma {:induction false} RunSpaced(e: Expr, out: string, base: string, loose: string, tight: string)
    returns (out': string, ops': string)
    requires WellFormed(e) && GroupTop(base).None? && Pending(loose, tight) && StartsToken(out)
    ensures Run(Conv(out, base + (loose + tight)), Show(e), true) == Conv(out', base + ops')
    ensures forall c <- ops' :: IsOp(c)
    ensures Tokens(out' + DrainText(ops')) == Written(e, Tokens(out), loose, tight)
    decreases e, 1
  {
    hide Run, Tokens, GroupTop, Postfix, TreeF, StartsToken, Written, Reversed, DrainText, ShowF, WellFormedF;
    var stack := base + (loose + tight);
    var out1 := RunSpacedFactor(e.f, out, stack);
    if e.One? {
      assert Show(e) == ShowF(e.f);
      out', ops' := out1, loose + tight;
      TokensDrain(out1, ops');
      WrittenOne(e, Tokens(out), loose, tight);
      return;
    }
    var text := Show(e.rest);
    assert Show(e) == ShowF(e.f) + ([e.op] + text);
    RunConcat(Conv(out, stack), ShowF(e.f), [e.op] + text, true);
    if Loose(e.op) {
      var out2 := RunLooseSpaced(out1, base, loose, tight, e.op, text);
      assert loose + [e.op] + "" == loose + [e.op];
      out', ops' := RunSpaced(e.rest, out2, base, loose + [e.op], "");
      WrittenLoose(e, Tokens(out), loose, tight);
    } else {
      RunTightSpaced(out1, base, loose, tight, e.op, text);
      out', ops' := RunSpaced(e.rest, out1 + " ", base, loose, tight + [e.op]);
      WrittenTight(e, Tokens(out), loose, tight);
    }
  }

  lemma ReversedOne(op: char)
    ensures Reversed([op]) == [[op]]
  {
    assert Pop([op]) == "";
  }

  lemma TightTerm(e: Expr)
    requires e.More? && !Loose(e.op)
    ensures Postfix(TermTree(e)) == Postfix(TreeF(e.f)) + Postfix(TermTree(e.rest)) + [[e.op]] && Behind(e) == Behind(e.rest)
  {}

  lemma {:induction false} RunSpacedFactor(f: Factor, out: string, stack: string) returns (out': string)
    requires WellFormedF(f) && StartsToken(out)
    ensures Run(Conv(out, stack), ShowF(f), true) == Conv(out', stack)
    ensures Tokens(out') == Tokens(out) + Postfix(TreeF(f))
    decreases f, 0
  {
    hide Run, Tokens, Reading, Written;
    match f
    case Lit(ds) =>
      RunDigits(out, stack, ds, true);
      TokensNew(out, ds);
      out' := out + ds;
    case Paren(e) =>
      assert stack + "(" + ("" + "") == stack + "(";
      var out1, ops1 := RunSpaced(e, out, stack + "(", "", "");
      RunParen(Show(e), out, stack, out1, ops1, true);
      WrittenAll(e, Tokens(out));
      out' := out1 + DrainText(ops1);
  }

  lemma WrittenAll(e: Expr, t: seq<string>)
    ensures Written(e, t, "", "") == t + Postfix(Reading(e))
  {
    BehindIs(e);
    assert Reversed("") == [];
  }

  /** With a blank behind each popped operator, every well-formed expression is converted to the documented notation. */
  lemma SpacedConverts(e: Expr)
    requires WellFormed(e)
    ensures Convert(Show(e), true).Conv? && Tokens(Convert(Show(e), true).out) == Postfix(Reading(e))
  {
    hide Run, Drain, Tokens, Postfix, Reading, Written;
    assert "" + ("" + "") == "";
    TokensOfNothing();
    var out, ops := RunSpaced(e, "", "", "", "");
    assert "" + ops == ops;
    DrainOps(out, ops);
    WrittenAll(e, []);
  }

  /** So the missing blank is all that keeps the evaluation from the exact value of the documented reading. */
  lemma SpacedEvaluates(e: Expr)
    requires WellFormed(e) && Small(e)
    ensures Convert(Show(e), true).Conv? && EvalRpn(Convert(Show(e), true).out) == Value(Reading(e))
  {
    hide Convert, Tokens, EvalTokens, Reading;
    SpacedConverts(e);
    ReadingProper(e);
    EvalTree(Reading(e), []);
  }

  // ------------------------------------------------------------------
  // What is converted at all
  // ------------------------------------------------------------------

  predicate Readable(c: char) { IsDigit(c) || IsOp(c) || c == '(' || c == ')' || c == ' ' || c == '\t' }

  /** How deep the parentheses are behind `s`, from depth `d` on; None if one is closed that is not open. */
  function Nesting(s: string, d: nat): Option<nat> {
    if s == "" then Some(d)
    else if s[0] == '(' then Nesting(s[1..], d + 1)
    else if s[0] == ')' then (if d == 0 then None else Nesting(s[1..], d - 1))
    else Nesting(s[1..], d)
  }

  function Open(stack: string): nat { if stack == "" then 0 else Open(Pop(stack)) + if Top(stack) == '(' then 1 else 0 }

  lemma OpenSnoc(stack: string, c: char)
    ensures Open(stack + [c]) == Open(stack) + if c == '(' then 1 else 0
  {
    assert Pop(stack + [c]) == stack;
  }

  lemma {:induction false} PopTighterOpen(out: string, stack: string, op: char)
    ensures Open(PopTighter(out, stack, op).1) == Open(stack)
    decreases |stack|
  {
    if stack != "" && Top(stack) != '(' && Binds(Top(stack), op) { PopTighterOpen(out + [Top(stack)], Pop(stack), op); }
  }

  lemma {:induction false} PopGroupOpen(out: string, stack: string)
    ensures var rest := PopGroup(out, stack).1;
            Open(rest) == Open(stack) && (rest == "" <==> Open(stack) == 0) && (rest != "" ==> Top(rest) == '(')
    decreases |stack|
  {
    if stack != "" && Top(stack) != '(' { PopGroupOpen(out + " " + [Top(stack)], Pop(stack)); }
  }

  /** A character is refused if it is not readable or closes what is not open, and else counts the open parentheses. */
  lemma StepOpen(st: Conv, c: char)
    requires st.Conv?
    ensures Step(st, c).Conv? <==> Readable(c) && !(c == ')' && Open(st.stack) == 0)
    ensures Step(st, c).Conv? ==>
              Open(Step(st, c).stack) == Open(st.stack) + (if c == '(' then 1 else if c == ')' then -1 else 0)
  {
    hide Open, PopTighter, PopGroup;
    OpenSnoc(st.stack, c);
    if IsOp(c) {
      var (_, stack) := PopTighter(st.out + " ", st.stack, c);
      PopTighterOpen(st.out + " ", st.stack, c);
      OpenSnoc(stack, c);
    } else if c == ')' {
      var (_, stack) := PopGroup(st.out, st.stack);
      PopGroupOpen(st.out, st.stack);
      if stack != "" { OpenSnoc(Pop(stack), Top(stack)); assert Pop(stack) + [Top(stack)] == stack; }
    }
  }

  lemma {:induction false} RunOpen(st: Conv, s: string)
    requires st.Conv?
    ensures var d := Nesting(s, Open(st.stack));
            && (Run(st, s).Conv? <==> (forall c <- s :: Readable(c)) && d.Some?)
            && (Run(st, s).Conv? ==> d == Some(Open(Run(st, s).stack)))
    decreases |s|
  {
    hide Step, Open, Readable;
    if s != "" {
      StepOpen(st, s[0]);
      assert s == [s[0]] + s[1..];
      if Step(st, s[0]).Conv? { RunOpen(Step(st, s[0]), s[1..]); } else { NotConverted(st, s); }
    }
  }

  lemma NotConverted(st: Conv, s: string)
    requires st.Conv? && s != "" && !Step(st, s[0]).Conv?
    ensures !Run(st, s).Conv?
  {}

  lemma {:induction false} DrainOpen(st: Conv)
    requires st.Conv?
    ensures Drain(st).Conv? <==> Open(st.stack) == 0
    decreases |st.stack|
  {
    if st.stack != "" && Top(st.stack) != '(' { DrainOpen(Conv(st.out + " " + [Top(st.stack)], Pop(st.stack))); }
  }

  /** A text is converted if and only if it has no other characters and its parentheses match. */
  lemma ConvertsIffBalanced(s: string)
    ensures Convert(s).Conv? <==> (forall c <- s :: Readable(c)) && Nesting(s, 0) == Some(0)
  {
    hide Run, Drain, Nesting, Readable;
    RunOpen(Conv("", ""), s);
    var st := Run(Conv("", ""), s);
    if st.Conv? { DrainOpen(st); }
  }

  // ------------------------------------------------------------------
  // Work buffers
  // ------------------------------------------------------------------

  const OPTLINE_MAXLEN: nat := 1024
  const OPTVAL_MAXLEN: nat := 255

  /** Bytes written plus two for each operator still stacked. */
  function Cost(st: Conv): nat
    requires st.Conv?
  {
    |st.out| + 2 * |st.stack|
  }

  lemma {:induction false} PopTighterCost(out: string, stack: string, op: char)
    ensures var (out', stack') := PopTighter(out, stack, op);
            |out'| + |stack'| == |out| + |stack| && |stack'| <= |stack|
    decreases |stack|
  {
    if stack != "" && Top(stack) != '(' && Binds(Top(stack), op) {
      PopTighterCost(out + [Top(stack)], Pop(stack), op);
    }
  }

  lemma {:induction false} PopGroupCost(out: string, stack: string)
    ensures var (out', stack') := PopGroup(out, stack);
            |out'| + 2 * |stack'| == |out| + 2 * |stack| && |stack'| <= |stack|
    decreases |stack|
  {
    if stack != "" && Top(stack) != '(' { PopGroupCost(out + " " + [Top(stack)], Pop(stack)); }
  }

  /** Each character read pays for at most three written ones, now or when its operator is popped. */
  lemma StepCost(st: Conv, c: char)
    requires st.Conv?
    ensures var st' := Step(st, c);
            st'.Conv? ==> Cost(st') <= Cost(st) + 3 && |st'.stack| <= |st.stack| + 1
  {
    PopTighterCost(st.out + " ", st.stack, c);
    PopGroupCost(st.out, st.stack);
  }

  lemma {:induction false} RunCost(st: Conv, s: string)
    requires st.Conv?
    ensures var st' := Run(st, s);
            st'.Conv? ==> Cost(st') <= Cost(st) + 3 * |s| && |st'.stack| <= |st.stack| + |s|
    decreases |s|
  {
    if s != "" {
      StepCost(st, s[0]);
      if Step(st, s[0]).Conv? { RunCost(Step(st, s[0]), s[1..]); }
    }
  }

  lemma {:induction false} DrainCost(st: Conv)
    requires st.Conv?
    ensures Drain(st).Conv? ==> |Drain(st).out| == Cost(st)
    decreases |st.stack|
  {
    if st.stack != "" && Top(st.stack) != '(' {
      DrainCost(Conv(st.out + " " + [Top(st.stack)], Pop(st.stack)));
    }
  }

  /** Every accepted option value fits the work buffers, terminator included, whatever it holds. */
  lemma ConvertFits(s: string)
    ensures Convert(s).Conv? ==> |Convert(s).out| <= 3 * |s|
    ensures |s| <= 255 && Convert(s).Conv? ==> |Convert(s).out| < 1024
  {
    RunCost(Conv("", ""), s);
    var st := Run(Conv("", ""), s);
    if st.Conv? { DrainCost(st); }
  }

  // ------------------------------------------------------------------
  // The source's loops over fixed arrays
  // ------------------------------------------------------------------

  datatype Status = OK | ERROR

  /** The write position and the operator stack hold exactly the function's output and stack. */
  ghost predicate Holds(st: Conv, rpn: seq<char>, w: nat, ops: seq<char>, n: nat) {
    st.Conv? && w <= |rpn| && n <= |ops| && rpn[..w] == st.out && ops[..n] == st.stack
  }

  method ConvertRpn(val: string, rpn: array<char>) returns (status: Status, w: nat)
    requires |val| <= OPTVAL_MAXLEN && rpn.Length == OPTLINE_MAXLEN
    modifies rpn
    ensures status.OK? <==> Convert(val).Conv?
    ensures status.OK? ==> w < rpn.Length && rpn[w] == '\0' && rpn[..w] == Convert(val).out
  {
    var ops := new char[OPTLINE_MAXLEN];
    var n: nat := 0;
    var r := 0;
    w := 0;
    ghost var st := Conv("", "");
    while r < |val|
      invariant r <= |val| && st.Conv? && Run(Conv("", ""), val) == Run(st, val[r..])
      invariant Cost(st) <= 3 * r && |st.stack| <= r
      invariant Holds(st, rpn[..], w, ops[..], n)
    {
      StepCost(st, val[r]);
      assert val[r..][0] == val[r] && val[r..][1..] == val[r + 1..];
      status, w, n := ReadChar(val[r], rpn, w, ops, n, st);
      if status.ERROR? { return; }
      st := Step(st, val[r]);
      r := r + 1;
    }
    assert val[r..] == "";
    status, w := PopAll(rpn, w, ops, n, st);
  }

  /** What is left on the stack is written, unless a parenthesis was never closed. */
  method PopAll(rpn: array<char>, w0: nat, ops: array<char>, n0: nat, ghost st0: Conv) returns (status: Status, w: nat)
    requires Holds(st0, rpn[..], w0, ops[..], n0) && rpn != ops && Cost(st0) < rpn.Length
    modifies rpn
    ensures status.OK? <==> Drain(st0).Conv?
    ensures status.OK? ==> w < rpn.Length && rpn[w] == '\0' && rpn[..w] == Drain(st0).out
  {
    ghost var st := st0;
    var n: nat := n0;
    w := w0;
    while n > 0
      invariant Holds(st, rpn[..], w, ops[..], n) && Cost(st) == Cost(st0)
      invariant Drain(st) == Drain(st0)
      decreases n
    {
      assert ops[n - 1] == Top(st.stack);
      if ops[n - 1] == '(' { return ERROR, w; }
      ghost var st' := Conv(st.out + " " + [Top(st.stack)], Pop(st.stack));
      rpn[w], rpn[w + 1] := ' ', ops[n - 1];
      w, n := w + 2, n - 1;
      st := st';
      assert rpn[..w] == st.out && ops[..n] == st.stack;
    }
    assert st.stack == "";
    rpn[w] := '\0';
    assert rpn[..w] == st.out;
    status := OK;
  }

  /** The body of the reading loop, one case of its switch. */
  method ReadChar(c: char, rpn: array<char>, w: nat, ops: array<char>, n: nat, ghost st: Conv)
    returns (status: Status, w': nat, n': nat)
    requires Holds(st, rpn[..], w, ops[..], n) && rpn != ops
    requires Cost(st) + 3 < rpn.Length && |st.stack| < ops.Length
    modifies rpn, ops
    ensures status.OK? <==> Step(st, c).Conv?
    ensures status.OK? ==> Holds(Step(st, c), rpn[..], w', ops[..], n')
  {
    status, w', n' := OK, w, n;
    if IsDigit(c) {
      rpn[w] := c;
      w' := w + 1;
      assert rpn[..w'] == st.out + [c];
    } else if IsOp(c) {
      w', n' := ReadOp(c, rpn, w, ops, n, st);
    } else if c == '(' {
      ops[n] := c;
      n' := n + 1;
      assert ops[..n'] == st.stack + [c];
    } else if c == ')' {
      status, w', n' := CloseGroup(rpn, w, ops, n, st);
    } else if c == ' ' || c == '\t' {
    } else {
      status := ERROR;
    }
  }

  method ReadOp(c: char, rpn: array<char>, w: nat, ops: array<char>, n: nat, ghost st: Conv)
    returns (w': nat, n': nat)
    requires IsOp(c) && Holds(st, rpn[..], w, ops[..], n) && rpn != ops
    requires Cost(st) + 3 < rpn.Length && |st.stack| < ops.Length
    modifies rpn, ops
    ensures Holds(Step(st, c), rpn[..], w', ops[..], n')
  {
    rpn[w] := ' ';
    w', n' := w + 1, n;
    ghost var cur := Conv(st.out + " ", st.stack);
    assert rpn[..w'] == cur.out;
    while n' > 0 && ops[n' - 1] != '(' && Binds(ops[n' - 1], c)
      invariant Holds(cur, rpn[..], w', ops[..], n') && w' + n' < rpn.Length && n' <= n
      invariant PopTighter(st.out + " ", st.stack, c) == PopTighter(cur.out, cur.stack, c)
      decreases n'
    {
      assert ops[n' - 1] == Top(cur.stack);
      rpn[w'] := ops[n' - 1];
      w', n' := w' + 1, n' - 1;
      cur := Conv(cur.out + [Top(cur.stack)], Pop(cur.stack));
      assert rpn[..w'] == cur.out && ops[..n'] == cur.stack;
    }
    assert n' > 0 ==> ops[n' - 1] == Top(cur.stack);
    ops[n'] := c;
    n' := n' + 1;
    assert ops[..n'] == cur.stack + [c];
  }

  method CloseGroup(rpn: array<char>, w: nat, ops: array<char>, n: nat, ghost st: Conv)
    returns (status: Status, w': nat, n': nat)
    requires Holds(st, rpn[..], w, ops[..], n) && rpn != ops
    requires Cost(st) + 3 < rpn.Length
    modifies rpn, ops
    ensures status.OK? <==> Step(st, ')').Conv?
    ensures status.OK? ==> Holds(Step(st, ')'), rpn[..], w', ops[..], n')
  {
    w', n' := w, n;
    ghost var cur := st;
    while n' > 0 && ops[n' - 1] != '('
      invariant Holds(cur, rpn[..], w', ops[..], n') && w' + 2 * n' < rpn.Length
      invariant PopGroup(st.out, st.stack) == PopGroup(cur.out, cur.stack)
      decreases n'
    {
      assert ops[n' - 1] == Top(cur.stack);
      rpn[w'], rpn[w' + 1] := ' ', ops[n' - 1];
      w', n' := w' + 2, n' - 1;
      cur := Conv(cur.out + " " + [Top(cur.stack)], Pop(cur.stack));
      assert rpn[..w'] == cur.out && ops[..n'] == cur.stack;
    }
    assert n' > 0 ==> ops[n' - 1] == Top(cur.stack);
    if n' == 0 { return ERROR, w', n'; }
    n' := n' - 1;
    assert ops[..n'] == Pop(cur.stack);
    status := OK;
  }

  /** The overflow tests on wrapped results find exactly the operations without a 64-bit value. */
  method ApplyOp(op: char, first: nat, second: nat) returns (r: Option<nat>)
    requires first < TWO64 && second < TWO64
    ensures r == Exact(op, first, second)
    ensures op == '+' ==> (r.Some? <==> first + second < TWO64) && (r.Some? ==> r.value - second == first)
    ensures op == '-' ==> (r.Some? <==> second <= first) && (r.Some? ==> r.value + second == first)
    ensures op == '*' ==> (r.Some? <==> first * second < TWO64) && (r.Some? ==> r.value == first * second)
    ensures op == '/' ==> (r.Some? <==> second > 0) && (r.Some? ==> r.value * second <= first < (r.value + 1) * second)
  {
    ExactMeans(op, first, second);
    if op == '+' {
      r := Add(first, second);
    } else if op == '-' {
      r := Subtract(first, second);
    } else if op == '*' {
      r := Multiply(first, second);
    } else if op == '/' {
      r := if second == 0 then None else Some(first / second);
    } else {
      r := Some(0);
    }
  }

  method Add(first: nat, second: nat) returns (r: Option<nat>)
    requires first < TWO64 && second < TWO64
    ensures r == if first + second < TWO64 then Some(first + second) else None
  {
    var result := (first + second) % TWO64;
    r := if result < first then None else Some(result);
  }

  method Subtract(first: nat, second: nat) returns (r: Option<nat>)
    requires first < TWO64 && second < TWO64
    ensures r == if first >= second then Some(first - second) else None
  {
    var result := (first - second) % TWO64;
    r := if result > first then None else Some(result);
  }

  method Multiply(first: nat, second: nat) returns (r: Option<nat>)
    requires first < TWO64 && second < TWO64
    ensures r == Exact('*', first, second)
  {
    var result := first * second % TWO64;
    if first == 0 { return Some(result); }
    WrappedProduct(first, second);
    r := if result / first != second then None else Some(result);
  }

  lemma WrappedProduct(a: nat, b: nat)
    requires 0 < a < TWO64 && b < TWO64
    ensures 0 <= a * b
    ensures a * b % TWO64 / a == b <==> a * b < TWO64
    ensures a * b < TWO64 ==> a * b % TWO64 == a * b
  {
    MulNat(a, b);
    var p := a * b;
    if p < TWO64 {
      DivModUnique(p, a, b, 0);
    } else {
      DivFacts(p % TWO64, a);
    }
  }

  lemma ExactBound(op: char, a: nat, b: nat)
    requires a < TWO64 && b < TWO64
    ensures Exact(op, a, b).Some? ==> Exact(op, a, b).value < TWO64
  {
    if op == '/' && b != 0 {
      DivFacts(a, b);
      MulLe(1, b, a / b);
      assert b * (a / b) == a / b * b;
    }
  }

  /** strtok steps through the text; numbers are pushed, operators take the top two. */
  method EvaluateRpn(rpn: string) returns (status: Status, val: nat)
    requires |rpn| < OPTLINE_MAXLEN
    ensures status.OK? <==> EvalRpn(rpn).Some?
    ensures status.OK? ==> EvalRpn(rpn) == Some(val)
  {
    hide Exact, Atoll;
    val := 0;
    var stack := new nat[OPTLINE_MAXLEN];
    var n: nat := 0;
    var i := 0;
    assert rpn[0..] == rpn;
    while true
      invariant i <= |rpn| && n <= i && forall k :: 0 <= k < n ==> stack[k] < TWO64
      invariant EvalTokens(Tokens(rpn), []) == EvalTokens(Tokens(rpn[i..]), stack[..n])
      decreases |rpn| - i
    {
      var j, token := NextToken(rpn, i);
      if token == "" { break; }
      ghost var rest := Tokens(rpn[j..]);
      assert ([token] + rest)[1..] == rest;
      status, n := EvalToken(token, stack, n, rest);
      if status.ERROR? { return; }
      i := j;
    }
    if n != 1 { return ERROR, val; }
    return OK, stack[0];
  }

  method EvalToken(token: string, stack: array<nat>, n: nat, ghost rest: seq<string>) returns (status: Status, n': nat)
    requires token != "" && n < stack.Length && forall k :: 0 <= k < n ==> stack[k] < TWO64
    modifies stack
    ensures status.ERROR? ==> EvalTokens([token] + rest, old(stack[..n])).None?
    ensures status.OK? ==>
              && n' <= n + 1 && n' <= stack.Length
              && (forall k :: 0 <= k < n' ==> stack[k] < TWO64)
              && EvalTokens([token] + rest, old(stack[..n])) == EvalTokens(rest, stack[..n'])
  {
    hide Exact, Atoll;
    assert ([token] + rest)[1..] == rest;
    ghost var was := stack[..n];
    if IsDigit(token[0]) {
      stack[n] := Atoll(token);
      n' := n + 1;
      assert stack[..n'] == was + [Atoll(token)];
      AtollBound(token);
    } else {
      if n < 2 { return ERROR, n; }
      ExactBound(token[0], stack[n - 2], stack[n - 1]);
      var result := ApplyOp(token[0], stack[n - 2], stack[n - 1]);
      if result.None? { return ERROR, n; }
      stack[n - 2] := result.value;
      n' := n - 1;
      assert stack[..n'] == was[..n - 2] + [result.value];
    }
    status := OK;
  }

  lemma AtollBound(t: string)
    ensures Atoll(t) < TWO64
  {}

  method NextToken(s: string, i: nat) returns (j: nat, token: string)
    requires i <= |s|
    ensures i <= j <= |s| && (token != "" ==> i < j)
    ensures Tokens(s[i..]) == if token == "" then [] else [token] + Tokens(s[j..])
  {
    j := i;
    while j < |s| && s[j] == ' '
      invariant i <= j <= |s| && Tokens(s[i..]) == Tokens(s[j..])
    {
      assert s[j..][1..] == s[j + 1..];
      j := j + 1;
    }
    var start := j;
    token := "";
    while j < |s| && s[j] != ' '
      invariant start <= j <= |s| && token == s[start..j]
      invariant Tokens(s[i..]) == Tokens(s[j..], token)
    {
      assert s[j..][1..] == s[j + 1..];
      token := token + [s[j]];
      j := j + 1;
    }
    if j < |s| {
      assert Tokens(s[j..]) == Tokens(s[j..][1..]);
    }
  }

  /** _option_eval_int_expr over its work buffer, for every value an option line can hold. */
  method EvaluateIntExpr(val: string) returns (status: Status, v: nat)
    requires |val| <= 255
    ensures status.OK? <==> EvalIntExpr(val).Some?
    ensures status.OK? ==> EvalIntExpr(val) == Some(v)
  {
    var rpn := new char[OPTLINE_MAXLEN];
    var w;
    v := 0;
    status, w := ConvertRpn(val, rpn);
    if status.ERROR? { return; }
    status, v := EvaluateRpn(rpn[..w]);
  }

  // ------------------------------------------------------------------
  // What the early pop does to values
  // ------------------------------------------------------------------

  predicate IsNumber(ds: string) { ds != "" && AllDigits(ds) }

  lemma RunOpDigits(out: string, stack: string, op: char, ds: string, out': string, stack': string)
    requires IsOp(op) && IsNumber(ds) && PopTighter(out + " ", stack, op) == (out', stack')
    ensures Run(Conv(out, stack), [op] + ds) == Conv(out' + ds, stack' + [op])
  {
    RunConcat(Conv(out, stack), [op], ds);
    RunOne(Conv(out, stack), op);
    RunDigits(out', stack' + [op], ds);
  }

  lemma EvalNumber(ds: string, rest: seq<string>, stack: seq<nat>)
    requires IsNumber(ds)
    ensures EvalTokens([ds] + rest, stack) == EvalTokens(rest, stack + [Atoll(ds)])
  {
    assert ds[0] in ds && ([ds] + rest)[1..] == rest;
  }

  lemma EvalOperator(t: string, rest: seq<string>, stack: seq<nat>)
    requires t != "" && IsOp(t[0])
    ensures EvalTokens([t] + rest, stack) ==
              if |stack| < 2 then None
              else match Exact(t[0], stack[|stack| - 2], stack[|stack| - 1])
                   case None => None
                   case Some(v) => EvalTokens(rest, stack[..|stack| - 2] + [v])
  {
    assert ([t] + rest)[1..] == rest;
  }

  lemma NumberToken(ds: string, rest: string)
    requires IsNumber(ds)
    ensures Tokens(ds + " " + rest) == [ds] + Tokens(rest)
  {
    TokensSplit(ds, rest, "");
    TokensWord(ds, "");
    assert "" + ds == ds;
  }

  lemma GluedTokens(stars: string, d: string)
    requires IsNumber(d) && forall x <- stars :: x == '*'
    ensures Tokens((stars + d) + " " + "+") == [stars + d] + ["+"]
  {
    var glued := stars + d;
    TokensSplit(glued, "+", "");
    TokensWord(glued, "");
    TokensWord("+", "");
    assert "" + glued == glued && "" + "+" == "+";
  }

  lemma NoTokens()
    ensures forall stack :: EvalTokens([], stack) == Some(stack)
  {}

  /** A literal alone is read exactly if and only if it is below 2^63; atoll clamps a larger one. */
  lemma LiteralExactIff(ds: string)
    requires IsNumber(ds)
    ensures EvalIntExpr(ds) == Some(DecimalValue(ds)) <==> DecimalValue(ds) <= LLONG_MAX
    ensures DecimalValue(ds) > LLONG_MAX ==> EvalIntExpr(ds) == Some(0x7FFF_FFFF_FFFF_FFFF)
  {
    hide Convert, Tokens, EvalTokens, DecimalValue;
    var e := One(Lit(ds));
    ConvertExpr(e);
    TokensOfExpr(e);
    assert Show(e) == ds && Rpn(e) == [ds] + [];
    EvalNumber(ds, [], []);
    NoTokens();
    LeadingIsAll(ds);
  }

  // ------------------------------------------------------------------
  // How many values an expression with early pops leaves
  // ------------------------------------------------------------------

  /** How often `e` pops early, with `hi` tight operators pending in its group, and how many operators in all. */
  function Events(e: Expr, hi: nat): nat {
    EventsF(e.f) + if e.One? then 0
                   else if Loose(e.op) then (if hi > 0 then 1 else 0) + Events(e.rest, 0)
                   else Events(e.rest, hi + 1)
  }

  function EventsF(f: Factor): nat { if f.Paren? then Events(f.e, 0) else 0 }

  function Popped(e: Expr, hi: nat): nat {
    PoppedF(e.f) + if e.One? then 0
                   else if Loose(e.op) then hi + Popped(e.rest, 0)
                   else Popped(e.rest, hi + 1)
  }

  function PoppedF(f: Factor): nat { if f.Paren? then Popped(f.e, 0) else 0 }

  lemma {:induction false} PopsIffEvents(e: Expr, top: Option<char>, hi: nat)
    requires WellFormed(e) && (top.Some? ==> IsOp(top.value)) && (hi > 0 <==> top.Some? && !Loose(top.value))
    ensures Pops(e, top) <==> Events(e, hi) > 0
    decreases e
  {
    if e.f.Paren? { PopsIffEvents(e.f.e, None, 0); }
    if e.More? { PopsIffEvents(e.rest, Some(e.op), if Loose(e.op) then 0 else hi + 1); }
  }

  function Weight(c: char): int { if c == ' ' then 0 else if IsDigit(c) then 1 else -1 }

  /** Numbers less operators, counting each token by its first character. */
  function Net(s: string): int {
    if s == "" then 0 else Net(Pop(s)) + if StartsToken(Pop(s)) then Weight(Top(s)) else 0
  }

  lemma NetSnoc(s: string, c: char)
    ensures Net(s + [c]) == Net(s) + if StartsToken(s) then Weight(c) else 0
  {
    assert Pop(s + [c]) == s;
  }

  lemma {:induction false} NetDigits(s: string, ds: string)
    requires AllDigits(ds) && ds != ""
    ensures Net(s + ds) == Net(s) + (if StartsToken(s) then 1 else 0) && !StartsToken(s + ds)
    decreases |ds|
  {
    hide Net;
    var init, c := Pop(ds), Top(ds);
    assert c in ds && s + ds == s + init + [c];
    NetSnoc(s + init, c);
    if init == "" {
      assert s + init == s;
    } else {
      assert forall x <- init :: x in ds;
      NetDigits(s, init);
    }
  }

  lemma NetOp(s: string, op: char)
    requires IsOp(op)
    ensures Net(s + " " + [op]) == Net(s) - 1 && !StartsToken(s + " " + [op])
  {
    hide Net;
    NetSnoc(s, ' ');
    NetSnoc(s + " ", op);
  }

  lemma {:induction false} NetDrain(s: string, ops: string)
    requires (forall c <- ops :: IsOp(c)) && !StartsToken(s)
    ensures Net(s + DrainText(ops)) == Net(s) - |ops| && !StartsToken(s + DrainText(ops))
    decreases |ops|
  {
    hide Net, StartsToken;
    if ops == "" {
      assert s + DrainText(ops) == s;
    } else {
      assert Top(ops) in ops && forall c <- Pop(ops) :: c in ops;
      NetOp(s, Top(ops));
      NetDrain(s + " " + [Top(ops)], Pop(ops));
      assert s + " " + [Top(ops)] + DrainText(Pop(ops)) == s + DrainText(ops);
    }
  }

  /** The tight operators on top. */
  function Hi(ops: string): nat { if ops != "" && !Loose(Top(ops)) then 1 + Hi(Pop(ops)) else 0 }

  lemma HiSnoc(ops: string, op: char)
    ensures Hi(ops + [op]) == if Loose(op) then 0 else Hi(ops) + 1
  {
    assert Pop(ops + [op]) == ops;
  }

  /** What is popped in one go makes one operator token at most, and what follows joins it. */
  lemma {:induction false} PopTighterNet(out: string, base: string, ops: string, op: char)
    returns (out': string, ops': string)
    requires GroupTop(base).None? && (forall c <- ops :: IsOp(c)) && IsOp(op) && out != ""
    ensures PopTighter(out, base + ops, op) == (out', base + ops') && (forall c <- ops' :: IsOp(c)) && out' != ""
    ensures var p := if Loose(op) then Hi(ops) else 0;
            && |ops'| == |ops| - p && Net(out') == Net(out) - (if p > 0 && StartsToken(out) then 1 else 0)
            && (if p > 0 then !StartsToken(out') else out' == out && ops' == ops)
            && (Loose(op) ==> Hi(ops') == 0)
    decreases |ops|
  {
    hide Net;
    out', ops' := out, ops;
    if ops == "" {
      assert base + ops == base;
    } else {
      assert Top(base + ops) == Top(ops) && Pop(base + ops) == base + Pop(ops) && Top(ops) in ops;
      if Binds(Top(ops), op) {
        assert forall c <- Pop(ops) :: c in ops;
        NetSnoc(out, Top(ops));
        assert !StartsToken(out + [Top(ops)]);
        out', ops' := PopTighterNet(out + [Top(ops)], base, Pop(ops), op);
      }
    }
  }

  lemma RunOpNet(out: string, base: string, ops: string, op: char, text: string) returns (out': string, ops': string)
    requires GroupTop(base).None? && (forall c <- ops :: IsOp(c)) && IsOp(op)
    ensures Run(Conv(out, base + ops), [op] + text) == Run(Conv(out', base + ops'), text)
    ensures forall c <- ops' :: IsOp(c)
    ensures Hi(ops') == if Loose(op) then 0 else Hi(ops) + 1
    ensures var p := if Loose(op) then Hi(ops) else 0;
            && |ops'| == |ops| - p + 1 && Net(out') == Net(out) - (if p > 0 then 1 else 0)
            && (StartsToken(out') <==> p == 0)
  {
    hide Run, PopTighter, Net;
    var _, _ := RunOpAny(out, base, ops, op, text);
    NetSnoc(out, ' ');
    var ops1;
    out', ops1 := PopTighterNet(out + " ", base, ops, op);
    SameSuffix(base, ops1, PopTighter(out + " ", base + ops, op).1);
    HiSnoc(ops1, op);
    ops' := ops1 + [op];
  }

  lemma SameSuffix(base: string, a: string, s: string)
    requires s == base + a
    ensures forall b: string {:trigger base + b} :: s == base + b ==> a == b
  {
    forall b: string | s == base + b ensures a == b { assert a == s[|base|..] == b; }
  }

  /** Numbers less operators, written or pending: a group adds 1, or 0 where it joins an operator, and p - 2 per early pop. */
  lemma {:induction false} RunNet(e: Expr, out: string, base: string, ops: string) returns (out': string, ops': string)
    requires WellFormed(e) && GroupTop(base).None? && forall c <- ops :: IsOp(c)
    ensures Run(Conv(out, base + ops), Show(e)) == Conv(out', base + ops')
    ensures (forall c <- ops' :: IsOp(c)) && !StartsToken(out')
    ensures Net(out') - |ops'| == Net(out) - |ops| + (if StartsToken(out) then 1 else 0)
                                  + Popped(e, Hi(ops)) - 2 * Events(e, Hi(ops))
    decreases e, 1
  {
    hide Run, GroupTop, Net, StartsToken, Hi;
    var stack := base + ops;
    var out1 := RunNetFactor(e.f, out, stack);
    if e.One? {
      assert Show(e) == ShowF(e.f);
      return out1, ops;
    }
    assert Show(e) == ShowF(e.f) + ([e.op] + Show(e.rest));
    RunConcat(Conv(out, stack), ShowF(e.f), [e.op] + Show(e.rest));
    var out2, ops2 := RunOpNet(out1, base, ops, e.op, Show(e.rest));
    out', ops' := RunNet(e.rest, out2, base, ops2);
  }

  lemma {:induction false} RunNetFactor(f: Factor, out: string, stack: string) returns (out': string)
    requires WellFormedF(f)
    ensures Run(Conv(out, stack), ShowF(f)) == Conv(out', stack) && !StartsToken(out')
    ensures Net(out') == Net(out) + (if StartsToken(out) then 1 else 0) + PoppedF(f) - 2 * EventsF(f)
    decreases f, 0
  {
    hide Run, Net, StartsToken;
    match f
    case Lit(ds) =>
      RunDigits(out, stack, ds);
      NetDigits(out, ds);
      out' := out + ds;
    case Paren(e) =>
      assert stack + "(" + "" == stack + "(" && Hi("") == 0;
      var out1, ops1 := RunNet(e, out, stack + "(", "");
      RunParen(Show(e), out, stack, out1, ops1);
      NetDrain(out1, ops1);
      out' := out1 + DrainText(ops1);
  }

  /** The same count over tokens, which is what an evaluation that succeeds leaves on the stack. */
  function NetTokens(ts: seq<string>): int {
    if ts == [] then 0 else (if ts[0] != "" && IsDigit(ts[0][0]) then 1 else -1) + NetTokens(ts[1..])
  }

  lemma {:induction false} EvalNet(ts: seq<string>, stack: seq<nat>)
    requires EvalTokens(ts, stack).Some?
    ensures |EvalTokens(ts, stack).value| == |stack| + NetTokens(ts)
    decreases |ts|
  {
    if ts != [] {
      var t := ts[0];
      if t != "" && IsDigit(t[0]) {
        EvalNet(ts[1..], stack + [Atoll(t)]);
      } else {
        var v := Exact(t[0], stack[|stack| - 2], stack[|stack| - 1]);
        EvalNet(ts[1..], stack[..|stack| - 2] + [v.value]);
      }
    }
  }

  function NetFrom(s: string, start: bool): int {
    if s == "" then 0 else (if start then Weight(s[0]) else 0) + NetFrom(s[1..], s[0] == ' ')
  }

  lemma {:induction false} NetFromSnoc(s: string, start: bool, c: char)
    ensures NetFrom(s + [c], start)
         == NetFrom(s, start) + if (if s == "" then start else Top(s) == ' ') then Weight(c) else 0
    decreases |s|
  {
    if s == "" {
      assert s + [c] == [c] && [c][1..] == "";
    } else {
      assert (s + [c])[1..] == s[1..] + [c];
      NetFromSnoc(s[1..], s[0] == ' ', c);
    }
  }

  lemma {:induction false} NetIsNetFrom(s: string)
    ensures Net(s) == NetFrom(s, true)
    decreases |s|
  {
    if s != "" {
      NetIsNetFrom(Pop(s));
      NetFromSnoc(Pop(s), true, Top(s));
      assert s == Pop(s) + [Top(s)];
    }
  }

  lemma {:induction false} TokensNet(s: string, cur: string)
    requires cur == "" || cur[0] != ' '
    ensures NetTokens(Tokens(s, cur)) == (if cur == "" then 0 else Weight(cur[0])) + NetFrom(s, cur == "")
    decreases |s|
  {
    var done: seq<string> := if cur == "" then [] else [cur];
    if s == "" {
      assert cur != "" ==> [cur][1..] == [];
    } else if s[0] == ' ' {
      TokensNet(s[1..], "");
      if cur == "" {
        assert done + Tokens(s[1..]) == Tokens(s[1..]);
      } else {
        assert (done + Tokens(s[1..]))[1..] == Tokens(s[1..]);
      }
    } else {
      TokensNet(s[1..], cur + [s[0]]);
    }
  }

  /** With E early pops of P operators in all, an evaluation that gets to the end leaves 1 + P - 2E values. */
  lemma EarlyPopsLeave(e: Expr)
    requires WellFormed(e)
    ensures var c := Convert(Show(e));
            && c.Conv?
            && (var r := EvalTokens(Tokens(c.out), []);
                r.Some? ==> |r.value| == 1 + Popped(e, 0) - 2 * Events(e, 0))
  {
    hide Run, Drain, Tokens, EvalTokens, Net, NetFrom, NetTokens, Popped, Events;
    NetOfNothing();
    assert "" + "" == "";
    var out, ops := RunNet(e, "", "", "");
    assert "" + ops == ops;
    DrainOps(out, ops);
    NetDrain(out, ops);
    var text := out + DrainText(ops);
    NetIsNetFrom(text);
    TokensNet(text, "");
    if EvalTokens(Tokens(text), []).Some? { EvalNet(Tokens(text), []); }
  }

  lemma NetOfNothing()
    ensures Net("") == 0 && Hi("") == 0 && GroupTop("").None?
  {}

  /** So an expression is refused whenever its early pops do not take two operators each, on average. */
  lemma EarlyPopsRefuse(e: Expr)
    requires WellFormed(e) && Popped(e, 0) != 2 * Events(e, 0)
    ensures EvalIntExpr(Show(e)).None?
  {
    hide Convert, Tokens, EvalTokens;
    EarlyPopsLeave(e);
  }

  /** a*b+c is refused: c joins the popped *, and + finds one operand. */
  lemma EarlyPopRefuses(a: string, b: string, c: string)
    requires IsNumber(a) && IsNumber(b) && IsNumber(c)
    ensures EvalIntExpr(a + ("*" + b) + ("+" + c)).None?
  {
    hide Convert, Tokens, EvalTokens, Exact, Atoll;
    EarlyPopText1(a, b, c);
    var glued := "*" + c;
    NumberToken(a, b + " " + (glued + " " + "+"));
    NumberToken(b, glued + " " + "+");
    GluedTokens("*", c);
    assert [glued] + ["+"] == [glued] + (["+"] + []);
    EvalNumber(a, [b] + ([glued] + ["+"]), []);
    EvalNumber(b, [glued] + ["+"], [] + [Atoll(a)]);
    EvalOperator(glued, ["+"], [] + [Atoll(a)] + [Atoll(b)]);
    var ab := Exact('*', Atoll(a), Atoll(b));
    if ab.Some? {
      assert ([] + [Atoll(a)] + [Atoll(b)])[..0] + [ab.value] == [ab.value];
      assert ["+"] == ["+"] + [];
      EvalOperator("+", [], [ab.value]);
    }
  }

  lemma RunTimes(a: string, b: string)
    requires IsNumber(a) && IsNumber(b)
    ensures Run(Conv("", ""), a + ("*" + b)) == Conv(a + " " + b, "*")
  {
    hide Run, Step;
    RunConcat(Conv("", ""), a, "*" + b);
    RunDigits("", "", a);
    assert "" + a == a && "" + "*" == "*";
    RunOpDigits(a, "", '*', b, a + " ", "");
  }

  /** A final +d behind stacked *: they are all written without a blank, and d follows them directly. */
  lemma PlusAtEnd(text: string, out: string, stars: string, d: string)
    requires Run(Conv("", ""), text) == Conv(out, stars) && IsNumber(d)
    requires forall c <- stars :: c == '*'
    ensures Convert(text + ("+" + d)) == Conv(out + " " + stars + d + " +", "")
  {
    hide Run, Step, Drain, PopTighter;
    RunConcat(Conv("", ""), text, "+" + d);
    PopStars(out + " ", stars);
    RunOpDigits(out, stars, '+', d, out + " " + stars, "");
    assert "" + "+" == "+";
    DrainPlus(out + " " + stars + d);
  }

  lemma DrainPlus(out: string)
    ensures Drain(Conv(out, "+")) == Conv(out + " +", "")
  {
    DrainOps(out, "+");
    assert Pop("+") == "" && DrainText("") == "";
    assert DrainText("+") == " +";
  }

  lemma {:induction false} PopStars(out: string, stars: string)
    requires forall c <- stars :: c == '*'
    ensures PopTighter(out, stars, '+') == (out + stars, "")
    decreases |stars|
  {
    if stars == "" {
      assert out + stars == out;
    } else {
      assert Top(stars) in stars;
      assert forall c <- Pop(stars) :: c in stars;
      PopStars(out + [Top(stars)], Pop(stars));
      assert [Top(stars)] + Pop(stars) == stars by { forall i | 0 <= i < |stars| ensures stars[i] == '*' { assert stars[i] in stars; } }
      assert out + [Top(stars)] + Pop(stars) == out + ([Top(stars)] + Pop(stars));
    }
  }

  lemma EarlyPopText1(a: string, b: string, c: string)
    requires IsNumber(a) && IsNumber(b) && IsNumber(c)
    ensures Convert(a + ("*" + b) + ("+" + c)) == Conv(a + " " + (b + " " + (("*" + c) + " " + "+")), "")
  {
    hide Convert, Run;
    RunTimes(a, b);
    PlusAtEnd(a + ("*" + b), a + " " + b, "*", c);
    assert a + " " + b + " " + "*" + c + " +" == a + " " + (b + " " + (("*" + c) + " " + "+"));
  }

  /** a*b*c+d is accepted as a+(b*c): the second * and d are lost in the token of the first. */
  lemma EarlyPopMisreads(a: string, b: string, c: string, d: string)
    requires IsNumber(a) && IsNumber(b) && IsNumber(c) && IsNumber(d)
    ensures EvalIntExpr(a + ("*" + b) + ("*" + c) + ("+" + d)) ==
              match Exact('*', Atoll(b), Atoll(c))
              case None => None
              case Some(bc) => Exact('+', Atoll(a), bc)
  {
    hide Convert, Tokens, EvalTokens, Exact, Atoll;
    EarlyPopText2(a, b, c, d);
    var glued := "**" + d;
    NumberToken(a, b + " " + (c + " " + (glued + " " + "+")));
    NumberToken(b, c + " " + (glued + " " + "+"));
    NumberToken(c, glued + " " + "+");
    GluedTokens("**", d);
    NoTokens();
    var A, B, C := Atoll(a), Atoll(b), Atoll(c);
    EvalNumber(a, [b] + ([c] + ([glued] + ["+"])), []);
    EvalNumber(b, [c] + ([glued] + ["+"]), [] + [A]);
    EvalNumber(c, [glued] + ["+"], [] + [A] + [B]);
    EvalOperator(glued, ["+"], [] + [A] + [B] + [C]);
    var bc := Exact('*', B, C);
    if bc.Some? {
      assert ([] + [A] + [B] + [C])[..1] + [bc.value] == [A, bc.value];
      assert ["+"] == ["+"] + [];
      EvalOperator("+", [], [A, bc.value]);
    }
  }

  lemma EarlyPopText2(a: string, b: string, c: string, d: string)
    requires IsNumber(a) && IsNumber(b) && IsNumber(c) && IsNumber(d)
    ensures Convert(a + ("*" + b) + ("*" + c) + ("+" + d))
         == Conv(a + " " + (b + " " + (c + " " + (("**" + d) + " " + "+"))), "")
  {
    hide Convert, Run;
    RunTimes(a, b);
    var out := a + " " + b;
    RunConcat(Conv("", ""), a + ("*" + b), "*" + c);
    RunOpDigits(out, "*", '*', c, out + " ", "*");
    assert "*" + "*" == "**";
    PlusAtEnd(a + ("*" + b) + ("*" + c), out + " " + c, "**", d);
    assert out + " " + c + " " + "**" + d + " +" == a + " " + (b + " " + (c + " " + (("**" + d) + " " + "+")));
  }
}
