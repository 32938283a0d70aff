/**
 * The numeric and string part of translateExpr's binary-expression branch,
 * with operand types reduced to their underlying kind.
 *
 * `!=` is lowered through the lowering of `==`; numeric operators pick a
 * pattern by operator and kind, run it through the template engine and,
 * where the compiler does, through fixNumber; `+` on strings becomes Lua's
 * `..`. Branches that depend on type names, on the suspension-point
 * protocol or on complex arithmetic are outside this model: the function
 * answers None for them.
 */
module BinaryOps {
  import opened Outcome
  import opened Text
  import opened GoTypes
  import opened Expressions
  import opened Template
  import opened Patterns
  import opened Constants

  /**
   * The type that selects the branch: the left operand's, unless the right
   * operand is an interface or the left one is the untyped nil.
   */
  function OperandType(x: Operand, y: Operand): (t: Type)
    requires x.Expr? && y.Expr?
    ensures t == x.ty || t == y.ty
  {
    if y.ty.Interface? || x.ty == Basic(UntypedNil) then y.ty else x.ty
  }

  /** fixNumber applied to the result of a pattern, when there is one. */
  function Fix(r: Result<Expression>, k: Kind, counter: nat, lower: nat -> Expression): Result<Expression>
  {
    if r.Fatal? then Fatal else FixNumber(r.value, k, counter, lower)
  }

  /** The spelling of a shift operator: `>>` on an unsigned kind is `>>>`. */
  function ShiftSpelling(op: Token, k: Kind): string
  {
    if op == Shr && IsUnsigned(k) then ">>>" else Spelling(op)
  }

  /**
   * A shift on a numeric kind. A constant shift amount of 32 or more gives
   * "0"; a smaller one is printed as a decimal; a variable right shift of a
   * signed kind is capped at 31; any other variable shift goes through a
   * fresh temporary `y`.
   */
  function Shift(op: Token, k: Kind, x: Operand, y: Operand, counter: nat, lower: nat -> Expression): Result<Expression>
    requires x.Expr? && y.Expr?
  {
    var opText := ShiftSpelling(op, k);
    if y.value.Some? then
      var i := Uint64Val(ConstInt(y.value.value));
      if i >= 32 then Format("0", [], false, counter, lower)
      else Fix(Format("%e %s %s", [x, Str(opText), Str(NatToDecimal(i))], false, counter, lower), k, counter, lower)
    else if op == Shr && !IsUnsigned(k) then
      Fix(Format("%e >> $min(%f, 31)", [x, y], true, counter, lower), k, counter, lower)
    else
      var v := TempName("y", counter);
      Fix(Format("(%s = %f, %s < 32 ? (%e %s %s) : 0)", [Str(v), y, Str(v), x, Str(opText), Str(v)], false, counter + 1, lower),
          k, counter + 1, lower)
  }

  /**
   * The formatExpr call a numeric operator makes: the pattern, the
   * operands, the parenthesisation flag, and whether the result then goes
   * through fixNumber.
   */
  datatype FormatCall = FormatCall(pattern: string, args: seq<Operand>, parens: bool, thenFix: bool)

  /** A binary operator on two operands of a numeric kind k other than complex. */
  function NumericBinary(op: Token, k: Kind, x: Operand, y: Operand, counter: nat, lower: nat -> Expression): Result<Expression>
    requires x.Expr? && y.Expr?
  {
    match op
    case Shl | Shr => Shift(op, k, x, y, counter, lower)
    case _ => Run(NumericCall(op, k, x, y), k, counter, lower)
  }

  /** The call each of the other numeric operators makes; None for a token the switch has no case for. */
  function NumericCall(op: Token, k: Kind, x: Operand, y: Operand): Option<FormatCall>
  {
    match op
    case Eql => Some(FormatCall("%e == %e", [x, y], true, false))
    case Lss | Leq | Gtr | Geq => Some(FormatCall("%e %t %e", [x, Tok(op), y], false, false))
    case Add | Sub => Some(FormatCall("%e %t %e", [x, Tok(op), y], false, true))
    case Mul =>
      if k == Int32 || k == Kind.Int || k == Uint32 || k == Uintptr then Some(FormatCall("(%e * %e)", [x, y], true, false))
      else Some(FormatCall("%e * %e", [x, y], false, true))
    case Quo =>
      if IsInteger(k) then Some(FormatCall("__integerByZeroCheck(%1e / %2e)", [x, y], false, false))
      else if k == Float32 then Some(FormatCall("%e / %e", [x, y], false, true))
      else Some(FormatCall("%e / %e", [x, y], false, false))
    case Rem => Some(FormatCall("__integerByZeroCheck(%1e %% %2e)", [x, y], false, false))
    case And | Or =>
      if IsUnsigned(k) then Some(FormatCall("(%e %t %e) >>> 0", [x, Tok(op), y], true, false))
      else Some(FormatCall("%e %t %e", [x, Tok(op), y], true, false))
    case AndNot => Some(FormatCall("%e & ~%e", [x, y], true, true))
    case Xor => Some(FormatCall("%e ^ %e", [x, y], true, true))
    case _ => None
  }

  /** Makes the call, then applies fixNumber for kind k where the call asks for it; no call is an internal error. */
  function Run(call: Option<FormatCall>, k: Kind, counter: nat, lower: nat -> Expression): Result<Expression>
  {
    if call.None? then Fatal
    else
      var c := call.value;
      var r := Format(c.pattern, c.args, c.parens, counter, lower);
      if c.thenFix then Fix(r, k, counter, lower) else r
  }


  /**
   * A binary operator whose operand type is not numeric. `&&` and `||`
   * with a right operand that may suspend, and `==` (which depends on the
   * type's shape and name), are outside this model.
   */
  function OtherBinary(op: Token, x: Operand, y: Operand, blocking: bool, counter: nat, lower: nat -> Expression): Option<Result<Expression>>
    requires x.Expr? && y.Expr?
  {
    if op == Add && x.ty.Basic? && IsString(x.ty.kind) then Some(Format("%e .. %e", [x, y], false, counter, lower))
    else if op == Add || op == Lss || op == Leq || op == Gtr || op == Geq then
      Some(Format("%e %t %e", [x, Tok(op), y], false, counter, lower))
    else if op == LAnd then (if blocking then None else Some(Format("%e and %e", [x, y], false, counter, lower)))
    else if op == LOr then (if blocking then None else Some(Format("%e or %e", [x, y], false, counter, lower)))
    else if op == Eql then None
    else Some(Fatal)
  }

  /**
   * translateExpr on a binary expression `x op y`; `blocking` says whether
   * the right operand may suspend. None marks a branch outside this model.
   */
  function TranslateBinary(op: Token, x: Operand, y: Operand, blocking: bool, counter: nat, lower: nat -> Expression): Option<Result<Expression>>
    requires x.Expr? && y.Expr?
  {
    if op == Neq then
      var eq := TranslateTyped(Eql, x, y, blocking, counter, lower);
      if eq.None? || eq.value.Fatal? then eq
      else Some(Format(" not (%s)", [Lowered(eq.value.value)], false, counter, lower))
    else TranslateTyped(op, x, y, blocking, counter, lower)
  }

  /** Every operator but `!=`, dispatched on the operand type. */
  function TranslateTyped(op: Token, x: Operand, y: Operand, blocking: bool, counter: nat, lower: nat -> Expression): Option<Result<Expression>>
    requires x.Expr? && y.Expr?
  {
    var t := OperandType(x, y);
    if t.Basic? && IsNumeric(t.kind) then
      if IsComplex(t.kind) then None else Some(NumericBinary(op, t.kind, x, y, counter, lower))
    else OtherBinary(op, x, y, blocking, counter, lower)
  }


  /** The operand type is numeric and not complex. */
  predicate RealNumeric(x: Operand, y: Operand)
    requires x.Expr? && y.Expr?
  {
    var t := OperandType(x, y);
    t.Basic? && IsNumeric(t.kind) && !IsComplex(t.kind)
  }

  // ---------------------------------------------------------------------
  // What the branch's patterns print

  /** `%e<word>%e` prints the two operands around the word. */
  lemma BareInfixText(p: string, word: string, x: Operand, y: Operand, parens: bool, counter: nat, lower: nat -> Expression)
    requires x.Expr? && y.Expr? && '%' !in word
    requires p == "%e" + word + "%e"
    ensures Format(p, [x, y], parens, counter, lower) == Ok(Expression(ExprText(x, lower) + word + ExprText(y, lower), parens))
  {
    var sx, sy := ExprText(x, lower), ExprText(y, lower);
    assert ERef(false, 0) == "%e" && ERef(false, 1) == "%e";
    assert "" + (ERef(false, 0) + (word + (ERef(false, 1) + ""))) == "%e" + word + "%e";
    assert "" + (sx + (word + (sy + ""))) == sx + word + sy;
    FormatTwoExprs("", word, "", x, y, false, parens, counter, lower);
  }

  /** Text, two explicit expression references around `word`, and text. */
  lemma InfixText(p: string, t0: string, t1: string, t2: string, x: Operand, y: Operand, explicit: bool,
                  parens: bool, counter: nat, lower: nat -> Expression)
    requires x.Expr? && y.Expr? && '%' !in t0 && '%' !in t1 && '%' !in t2
    requires p == t0 + (ERef(explicit, 0) + (t1 + (ERef(explicit, 1) + t2)))
    ensures Format(p, [x, y], parens, counter, lower)
         == Ok(Expression(t0 + ExprText(x, lower) + t1 + ExprText(y, lower) + t2, parens))
  {
    FormatTwoExprs(t0, t1, t2, x, y, explicit, parens, counter, lower);
    var sx, sy := ExprText(x, lower), ExprText(y, lower);
    assert t0 + (sx + (t1 + (sy + t2))) == t0 + sx + t1 + sy + t2;
  }

  /**
   * Explicit references to two operands on either side of `%%`, between
   * text without '%', print a '%' between the operands.
   */
  lemma PercentText(p: string, t0: string, t1: string, t2: string, t3: string, x: Operand, y: Operand,
                    parens: bool, counter: nat, lower: nat -> Expression)
    requires x.Expr? && y.Expr? && '%' !in t0 && '%' !in t1 && '%' !in t2 && '%' !in t3
    requires p == (t0 + (ERef(true, 0) + t1)) + ("%%" + (t2 + (ERef(true, 1) + t3)))
    ensures Format(p, [x, y], parens, counter, lower)
         == Ok(Expression(t0 + ExprText(x, lower) + t1 + "%" + t2 + ExprText(y, lower) + t3, parens))
  {
    FormatPercentBetween(t0, t1, t2, t3, x, y, parens, counter, lower);
    PercentPieces(t0, ExprText(x, lower), t1, t2, ExprText(y, lower), t3);
  }

  /*
   * The regroupings below are kept out of the lemmas that use them: stated
   * inline, the concrete text equalities swamp those larger proofs.
   */
  lemma PercentPieces(t0: string, sx: string, t1: string, t2: string, sy: string, t3: string)
    ensures (t0 + (sx + t1)) + ("%" + (t2 + (sy + t3))) == t0 + sx + t1 + "%" + t2 + sy + t3
  {
  }

  lemma ShiftPieces(sx: string, opText: string, amount: string)
    ensures "%e %s %s" == "%e" + (" " + ("%s" + (" " + "%s")))
    ensures sx + (" " + (opText + (" " + amount))) == sx + " " + opText + " " + amount
  {
  }

  /** The integer-division pattern, regrouped as InfixText reads it. */
  lemma QuotientPieces()
    ensures "__integerByZeroCheck(%1e / %2e)" == "__integerByZeroCheck(" + (ERef(true, 0) + (" / " + (ERef(true, 1) + ")")))
    ensures '%' !in "__integerByZeroCheck(" && '%' !in " / " && '%' !in ")"
  {
  }

  /** The `!=` text: the parenthesised `==` text inside " not (" and ")". */
  lemma NotEqualPieces(sx: string, sy: string)
    ensures " not (" + StringWithParens(Expression(sx + " == " + sy, true)) + ")" == " not ((" + sx + " == " + sy + "))"
  {
  }

  /** `%e %t %e` prints the operator as Go spells it between the operands. */
  lemma TokenInfixText(p: string, x: Operand, op: Token, y: Operand, parens: bool, counter: nat, lower: nat -> Expression)
    requires x.Expr? && y.Expr? && p == "%e %t %e"
    ensures Format(p, [x, Tok(op), y], parens, counter, lower)
         == Ok(Expression(ExprText(x, lower) + " " + Spelling(op) + " " + ExprText(y, lower), parens))
  {
    var sx, word, sy := ExprText(x, lower), Spelling(op), ExprText(y, lower);
    assert "" + ("%e" + (" " + ("%t" + (" " + ("%e" + ""))))) == "%e %t %e";
    assert "" + (sx + (" " + (word + (" " + (sy + ""))))) == sx + " " + word + " " + sy;
    FormatExprTokenExpr("", "", x, op, y, parens, counter, lower);
  }

  /** `%e %s %s` prints the operand and the two strings, separated by blanks. */
  lemma ShiftAmountText(p: string, x: Operand, opText: string, amount: string, counter: nat, lower: nat -> Expression)
    requires x.Expr? && p == "%e" + (" " + ("%s" + (" " + "%s")))
    ensures Format(p, [x, Str(opText), Str(amount)], false, counter, lower)
         == Ok(Expression(ExprText(x, lower) + (" " + (opText + (" " + amount))), false))
  {
    var args := [x, Str(opText), Str(amount)];
    var ps := ShiftAmountPieces();
    ShiftAmountFacts(args, lower);
    FormatPieces(ps, args, false, counter, lower);
  }

  /** The pieces of `%e %s %s`. */
  function ShiftAmountPieces(): Pieces
  {
    Then(Ref('e', false), Then(Text(" "), Then(Ref('s', false), Then(Text(" "), Then(Ref('s', false), Done)))))
  }

  lemma ShiftAmountFacts(args: seq<Operand>, lower: nat -> Expression)
    requires |args| == 3 && args[0].Expr? && args[1].Str? && args[2].Str?
    ensures Plain(ShiftAmountPieces()) && RefsIn(ShiftAmountPieces()) == 3
    ensures Pattern(ShiftAmountPieces()) == "%e" + (" " + ("%s" + (" " + "%s")))
    ensures Output(ShiftAmountPieces(), args, lower)
         == Some(ExprText(args[0], lower) + (" " + (args[1].s + (" " + args[2].s))))
  {
    var p4 := Then(Ref('s', false), Done);
    var p3 := Then(Text(" "), p4);
    var p2 := Then(Ref('s', false), p3);
    var p1 := Then(Text(" "), p2);
    assert Plain(p3) && Plain(p1);
    assert "%s" + "" == "%s";
    assert PatternFrom(p4, 2) == "%s";
    assert PatternFrom(p2, 1) == "%s" + (" " + "%s");
    ExprRef(0, args, lower);
    StringRef(1, args, lower);
    StringRef(2, args, lower);
    assert args[2].s + "" == args[2].s;
    assert OutputFrom(p4, 2, args, lower) == Some(args[2].s);
    assert OutputFrom(p3, 2, args, lower) == Some(" " + args[2].s);
    assert OutputFrom(p2, 1, args, lower) == Some(args[1].s + (" " + args[2].s));
    assert OutputFrom(p1, 1, args, lower) == Some(" " + (args[1].s + (" " + args[2].s)));
  }

  // ---------------------------------------------------------------------
  // What each operator lowers to

  /**
   * `x != y` is the lowering of `x == y`, negated: " not (", the `==`
   * lowering with its own parentheses if flagged, and ")". When `==` fails
   * or is outside the model, so is `!=`.
   */
  lemma NotEqualNegatesEqual(x: Operand, y: Operand, blocking: bool, counter: nat, lower: nat -> Expression)
    requires x.Expr? && y.Expr?
    ensures var eq := TranslateBinary(Eql, x, y, blocking, counter, lower);
      TranslateBinary(Neq, x, y, blocking, counter, lower)
      == if eq.None? || eq.value.Fatal? then eq
         else Some(Ok(Expression(" not (" + StringWithParens(eq.value.value) + ")", false)))
  {
    var eq := TranslateBinary(Eql, x, y, blocking, counter, lower);
    if eq.Some? && eq.value.Ok? {
      var e := eq.value.value;
      assert " not (" + ("%s" + ")") == " not (%s)";
      FormatStringBetween(" not (", Lowered(e), ")", false, counter, lower);
      assert " not (" + (StringText(Lowered(e)) + ")") == " not (" + StringWithParens(e) + ")";
    }
  }

  /** `==` on numbers prints both operands around `==` and asks for parentheses. */
  lemma NumericEqualText(x: Operand, y: Operand, blocking: bool, counter: nat, lower: nat -> Expression)
    requires x.Expr? && y.Expr? && RealNumeric(x, y)
    ensures TranslateBinary(Eql, x, y, blocking, counter, lower)
         == Some(Ok(Expression(ExprText(x, lower) + " == " + ExprText(y, lower), true)))
  {
    NumericDispatch(Eql, x, y, blocking, counter, lower);
    EqualCase(OperandType(x, y).kind, x, y, counter, lower);
    BareInfixText("%e == %e", " == ", x, y, true, counter, lower);
  }

  lemma EqualCase(k: Kind, x: Operand, y: Operand, counter: nat, lower: nat -> Expression)
    requires x.Expr? && y.Expr?
    ensures NumericBinary(Eql, k, x, y, counter, lower) == Format("%e == %e", [x, y], true, counter, lower)
  {
    var c := FormatCall("%e == %e", [x, y], true, false);
    RunsCall(Eql, k, x, y, counter, lower);
    assert NumericCall(Eql, k, x, y) == Some(c);
    RunCall(c, k, counter, lower);
  }

  /** So `!=` on numbers is `not` applied to the parenthesised comparison. */
  lemma NumericNotEqualText(x: Operand, y: Operand, blocking: bool, counter: nat, lower: nat -> Expression)
    requires x.Expr? && y.Expr? && RealNumeric(x, y)
    ensures TranslateBinary(Neq, x, y, blocking, counter, lower)
         == Some(Ok(Expression(" not ((" + ExprText(x, lower) + " == " + ExprText(y, lower) + "))", false)))
  {
    NumericEqualText(x, y, blocking, counter, lower);
    NotEqualNegatesEqual(x, y, blocking, counter, lower);
    NotEqualPieces(ExprText(x, lower), ExprText(y, lower));
  }

  /**
   * Integer division and remainder are always wrapped in the runtime's
   * zero-divisor check, with the operator between the two operands.
   */
  lemma IntegerDivisionGuarded(op: Token, x: Operand, y: Operand, blocking: bool, counter: nat, lower: nat -> Expression)
    requires x.Expr? && y.Expr? && RealNumeric(x, y) && IsInteger(OperandType(x, y).kind)
    requires op == Quo || op == Rem
    ensures TranslateBinary(op, x, y, blocking, counter, lower)
         == Some(Ok(Expression("__integerByZeroCheck(" + ExprText(x, lower) + (if op == Quo then " / " else " % ")
                               + ExprText(y, lower) + ")", false)))
  {
    if op == Quo {
      QuotientGuarded(x, y, blocking, counter, lower);
    } else {
      RemainderGuarded(x, y, blocking, counter, lower);
    }
  }

  lemma QuotientGuarded(x: Operand, y: Operand, blocking: bool, counter: nat, lower: nat -> Expression)
    requires x.Expr? && y.Expr? && RealNumeric(x, y) && IsInteger(OperandType(x, y).kind)
    ensures TranslateBinary(Quo, x, y, blocking, counter, lower)
         == Some(Ok(Expression("__integerByZeroCheck(" + ExprText(x, lower) + " / " + ExprText(y, lower) + ")", false)))
  {
    NumericDispatch(Quo, x, y, blocking, counter, lower);
    QuotientCase(OperandType(x, y).kind, x, y, counter, lower);
    QuotientPieces();
    InfixText("__integerByZeroCheck(%1e / %2e)", "__integerByZeroCheck(", " / ", ")", x, y, true, false, counter, lower);
  }

  lemma QuotientCase(k: Kind, x: Operand, y: Operand, counter: nat, lower: nat -> Expression)
    requires x.Expr? && y.Expr? && IsInteger(k)
    ensures NumericBinary(Quo, k, x, y, counter, lower) == Format("__integerByZeroCheck(%1e / %2e)", [x, y], false, counter, lower)
  {
    var c := FormatCall("__integerByZeroCheck(%1e / %2e)", [x, y], false, false);
    RunsCall(Quo, k, x, y, counter, lower);
    assert NumericCall(Quo, k, x, y) == Some(c);
    RunCall(c, k, counter, lower);
  }

  lemma RemainderGuarded(x: Operand, y: Operand, blocking: bool, counter: nat, lower: nat -> Expression)
    requires x.Expr? && y.Expr? && RealNumeric(x, y)
    ensures TranslateBinary(Rem, x, y, blocking, counter, lower)
         == Some(Ok(Expression("__integerByZeroCheck(" + ExprText(x, lower) + " % " + ExprText(y, lower) + ")", false)))
  {
    NumericDispatch(Rem, x, y, blocking, counter, lower);
    RemainderCase(OperandType(x, y).kind, x, y, counter, lower);
    RemainderText(x, y, counter, lower);
  }

  lemma RemainderCase(k: Kind, x: Operand, y: Operand, counter: nat, lower: nat -> Expression)
    requires x.Expr? && y.Expr?
    ensures NumericBinary(Rem, k, x, y, counter, lower) == Format("__integerByZeroCheck(%1e %% %2e)", [x, y], false, counter, lower)
  {
    var c := FormatCall("__integerByZeroCheck(%1e %% %2e)", [x, y], false, false);
    RunsCall(Rem, k, x, y, counter, lower);
    assert NumericCall(Rem, k, x, y) == Some(c);
    RunCall(c, k, counter, lower);
  }


  /** `__integerByZeroCheck(%1e %% %2e)` prints Lua's `%` between the two operands. */
  lemma RemainderText(x: Operand, y: Operand, counter: nat, lower: nat -> Expression)
    requires x.Expr? && y.Expr?
    ensures Format("__integerByZeroCheck(%1e %% %2e)", [x, y], false, counter, lower)
         == Ok(Expression("__integerByZeroCheck(" + ExprText(x, lower) + " % " + ExprText(y, lower) + ")", false))
  {
    var sx, sy := ExprText(x, lower), ExprText(y, lower);
    assert "__integerByZeroCheck(%1e %% %2e)"
        == ("__integerByZeroCheck(" + (ERef(true, 0) + " ")) + ("%%" + (" " + (ERef(true, 1) + ")")));
    assert "__integerByZeroCheck(" + sx + " " + "%" + " " + sy + ")" == "__integerByZeroCheck(" + sx + " % " + sy + ")";
    PercentText("__integerByZeroCheck(%1e %% %2e)", "__integerByZeroCheck(", " ", " ", ")", x, y, false, counter, lower);
  }

  /** A constant shift amount of 32 or more lowers to the literal 0, whatever the shifted operand. */
  lemma WideConstantShiftIsZero(op: Token, x: Operand, y: Operand, blocking: bool, counter: nat, lower: nat -> Expression)
    requires x.Expr? && y.Expr? && RealNumeric(x, y) && (op == Shl || op == Shr)
    requires y.value.Some? && Uint64Val(ConstInt(y.value.value)) >= 32
    ensures TranslateBinary(op, x, y, blocking, counter, lower) == Some(Ok(Expression("0", false)))
  {
    var k := OperandType(x, y).kind;
    ShiftDispatch(op, x, y, blocking, counter, lower);
    assert Shift(op, k, x, y, counter, lower) == Format("0", [], false, counter, lower);
    RenderProps.LiteralPattern("0", [], false, counter, lower);
  }

  /**
   * A constant shift amount below 32 is printed in decimal after the
   * operator (`>>>` for a right shift of an unsigned kind), and the result
   * goes through fixNumber: for an integer kind, flagged for parentheses.
   */
  lemma NarrowConstantShiftText(op: Token, x: Operand, y: Operand, blocking: bool, counter: nat, lower: nat -> Expression)
    requires x.Expr? && y.Expr? && RealNumeric(x, y) && (op == Shl || op == Shr)
    requires Wrapped(OperandType(x, y).kind)
    requires y.value.Some? && Uint64Val(ConstInt(y.value.value)) < 32
    ensures var i := Uint64Val(ConstInt(y.value.value));
      TranslateBinary(op, x, y, blocking, counter, lower)
      == Some(Ok(Expression(ExprText(x, lower) + " " + ShiftSpelling(op, OperandType(x, y).kind) + " " + NatToDecimal(i), true)))
  {
    var k := OperandType(x, y).kind;
    var opText, amount := ShiftSpelling(op, k), NatToDecimal(Uint64Val(ConstInt(y.value.value)));
    ShiftDispatch(op, x, y, blocking, counter, lower);
    var f := Format("%e %s %s", [x, Str(opText), Str(amount)], false, counter, lower);
    assert Shift(op, k, x, y, counter, lower) == Fix(f, k, counter, lower);
    ShiftPieces(ExprText(x, lower), opText, amount);
    ShiftAmountText("%e %s %s", x, opText, amount, counter, lower);
    var e := Expression(ExprText(x, lower) + " " + opText + " " + amount, false);
    assert f == Ok(e);
    FixNumberText(e, k, counter, lower);
  }

  /** Every operator but `!=` on a real numeric operand type goes to the numeric branch. */
  lemma NumericDispatch(op: Token, x: Operand, y: Operand, blocking: bool, counter: nat, lower: nat -> Expression)
    requires x.Expr? && y.Expr? && RealNumeric(x, y) && op != Neq
    ensures TranslateBinary(op, x, y, blocking, counter, lower) == Some(NumericBinary(op, OperandType(x, y).kind, x, y, counter, lower))
  {
    assert TranslateBinary(op, x, y, blocking, counter, lower) == TranslateTyped(op, x, y, blocking, counter, lower);
  }

  /** A shift on a real numeric operand type goes to the shift branch. */
  lemma ShiftDispatch(op: Token, x: Operand, y: Operand, blocking: bool, counter: nat, lower: nat -> Expression)
    requires x.Expr? && y.Expr? && RealNumeric(x, y) && (op == Shl || op == Shr)
    ensures TranslateBinary(op, x, y, blocking, counter, lower) == Some(Shift(op, OperandType(x, y).kind, x, y, counter, lower))
  {
    NumericDispatch(op, x, y, blocking, counter, lower);
    ShiftCase(op, OperandType(x, y).kind, x, y, counter, lower);
  }

  lemma ShiftCase(op: Token, k: Kind, x: Operand, y: Operand, counter: nat, lower: nat -> Expression)
    requires x.Expr? && y.Expr? && (op == Shl || op == Shr)
    ensures NumericBinary(op, k, x, y, counter, lower) == Shift(op, k, x, y, counter, lower)
  {
  }



  /**
   * `+`, `-` and the comparisons print the operator as Go spells it
   * between the operands; `+` and `-` then go through fixNumber, which
   * flags an integer result for parentheses and leaves a float one alone.
   */
  lemma ArithmeticText(op: Token, x: Operand, y: Operand, blocking: bool, counter: nat, lower: nat -> Expression)
    requires x.Expr? && y.Expr? && RealNumeric(x, y)
    requires op in {Add, Sub, Lss, Leq, Gtr, Geq}
    requires var k := OperandType(x, y).kind; Wrapped(k) || k == Float32 || k == Float64
    ensures TranslateBinary(op, x, y, blocking, counter, lower)
         == Some(Ok(Expression(ExprText(x, lower) + " " + Spelling(op) + " " + ExprText(y, lower),
                               (op == Add || op == Sub) && Wrapped(OperandType(x, y).kind))))
  {
    var k := OperandType(x, y).kind;
    NumericDispatch(op, x, y, blocking, counter, lower);
    TokenCase(op, k, x, y, counter, lower);
    var f := Format("%e %t %e", [x, Tok(op), y], false, counter, lower);
    TokenInfixText("%e %t %e", x, op, y, false, counter, lower);
    var e := Expression(ExprText(x, lower) + " " + Spelling(op) + " " + ExprText(y, lower), false);
    assert f == Ok(e);
    FixNumberText(e, k, counter, lower);
  }

  /**
   * `+` and `-` on uint64 operands: the sum is formatted and handed to
   * fixNumber, which as written reaches its default case, so the source
   * panics where the corrected lowering of ArithmeticText succeeds.
   */
  lemma Uint64ArithmeticAsWritten(op: Token, x: Operand, y: Operand, blocking: bool, counter: nat, lower: nat -> Expression)
    requires x.Expr? && y.Expr? && RealNumeric(x, y) && OperandType(x, y).kind == Uint64
    requires op == Add || op == Sub
    ensures var f := Format("%e %t %e", [x, Tok(op), y], false, counter, lower);
      && f == Ok(Expression(ExprText(x, lower) + " " + Spelling(op) + " " + ExprText(y, lower), false))
      && TranslateBinary(op, x, y, blocking, counter, lower) == Some(Fix(f, Uint64, counter, lower))
      && FixNumberAsWritten(f.value, Uint64, counter, lower) == Fatal
  {
    NumericDispatch(op, x, y, blocking, counter, lower);
    TokenCase(op, Uint64, x, y, counter, lower);
    TokenInfixText("%e %t %e", x, op, y, false, counter, lower);
    var f := Format("%e %t %e", [x, Tok(op), y], false, counter, lower);
    FixNumberAsWrittenRejectsUint64(f.value, counter, lower);
  }

  /** The arithmetic operators and comparisons print the token between the operands; `+` and `-` then go through fixNumber. */
  lemma TokenCase(op: Token, k: Kind, x: Operand, y: Operand, counter: nat, lower: nat -> Expression)
    requires x.Expr? && y.Expr? && op in {Add, Sub, Lss, Leq, Gtr, Geq}
    ensures var f := Format("%e %t %e", [x, Tok(op), y], false, counter, lower);
      NumericBinary(op, k, x, y, counter, lower) == if op == Add || op == Sub then Fix(f, k, counter, lower) else f
  {
    var c := FormatCall("%e %t %e", [x, Tok(op), y], false, op == Add || op == Sub);
    RunsCall(op, k, x, y, counter, lower);
    assert NumericCall(op, k, x, y) == Some(c);
    RunCall(c, k, counter, lower);
  }

  /** Every numeric operator but a shift runs the call the table gives it. */
  lemma RunsCall(op: Token, k: Kind, x: Operand, y: Operand, counter: nat, lower: nat -> Expression)
    requires x.Expr? && y.Expr? && op != Shl && op != Shr
    ensures NumericBinary(op, k, x, y, counter, lower) == Run(NumericCall(op, k, x, y), k, counter, lower)
  {
  }

  /** Running a call is formatExpr, followed by fixNumber when the call asks for it. */
  lemma RunCall(c: FormatCall, k: Kind, counter: nat, lower: nat -> Expression)
    ensures var r := Format(c.pattern, c.args, c.parens, counter, lower);
      Run(Some(c), k, counter, lower) == if c.thenFix then Fix(r, k, counter, lower) else r
  {
  }


  /**
   * `+` on strings is Lua's concatenation operator `..`; the other
   * operators on strings keep Go's spelling.
   */
  lemma StringConcatenation(x: Operand, y: Operand, blocking: bool, counter: nat, lower: nat -> Expression)
    requires x.Expr? && y.Expr? && x.ty.Basic? && IsString(x.ty.kind) && !y.ty.Interface?
    ensures TranslateBinary(Add, x, y, blocking, counter, lower)
         == Some(Ok(Expression(ExprText(x, lower) + " .. " + ExprText(y, lower), false)))
  {
    assert OperandType(x, y) == x.ty && !IsNumeric(x.ty.kind);
    OtherDispatch(Add, x, y, blocking, counter, lower);
    assert OtherBinary(Add, x, y, blocking, counter, lower) == Some(Format("%e .. %e", [x, y], false, counter, lower));
    BareInfixText("%e .. %e", " .. ", x, y, false, counter, lower);
  }

  /** `&&` and `||` with a right operand that cannot suspend are Lua's `and` and `or`. */
  lemma ShortCircuitText(op: Token, x: Operand, y: Operand, counter: nat, lower: nat -> Expression)
    requires x.Expr? && y.Expr? && !RealNumeric(x, y) && (op == LAnd || op == LOr)
    requires var t := OperandType(x, y); !(t.Basic? && IsComplex(t.kind))
    ensures TranslateBinary(op, x, y, false, counter, lower)
         == Some(Ok(Expression(ExprText(x, lower) + (if op == LAnd then " and " else " or ") + ExprText(y, lower), false)))
  {
    OtherDispatch(op, x, y, false, counter, lower);
    if op == LAnd {
      assert OtherBinary(LAnd, x, y, false, counter, lower) == Some(Format("%e and %e", [x, y], false, counter, lower));
      BareInfixText("%e and %e", " and ", x, y, false, counter, lower);
    } else {
      assert OtherBinary(LOr, x, y, false, counter, lower) == Some(Format("%e or %e", [x, y], false, counter, lower));
      BareInfixText("%e or %e", " or ", x, y, false, counter, lower);
    }
  }

  /** Every operator but `!=` on an operand type that is not numeric goes to the other branch. */
  lemma OtherDispatch(op: Token, x: Operand, y: Operand, blocking: bool, counter: nat, lower: nat -> Expression)
    requires x.Expr? && y.Expr? && op != Neq
    requires var t := OperandType(x, y); !(t.Basic? && IsNumeric(t.kind))
    ensures TranslateBinary(op, x, y, blocking, counter, lower) == OtherBinary(op, x, y, blocking, counter, lower)
  {
    assert TranslateBinary(op, x, y, blocking, counter, lower) == TranslateTyped(op, x, y, blocking, counter, lower);
  }

}
