/**
 * Constants in the lowered code: identifierConstant, the integer branch of
 * constant folding in translateExpr, and fixNumber.
 */
module Constants {
  import opened Outcome
  import opened Text
  import opened GoTypes
  import opened Expressions
  import opened Template
  import opened Patterns
  import RenderProps

  // ---------------------------------------------------------------------
  // identifierConstant

  /** A character a Lua identifier may hold at a position: a letter, '_', '$', or a digit after the first. */
  predicate NameChar(c: char, first: bool) {
    ('a' <= c <= 'z') || ('A' <= c <= 'Z') || (!first && '0' <= c <= '9') || c == '_' || c == '$'
  }

  /** A non-empty name made of name characters, with no digit in first position. */
  predicate IsIdentifier(s: string) {
    |s| > 0 && forall i :: 0 <= i < |s| ==> NameChar(s[i], i == 0)
  }

  /**
   * identifierConstant on the string value of a constant (None when the
   * expression has no constant value): the value itself when it is an
   * identifier, else "" and false.
   */
  method IdentifierConstant(val: Option<string>) returns (s: string, ok: bool)
    ensures ok <==> val.Some? && IsIdentifier(val.value)
    ensures ok ==> s == val.value
    ensures !ok ==> s == ""
  {
    if val.None? {
      return "", false;
    }
    var t := val.value;
    if |t| == 0 {
      return "", false;
    }
    var i := 0;
    while i < |t|
      invariant 0 <= i <= |t|
      invariant forall j :: 0 <= j < i ==> NameChar(t[j], j == 0)
    {
      var c := t[i];
      if !(('a' <= c <= 'z') || ('A' <= c <= 'Z') || (i > 0 && '0' <= c <= '9') || c == '_' || c == '$') {
        return "", false;
      }
      i := i + 1;
    }
    return t, true;
  }

  /** An identifier needs no escaping: used as a pattern it prints itself. */
  lemma IdentifierIsLiteralPattern(s: string, args: seq<Operand>, parens: bool, counter: nat, lower: nat -> Expression)
    requires IsIdentifier(s)
    ensures Format(s, args, parens, counter, lower) == Ok(Expression(s, parens))
  {
    assert '%' !in s by {
      forall i | 0 <= i < |s| ensures s[i] != '%' {
        assert NameChar(s[i], i == 0);
      }
    }
    RenderProps.LiteralPattern(s, args, parens, counter, lower);
  }

  // ---------------------------------------------------------------------
  // Integer constants

  /** The kind that picks the suffix: the desired type's kind when that type is basic, else the constant's own. */
  function EffectiveKind(own: Kind, desired: Option<Type>): (k: Kind)
    ensures desired.Some? && desired.value.Basic? ==> k == desired.value.kind
    ensures !(desired.Some? && desired.value.Basic?) ==> k == own
  {
    if desired.Some? && desired.value.Basic? then desired.value.kind else own
  }

  /** The kinds whose constants are printed as int64 with the `LL` suffix. */
  predicate SignedSuffix(k: Kind) {
    k == Int64 || k == Kind.Int || k == Int32 || k == Int16 || k == Int8
  }

  /** The suffix LuaJIT reads as a 64-bit integer literal of the right signedness. */
  function Suffix(k: Kind): string {
    if SignedSuffix(k) then "LL" else "ULL"
  }

  /** The range in which constant.Int64Val reports an exact value. */
  predicate FitsInt64(v: int) {
    -TWO_63 <= v < TWO_63
  }

  /** The range in which constant.Uint64Val reports an exact value. */
  predicate FitsUint64(v: int) {
    0 <= v < TWO_64
  }

  /**
   * The integer branch of constant folding: a constant of value v whose
   * expression has kind own, lowered for the desired type (None when there
   * is none). A value that the chosen 64-bit reading cannot hold exactly is
   * an internal error.
   */
  function IntegerConstant(v: int, own: Kind, desired: Option<Type>, counter: nat, lower: nat -> Expression): Result<Expression>
  {
    var k := EffectiveKind(own, desired);
    if SignedSuffix(k) then
      if !FitsInt64(v) then Fatal
      else Format("%sLL", [Str(IntToDecimal(Int64Val(v)))], false, counter, lower)
    else
      if !FitsUint64(v) then Fatal
      else Format("%sULL", [Str(NatToDecimal(Uint64Val(v)))], false, counter, lower)
  }

  /**
   * Numbers are never truncated: an integer constant is lowered exactly when
   * the 64-bit reading its kind selects holds it, and then the text is the
   * decimal of the value itself followed by the suffix, so reading the
   * digits back gives v whatever the kind (a value of 200 for an int8 stays
   * 200).
   */
  lemma IntegerConstantText(v: int, own: Kind, desired: Option<Type>, counter: nat, lower: nat -> Expression)
    ensures var k := EffectiveKind(own, desired);
      var r := IntegerConstant(v, own, desired, counter, lower);
      (r.Ok? <==> (if SignedSuffix(k) then FitsInt64(v) else FitsUint64(v)))
      && (r.Ok? ==>
            !r.value.parens
            && |r.value.str| > |Suffix(k)|
            && r.value.str == r.value.str[..|r.value.str| - |Suffix(k)|] + Suffix(k)
            && IsSignedDecimal(r.value.str[..|r.value.str| - |Suffix(k)|])
            && SignedDecimalValue(r.value.str[..|r.value.str| - |Suffix(k)|]) == v)
  {
    var k := EffectiveKind(own, desired);
    var r := IntegerConstant(v, own, desired, counter, lower);
    if SignedSuffix(k) && FitsInt64(v) {
      SignedConstantText(v, counter, lower);
      assert r == Ok(Expression(IntToDecimal(v) + Suffix(k), false));
      DecimalThenSuffix(v, Suffix(k));
    } else if !SignedSuffix(k) && FitsUint64(v) {
      UnsignedConstantText(v, counter, lower);
      assert r == Ok(Expression(IntToDecimal(v) + Suffix(k), false));
      DecimalThenSuffix(v, Suffix(k));
    }
  }

  lemma SignedConstantText(v: int, counter: nat, lower: nat -> Expression)
    requires FitsInt64(v)
    ensures Format("%sLL", [Str(IntToDecimal(Int64Val(v)))], false, counter, lower) == Ok(Expression(IntToDecimal(v) + "LL", false))
  {
    RenderProps.Int64ValKeeps(v);
    FormatStringThen(Str(IntToDecimal(v)), "LL", false, counter, lower);
  }

  lemma UnsignedConstantText(v: int, counter: nat, lower: nat -> Expression)
    requires FitsUint64(v)
    ensures Format("%sULL", [Str(NatToDecimal(Uint64Val(v)))], false, counter, lower) == Ok(Expression(IntToDecimal(v) + "ULL", false))
  {
    RenderProps.Uint64ValUnsigned(v);
    FormatStringThen(Str(NatToDecimal(v)), "ULL", false, counter, lower);
    DecimalRoundTrip(v);
    assert IntToDecimal(v) == NatToDecimal(v);
  }

  /** The decimal of v followed by a suffix: cutting the suffix off gives digits that read back as v. */
  lemma DecimalThenSuffix(v: int, suffix: string)
    ensures var s := IntToDecimal(v) + suffix;
      |s| > |suffix| && s == s[..|s| - |suffix|] + suffix
      && IsSignedDecimal(s[..|s| - |suffix|]) && SignedDecimalValue(s[..|s| - |suffix|]) == v
  {
    var d := IntToDecimal(v);
    SignedDecimalRoundTrip(v);
    assert (d + suffix)[..|d|] == d;
  }


  /** An untyped constant of 200 lowered for an int8 keeps its value: "200LL". */
  lemma NoTruncationExample(counter: nat, lower: nat -> Expression)
    ensures IntegerConstant(200, UntypedInt, Some(Basic(Int8)), counter, lower) == Ok(Expression("200LL", false))
  {
    RenderProps.Int64ValKeeps(200);
    assert NatToDecimal(2) == "2";
    assert NatToDecimal(20) == "2" + "0";
    assert NatToDecimal(200) == "20" + "0";
    assert IntToDecimal(200) == "200";
    FormatStringThen(Str("200"), "LL", false, counter, lower);
    assert "200" + "LL" == "200LL";
  }

  // ---------------------------------------------------------------------
  // fixNumber

  /** The kinds fixNumber, as written, wraps with formatParenExpr("%s", ...): types.Uint64 is not among them. */
  predicate WrappedAsWritten(k: Kind) {
    k == Int8 || k == Uint8 || k == Int16 || k == Uint16 || k == Uint32 || k == Uint || k == Uintptr
    || k == Int32 || k == Kind.Int || k == Int64 || k == UntypedInt
  }

  /** The kinds fixNumber is evidently meant to wrap: every sized integer kind, Uint64 included. */
  predicate Wrapped(k: Kind) {
    WrappedAsWritten(k) || k == Uint64
  }

  /** fixNumber as written: uint64 results fall to the default case, an internal error. */
  function FixNumberAsWritten(value: Expression, k: Kind, counter: nat, lower: nat -> Expression): Result<Expression>
  {
    if WrappedAsWritten(k) then Format("%s", [Lowered(value)], true, counter, lower)
    else if k == Float32 || k == Float64 then Ok(value)
    else Fatal
  }

  /** fixNumber with uint64 treated like the other integer kinds. */
  function FixNumber(value: Expression, k: Kind, counter: nat, lower: nat -> Expression): Result<Expression>
  {
    if Wrapped(k) then Format("%s", [Lowered(value)], true, counter, lower)
    else if k == Float32 || k == Float64 then Ok(value)
    else Fatal
  }

  /**
   * fixNumber never alters the numeric text: an integer result is the value
   * printed with its own parentheses and flagged for parentheses, a float
   * result is the value itself, and any other kind is an internal error.
   */
  lemma FixNumberText(value: Expression, k: Kind, counter: nat, lower: nat -> Expression)
    ensures Wrapped(k) ==> FixNumber(value, k, counter, lower) == Ok(Expression(StringWithParens(value), true))
    ensures (k == Float32 || k == Float64) ==> FixNumber(value, k, counter, lower) == Ok(value)
    ensures !Wrapped(k) && k != Float32 && k != Float64 ==> FixNumber(value, k, counter, lower) == Fatal
  {
    if Wrapped(k) {
      assert FixNumber(value, k, counter, lower) == Format("%s", [Lowered(value)], true, counter, lower);
      FormatString(Lowered(value), true, counter, lower);
    } else {
      assert FixNumber(value, k, counter, lower) == if k == Float32 || k == Float64 then Ok(value) else Fatal;
    }
  }

  /**
   * Every typed integer kind, and only those with the floats, gets through
   * the corrected fixNumber; as written, every one of them but uint64 does.
   */
  lemma FixNumberAcceptsIntegers(value: Expression, k: Kind, counter: nat, lower: nat -> Expression)
    ensures FixNumber(value, k, counter, lower).Ok?
        <==> (IsInteger(k) && k != UntypedRune) || k == Float32 || k == Float64
    ensures FixNumberAsWritten(value, k, counter, lower).Ok?
        <==> (IsInteger(k) && k != UntypedRune && k != Uint64) || k == Float32 || k == Float64
  {
    FixNumberText(value, k, counter, lower);
    WrappedKinds(k);
    if k == Uint64 {
      FixNumberAsWrittenRejectsUint64(value, counter, lower);
    } else {
      FixNumberAgrees(value, k, counter, lower);
    }
  }

  /** The kinds fixNumber wraps are the typed integer kinds. */
  lemma WrappedKinds(k: Kind)
    ensures Wrapped(k) <==> IsInteger(k) && k != UntypedRune
  {
  }

  /** As written, fixNumber rejects uint64 although uint64 is an integer kind of fixed size. */
  lemma FixNumberAsWrittenRejectsUint64(value: Expression, counter: nat, lower: nat -> Expression)
    ensures IsInteger(Uint64) && !IsComplex(Uint64)
    ensures FixNumberAsWritten(value, Uint64, counter, lower) == Fatal
    ensures FixNumber(value, Uint64, counter, lower) == Ok(Expression(StringWithParens(value), true))
  {
    FixNumberText(value, Uint64, counter, lower);
  }

  /** Apart from uint64 the two readings of fixNumber agree. */
  lemma FixNumberAgrees(value: Expression, k: Kind, counter: nat, lower: nat -> Expression)
    requires k != Uint64
    ensures FixNumberAsWritten(value, k, counter, lower) == FixNumber(value, k, counter, lower)
  {
  }
}
