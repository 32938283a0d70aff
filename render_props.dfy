/**
 * What formatExprInternal does with literal bytes, `%%`, constant operands
 * and bad placeholders.
 */
module RenderProps {
  import opened Outcome
  import opened Text
  import opened GoTypes
  import opened Expressions
  import opened Template

  // ---------------------------------------------------------------------
  // Literal bytes and `%%`

  /** A pattern without '%' is copied to the output verbatim, whatever the operands. */
  lemma LiteralPattern(p: string, args: seq<Operand>, parens: bool, counter: nat, lower: nat -> Expression)
    requires '%' !in p
    ensures Format(p, args, parens, counter, lower) == Ok(Expression(p, parens))
  {
    ScanLits(p, "", 0);
    assert p + "" == p;
    assert Lits(p) + [] == Lits(p);
    var items := Lits(p);
    assert Scan(p) == Some(items);
    forall i | 0 <= i < |args| ensures RefCount(items, i) <= 1 {
      RefCountNone(items, i);
    }
    FormatWithoutHoisting(p, items, args, parens, counter);
    BodyLits(p, args, Blank(|args|), lower);
  }

  /** The pattern text that prints s: every '%' doubled. */
  function Escape(s: string): (p: string)
    ensures |p| >= |s|
  {
    if s == [] then ""
    else (if s[0] == '%' then "%%" else [s[0]]) + Escape(s[1..])
  }

  /** An item of an escaped pattern: a byte other than '%', or `%%`. */
  predicate EscapedItem(it: Item) {
    (it.Lit? && it.b != '%') || (it.Placeholder? && it.tag == '%' && !it.explicit)
  }

  /** The items an escaped text scans to, the first with operand index n. */
  function EscapedItems(s: string, n: int): seq<Item>
  {
    if s == [] then []
    else if s[0] == '%' then [Placeholder('%', n, false)] + EscapedItems(s[1..], n + 1)
    else [Lit(s[0])] + EscapedItems(s[1..], n)
  }

  lemma EscapeScans(s: string, n: int, args: seq<Operand>, vars: seq<string>, lower: nat -> Expression)
    requires |vars| == |args|
    ensures ScanFrom(Escape(s), n).Some?
    ensures forall k :: 0 <= k < |ScanFrom(Escape(s), n).value| ==> EscapedItem(ScanFrom(Escape(s), n).value[k])
    ensures Body(ScanFrom(Escape(s), n).value, args, vars).Some?
    ensures Flatten(Body(ScanFrom(Escape(s), n).value, args, vars).value, args, lower) == s
  {
    ScanEscape(s, n);
    EscapedItemsEscaped(s, n);
    EscapedBody(s, n, args, vars, lower);
  }

  lemma {:induction false} ScanEscape(s: string, n: int)
    ensures ScanFrom(Escape(s), n) == Some(EscapedItems(s, n))
    decreases |s|
  {
    if s != [] {
      var m := if s[0] == '%' then n + 1 else n;
      ScanEscape(s[1..], m);
      if s[0] == '%' {
        ScanImplicit('%', Escape(s[1..]), n);
      } else {
        assert Escape(s) == [s[0]] + Escape(s[1..]);
      }
    }
  }

  lemma {:induction false} EscapedItemsEscaped(s: string, n: int)
    ensures forall k :: 0 <= k < |EscapedItems(s, n)| ==> EscapedItem(EscapedItems(s, n)[k])
    decreases |s|
  {
    if s != [] {
      var m := if s[0] == '%' then n + 1 else n;
      EscapedItemsEscaped(s[1..], m);
    }
  }

  lemma {:induction false} EscapedBody(s: string, n: int, args: seq<Operand>, vars: seq<string>, lower: nat -> Expression)
    requires |vars| == |args|
    ensures Body(EscapedItems(s, n), args, vars).Some?
    ensures Flatten(Body(EscapedItems(s, n), args, vars).value, args, lower) == s
    decreases |s|
  {
    if s == [] {
      assert Body([], args, vars) == Some([]);
    } else {
      var m := if s[0] == '%' then n + 1 else n;
      EscapedBody(s[1..], m, args, vars, lower);
      var x := if s[0] == '%' then Placeholder('%', n, false) else Lit(s[0]);
      EscapeStep(x, EscapedItems(s[1..], m), s, args, vars, lower);
    }
  }

  lemma EscapeStep(x: Item, rest: seq<Item>, s: string, args: seq<Operand>, vars: seq<string>, lower: nat -> Expression)
    requires |vars| == |args| && s != []
    requires RenderItem(x, args, vars) == Some([Raw([s[0]])])
    requires Body(rest, args, vars).Some? && Flatten(Body(rest, args, vars).value, args, lower) == s[1..]
    ensures Body([x] + rest, args, vars).Some?
    ensures Flatten(Body([x] + rest, args, vars).value, args, lower) == s
  {
    BodyAppend([x], rest, args, vars);
    BodyOne(x, args, vars);
    FlattenAppend([Raw([s[0]])], Body(rest, args, vars).value, args, lower);
    FlattenOne(Raw([s[0]]), args, lower);
    assert [s[0]] + s[1..] == s;
  }

  /**
   * `%%` prints one '%': a text with every '%' doubled, used as a pattern,
   * prints the text itself, whatever the operands.
   */
  lemma EscapeRoundTrip(s: string, args: seq<Operand>, parens: bool, counter: nat, lower: nat -> Expression)
    ensures Format(Escape(s), args, parens, counter, lower) == Ok(Expression(s, parens))
  {
    EscapeScans(s, 0, args, Blank(|args|), lower);
    var items := Scan(Escape(s)).value;
    EscapedNoRefs(items, |args|);
    FormatWithoutHoisting(Escape(s), items, args, parens, counter);
  }

  /** The items of an escaped pattern reference no operand. */
  lemma EscapedNoRefs(items: seq<Item>, m: nat)
    requires forall k :: 0 <= k < |items| ==> EscapedItem(items[k])
    ensures RefsInRange(items, m)
    ensures forall i :: 0 <= i < m ==> RefCount(items, i) <= 1
  {
    forall i | 0 <= i < m ensures RefCount(items, i) <= 1 {
      forall k | 0 <= k < |items| ensures !IsRef(items[k], i) {
        assert EscapedItem(items[k]);
      }
      RefCountNone(items, i);
    }
  }

  // ---------------------------------------------------------------------
  // Internal errors

  /** One item that cannot be rendered makes the whole call an internal error. */
  lemma ItemFailureIsFatal(pattern: string, args: seq<Operand>, parens: bool, counter: nat, lower: nat -> Expression, k: nat)
    requires Scan(pattern).Some? && k < |Scan(pattern).value|
    requires RenderItem(Scan(pattern).value[k], args, Vars(args, Scan(pattern).value, counter)).None?
    ensures Format(pattern, args, parens, counter, lower) == Fatal
  {
    var items := Scan(pattern).value;
    var vars := Vars(args, items, counter);
    assert items[..k + 1][..k] == items[..k];
    assert items[..k + 1][k] == items[k];
    BodyPrefixFails(items, k + 1, args, vars);
  }

  /** A tag other than NUL, %, s, d, t, e, f, h, l, r and i is an internal error. */
  lemma UnknownTagIsFatal(pattern: string, args: seq<Operand>, parens: bool, counter: nat, lower: nat -> Expression, k: nat)
    requires Scan(pattern).Some? && k < |Scan(pattern).value|
    requires Scan(pattern).value[k].Placeholder? && !KnownTag(Scan(pattern).value[k].tag)
    ensures Format(pattern, args, parens, counter, lower) == Fatal
  {
    ItemFailureIsFatal(pattern, args, parens, counter, lower, k);
  }

  /** A placeholder other than NUL and %% that selects a missing operand is an internal error. */
  lemma MissingOperandIsFatal(pattern: string, args: seq<Operand>, parens: bool, counter: nat, lower: nat -> Expression, k: nat)
    requires Scan(pattern).Some? && k < |Scan(pattern).value|
    requires var it := Scan(pattern).value[k];
      it.Placeholder? && it.tag != NUL && it.tag != '%' && !(0 <= it.n < |args|)
    ensures Format(pattern, args, parens, counter, lower) == Fatal
  {
    var items := Scan(pattern).value;
    if !Counted(items[k].tag) {
      ItemFailureIsFatal(pattern, args, parens, counter, lower, k);
    }
  }

  /**
   * `%s` of anything but a string or an already lowered expression, `%d` of
   * anything but an int and `%t` of anything but a token fail their type
   * assertions: an internal error.
   */
  lemma WrongStringOperandIsFatal(pattern: string, args: seq<Operand>, parens: bool, counter: nat, lower: nat -> Expression, k: nat)
    requires Scan(pattern).Some? && k < |Scan(pattern).value|
    requires var it := Scan(pattern).value[k];
      it.Placeholder? && 0 <= it.n < |args|
      && ((it.tag == 's' && !args[it.n].Str? && !args[it.n].Lowered?)
          || (it.tag == 'd' && !args[it.n].Int?)
          || (it.tag == 't' && !args[it.n].Tok?))
    ensures Format(pattern, args, parens, counter, lower) == Fatal
  {
    ItemFailureIsFatal(pattern, args, parens, counter, lower, k);
  }

  /** A counted tag on an operand that is not an expression is an internal error. */
  lemma CountedNonExpressionIsFatal(pattern: string, args: seq<Operand>, parens: bool, counter: nat, lower: nat -> Expression, k: nat)
    requires Scan(pattern).Some? && k < |Scan(pattern).value|
    requires var it := Scan(pattern).value[k];
      it.Placeholder? && Counted(it.tag) && 0 <= it.n < |args| && !args[it.n].Expr?
    ensures Format(pattern, args, parens, counter, lower) == Fatal
  {
    var it := Scan(pattern).value[k];
    assert it.tag != NUL && it.tag != '%' && it.tag != 's' && it.tag != 'd' && it.tag != 't';
    ItemFailureIsFatal(pattern, args, parens, counter, lower, k);
  }

  // ---------------------------------------------------------------------
  // Constant operands of the f, h and l tags

  /** Uint64Val keeps a value that fits in 64 unsigned bits. */
  lemma Uint64ValUnsigned(w: int)
    requires 0 <= w < TWO_64
    ensures Uint64Val(w) == w
  {
  }

  /** Uint64Val is two's complement for a value that fits in int64. */
  lemma Uint64ValSigned(w: int)
    requires -TWO_63 <= w < TWO_63
    ensures ToInt64(Uint64Val(w)) == w
  {
  }

  /** Int64Val keeps a value that fits in int64. */
  lemma Int64ValKeeps(w: int)
    requires -TWO_63 <= w < TWO_63
    ensures Int64Val(w) == w
  {
  }

  /** `%f` of an integer constant prints its int64 value in decimal. */
  lemma FlattenTagOfConstant(n: nat, x: Operand, v: string, w: int)
    requires x.Expr? && x.value.Some? && x.value.value.intVal == Some(w)
    requires -TWO_63 <= w < TWO_63
    ensures RenderRef('f', n, x, v).Some? && |RenderRef('f', n, x, v).value| == 1
    ensures var c := RenderRef('f', n, x, v).value[0];
      c.Raw? && IsSignedDecimal(c.s) && SignedDecimalValue(c.s) == w
  {
    Int64ValKeeps(w);
    SignedDecimalRoundTrip(w);
  }

  /**
   * `%h` and `%l` of a constant of kind Int64 print the high word, shifted
   * arithmetically, and the low word: high * 2^32 + low gives the int64
   * value back, and the low word is below 2^32.
   */
  lemma HighLowOfSignedConstant(c: Constant)
    ensures IsSignedDecimal(HighText(c, Int64)) && AllDigits(LowText(c))
    ensures 0 <= DecimalValue(LowText(c)) < TWO_32
    ensures SignedDecimalValue(HighText(c, Int64)) * TWO_32 + DecimalValue(LowText(c))
         == ToInt64(Uint64Val(ConstInt(c)))
  {
    var d := Uint64Val(ConstInt(c));
    SignedDecimalRoundTrip(ToInt64(d) / TWO_32);
    DecimalRoundTrip(d % TWO_32);
    var t := ToInt64(d);
    assert t % TWO_32 == d % TWO_32 by {
      if d >= TWO_63 {
        assert t == d - TWO_64;
        assert TWO_64 == TWO_32 * TWO_32;
        ModShift(d, TWO_32);
      }
    }
  }

  lemma ModShift(d: int, k: int)
    requires k == TWO_32
    ensures (d - k * k) % k == d % k
  {
    assert d - k * k == d + (-k) * k;
  }

  /**
   * `%h` and `%l` of a constant of any other kind print the high word,
   * shifted logically, and the low word of the 64-bit pattern.
   */
  lemma HighLowOfUnsignedConstant(c: Constant, kind: Kind)
    requires kind != Int64
    ensures AllDigits(HighText(c, kind)) && AllDigits(LowText(c))
    ensures 0 <= DecimalValue(LowText(c)) < TWO_32
    ensures DecimalValue(HighText(c, kind)) * TWO_32 + DecimalValue(LowText(c)) == Uint64Val(ConstInt(c))
  {
    var d := Uint64Val(ConstInt(c));
    DecimalRoundTrip(d / TWO_32);
    DecimalRoundTrip(d % TWO_32);
  }
}
