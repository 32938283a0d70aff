/**
 * The stateful side of the template engine: a function context that owns
 * the temporary-name counter and the lowering oracle, and formatExprInternal
 * written as the compiler writes it, with the byte-scanning loop, the counts
 * and vars arrays, the hasAssignments flag and the output buffer. Each
 * method is proved to compute exactly what the functions of Template
 * describe.
 */
module Engine {
  import opened Outcome
  import opened Text
  import opened Expressions
  import opened Template

  function FlattenOption(o: Option<seq<Chunk>>, args: seq<Operand>, lower: nat -> Expression): Option<string>
  {
    if o.None? then None else Some(Flatten(o.value, args, lower))
  }

  /**
   * processFormat's loop: literal bytes and placeholders in order, with the
   * running operand index. Reading past the end of the pattern is an
   * internal error.
   */
  method ScanPattern(format: string) returns (items: Option<seq<Item>>)
    ensures items == Scan(format)
  {
    var acc: seq<Item> := [];
    var n := 0;
    var i := 0;
    assert format[0..] == format;
    PrependNothing(Scan(format));
    while i < |format|
      invariant 0 <= i <= |format|
      invariant Scan(format) == Prepend(acc, ScanFrom(format[i..], n))
    {
      ghost var rest := format[i..];
      ghost var n0 := n;
      var b := format[i];
      if b == '%' {
        i := i + 1;
        if i == |format| {
          return None;
        }
        var k := format[i];
        var explicit := false;
        if IsDigit(k) {
          // int(k - '0' - 1) is byte arithmetic: it wraps modulo 256
          n := (k as int - '0' as int - 1) % 256;
          explicit := true;
          i := i + 1;
          if i == |format| {
            return None;
          }
          k := format[i];
        }
        assert rest[i - (|format| - |rest|) + 1..] == format[i + 1..];
        PrependCons(acc, Placeholder(k, n, explicit), ScanFrom(format[i + 1..], n + 1));
        acc := acc + [Placeholder(k, n, explicit)];
        n := n + 1;
        i := i + 1;
        continue;
      }
      assert rest[1..] == format[i + 1..];
      PrependCons(acc, Lit(b), ScanFrom(format[i + 1..], n));
      acc := acc + [Lit(b)];
      i := i + 1;
    }
    assert format[i..] == [];
    assert acc + [] == acc;
    return Some(acc);
  }

  lemma PrependNothing(r: Option<seq<Item>>)
    ensures Prepend([], r) == r
  {
    if r.Some? {
      assert [] + r.value == r.value;
    }
  }

  /** The first pass of formatExprInternal: counts[i] is the number of counted references to operand i. */
  method CountReferences(items: seq<Item>, m: nat) returns (counts: array<int>, ok: bool)
    ensures fresh(counts) && counts.Length == m
    ensures ok == RefsInRange(items, m)
    ensures ok ==> forall j :: 0 <= j < m ==> counts[j] == RefCount(items, j)
  {
    counts := new int[m](_ => 0);
    var k := 0;
    while k < |items|
      invariant 0 <= k <= |items|
      invariant RefsInRange(items[..k], m)
      invariant forall j :: 0 <= j < m ==> counts[j] == RefCount(items[..k], j)
    {
      var it := items[k];
      assert items[..k + 1][..k] == items[..k];
      if it.Placeholder? && Counted(it.tag) {
        if !(0 <= it.n < m) {
          return counts, false;
        }
        counts[it.n] := counts[it.n] + 1;
      }
      k := k + 1;
    }
    assert items[..|items|] == items;
    ok := true;
  }

  /**
   * A function compilation context: the counter behind newVariable and the
   * lowering oracle (translateExpr on an expression node, by node id).
   */
  class FuncContext {
    var varCounter: nat
    const lower: nat -> Expression

    constructor (lower: nat -> Expression)
      ensures this.lower == lower && varCounter == 0
    {
      this.lower := lower;
      varCounter := 0;
    }

    /** newVariable: a fresh name; the counter only grows, so names are never reused. */
    method NewVariable(prefix: string) returns (name: string)
      modifies this
      ensures name == TempName(prefix, old(varCounter))
      ensures varCounter == old(varCounter) + 1
    {
      name := prefix + NatToDecimal(varCounter);
      varCounter := varCounter + 1;
    }

    /** writeExprWithSuffix: the operand's temporary if it has one, else its lowering in parentheses. */
    method WriteRef(a: seq<Operand>, n: nat, v: string, suffix: string) returns (s: string)
      requires n < |a| && a[n].Expr?
      ensures s == Flatten(RefText(n, v, suffix), a, lower)
    {
      if v != "" {
        FlattenOne(Raw(v + suffix), a, lower);
        return v + suffix;
      }
      FlattenTwo(Eval(n, true), Raw(suffix), a, lower);
      s := StringWithParens(lower(a[n].id)) + suffix;
    }

    /** The rendering callback of formatExprInternal, for one item. */
    method RenderOne(it: Item, a: seq<Operand>, vars: seq<string>) returns (piece: Option<string>)
      requires |vars| == |a|
      ensures piece == FlattenOption(RenderItem(it, a, vars), a, lower)
    {
      match it
      case Lit(b) =>
        FlattenOne(Raw([b]), a, lower);
        piece := Some([b]);
      case Placeholder(k, n, _) =>
        if k == NUL {
          FlattenOne(Raw([NUL]), a, lower);
          piece := Some([NUL]);
        } else if k == '%' {
          FlattenOne(Raw("%"), a, lower);
          piece := Some("%");
        } else if !(0 <= n < |a|) {
          piece := None;
        } else if k == 's' {
          match a[n]
          case Lowered(e) =>
            FlattenOne(Raw(StringWithParens(e)), a, lower);
            piece := Some(StringWithParens(e));
          case Str(s) =>
            FlattenOne(Raw(s), a, lower);
            piece := Some(s);
          case _ =>
            piece := None;
        } else if k == 'd' {
          if a[n].Int? {
            FlattenOne(Raw(IntToDecimal(a[n].i)), a, lower);
            piece := Some(IntToDecimal(a[n].i));
          } else {
            piece := None;
          }
        } else if k == 't' {
          if a[n].Tok? {
            FlattenOne(Raw(GoTypes.Spelling(a[n].t)), a, lower);
            piece := Some(GoTypes.Spelling(a[n].t));
          } else {
            piece := None;
          }
        } else if Counted(k) && a[n].Expr? {
          piece := RenderReference(k, n, a, vars[n]);
        } else {
          piece := None;
        }
    }

    /** The e, f, h, l, r and i cases of the rendering callback. */
    method RenderReference(k: char, n: nat, a: seq<Operand>, v: string) returns (piece: Option<string>)
      requires n < |a| && a[n].Expr? && Counted(k)
      ensures piece == FlattenOption(RenderRef(k, n, a[n], v), a, lower)
    {
      var x := a[n];
      if x.value.Some? {
        var c := x.value.value;
        var text: string;
        if k == 'e' {
          text := lower(x.id).str;
        } else if k == 'f' {
          text := IntToDecimal(Int64Val(ConstInt(c)));
        } else if k == 'h' {
          if !x.ty.Basic? {
            return None;
          }
          text := HighText(c, x.ty.kind);
        } else if k == 'l' {
          text := LowText(c);
        } else if k == 'r' {
          text := c.realText;
        } else {
          text := c.imagText;
        }
        FlattenOne(if k == 'e' then Eval(n, false) else Raw(text), a, lower);
        return Some(text);
      }
      var s: string;
      if k == 'e' {
        s := WriteRef(a, n, v, "");
      } else if k == 'f' {
        if !x.ty.Basic? {
          return None;
        }
        s := WriteRef(a, n, v, "");
        if GoTypes.Is64Bit(x.ty.kind) {
          FlattenOne(Raw("$flatten64("), a, lower);
          FlattenOne(Raw(")"), a, lower);
          FlattenAppend([Raw("$flatten64(")], RefText(n, v, ""), a, lower);
          FlattenAppend([Raw("$flatten64(")] + RefText(n, v, ""), [Raw(")")], a, lower);
          s := "$flatten64(" + s + ")";
        }
      } else if k == 'h' {
        s := WriteRef(a, n, v, ".$high");
      } else if k == 'l' {
        s := WriteRef(a, n, v, ".$low");
      } else if k == 'r' {
        s := WriteRef(a, n, v, ".$real");
      } else {
        s := WriteRef(a, n, v, ".$imag");
      }
      piece := Some(s);
    }

    /**
     * formatExprInternal. The result is the engine's output for the
     * pattern and operands given the counter on entry; on success the
     * counter has advanced by the number of hoisted operands.
     */
    method FormatExprInternal(format: string, a: seq<Operand>, parens: bool) returns (r: Result<Expression>)
      modifies this
      ensures r == Format(format, a, parens, old(varCounter), lower)
      ensures r.Ok? ==> varCounter == old(varCounter) + HoistCount(a, Scan(format).value)
    {
      var scanned := ScanPattern(format);
      if scanned.None? {
        return Fatal;
      }
      var items := scanned.value;
      var counts, inRange := CountReferences(items, |a|);
      if !inRange {
        return Fatal;
      }
      ghost var c0 := varCounter;
      var ok, out, vars, hasAssignments := HoistOperands(items, a, counts);
      if !ok {
        return Fatal;
      }
      var body := RenderItems(items, a, vars);
      if body.None? {
        return Fatal;
      }
      var p := parens && !hasAssignments;
      ghost var chunks := Body(items, a, vars).value;
      assert body.value == Flatten(chunks, a, lower);
      out := out + body.value;
      if hasAssignments {
        out := out + ")";
        ghost var prelude := Prelude(a, items, c0, |a|);
        assert Render(format, a, parens, c0) == Ok(Rendered([Raw("(")] + prelude + chunks + [Raw(")")], false));
        EnclosedText(prelude, chunks, a, lower);
      } else {
        assert "" + body.value == body.value;
        assert Render(format, a, parens, c0) == Ok(Rendered(chunks, parens));
      }
      r := Ok(Expression(out, p));
    }

    /**
     * The hoisting loop of formatExprInternal. Operands referenced more than
     * once that are neither identifiers nor constants get a temporary, in
     * operand order; `out` holds the opening parenthesis and their
     * assignments.
     */
    method HoistOperands(items: seq<Item>, a: seq<Operand>, counts: array<int>)
      returns (ok: bool, out: string, vars: seq<string>, hasAssignments: bool)
      requires counts.Length == |a|
      requires forall j :: 0 <= j < |a| ==> counts[j] == RefCount(items, j)
      modifies this
      ensures ok == !HoistFails(a, items)
      ensures ok ==> vars == Vars(a, items, old(varCounter))
      ensures ok ==> varCounter == old(varCounter) + HoistCount(a, items)
      ensures ok ==> (hasAssignments <==> HoistCount(a, items) > 0)
      ensures ok ==> out == if hasAssignments then "(" + Flatten(Prelude(a, items, old(varCounter), |a|), a, lower) else ""
    {
      ghost var c0 := varCounter;
      out := "";
      vars := seq(|a|, _ => "");
      hasAssignments := false;
      var i := 0;
      HoistStart(a, items, c0);
      while i < |a|
        invariant 0 <= i <= |a|
        invariant HoistedUpTo(a, items, c0, i, out, vars, hasAssignments)
        invariant forall j :: 0 <= j < i ==> !CannotHoist(a, items, j)
      {
        var step;
        step, out, vars, hasAssignments := HoistOne(a, items, counts[i], c0, i, out, vars, hasAssignments);
        if !step {
          return false, out, vars, hasAssignments;
        }
        i := i + 1;
      }
      HoistDone(a, items, c0, lower);
      ok := true;
    }

    /** The state of the hoisting loop once it has seen the operands before i. */
    ghost predicate HoistedUpTo(a: seq<Operand>, items: seq<Item>, c0: nat, i: nat, out: string, vars: seq<string>, hasAssignments: bool)
      reads this
      requires i <= |a|
    {
      && varCounter == c0 + HoistedBefore(a, items, i)
      && (hasAssignments <==> HoistedBefore(a, items, i) > 0)
      && out == HoistText(a, items, c0, i, lower)
      && vars == VarsBefore(a, items, c0, i)
    }

    /** Before the hoisting loop: no text, no temporaries, the counter as it was. */
    lemma HoistStart(a: seq<Operand>, items: seq<Item>, c0: nat)
      requires varCounter == c0
      ensures HoistedUpTo(a, items, c0, 0, "", seq(|a|, _ => ""), false)
    {
      assert seq(|a|, _ => "") == VarsBefore(a, items, c0, 0);
    }

    /** One turn of the hoisting loop: operand i, referenced count times. */
    method HoistOne(a: seq<Operand>, items: seq<Item>, count: int, ghost c0: nat, i: nat,
                    out: string, vars: seq<string>, hasAssignments: bool)
      returns (ok: bool, out': string, vars': seq<string>, hasAssignments': bool)
      requires i < |a| && count == RefCount(items, i)
      requires HoistedUpTo(a, items, c0, i, out, vars, hasAssignments)
      modifies this
      ensures ok <==> !CannotHoist(a, items, i)
      ensures ok ==> HoistedUpTo(a, items, c0, i + 1, out', vars', hasAssignments')
    {
      HoistStep(a, items, c0, i, lower);
      out', vars', hasAssignments' := out, vars, hasAssignments;
      if count > 1 && !(a[i].Expr? && a[i].isIdent) {
        if !a[i].Expr? {
          return false, out', vars', hasAssignments';
        }
        if a[i].value.None? {
          if !hasAssignments' {
            hasAssignments' := true;
            out' := out' + "(";
          }
          var v := NewVariable("x");
          out' := out' + (v + " = " + lower(a[i].id).str + ", ");
          vars' := vars'[i := v];
        }
      }
      ok := true;
    }

    /** The text the hoisting loop has written before operand i. */
    static function HoistText(a: seq<Operand>, items: seq<Item>, c0: nat, i: nat, lower: nat -> Expression): string
      requires i <= |a|
    {
      (if HoistedBefore(a, items, i) > 0 then "(" else "") + Flatten(Prelude(a, items, c0, i), a, lower)
    }

    /** The vars slice after the hoisting loop has seen the operands before i. */
    static function VarsBefore(a: seq<Operand>, items: seq<Item>, c0: nat, i: nat): (vs: seq<string>)
      requires i <= |a|
      ensures |vs| == |a|
    {
      seq(|a|, j requires 0 <= j < |a| => if j < i then VarOf(a, items, c0, j) else "")
    }

    /** One step of the hoisting loop, on the functions that specify it. */
    static lemma HoistStep(a: seq<Operand>, items: seq<Item>, c0: nat, i: nat, lower: nat -> Expression)
      requires i < |a|
      ensures Hoisted(a, items, i) ==>
        var v := TempName("x", c0 + HoistedBefore(a, items, i));
        && HoistedBefore(a, items, i + 1) == HoistedBefore(a, items, i) + 1
        && VarsBefore(a, items, c0, i + 1) == VarsBefore(a, items, c0, i)[i := v]
        && HoistText(a, items, c0, i + 1, lower)
           == (if HoistedBefore(a, items, i) > 0 then HoistText(a, items, c0, i, lower) else HoistText(a, items, c0, i, lower) + "(")
              + (v + " = " + lower(a[i].id).str + ", ")
      ensures !Hoisted(a, items, i) ==>
        && HoistedBefore(a, items, i + 1) == HoistedBefore(a, items, i)
        && VarsBefore(a, items, c0, i + 1) == VarsBefore(a, items, c0, i)
        && HoistText(a, items, c0, i + 1, lower) == HoistText(a, items, c0, i, lower)
    {
      VarsStep(a, items, c0, i);
      TextStep(a, items, c0, i, lower);
    }

    static lemma VarsStep(a: seq<Operand>, items: seq<Item>, c0: nat, i: nat)
      requires i < |a|
      ensures VarsBefore(a, items, c0, i + 1) == VarsBefore(a, items, c0, i)[i := VarOf(a, items, c0, i)]
    {
    }

    static lemma TextStep(a: seq<Operand>, items: seq<Item>, c0: nat, i: nat, lower: nat -> Expression)
      requires i < |a|
      ensures Hoisted(a, items, i) ==>
        HoistText(a, items, c0, i + 1, lower)
        == (if HoistedBefore(a, items, i) > 0 then HoistText(a, items, c0, i, lower) else HoistText(a, items, c0, i, lower) + "(")
           + (TempName("x", c0 + HoistedBefore(a, items, i)) + " = " + lower(a[i].id).str + ", ")
      ensures !Hoisted(a, items, i) ==> HoistText(a, items, c0, i + 1, lower) == HoistText(a, items, c0, i, lower)
    {
      PreludeEmpty(a, items, c0, i);
      var pre := Prelude(a, items, c0, i);
      var f := Flatten(pre, a, lower);
      if Hoisted(a, items, i) {
        var v := TempName("x", c0 + HoistedBefore(a, items, i));
        var assignment := v + " = " + lower(a[i].id).str + ", ";
        PreludeAssignment(a, items, c0, i, lower);
        assert Flatten(Prelude(a, items, c0, i + 1), a, lower) == f + assignment;
        if HoistedBefore(a, items, i) == 0 {
          assert f == "";
          assert "" + f == f;
          assert "(" + (f + assignment) == ("" + f) + "(" + assignment;
        } else {
          assert ("(" + f) + assignment == "(" + (f + assignment);
        }
      } else {
        assert pre + [] == pre;
      }
    }

    static lemma PreludeAssignment(a: seq<Operand>, items: seq<Item>, c0: nat, i: nat, lower: nat -> Expression)
      requires i < |a| && Hoisted(a, items, i)
      ensures Flatten(Prelude(a, items, c0, i + 1), a, lower)
           == Flatten(Prelude(a, items, c0, i), a, lower)
              + (TempName("x", c0 + HoistedBefore(a, items, i)) + " = " + lower(a[i].id).str + ", ")
    {
      var v := TempName("x", c0 + HoistedBefore(a, items, i));
      var pre := Prelude(a, items, c0, i);
      FlattenAppend(pre, [Raw(v + " = "), Eval(i, false), Raw(", ")], a, lower);
      FlattenThree(Raw(v + " = "), Eval(i, false), Raw(", "), a, lower);
    }

    /** After the last operand the loop's prefix functions are the engine's. */
    static lemma HoistDone(a: seq<Operand>, items: seq<Item>, c0: nat, lower: nat -> Expression)
      ensures VarsBefore(a, items, c0, |a|) == Vars(a, items, c0)
      ensures HoistText(a, items, c0, |a|, lower)
           == if HoistCount(a, items) > 0 then "(" + Flatten(Prelude(a, items, c0, |a|), a, lower) else ""
    {
      PreludeEmpty(a, items, c0, |a|);
    }

    /** The rendering pass of formatExprInternal: every item in order. */
    method RenderItems(items: seq<Item>, a: seq<Operand>, vars: seq<string>) returns (text: Option<string>)
      requires |vars| == |a|
      ensures text == FlattenOption(Body(items, a, vars), a, lower)
    {
      var out := "";
      var k := 0;
      while k < |items|
        invariant 0 <= k <= |items|
        invariant Body(items[..k], a, vars).Some?
        invariant out == Flatten(Body(items[..k], a, vars).value, a, lower)
      {
        var piece := RenderOne(items[k], a, vars);
        assert items[..k + 1][..k] == items[..k];
        if piece.None? {
          BodyPrefixFails(items, k + 1, a, vars);
          return None;
        }
        FlattenAppend(Body(items[..k], a, vars).value, RenderItem(items[k], a, vars).value, a, lower);
        out := out + piece.value;
        k := k + 1;
      }
      assert items[..|items|] == items;
      text := Some(out);
    }

    /** formatExpr: the engine with the parens flag off. */
    method FormatExpr(format: string, a: seq<Operand>) returns (r: Result<Expression>)
      modifies this
      ensures r == Format(format, a, false, old(varCounter), lower)
      ensures r.Ok? ==> varCounter == old(varCounter) + HoistCount(a, Scan(format).value)
    {
      r := FormatExprInternal(format, a, false);
    }

    /** formatParenExpr: the engine with the parens flag on. */
    method FormatParenExpr(format: string, a: seq<Operand>) returns (r: Result<Expression>)
      modifies this
      ensures r == Format(format, a, true, old(varCounter), lower)
      ensures r.Ok? ==> varCounter == old(varCounter) + HoistCount(a, Scan(format).value)
    {
      r := FormatExprInternal(format, a, true);
    }
  }
}
