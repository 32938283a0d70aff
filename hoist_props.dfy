/**
 * Single evaluation in formatExprInternal: an operand referenced more than
 * once that is neither an identifier nor a constant has its code emitted
 * exactly once, in the assignment to its temporary; temporaries are
 * distinct, fresh and assigned in operand order; and the parenthesisation
 * rule of the result.
 */
module HoistProps {
  import opened Outcome
  import opened Text
  import opened Expressions
  import opened GoTypes
  import opened Template

  /** How many times a chunk sequence emits the code of operand i. */
  function EvalCount(chunks: seq<Chunk>, i: nat): nat
  {
    if chunks == [] then 0
    else EvalCount(chunks[..|chunks| - 1], i) + (if chunks[|chunks| - 1] == Eval(i, false) || chunks[|chunks| - 1] == Eval(i, true) then 1 else 0)
  }

  /** The operands whose code a chunk sequence emits, in order of emission. */
  function Evaluated(chunks: seq<Chunk>): seq<nat>
  {
    if chunks == [] then []
    else Evaluated(chunks[..|chunks| - 1]) + (if chunks[|chunks| - 1].Eval? then [chunks[|chunks| - 1].operand] else [])
  }

  lemma {:induction false} EvalCountAppend(a: seq<Chunk>, b: seq<Chunk>, i: nat)
    ensures EvalCount(a + b, i) == EvalCount(a, i) + EvalCount(b, i)
    decreases |b|
  {
    if b == [] {
      assert a + b == a;
    } else {
      var b' := b[..|b| - 1];
      assert (a + b)[..|a + b| - 1] == a + b';
      assert (a + b)[|a + b| - 1] == b[|b| - 1];
      EvalCountAppend(a, b', i);
    }
  }

  lemma {:induction false} EvaluatedAppend(a: seq<Chunk>, b: seq<Chunk>)
    ensures Evaluated(a + b) == Evaluated(a) + Evaluated(b)
    decreases |b|
  {
    if b == [] {
      assert a + b == a;
    } else {
      var b' := b[..|b| - 1];
      assert (a + b)[..|a + b| - 1] == a + b';
      assert (a + b)[|a + b| - 1] == b[|b| - 1];
      EvaluatedAppend(a, b');
    }
  }

  lemma EvalCountOne(c: Chunk, i: nat)
    ensures EvalCount([c], i) == if c == Eval(i, false) || c == Eval(i, true) then 1 else 0
  {
    assert [c][..0] == [];
  }

  lemma EvalCountRefText(n: nat, v: string, suffix: string, i: nat)
    ensures EvalCount(RefText(n, v, suffix), i) == if n == i && v == "" then 1 else 0
  {
    if v != "" {
      EvalCountOne(Raw(v + suffix), i);
    } else {
      EvalCountAppend([Eval(n, true)], [Raw(suffix)], i);
      assert [Eval(n, true)] + [Raw(suffix)] == RefText(n, v, suffix);
      EvalCountOne(Eval(n, true), i);
      EvalCountOne(Raw(suffix), i);
    }
  }

  /**
   * One item emits the code of a non-constant expression operand i once
   * when it is a counted reference to i and i has no temporary, and never
   * otherwise.
   */
  lemma RenderItemEvals(it: Item, args: seq<Operand>, vars: seq<string>, i: nat)
    requires |vars| == |args| && i < |args| && args[i].Expr? && args[i].value.None?
    requires RenderItem(it, args, vars).Some?
    ensures EvalCount(RenderItem(it, args, vars).value, i) == if IsRef(it, i) && vars[i] == "" then 1 else 0
  {
    var r := RenderItem(it, args, vars).value;
    match it
    case Lit(b) =>
      EvalCountOne(Raw([b]), i);
    case Placeholder(tag, n, _) =>
      if tag == NUL {
        EvalCountOne(Raw([NUL]), i);
      } else if tag == '%' {
        EvalCountOne(Raw("%"), i);
      } else if tag == 's' || tag == 'd' || tag == 't' {
        assert |r| == 1 && r[0].Raw?;
        assert r == [r[0]];
        EvalCountOne(r[0], i);
      } else {
        assert Counted(tag) && 0 <= n < |args| && args[n].Expr?;
        RenderRefEvals(tag, n, args[n], vars[n], i);
        if n == i {
          assert IsRef(it, i);
        }
      }
  }

  lemma RenderRefEvals(tag: char, n: nat, x: Operand, v: string, i: nat)
    requires x.Expr? && Counted(tag) && RenderRef(tag, n, x, v).Some?
    requires n == i ==> x.value.None?
    ensures EvalCount(RenderRef(tag, n, x, v).value, i) == if n == i && v == "" then 1 else 0
  {
    var r := RenderRef(tag, n, x, v).value;
    if x.value.Some? {
      EvalCountOne(r[0], i);
      assert r == [r[0]];
    } else {
      var suffix := if tag == 'e' || tag == 'f' then "" else if tag == 'h' then ".$high" else if tag == 'l' then ".$low"
        else if tag == 'r' then ".$real" else ".$imag";
      EvalCountRefText(n, v, suffix, i);
      if tag == 'f' && Is64Bit(x.ty.kind) {
        EvalCountAppend([Raw("$flatten64(")] + RefText(n, v, ""), [Raw(")")], i);
        EvalCountAppend([Raw("$flatten64(")], RefText(n, v, ""), i);
        EvalCountOne(Raw("$flatten64("), i);
        EvalCountOne(Raw(")"), i);
      }
    }
  }

  /**
   * The body emits the code of a non-constant expression operand once per
   * counted reference when the operand has no temporary, and never when it
   * has one.
   */
  lemma {:induction false} BodyEvals(items: seq<Item>, args: seq<Operand>, vars: seq<string>, i: nat)
    requires |vars| == |args| && i < |args| && args[i].Expr? && args[i].value.None?
    requires Body(items, args, vars).Some?
    ensures EvalCount(Body(items, args, vars).value, i) == if vars[i] == "" then RefCount(items, i) else 0
    decreases |items|
  {
    if items != [] {
      var front := items[..|items| - 1];
      var last := items[|items| - 1];
      BodyEvals(front, args, vars, i);
      RenderItemEvals(last, args, vars, i);
      EvalCountAppend(Body(front, args, vars).value, RenderItem(last, args, vars).value, i);
    }
  }

  /** The prelude before operand k emits the code of operand i once if i < k is hoisted, else never. */
  lemma PreludeEvals(args: seq<Operand>, items: seq<Item>, counter: nat, k: nat, i: nat)
    requires k <= |args| && i < |args|
    ensures EvalCount(Prelude(args, items, counter, k), i) == if i < k && Hoisted(args, items, i) then 1 else 0
  {
    PreludeCounts(args, items, counter, k, i);
    HoistedCountOnce(args, items, k, i);
  }

  /** How many of the operands below k are operand i and hoisted. */
  function HoistedTimes(args: seq<Operand>, items: seq<Item>, k: nat, i: nat): nat
    requires k <= |args|
  {
    if k == 0 then 0 else HoistedTimes(args, items, k - 1, i) + if i == k - 1 && Hoisted(args, items, k - 1) then 1 else 0
  }

  lemma {:induction false} PreludeCounts(args: seq<Operand>, items: seq<Item>, counter: nat, k: nat, i: nat)
    requires k <= |args|
    ensures EvalCount(Prelude(args, items, counter, k), i) == HoistedTimes(args, items, k, i)
  {
    if k > 0 {
      PreludeCounts(args, items, counter, k - 1, i);
      var step := PreludeStep(args, items, counter, k);
      EvalsStep(Prelude(args, items, counter, k - 1), step, Prelude(args, items, counter, k),
                Hoisted(args, items, k - 1), TempName("x", counter + HoistedBefore(args, items, k - 1)), k - 1, i);
    }
  }

  lemma {:induction false} HoistedCountOnce(args: seq<Operand>, items: seq<Item>, k: nat, i: nat)
    requires k <= |args| && i < |args|
    ensures HoistedTimes(args, items, k, i) == if i < k && Hoisted(args, items, i) then 1 else 0
  {
    if k > 0 {
      HoistedCountOnce(args, items, k - 1, i);
    }
  }

  /** One more prelude step emits the code of operand i once more exactly when it assigns operand i. */
  lemma EvalsStep(pre: seq<Chunk>, step: seq<Chunk>, all: seq<Chunk>, hoisted: bool, v: string, j: nat, i: nat)
    requires all == pre + step
    requires step == if hoisted then [Raw(v + " = "), Eval(j, false), Raw(", ")] else []
    ensures EvalCount(all, i) == EvalCount(pre, i) + if hoisted && i == j then 1 else 0
  {
    EvalCountAppend(pre, step, i);
    if hoisted {
      EvalCountAssignment(v, j, i);
    }
  }

  /** The prelude grows by one assignment for each hoisted operand. */
  lemma PreludeStep(args: seq<Operand>, items: seq<Item>, counter: nat, k: nat) returns (step: seq<Chunk>)
    requires 0 < k <= |args|
    ensures step == if Hoisted(args, items, k - 1)
      then [Raw(TempName("x", counter + HoistedBefore(args, items, k - 1)) + " = "), Eval(k - 1, false), Raw(", ")]
      else []
    ensures Prelude(args, items, counter, k) == Prelude(args, items, counter, k - 1) + step
  {
    step := if Hoisted(args, items, k - 1)
      then [Raw(TempName("x", counter + HoistedBefore(args, items, k - 1)) + " = "), Eval(k - 1, false), Raw(", ")]
      else [];
  }

  /** An assignment `v = <lowered>, ` emits the code of its operand once. */
  lemma EvalCountAssignment(v: string, j: nat, i: nat)
    ensures EvalCount([Raw(v + " = "), Eval(j, false), Raw(", ")], i) == if i == j then 1 else 0
  {
    var step := [Raw(v + " = "), Eval(j, false), Raw(", ")];
    EvalCountAppend([Raw(v + " = "), Eval(j, false)], [Raw(", ")], i);
    EvalCountAppend([Raw(v + " = ")], [Eval(j, false)], i);
    assert [Raw(v + " = "), Eval(j, false)] + [Raw(", ")] == step;
    assert [Raw(v + " = ")] + [Eval(j, false)] == [Raw(v + " = "), Eval(j, false)];
    EvalCountOne(Raw(v + " = "), i);
    EvalCountOne(Eval(j, false), i);
    EvalCountOne(Raw(", "), i);
  }

  /**
   * Single evaluation. Whatever the pattern, the code of an operand that is
   * neither an identifier nor a constant appears at most once in the
   * output: once if the pattern references it at all, never otherwise.
   */
  lemma SingleEvaluation(pattern: string, args: seq<Operand>, parens: bool, counter: nat, i: nat)
    requires Render(pattern, args, parens, counter).Ok?
    requires i < |args| && args[i].Expr? && !args[i].isIdent && args[i].value.None?
    ensures EvalCount(Render(pattern, args, parens, counter).value.chunks, i)
         == if RefCount(Scan(pattern).value, i) == 0 then 0 else 1
  {
    var items := Scan(pattern).value;
    var vars := Vars(args, items, counter);
    var body := Body(items, args, vars).value;
    BodyEvals(items, args, vars, i);
    if HoistCount(args, items) > 0 {
      var pre := Prelude(args, items, counter, |args|);
      assert Render(pattern, args, parens, counter).value.chunks == [Raw("(")] + pre + body + [Raw(")")];
      PreludeEvals(args, items, counter, |args|, i);
      EnclosedEvals(pre, body, i);
    } else {
      if Hoisted(args, items, i) {
        HoistedBeforeGrows(args, items, i, |args|);
      }
      assert Render(pattern, args, parens, counter).value.chunks == body;
    }
  }

  lemma EnclosedEvals(pre: seq<Chunk>, body: seq<Chunk>, i: nat)
    ensures EvalCount([Raw("(")] + pre + body + [Raw(")")], i) == EvalCount(pre, i) + EvalCount(body, i)
  {
    EvalCountAppend([Raw("(")] + pre + body, [Raw(")")], i);
    EvalCountAppend([Raw("(")] + pre, body, i);
    EvalCountAppend([Raw("(")], pre, i);
    EvalCountOne(Raw("("), i);
    EvalCountOne(Raw(")"), i);
  }

  /** Identifiers and constants are never hoisted: every reference emits their own text. */
  lemma IdentsAndConstantsNotHoisted(args: seq<Operand>, items: seq<Item>, counter: nat, i: nat)
    requires i < |args| && args[i].Expr? && (args[i].isIdent || args[i].value.Some?)
    ensures Vars(args, items, counter)[i] == ""
  {
  }

  /** A hoisted operand i is counted by HoistedBefore for every k past it. */
  lemma {:induction false} HoistedBeforeGrows(args: seq<Operand>, items: seq<Item>, i: nat, k: nat)
    requires i < k <= |args| && Hoisted(args, items, i)
    ensures HoistedBefore(args, items, k) > HoistedBefore(args, items, i)
    decreases k
  {
    if k > i + 1 {
      HoistedBeforeGrows(args, items, i, k - 1);
    }
  }

  lemma TempNameInjective(prefix: string, m: nat, n: nat)
    requires TempName(prefix, m) == TempName(prefix, n)
    ensures m == n
  {
    assert TempName(prefix, m)[|prefix|..] == NatToDecimal(m);
    assert TempName(prefix, n)[|prefix|..] == NatToDecimal(n);
    DecimalInjective(m, n);
  }

  /**
   * The temporary of a hoisted operand is named after a counter value in
   * [counter, counter + HoistCount): the values newVariable hands out
   * during this call.
   */
  lemma TemporaryName(args: seq<Operand>, items: seq<Item>, counter: nat, j: nat)
    requires j < |args| && Hoisted(args, items, j)
    ensures Vars(args, items, counter)[j] == TempName("x", counter + HoistedBefore(args, items, j))
    ensures HoistedBefore(args, items, j) < HoistCount(args, items)
  {
    HoistedBeforeGrows(args, items, j, |args|);
  }

  /** The suffix a counted tag appends to an operand's temporary or lowering. */
  function TagSuffix(tag: char): string {
    if tag == 'h' then ".$high"
    else if tag == 'l' then ".$low"
    else if tag == 'r' then ".$real"
    else if tag == 'i' then ".$imag"
    else ""
  }

  /**
   * Every counted reference to a hoisted operand prints its temporary with
   * the tag's suffix (`%f` on a 64-bit kind inside `$flatten64(...)`), and
   * not the operand's code.
   */
  lemma HoistedReferencePrintsTemporary(it: Item, args: seq<Operand>, items: seq<Item>, counter: nat)
    requires it.Placeholder? && Counted(it.tag) && 0 <= it.n < |args| && Hoisted(args, items, it.n)
    requires it.tag == 'f' ==> args[it.n].ty.Basic?
    ensures var v := TempName("x", counter + HoistedBefore(args, items, it.n));
      RenderItem(it, args, Vars(args, items, counter))
        == Some(if it.tag == 'f' && Is64Bit(args[it.n].ty.kind) then [Raw("$flatten64("), Raw(v), Raw(")")]
                else [Raw(v + TagSuffix(it.tag))])
  {
    var v := TempName("x", counter + HoistedBefore(args, items, it.n));
    var vars := Vars(args, items, counter);
    assert vars[it.n] == v && v[0] == 'x';
    assert RenderItem(it, args, vars) == RenderRef(it.tag, it.n, args[it.n], v);
    TemporaryReference(it.tag, it.n, args[it.n], v);
  }

  /** A counted tag on a non-constant operand with a temporary v prints v. */
  lemma TemporaryReference(tag: char, n: nat, x: Operand, v: string)
    requires x.Expr? && Counted(tag) && x.value.None? && v != ""
    requires tag == 'f' ==> x.ty.Basic?
    ensures RenderRef(tag, n, x, v)
         == Some(if tag == 'f' && Is64Bit(x.ty.kind) then [Raw("$flatten64("), Raw(v), Raw(")")]
                 else [Raw(v + TagSuffix(tag))])
  {
    assert v + "" == v;
    if tag == 'f' && Is64Bit(x.ty.kind) {
      assert [Raw("$flatten64(")] + [Raw(v + "")] + [Raw(")")] == [Raw("$flatten64("), Raw(v), Raw(")")];
    }
  }

  /** Two hoisted operands of one call get different temporaries. */
  lemma DistinctTemporaries(args: seq<Operand>, items: seq<Item>, counter: nat, j: nat, k: nat)
    requires j < k < |args| && Hoisted(args, items, j) && Hoisted(args, items, k)
    ensures Vars(args, items, counter)[j] != Vars(args, items, counter)[k]
  {
    HoistedBeforeGrows(args, items, j, k);
    if Vars(args, items, counter)[j] == Vars(args, items, counter)[k] {
      TempNameInjective("x", counter + HoistedBefore(args, items, j), counter + HoistedBefore(args, items, k));
    }
  }

  /**
   * A later call starts from a counter at least this call's counter plus
   * its HoistCount (formatExprInternal advances the counter by exactly that
   * much), so temporaries are never reused across calls either.
   */
  lemma TemporariesNeverReused(args1: seq<Operand>, items1: seq<Item>, counter1: nat, j: nat,
                               args2: seq<Operand>, items2: seq<Item>, counter2: nat, k: nat)
    requires j < |args1| && Hoisted(args1, items1, j)
    requires k < |args2| && Hoisted(args2, items2, k)
    requires counter2 >= counter1 + HoistCount(args1, items1)
    ensures Vars(args1, items1, counter1)[j] != Vars(args2, items2, counter2)[k]
  {
    TemporaryName(args1, items1, counter1, j);
    TemporaryName(args2, items2, counter2, k);
    if Vars(args1, items1, counter1)[j] == Vars(args2, items2, counter2)[k] {
      TempNameInjective("x", counter1 + HoistedBefore(args1, items1, j), counter2 + HoistedBefore(args2, items2, k));
    }
  }

  /** The list is strictly increasing. */
  predicate Increasing(s: seq<nat>) {
    forall p, q :: 0 <= p < q < |s| ==> s[p] < s[q]
  }

  /** The list holds exactly the hoisted operands below k. */
  ghost predicate ListsHoisted(s: seq<nat>, args: seq<Operand>, items: seq<Item>, k: nat)
    requires k <= |args|
  {
    forall i: nat :: i in s <==> i < k && Hoisted(args, items, i)
  }

  /**
   * The prelude evaluates exactly the hoisted operands, each once, in
   * increasing operand order.
   */
  lemma PreludeOrder(args: seq<Operand>, items: seq<Item>, counter: nat, k: nat)
    requires k <= |args|
    ensures var order := Evaluated(Prelude(args, items, counter, k));
      |order| == HoistedBefore(args, items, k) && Increasing(order) && ListsHoisted(order, args, items, k)
  {
    PreludeEvaluated(args, items, counter, k);
    HoistedListOrder(args, items, k);
  }

  /** The hoisted operands below k, in increasing order. */
  function HoistedList(args: seq<Operand>, items: seq<Item>, k: nat): seq<nat>
    requires k <= |args|
  {
    if k == 0 then [] else HoistedList(args, items, k - 1) + if Hoisted(args, items, k - 1) then [k - 1] else []
  }

  /** The prelude evaluates the hoisted operands in operand order. */
  lemma {:induction false} PreludeEvaluated(args: seq<Operand>, items: seq<Item>, counter: nat, k: nat)
    requires k <= |args|
    ensures Evaluated(Prelude(args, items, counter, k)) == HoistedList(args, items, k)
  {
    if k > 0 {
      PreludeEvaluated(args, items, counter, k - 1);
      var step := PreludeStep(args, items, counter, k);
      OrderStep(Prelude(args, items, counter, k - 1), step, Prelude(args, items, counter, k),
                Hoisted(args, items, k - 1), TempName("x", counter + HoistedBefore(args, items, k - 1)), k - 1);
    }
  }

  /** The hoisted list counts, orders and lists exactly the hoisted operands. */
  lemma {:induction false} HoistedListOrder(args: seq<Operand>, items: seq<Item>, k: nat)
    requires k <= |args|
    ensures var order := HoistedList(args, items, k);
      |order| == HoistedBefore(args, items, k) && Increasing(order) && ListsHoisted(order, args, items, k)
  {
    if k > 0 {
      HoistedListOrder(args, items, k - 1);
      var before := HoistedList(args, items, k - 1);
      if Hoisted(args, items, k - 1) {
        HoistedOrderStep(args, items, before, k);
      } else {
        assert before + [] == before;
        SkippedOrderStep(args, items, before, k);
      }
    }
  }

  /** One more prelude step evaluates operand j after the others exactly when it assigns it. */
  lemma OrderStep(pre: seq<Chunk>, step: seq<Chunk>, all: seq<Chunk>, hoisted: bool, v: string, j: nat)
    requires all == pre + step
    requires step == if hoisted then [Raw(v + " = "), Eval(j, false), Raw(", ")] else []
    ensures Evaluated(all) == if hoisted then Evaluated(pre) + [j] else Evaluated(pre)
  {
    EvaluatedAppend(pre, step);
    if hoisted {
      EvaluatedAssignment(v, j);
    } else {
      assert Evaluated(step) == [];
      assert Evaluated(pre) + [] == Evaluated(pre);
    }
  }

  /** A hoisted operand k - 1 goes last in the evaluation order. */
  lemma HoistedOrderStep(args: seq<Operand>, items: seq<Item>, before: seq<nat>, k: nat)
    requires 0 < k <= |args| && Hoisted(args, items, k - 1)
    requires Increasing(before) && ListsHoisted(before, args, items, k - 1)
    ensures Increasing(before + [k - 1]) && ListsHoisted(before + [k - 1], args, items, k)
  {
    IncreasingSnoc(before, k - 1);
    forall i: nat ensures i in before + [k - 1] <==> i < k && Hoisted(args, items, i) {
      assert i in before + [k - 1] <==> i in before || i == k - 1;
    }
  }

  /** An operand k - 1 that is not hoisted leaves the evaluation order as it was. */
  lemma SkippedOrderStep(args: seq<Operand>, items: seq<Item>, before: seq<nat>, k: nat)
    requires 0 < k <= |args| && !Hoisted(args, items, k - 1)
    requires ListsHoisted(before, args, items, k - 1)
    ensures ListsHoisted(before, args, items, k)
  {
    forall i: nat ensures i in before <==> i < k && Hoisted(args, items, i) {
      if i == k - 1 {
        assert !Hoisted(args, items, i);
      }
    }
  }

  /** An increasing list stays increasing when a larger element is appended. */
  lemma IncreasingSnoc(s: seq<nat>, x: nat)
    requires Increasing(s)
    requires forall j :: j in s ==> j < x
    ensures Increasing(s + [x])
  {
    var t := s + [x];
    forall p, q | 0 <= p < q < |t| ensures t[p] < t[q] {
      assert t[p] == s[p] && s[p] in s;
      if q < |s| {
        assert t[q] == s[q];
      }
    }
  }

  lemma EvaluatedOne(c: Chunk)
    ensures Evaluated([c]) == if c.Eval? then [c.operand] else []
  {
    assert [c][..0] == [];
  }

  /** An assignment `v = <lowered>, ` evaluates its operand and nothing else. */
  lemma EvaluatedAssignment(v: string, i: nat)
    ensures Evaluated([Raw(v + " = "), Eval(i, false), Raw(", ")]) == [i]
  {
    EvaluatedAppend([Raw(v + " = "), Eval(i, false)], [Raw(", ")]);
    EvaluatedAppend([Raw(v + " = ")], [Eval(i, false)]);
    assert [Raw(v + " = "), Eval(i, false)] + [Raw(", ")] == [Raw(v + " = "), Eval(i, false), Raw(", ")];
    assert [Raw(v + " = ")] + [Eval(i, false)] == [Raw(v + " = "), Eval(i, false)];
    EvaluatedOne(Raw(v + " = "));
    EvaluatedOne(Eval(i, false));
    EvaluatedOne(Raw(", "));
  }

  /** Once something is hoisted, the prelude text starts with the first temporary's 'x'. */
  lemma {:induction false} PreludeStartsWithTemporary(args: seq<Operand>, items: seq<Item>, counter: nat, k: nat, lower: nat -> Expression)
    requires k <= |args| && HoistedBefore(args, items, k) > 0
    ensures var t := Flatten(Prelude(args, items, counter, k), args, lower); |t| > 0 && t[0] == 'x'
  {
    assert k > 0;
    var step := PreludeStep(args, items, counter, k);
    var pre := Prelude(args, items, counter, k - 1);
    if HoistedBefore(args, items, k - 1) > 0 {
      PreludeStartsWithTemporary(args, items, counter, k - 1, lower);
      StartsAfter(pre, step, Prelude(args, items, counter, k), args, lower);
    } else {
      PreludeEmpty(args, items, counter, k - 1);
      var v := TempName("x", counter + HoistedBefore(args, items, k - 1));
      assert v[0] == 'x';
      StartsWithAssignment(pre, step, Prelude(args, items, counter, k), v, k - 1, args, lower);
    }
  }

  /** Chunks appended after a text that starts with 'x' keep that first character. */
  lemma StartsAfter(pre: seq<Chunk>, step: seq<Chunk>, all: seq<Chunk>, args: seq<Operand>, lower: nat -> Expression)
    requires all == pre + step
    requires var t := Flatten(pre, args, lower); |t| > 0 && t[0] == 'x'
    ensures var t := Flatten(all, args, lower); |t| > 0 && t[0] == 'x'
  {
    FlattenAppend(pre, step, args, lower);
  }

  /** An assignment to a temporary named with 'x' starts with 'x'. */
  lemma StartsWithAssignment(pre: seq<Chunk>, step: seq<Chunk>, all: seq<Chunk>, v: string, j: nat, args: seq<Operand>, lower: nat -> Expression)
    requires all == pre + step && pre == []
    requires step == [Raw(v + " = "), Eval(j, false), Raw(", ")]
    requires |v| > 0 && v[0] == 'x'
    ensures var t := Flatten(all, args, lower); |t| > 0 && t[0] == 'x'
  {
    assert all == step;
    FlattenThree(Raw(v + " = "), Eval(j, false), Raw(", "), args, lower);
    assert (v + " = ")[0] == 'x';
  }

  /**
   * The parenthesisation rule. If an operand is hoisted the output is one
   * `(`, the first assignment, ..., and one `)`, and the flag is off;
   * otherwise the flag is the one requested (true for formatParenExpr,
   * false for formatExpr).
   */
  lemma ParensRule(pattern: string, args: seq<Operand>, parens: bool, counter: nat, lower: nat -> Expression)
    requires Format(pattern, args, parens, counter, lower).Ok?
    ensures var e := Format(pattern, args, parens, counter, lower).value;
      var items := Scan(pattern).value;
      && (HoistCount(args, items) > 0 ==>
            !e.parens && |e.str| >= 3 && e.str[0] == '(' && e.str[1] == 'x' && e.str[|e.str| - 1] == ')')
      && (HoistCount(args, items) == 0 ==> e.parens == parens)
  {
    var items := Scan(pattern).value;
    if HoistCount(args, items) > 0 {
      var pre := Prelude(args, items, counter, |args|);
      var body := Body(items, args, Vars(args, items, counter)).value;
      assert Render(pattern, args, parens, counter).value.chunks == [Raw("(")] + pre + body + [Raw(")")];
      EnclosedText(pre, body, args, lower);
      PreludeStartsWithTemporary(args, items, counter, |args|, lower);
    }
  }
}
