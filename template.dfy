/**
 * The template engine behind formatExpr and formatParenExpr, as functions.
 *
 * A pattern mixes literal bytes with placeholders `%[digit]tag`. The engine
 * first scans the pattern into items, counts how often each operand is
 * referenced by the tags e, f, h, l, r and i, hoists every operand that is
 * referenced more than once and is neither an identifier nor a constant
 * into a fresh temporary, and then renders the items.
 *
 * The output is described as a sequence of chunks: raw text, or the
 * lowering of an operand. Flattening the chunks with the lowering oracle
 * gives the text; counting the `Eval` chunks says how often an operand's
 * code is emitted, which is what single evaluation is about.
 */
module Template {
  import opened Outcome
  import opened Text
  import opened GoTypes
  import opened Expressions

  const TWO_32: int := 0x1_0000_0000
  const TWO_63: int := 0x8000_0000_0000_0000
  const TWO_64: int := 0x1_0000_0000_0000_0000

  /** The NUL byte: a placeholder whose tag is NUL is written out as that byte. */
  const NUL: char := 0 as char

  /**
   * A statically known value, as the go/constant operations used by the
   * engine see it: the integer that constant.ToInt yields (None when it
   * yields an unknown value), and the shortest float texts of the real and
   * imaginary parts (float formatting is not modelled).
   */
  datatype Constant = Constant(intVal: Option<int>, realText: string, imagText: string)

  /**
   * An operand of a template. `Expr` is an AST expression as the oracle
   * sees it: a node id for the lowering oracle, whether it is a bare
   * identifier, its constant value if any, and its underlying type.
   * `Lowered` is an already lowered *expression, `Str` a Go string, `Int`
   * a Go int and `Tok` an operator token.
   */
  datatype Operand =
    | Expr(id: nat, isIdent: bool, value: Option<Constant>, ty: Type)
    | Str(s: string)
    | Lowered(e: Expression)
    | Int(i: int)
    | Tok(t: Token)

  /**
   * One step of the pattern scan: a literal byte, or a placeholder with its
   * tag, the operand index it selects, and whether that index was written
   * out as a digit.
   */
  datatype Item = Lit(b: char) | Placeholder(tag: char, n: int, explicit: bool)

  // ---------------------------------------------------------------------
  // Scanning

  function Cons(x: Item, r: Option<seq<Item>>): Option<seq<Item>>
  {
    if r.None? then None else Some([x] + r.value)
  }

  /**
   * The scan of the rest `s` of a pattern, with running operand index n.
   * A trailing '%', or a '%' and digit at the very end, reads past the end
   * of the pattern, which is an internal error.
   */
  function ScanFrom(s: string, n: int): Option<seq<Item>>
    decreases |s|
  {
    if s == [] then Some([])
    else if s[0] != '%' then Cons(Lit(s[0]), ScanFrom(s[1..], n))
    else if |s| == 1 then None
    else if IsDigit(s[1]) then
      if |s| == 2 then None
      else
        var m := ExplicitIndex(s[1]);
        Cons(Placeholder(s[2], m, true), ScanFrom(s[3..], m + 1))
    else Cons(Placeholder(s[1], n, false), ScanFrom(s[2..], n + 1))
  }

  /**
   * The operand a digit selects: int(k - '0' - 1) is computed on the byte
   * k, so it wraps modulo 256 and the digit 0 selects operand 255.
   */
  function ExplicitIndex(d: char): (m: int)
    requires IsDigit(d)
    ensures d == '0' ==> m == 255
    ensures d != '0' ==> m == d as int - '0' as int - 1
  {
    (d as int - '0' as int - 1) % 256
  }

  function Scan(pattern: string): Option<seq<Item>>
  {
    ScanFrom(pattern, 0)
  }

  /** The pattern text an item sequence was scanned from. */
  function Unscan(items: seq<Item>): string
  {
    if items == [] then ""
    else ItemText(items[0]) + Unscan(items[1..])
  }

  function ItemText(it: Item): string
  {
    match it
    case Lit(b) => [b]
    case Placeholder(tag, m, explicit) =>
      if explicit && (0 <= m <= 8 || m == 255) then ['%', DigitChar((m + 1) % 256), tag] else ['%', tag]
  }

  /**
   * The indexing rule: a literal is never '%'; a placeholder with a digit d
   * selects operand d-1 (255 for the digit 0); one without a digit selects the running index,
   * which starts at 0 and is one past the previous placeholder's index.
   */
  predicate WellFormedFrom(items: seq<Item>, n: int)
    decreases |items|
  {
    if items == [] then true
    else match items[0]
      case Lit(b) => b != '%' && WellFormedFrom(items[1..], n)
      case Placeholder(tag, m, explicit) =>
        (if explicit then 0 <= m <= 8 || m == 255 else m == n && !IsDigit(tag))
        && WellFormedFrom(items[1..], m + 1)
  }

  // ---------------------------------------------------------------------
  // Counting references

  /** The tags whose references count towards hoisting. */
  predicate Counted(tag: char) {
    tag in "efhlri"
  }

  predicate IsRef(it: Item, i: int) {
    it.Placeholder? && Counted(it.tag) && it.n == i
  }

  /** counts[i]: how many counted placeholders select operand i. */
  function RefCount(items: seq<Item>, i: int): nat
  {
    if items == [] then 0
    else RefCount(items[..|items| - 1], i) + (if IsRef(items[|items| - 1], i) then 1 else 0)
  }

  /** Every counted placeholder selects an existing operand. */
  predicate RefsInRange(items: seq<Item>, m: nat) {
    forall k :: 0 <= k < |items| && items[k].Placeholder? && Counted(items[k].tag) ==>
      0 <= items[k].n < m
  }

  // ---------------------------------------------------------------------
  // Hoisting

  /** Operand i gets a temporary: referenced twice or more, not an identifier, not a constant. */
  predicate Hoisted(args: seq<Operand>, items: seq<Item>, i: nat)
    requires i < |args|
  {
    RefCount(items, i) > 1 && args[i].Expr? && !args[i].isIdent && args[i].value.None?
  }

  /** An operand referenced twice or more that is not an expression cannot be hoisted. */
  predicate HoistFails(args: seq<Operand>, items: seq<Item>)
  {
    exists i :: 0 <= i < |args| && CannotHoist(args, items, i)
  }

  /** Operand i is referenced twice or more but is not an expression. */
  predicate CannotHoist(args: seq<Operand>, items: seq<Item>, i: nat)
    requires i < |args|
  {
    RefCount(items, i) > 1 && !args[i].Expr?
  }

  /** How many of the operands before i are hoisted. */
  function HoistedBefore(args: seq<Operand>, items: seq<Item>, i: nat): nat
    requires i <= |args|
  {
    if i == 0 then 0
    else HoistedBefore(args, items, i - 1) + (if Hoisted(args, items, i - 1) then 1 else 0)
  }

  function HoistCount(args: seq<Operand>, items: seq<Item>): nat
  {
    HoistedBefore(args, items, |args|)
  }

  /** The name newVariable mints from a prefix and the context's counter. */
  function TempName(prefix: string, k: nat): string
  {
    prefix + NatToDecimal(k)
  }

  /** vars: the temporary of each hoisted operand, "" for the others. */
  function Vars(args: seq<Operand>, items: seq<Item>, counter: nat): (vars: seq<string>)
    ensures |vars| == |args|
    ensures forall j :: 0 <= j < |args| ==> vars[j] == VarOf(args, items, counter, j)
  {
    seq(|args|, j requires 0 <= j < |args| => VarOf(args, items, counter, j))
  }

  /** The temporary of operand j, or "" when it is not hoisted. */
  function VarOf(args: seq<Operand>, items: seq<Item>, counter: nat, j: nat): string
    requires j < |args|
  {
    if Hoisted(args, items, j) then TempName("x", counter + HoistedBefore(args, items, j)) else ""
  }

  // ---------------------------------------------------------------------
  // Rendering

  /** A piece of output: raw text, or the lowering of operand `operand`. */
  datatype Chunk = Raw(s: string) | Eval(operand: nat, withParens: bool)

  /** The assignments `v = <lowered>, ` of the hoisted operands before i, in operand order. */
  function Prelude(args: seq<Operand>, items: seq<Item>, counter: nat, i: nat): seq<Chunk>
    requires i <= |args|
  {
    if i == 0 then []
    else
      Prelude(args, items, counter, i - 1)
      + (if Hoisted(args, items, i - 1)
         then [Raw(TempName("x", counter + HoistedBefore(args, items, i - 1)) + " = "), Eval(i - 1, false), Raw(", ")]
         else [])
  }

  /** A reference to an operand: its temporary if it has one, else its lowering in parentheses. */
  function RefText(n: nat, v: string, suffix: string): seq<Chunk>
  {
    if v != "" then [Raw(v + suffix)] else [Eval(n, true), Raw(suffix)]
  }

  /** The value of a constant as go/constant's ToInt sees it; an unknown value reads as 0. */
  function ConstInt(c: Constant): int
  {
    if c.intVal.Some? then c.intVal.value else 0
  }

  /** int64(u) for a 64-bit pattern u: two's complement. */
  function ToInt64(u: int): int
    requires 0 <= u < TWO_64
  {
    if u < TWO_63 then u else u - TWO_64
  }

  /**
   * constant.Uint64Val: a value of int64 size in two's complement; a wider
   * one gives the low 64 bits of its magnitude.
   */
  function Uint64Val(v: int): (u: int)
    ensures 0 <= u < TWO_64
  {
    if -TWO_63 <= v < TWO_63 then v % TWO_64
    else (if v < 0 then -v else v) % TWO_64
  }

  /**
   * constant.Int64Val: the low 64 bits of the magnitude read as an int64,
   * negated (with wrap-around) for a negative value.
   */
  function Int64Val(v: int): (r: int)
    ensures -TWO_63 <= r < TWO_63
  {
    if v >= 0 then ToInt64(v % TWO_64)
    else
      var w := ToInt64((-v) % TWO_64);
      if w == -TWO_63 then w else -w
  }

  /** The text of the `%h` tag for a constant: its high 32 bits. */
  function HighText(c: Constant, kind: Kind): string
  {
    var d := Uint64Val(ConstInt(c));
    if kind == Int64 then IntToDecimal(ToInt64(d) / TWO_32)
    else NatToDecimal(d / TWO_32)
  }

  /** The text of the `%l` tag for a constant: its low 32 bits. */
  function LowText(c: Constant): string
  {
    NatToDecimal(Uint64Val(ConstInt(c)) % TWO_32)
  }

  /** A counted placeholder applied to an expression operand whose temporary (or "") is v. */
  function RenderRef(tag: char, n: nat, x: Operand, v: string): Option<seq<Chunk>>
    requires x.Expr? && Counted(tag)
  {
    match x.value
    case Some(c) =>
      if tag == 'e' then Some([Eval(n, false)])
      else if tag == 'f' then Some([Raw(IntToDecimal(Int64Val(ConstInt(c))))])
      else if tag == 'h' then
        if x.ty.Basic? then Some([Raw(HighText(c, x.ty.kind))]) else None
      else if tag == 'l' then Some([Raw(LowText(c))])
      else if tag == 'r' then Some([Raw(c.realText)])
      else Some([Raw(c.imagText)])
    case None =>
      if tag == 'e' then Some(RefText(n, v, ""))
      else if tag == 'f' then
        if !x.ty.Basic? then None
        else if Is64Bit(x.ty.kind) then Some([Raw("$flatten64(")] + RefText(n, v, "") + [Raw(")")])
        else Some(RefText(n, v, ""))
      else if tag == 'h' then Some(RefText(n, v, ".$high"))
      else if tag == 'l' then Some(RefText(n, v, ".$low"))
      else if tag == 'r' then Some(RefText(n, v, ".$real"))
      else Some(RefText(n, v, ".$imag"))
  }

  /** The tags the engine knows; any other tag is an internal error. */
  predicate KnownTag(tag: char) {
    tag == NUL || tag == '%' || tag == 's' || tag == 'd' || tag == 't' || Counted(tag)
  }

  /** The output of one item, or None when the item is an internal error. */
  function RenderItem(it: Item, args: seq<Operand>, vars: seq<string>): Option<seq<Chunk>>
    requires |vars| == |args|
  {
    match it
    case Lit(b) => Some([Raw([b])])
    case Placeholder(tag, n, _) =>
      if tag == NUL then Some([Raw([NUL])])
      else if tag == '%' then Some([Raw("%")])
      else if !(0 <= n < |args|) then None
      else if tag == 's' then
        (match args[n]
         case Lowered(e) => Some([Raw(StringWithParens(e))])
         case Str(s) => Some([Raw(s)])
         case _ => None)
      else if tag == 'd' then
        (if args[n].Int? then Some([Raw(IntToDecimal(args[n].i))]) else None)
      else if tag == 't' then
        (if args[n].Tok? then Some([Raw(Spelling(args[n].t))]) else None)
      else if Counted(tag) && args[n].Expr? then RenderRef(tag, n, args[n], vars[n])
      else None
  }

  /** The output of all items in order, or None when one of them is an internal error. */
  function Body(items: seq<Item>, args: seq<Operand>, vars: seq<string>): Option<seq<Chunk>>
    requires |vars| == |args|
  {
    if items == [] then Some([])
    else
      var front := Body(items[..|items| - 1], args, vars);
      var last := RenderItem(items[|items| - 1], args, vars);
      if front.None? || last.None? then None else Some(front.value + last.value)
  }

  /** The rendered output before flattening, with the resulting parens flag. */
  datatype Rendered = Rendered(chunks: seq<Chunk>, parens: bool)

  /** formatExprInternal on chunks: the pattern, the operands, the requested flag and the name counter. */
  function Render(pattern: string, args: seq<Operand>, parens: bool, counter: nat): Result<Rendered>
  {
    var scanned := Scan(pattern);
    if scanned.None? then Fatal
    else
      var items := scanned.value;
      if !RefsInRange(items, |args|) || HoistFails(args, items) then Fatal
      else
        var body := Body(items, args, Vars(args, items, counter));
        if body.None? then Fatal
        else if HoistCount(args, items) > 0 then
          Ok(Rendered([Raw("(")] + Prelude(args, items, counter, |args|) + body.value + [Raw(")")], false))
        else Ok(Rendered(body.value, parens))
  }

  /** The text of a chunk sequence, given the lowering oracle. */
  function Flatten(chunks: seq<Chunk>, args: seq<Operand>, lower: nat -> Expression): string
  {
    if chunks == [] then ""
    else Flatten(chunks[..|chunks| - 1], args, lower) + ChunkText(chunks[|chunks| - 1], args, lower)
  }

  function ChunkText(c: Chunk, args: seq<Operand>, lower: nat -> Expression): string
  {
    match c
    case Raw(s) => s
    case Eval(i, p) =>
      if i < |args| && args[i].Expr? then
        (if p then StringWithParens(lower(args[i].id)) else lower(args[i].id).str)
      else ""
  }

  /** formatExprInternal: the lowered expression a pattern and its operands produce. */
  function Format(pattern: string, args: seq<Operand>, parens: bool, counter: nat, lower: nat -> Expression): Result<Expression>
  {
    var r := Render(pattern, args, parens, counter);
    if r.Fatal? then Fatal else Ok(Expression(Flatten(r.value.chunks, args, lower), r.value.parens))
  }

  // ---------------------------------------------------------------------
  // Building blocks for reasoning about concrete patterns

  /** The items of a run of literal bytes. */
  function Lits(s: string): (r: seq<Item>)
    ensures |r| == |s| && forall k :: 0 <= k < |s| ==> r[k] == Lit(s[k])
  {
    seq(|s|, k requires 0 <= k < |s| => Lit(s[k]))
  }

  function Prepend(xs: seq<Item>, r: Option<seq<Item>>): Option<seq<Item>>
  {
    if r.None? then None else Some(xs + r.value)
  }

  /** Bytes other than '%' scan to literals and leave the running index alone. */
  lemma {:induction false} ScanLits(p: string, q: string, n: int)
    requires '%' !in p
    ensures ScanFrom(p + q, n) == Prepend(Lits(p), ScanFrom(q, n))
  {
    if p == [] {
      assert p + q == q;
      assert Lits(p) == [];
      if ScanFrom(q, n).Some? {
        assert [] + ScanFrom(q, n).value == ScanFrom(q, n).value;
      }
    } else {
      assert (p + q)[0] == p[0];
      assert (p + q)[1..] == p[1..] + q;
      assert '%' !in p[1..] by {
        forall k | 0 <= k < |p[1..]| ensures p[1..][k] != '%' { assert p[1..][k] == p[k + 1]; }
      }
      assert p[0] != '%';
      ScanLits(p[1..], q, n);
      assert Lits(p) == [Lit(p[0])] + Lits(p[1..]);
      calc {
        ScanFrom(p + q, n);
        Cons(Lit(p[0]), ScanFrom(p[1..] + q, n));
        Cons(Lit(p[0]), Prepend(Lits(p[1..]), ScanFrom(q, n)));
        { if ScanFrom(q, n).Some? {
            var v := ScanFrom(q, n).value;
            assert [Lit(p[0])] + (Lits(p[1..]) + v) == ([Lit(p[0])] + Lits(p[1..])) + v;
          } }
        Prepend(Lits(p), ScanFrom(q, n));
      }
    }
  }

  /** `%` and a tag that is not a digit select the running index, which then advances. */
  lemma ScanImplicit(tag: char, q: string, n: int)
    requires !IsDigit(tag)
    ensures ScanFrom(['%', tag] + q, n) == Cons(Placeholder(tag, n, false), ScanFrom(q, n + 1))
  {
    assert (['%', tag] + q)[2..] == q;
  }

  /** `%`, a digit d and a tag select operand d-1; the running index continues from there. */
  lemma ScanExplicit(d: char, tag: char, q: string, n: int)
    requires IsDigit(d)
    ensures ScanFrom(['%', d, tag] + q, n)
         == Cons(Placeholder(tag, ExplicitIndex(d), true), ScanFrom(q, ExplicitIndex(d) + 1))
  {
    assert (['%', d, tag] + q)[3..] == q;
  }

  function BothBodies(a: Option<seq<Chunk>>, b: Option<seq<Chunk>>): Option<seq<Chunk>>
  {
    if a.None? || b.None? then None else Some(a.value + b.value)
  }

  lemma {:induction false} BodyAppend(xs: seq<Item>, ys: seq<Item>, args: seq<Operand>, vars: seq<string>)
    requires |vars| == |args|
    ensures Body(xs + ys, args, vars) == BothBodies(Body(xs, args, vars), Body(ys, args, vars))
    decreases |ys|
  {
    if ys == [] {
      assert xs + ys == xs;
      assert Body(ys, args, vars) == Some([]);
      if Body(xs, args, vars).Some? {
        assert Body(xs, args, vars).value + [] == Body(xs, args, vars).value;
      }
    } else {
      var ys' := ys[..|ys| - 1];
      assert (xs + ys)[..|xs + ys| - 1] == xs + ys';
      assert (xs + ys)[|xs + ys| - 1] == ys[|ys| - 1];
      BodyAppend(xs, ys', args, vars);
      var last := RenderItem(ys[|ys| - 1], args, vars);
      assert Body(ys, args, vars) == BothBodies(Body(ys', args, vars), last);
      assert Body(xs + ys, args, vars) == BothBodies(Body(xs + ys', args, vars), last);
      var bx, bys := Body(xs, args, vars), Body(ys', args, vars);
      if bx.Some? && bys.Some? && last.Some? {
        assert bx.value + (bys.value + last.value) == (bx.value + bys.value) + last.value;
      }
    }
  }

  lemma {:induction false} FlattenAppend(a: seq<Chunk>, b: seq<Chunk>, args: seq<Operand>, lower: nat -> Expression)
    ensures Flatten(a + b, args, lower) == Flatten(a, args, lower) + Flatten(b, args, lower)
    decreases |b|
  {
    if b == [] {
      assert a + b == a;
    } else {
      var b' := b[..|b| - 1];
      var ab := a + b;
      assert ab[..|ab| - 1] == a + b';
      assert ab[|ab| - 1] == b[|b| - 1];
      var t := ChunkText(b[|b| - 1], args, lower);
      assert Flatten(ab, args, lower) == Flatten(a + b', args, lower) + t;
      assert Flatten(b, args, lower) == Flatten(b', args, lower) + t;
      FlattenAppend(a, b', args, lower);
      Regroup3(Flatten(a, args, lower), Flatten(b', args, lower), t);
    }
  }

  lemma Regroup3(x: string, y: string, z: string)
    ensures (x + y) + z == x + (y + z)
  {
  }


  /** Literal bytes render as themselves. */
  lemma {:induction false} BodyLits(s: string, args: seq<Operand>, vars: seq<string>, lower: nat -> Expression)
    requires |vars| == |args|
    ensures Body(Lits(s), args, vars).Some?
    ensures Flatten(Body(Lits(s), args, vars).value, args, lower) == s
    decreases |s|
  {
    if s != [] {
      var s' := s[..|s| - 1];
      var c := s[|s| - 1];
      assert Lits(s)[..|s| - 1] == Lits(s');
      assert Lits(s)[|s| - 1] == Lit(c);
      BodyLits(s', args, vars, lower);
      var front := Body(Lits(s'), args, vars).value;
      assert RenderItem(Lit(c), args, vars) == Some([Raw([c])]);
      var chunks := front + [Raw([c])];
      assert Body(Lits(s), args, vars) == Some(chunks);
      assert chunks[..|chunks| - 1] == front;
      assert Flatten(chunks, args, lower) == s' + [c];
      assert s' + [c] == s;
    }
  }


  lemma {:induction false} RefCountAppend(xs: seq<Item>, ys: seq<Item>, i: int)
    ensures RefCount(xs + ys, i) == RefCount(xs, i) + RefCount(ys, i)
    decreases |ys|
  {
    if ys == [] {
      assert xs + ys == xs;
    } else {
      var ys' := ys[..|ys| - 1];
      assert (xs + ys)[..|xs + ys| - 1] == xs + ys';
      assert (xs + ys)[|xs + ys| - 1] == ys[|ys| - 1];
      RefCountAppend(xs, ys', i);
    }
  }

  lemma {:induction false} RefCountNone(xs: seq<Item>, i: int)
    requires forall k :: 0 <= k < |xs| ==> !IsRef(xs[k], i)
    ensures RefCount(xs, i) == 0
    decreases |xs|
  {
    if xs != [] {
      RefCountNone(xs[..|xs| - 1], i);
    }
  }

  function Blank(m: nat): (vars: seq<string>)
    ensures |vars| == m && forall j :: 0 <= j < m ==> vars[j] == ""
  {
    seq(m, j => "")
  }

  /** When no operand is referenced twice nothing is hoisted: the output is the body, with the requested flag. */
  lemma FormatWithoutHoisting(pattern: string, items: seq<Item>, args: seq<Operand>, parens: bool, counter: nat)
    requires Scan(pattern) == Some(items)
    requires RefsInRange(items, |args|)
    requires forall i :: 0 <= i < |args| ==> RefCount(items, i) <= 1
    ensures Vars(args, items, counter) == Blank(|args|)
    ensures HoistCount(args, items) == 0
    ensures Render(pattern, args, parens, counter)
         == (var body := Body(items, args, Blank(|args|));
             if body.None? then Fatal else Ok(Rendered(body.value, parens)))
  {
    NoneHoisted(args, items, |args|);
  }

  lemma {:induction false} NoneHoisted(args: seq<Operand>, items: seq<Item>, i: nat)
    requires i <= |args|
    requires forall j :: 0 <= j < |args| ==> RefCount(items, j) <= 1
    ensures HoistedBefore(args, items, i) == 0
  {
    if i > 0 {
      NoneHoisted(args, items, i - 1);
    }
  }

  /** Operands that are not expressions are never hoisted. */
  lemma {:induction false} NoExpressionsNoneHoisted(args: seq<Operand>, items: seq<Item>, i: nat)
    requires i <= |args|
    requires forall j :: 0 <= j < |args| ==> !args[j].Expr?
    ensures HoistedBefore(args, items, i) == 0
  {
    if i > 0 {
      NoExpressionsNoneHoisted(args, items, i - 1);
    }
  }

  /**
   * A call whose operands are strings, tokens, ints or lowered expressions
   * hoists nothing, so on success it takes no name from newVariable.
   */
  lemma WithoutExpressionsNothingHoisted(pattern: string, args: seq<Operand>, parens: bool, counter: nat, lower: nat -> Expression)
    requires forall j :: 0 <= j < |args| ==> !args[j].Expr?
    ensures Format(pattern, args, parens, counter, lower).Ok? ==> Scan(pattern).Some? && HoistCount(args, Scan(pattern).value) == 0
  {
    if Scan(pattern).Some? {
      NoExpressionsNoneHoisted(args, Scan(pattern).value, |args|);
    }
  }

  lemma BodyOne(it: Item, args: seq<Operand>, vars: seq<string>)
    requires |vars| == |args|
    ensures Body([it], args, vars) == RenderItem(it, args, vars)
  {
    assert [it][..0] == [];
    var r := RenderItem(it, args, vars);
    if r.Some? {
      assert [] + r.value == r.value;
    }
  }

  lemma FlattenOne(c: Chunk, args: seq<Operand>, lower: nat -> Expression)
    ensures Flatten([c], args, lower) == ChunkText(c, args, lower)
  {
    assert [c][..0] == [];
  }

  lemma ScanEnd(n: int)
    ensures ScanFrom("", n) == Some([])
  {
  }

  lemma FlattenTwo(c: Chunk, d: Chunk, args: seq<Operand>, lower: nat -> Expression)
    ensures Flatten([c, d], args, lower) == ChunkText(c, args, lower) + ChunkText(d, args, lower)
  {
    FlattenAppend([c], [d], args, lower);
    FlattenOne(c, args, lower);
    FlattenOne(d, args, lower);
    assert [c] + [d] == [c, d];
  }

  lemma FlattenThree(c: Chunk, d: Chunk, e: Chunk, args: seq<Operand>, lower: nat -> Expression)
    ensures Flatten([c, d, e], args, lower)
         == ChunkText(c, args, lower) + ChunkText(d, args, lower) + ChunkText(e, args, lower)
  {
    FlattenAppend([c, d], [e], args, lower);
    FlattenTwo(c, d, args, lower);
    FlattenOne(e, args, lower);
    assert [c, d] + [e] == [c, d, e];
  }

  /** A scanned prefix followed by the scan of the rest. */
  lemma PrependCons(acc: seq<Item>, x: Item, r: Option<seq<Item>>)
    ensures Prepend(acc, Cons(x, r)) == Prepend(acc + [x], r)
  {
    if r.Some? {
      assert acc + ([x] + r.value) == (acc + [x]) + r.value;
    }
  }

  /** The prelude is empty exactly when no operand before i is hoisted. */
  lemma {:induction false} PreludeEmpty(args: seq<Operand>, items: seq<Item>, counter: nat, i: nat)
    requires i <= |args|
    ensures HoistedBefore(args, items, i) == 0 <==> Prelude(args, items, counter, i) == []
  {
    if i > 0 {
      PreludeEmpty(args, items, counter, i - 1);
    }
  }

  /** An internal error in a prefix of the items is an internal error of the whole. */
  lemma BodyPrefixFails(items: seq<Item>, k: nat, args: seq<Operand>, vars: seq<string>)
    requires |vars| == |args| && k <= |items|
    requires Body(items[..k], args, vars).None?
    ensures Body(items, args, vars).None?
  {
    assert items == items[..k] + items[k..];
    BodyAppend(items[..k], items[k..], args, vars);
  }

  /** The text of a hoisting result: the prelude and the body inside one pair of parentheses. */
  lemma EnclosedText(prelude: seq<Chunk>, chunks: seq<Chunk>, a: seq<Operand>, lower: nat -> Expression)
    ensures Flatten([Raw("(")] + prelude + chunks + [Raw(")")], a, lower)
         == "(" + Flatten(prelude, a, lower) + Flatten(chunks, a, lower) + ")"
  {
    FlattenAppend([Raw("(")] + prelude + chunks, [Raw(")")], a, lower);
    FlattenAppend([Raw("(")] + prelude, chunks, a, lower);
    FlattenAppend([Raw("(")], prelude, a, lower);
    FlattenOne(Raw("("), a, lower);
    FlattenOne(Raw(")"), a, lower);
  }
}
