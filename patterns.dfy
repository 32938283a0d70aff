/**
 * Evaluating patterns whose placeholders each select the next operand in
 * turn (written `%K` or with the matching digit, `%1K`, `%2K`, ...), as the
 * compiler's fixed patterns do. Such a pattern references every operand at
 * most once, so nothing is hoisted and the output is the literal text with
 * each placeholder replaced by its operand's text.
 */
module Patterns {
  import opened Outcome
  import opened Text
  import opened Expressions
  import opened Template
  import RenderProps

  /** A piece of a pattern: literal text, or a placeholder for the next operand. */
  datatype Piece = Text(s: string) | Ref(tag: char, digit: bool)

  /**
   * A pattern as a list of pieces (a list rather than a sequence, so that
   * the pattern and output of a fixed list are computed by unfolding).
   */
  datatype Pieces = Done | Then(head: Piece, rest: Pieces)

  /** The pattern text of pieces whose first placeholder selects operand n. */
  function PatternFrom(ps: Pieces, n: nat): string
  {
    match ps
    case Done => ""
    case Then(Text(s), rest) => s + PatternFrom(rest, n)
    case Then(Ref(tag, digit), rest) =>
      (if digit && n < 9 then ['%', DigitChar(n + 1), tag] else ['%', tag]) + PatternFrom(rest, n + 1)
  }

  function Pattern(ps: Pieces): string
  {
    PatternFrom(ps, 0)
  }

  /** Literal text without '%', and tags that are not digits. */
  predicate Plain(ps: Pieces)
  {
    match ps
    case Done => true
    case Then(Text(s), rest) => '%' !in s && Plain(rest)
    case Then(Ref(tag, _), rest) => !IsDigit(tag) && Plain(rest)
  }

  function RefsIn(ps: Pieces): nat
  {
    match ps
    case Done => 0
    case Then(p, rest) => (if p.Ref? then 1 else 0) + RefsIn(rest)
  }

  /** The text of a placeholder for operand n, rendered without temporaries. */
  function RefOutput(tag: char, n: nat, args: seq<Operand>, lower: nat -> Expression): Option<string>
  {
    var r := RenderItem(Placeholder(tag, n, false), args, Blank(|args|));
    if r.None? then None else Some(Flatten(r.value, args, lower))
  }

  /** The text of the pieces with the placeholders rendered, operands numbered from n. */
  function OutputFrom(ps: Pieces, n: nat, args: seq<Operand>, lower: nat -> Expression): Option<string>
  {
    match ps
    case Done => Some("")
    case Then(Text(s), rest) =>
      var o := OutputFrom(rest, n, args, lower);
      if o.None? then None else Some(s + o.value)
    case Then(Ref(tag, _), rest) =>
      var h := RefOutput(tag, n, args, lower);
      var o := OutputFrom(rest, n + 1, args, lower);
      if h.None? || o.None? then None else Some(h.value + o.value)
  }

  function Output(ps: Pieces, args: seq<Operand>, lower: nat -> Expression): Option<string>
  {
    OutputFrom(ps, 0, args, lower)
  }

  /** The items the scan of the pieces yields. */
  function ItemsFrom(ps: Pieces, n: nat): seq<Item>
  {
    match ps
    case Done => []
    case Then(Text(s), rest) => Lits(s) + ItemsFrom(rest, n)
    case Then(Ref(tag, digit), rest) => [Placeholder(tag, n, digit && n < 9)] + ItemsFrom(rest, n + 1)
  }

  lemma {:induction false} ScanPieces(ps: Pieces, n: nat)
    requires Plain(ps)
    ensures ScanFrom(PatternFrom(ps, n), n) == Some(ItemsFrom(ps, n))
  {
    match ps
    case Done =>
      ScanEnd(n);
    case Then(Text(s), rest) =>
      ScanPieces(rest, n);
      ScanLits(s, PatternFrom(rest, n), n);
    case Then(Ref(tag, digit), rest) =>
      ScanPieces(rest, n + 1);
      ScanRef(tag, digit, PatternFrom(rest, n + 1), n);
  }

  /** One placeholder of the pieces scans to its item, whether or not it carries its digit. */
  lemma ScanRef(tag: char, digit: bool, q: string, n: nat)
    requires !IsDigit(tag)
    ensures ScanFrom((if digit && n < 9 then ['%', DigitChar(n + 1), tag] else ['%', tag]) + q, n)
         == Cons(Placeholder(tag, n, digit && n < 9), ScanFrom(q, n + 1))
  {
    if digit && n < 9 {
      ScanExplicit(DigitChar(n + 1), tag, q, n);
    } else {
      ScanImplicit(tag, q, n);
    }
  }

  /** No placeholder of the pieces selects an operand below n, and each at most once. */
  lemma {:induction false} PieceRefs(ps: Pieces, n: nat, i: int)
    ensures RefCount(ItemsFrom(ps, n), i) <= (if n <= i < n + RefsIn(ps) then 1 else 0)
  {
    match ps
    case Done =>
    case Then(Text(s), rest) =>
      PieceRefs(rest, n, i);
      RefCountAppend(Lits(s), ItemsFrom(rest, n), i);
      RefCountNone(Lits(s), i);
    case Then(Ref(tag, digit), rest) =>
      PieceRefs(rest, n + 1, i);
      var p := Placeholder(tag, n, digit && n < 9);
      RefCountAppend([p], ItemsFrom(rest, n + 1), i);
      assert [p][..0] == [];
  }

  lemma {:induction false} PieceRange(ps: Pieces, n: nat)
    ensures forall k :: 0 <= k < |ItemsFrom(ps, n)| && ItemsFrom(ps, n)[k].Placeholder? ==>
      n <= ItemsFrom(ps, n)[k].n < n + RefsIn(ps)
  {
    match ps
    case Done =>
    case Then(Text(s), rest) =>
      PieceRange(rest, n);
      var items := ItemsFrom(ps, n);
      forall k | 0 <= k < |items| && items[k].Placeholder? ensures n <= items[k].n < n + RefsIn(ps) {
        assert k >= |Lits(s)|;
        assert items[k] == ItemsFrom(rest, n)[k - |Lits(s)|];
      }
    case Then(Ref(tag, digit), rest) =>
      PieceRange(rest, n + 1);
      var items := ItemsFrom(ps, n);
      forall k | 0 <= k < |items| && items[k].Placeholder? ensures n <= items[k].n < n + RefsIn(ps) {
        if k > 0 {
          assert items[k] == ItemsFrom(rest, n + 1)[k - 1];
        }
      }
  }

  lemma {:induction false} RenderPieces(ps: Pieces, n: nat, args: seq<Operand>, lower: nat -> Expression)
    ensures RendersAs(ItemsFrom(ps, n), OutputFrom(ps, n, args, lower), args, lower)
  {
    match ps
    case Done =>
    case Then(p, rest) =>
      var m := n + (if p.Ref? then 1 else 0);
      RenderPieces(rest, m, args, lower);
      var head := if p.Text? then Lits(p.s) else [Placeholder(p.tag, n, p.digit && n < 9)];
      assert ItemsFrom(ps, n) == head + ItemsFrom(rest, m);
      var h := if p.Text? then Some(p.s) else RefOutput(p.tag, n, args, lower);
      HeadOutput(p, n, args, lower);
      JoinOutputs(head, ItemsFrom(rest, m), h, OutputFrom(rest, m, args, lower), args, lower);
  }

  /** The items of one piece render as its output. */
  lemma HeadOutput(p: Piece, n: nat, args: seq<Operand>, lower: nat -> Expression)
    ensures RendersAs(if p.Text? then Lits(p.s) else [Placeholder(p.tag, n, p.digit && n < 9)],
                      if p.Text? then Some(p.s) else RefOutput(p.tag, n, args, lower), args, lower)
  {
    var vars := Blank(|args|);
    if p.Text? {
      BodyLits(p.s, args, vars, lower);
    } else {
      var head := [Placeholder(p.tag, n, p.digit && n < 9)];
      BodyOne(head[0], args, vars);
      assert RenderItem(head[0], args, vars) == RenderItem(Placeholder(p.tag, n, false), args, vars);
    }
  }

  /** The items render exactly when o is present, and then as its text. */
  predicate RendersAs(items: seq<Item>, o: Option<string>, args: seq<Operand>, lower: nat -> Expression)
  {
    var b := Body(items, args, Blank(|args|));
    (b.Some? <==> o.Some?) && (b.Some? ==> Flatten(b.value, args, lower) == o.value)
  }

  /** Items render piecewise: the text of a concatenation is the concatenation of the texts. */
  function JoinText(h: Option<string>, t: Option<string>): Option<string>
  {
    if h.Some? && t.Some? then Some(h.value + t.value) else None
  }

  lemma JoinOutputs(head: seq<Item>, tail: seq<Item>, h: Option<string>, t: Option<string>, args: seq<Operand>, lower: nat -> Expression)
    requires RendersAs(head, h, args, lower) && RendersAs(tail, t, args, lower)
    ensures RendersAs(head + tail, JoinText(h, t), args, lower)
  {
    var vars := Blank(|args|);
    BodyAppend(head, tail, args, vars);
    var bh := Body(head, args, vars);
    var bt := Body(tail, args, vars);
    if bh.Some? && bt.Some? {
      FlattenAppend(bh.value, bt.value, args, lower);
    }
  }

  /**
   * A plain pattern with no more placeholders than operands renders as its
   * pieces' output, with the requested parens flag; a placeholder that
   * cannot be rendered makes it an internal error.
   */
  lemma FormatPieces(ps: Pieces, args: seq<Operand>, parens: bool, counter: nat, lower: nat -> Expression)
    requires Plain(ps) && RefsIn(ps) <= |args|
    ensures Format(Pattern(ps), args, parens, counter, lower)
         == (var o := Output(ps, args, lower); if o.None? then Fatal else Ok(Expression(o.value, parens)))
    ensures Scan(Pattern(ps)).Some? && HoistCount(args, Scan(Pattern(ps)).value) == 0
  {
    var items := ItemsFrom(ps, 0);
    ScanPieces(ps, 0);
    PieceRange(ps, 0);
    forall i | 0 <= i < |args| ensures RefCount(items, i) <= 1 {
      PieceRefs(ps, 0, i);
    }
    FormatWithoutHoisting(Pattern(ps), items, args, parens, counter);
    RenderPieces(ps, 0, args, lower);
  }

  // ---------------------------------------------------------------------
  // The text of single placeholders

  /** `%s` of a string is the string; of a lowered expression, its text with parentheses if flagged. */
  lemma StringRef(n: nat, args: seq<Operand>, lower: nat -> Expression)
    requires n < |args| && (args[n].Str? || args[n].Lowered?)
    ensures RefOutput('s', n, args, lower) == Some(if args[n].Str? then args[n].s else StringWithParens(args[n].e))
  {
    FlattenOne(Raw(if args[n].Str? then args[n].s else StringWithParens(args[n].e)), args, lower);
  }

  /** `%t` of a token is its spelling. */
  lemma TokenRef(n: nat, args: seq<Operand>, lower: nat -> Expression)
    requires n < |args| && args[n].Tok?
    ensures RefOutput('t', n, args, lower) == Some(GoTypes.Spelling(args[n].t))
  {
    FlattenOne(Raw(GoTypes.Spelling(args[n].t)), args, lower);
  }

  /**
   * `%e` of an expression referenced once: a constant prints its lowering
   * as is, anything else its lowering in parentheses if flagged.
   */
  lemma ExprRef(n: nat, args: seq<Operand>, lower: nat -> Expression)
    requires n < |args| && args[n].Expr?
    ensures RefOutput('e', n, args, lower) == Some(ExprText(args[n], lower))
  {
    if args[n].value.Some? {
      FlattenOne(Eval(n, false), args, lower);
    } else {
      FlattenTwo(Eval(n, true), Raw(""), args, lower);
      assert StringWithParens(lower(args[n].id)) + "" == StringWithParens(lower(args[n].id));
    }
  }

  /** The text `%e` prints for an expression referenced once. */
  function ExprText(x: Operand, lower: nat -> Expression): string
    requires x.Expr?
  {
    if x.value.Some? then lower(x.id).str else StringWithParens(lower(x.id))
  }

  // ---------------------------------------------------------------------
  // Patterns with one string placeholder

  /** The text `%s` prints for a string or an already lowered expression. */
  function StringText(a: Operand): string
    requires a.Str? || a.Lowered?
  {
    if a.Str? then a.s else StringWithParens(a.e)
  }

  /** `%s` followed by literal text prints the operand's text followed by that text. */
  lemma FormatStringThen(a: Operand, suffix: string, parens: bool, counter: nat, lower: nat -> Expression)
    requires (a.Str? || a.Lowered?) && '%' !in suffix
    ensures Format("%s" + suffix, [a], parens, counter, lower) == Ok(Expression(StringText(a) + suffix, parens))
  {
    var ps := Then(Ref('s', false), Then(Text(suffix), Done));
    assert suffix + "" == suffix;
    assert PatternFrom(Then(Text(suffix), Done), 1) == suffix;
    assert Pattern(ps) == "%s" + suffix;
    assert RefsIn(Then(Text(suffix), Done)) == 0;
    assert Plain(Then(Text(suffix), Done));
    FormatPieces(ps, [a], parens, counter, lower);
    StringRef(0, [a], lower);
    assert OutputFrom(Then(Text(suffix), Done), 1, [a], lower) == Some(suffix);
  }

  /** `%s` alone prints the operand's text. */
  lemma FormatString(a: Operand, parens: bool, counter: nat, lower: nat -> Expression)
    requires a.Str? || a.Lowered?
    ensures Format("%s", [a], parens, counter, lower) == Ok(Expression(StringText(a), parens))
  {
    assert "%s" + "" == "%s";
    assert StringText(a) + "" == StringText(a);
    FormatStringThen(a, "", parens, counter, lower);
  }

  /** Two `%s` placeholders between literal texts print the two operands' texts in their places. */
  lemma FormatTwoStrings(t0: string, t1: string, t2: string, a: Operand, b: Operand, parens: bool, counter: nat, lower: nat -> Expression)
    requires (a.Str? || a.Lowered?) && (b.Str? || b.Lowered?)
    requires '%' !in t0 && '%' !in t1 && '%' !in t2
    ensures Format(t0 + ("%s" + (t1 + ("%s" + t2))), [a, b], parens, counter, lower)
         == Ok(Expression(t0 + (StringText(a) + (t1 + (StringText(b) + t2))), parens))
  {
    var args := [a, b];
    var p3 := Then(Text(t2), Done);
    var p2 := Then(Ref('s', false), p3);
    var p1 := Then(Text(t1), p2);
    var p0 := Then(Ref('s', false), p1);
    var ps := Then(Text(t0), p0);
    assert RefsIn(p3) == 0;
    assert RefsIn(p1) == 1;
    assert RefsIn(ps) == 2;
    assert Plain(p3);
    assert Plain(p2);
    assert Plain(p1);
    assert Plain(p0);
    assert Plain(ps);
    assert t2 + "" == t2;
    assert PatternFrom(p3, 2) == t2;
    assert PatternFrom(p2, 1) == "%s" + t2;
    assert PatternFrom(p1, 1) == t1 + ("%s" + t2);
    assert PatternFrom(p0, 0) == "%s" + (t1 + ("%s" + t2));
    assert Pattern(ps) == t0 + ("%s" + (t1 + ("%s" + t2)));
    FormatPieces(ps, args, parens, counter, lower);
    StringRef(0, args, lower);
    StringRef(1, args, lower);
    var sa, sb := StringText(a), StringText(b);
    assert OutputFrom(p3, 2, args, lower) == Some(t2);
    assert OutputFrom(p2, 1, args, lower) == Some(sb + t2);
    assert OutputFrom(p1, 1, args, lower) == Some(t1 + (sb + t2));
    assert OutputFrom(p0, 0, args, lower) == Some(sa + (t1 + (sb + t2)));
  }

  /** Three `%s` placeholders between literal texts print the three operands' texts in their places. */
  lemma FormatThreeStrings(t0: string, t1: string, t2: string, t3: string, a: Operand, b: Operand, c: Operand,
                           parens: bool, counter: nat, lower: nat -> Expression)
    requires (a.Str? || a.Lowered?) && (b.Str? || b.Lowered?) && (c.Str? || c.Lowered?)
    requires '%' !in t0 && '%' !in t1 && '%' !in t2 && '%' !in t3
    ensures Format(t0 + ("%s" + (t1 + ("%s" + (t2 + ("%s" + t3))))), [a, b, c], parens, counter, lower)
         == Ok(Expression(t0 + (StringText(a) + (t1 + (StringText(b) + (t2 + (StringText(c) + t3))))), parens))
  {
    var args := [a, b, c];
    var p5 := Then(Text(t3), Done);
    var p4 := Then(Ref('s', false), p5);
    var p3 := Then(Text(t2), p4);
    var p2 := Then(Ref('s', false), p3);
    var p1 := Then(Text(t1), p2);
    var p0 := Then(Ref('s', false), p1);
    var ps := Then(Text(t0), p0);
    assert RefsIn(p5) == 0;
    assert RefsIn(p3) == 1;
    assert RefsIn(p1) == 2;
    assert RefsIn(ps) == 3;
    assert Plain(p5);
    assert Plain(p4);
    assert Plain(p3);
    assert Plain(p2);
    assert Plain(p1);
    assert Plain(p0);
    assert Plain(ps);
    assert t3 + "" == t3;
    assert PatternFrom(p5, 3) == t3;
    assert PatternFrom(p4, 2) == "%s" + t3;
    assert PatternFrom(p3, 2) == t2 + ("%s" + t3);
    assert PatternFrom(p2, 1) == "%s" + (t2 + ("%s" + t3));
    assert PatternFrom(p1, 1) == t1 + ("%s" + (t2 + ("%s" + t3)));
    assert PatternFrom(p0, 0) == "%s" + (t1 + ("%s" + (t2 + ("%s" + t3))));
    assert Pattern(ps) == t0 + ("%s" + (t1 + ("%s" + (t2 + ("%s" + t3)))));
    FormatPieces(ps, args, parens, counter, lower);
    StringRef(0, args, lower);
    StringRef(1, args, lower);
    StringRef(2, args, lower);
    var sa, sb, sc := StringText(a), StringText(b), StringText(c);
    assert OutputFrom(p5, 3, args, lower) == Some(t3);
    assert OutputFrom(p4, 2, args, lower) == Some(sc + t3);
    assert OutputFrom(p3, 2, args, lower) == Some(t2 + (sc + t3));
    assert OutputFrom(p2, 1, args, lower) == Some(sb + (t2 + (sc + t3)));
    assert OutputFrom(p1, 1, args, lower) == Some(t1 + (sb + (t2 + (sc + t3))));
    assert OutputFrom(p0, 0, args, lower) == Some(sa + (t1 + (sb + (t2 + (sc + t3)))));
  }

  /** One `%s` between literal texts prints the operand's text in its place. */
  lemma FormatStringBetween(t0: string, a: Operand, t1: string, parens: bool, counter: nat, lower: nat -> Expression)
    requires (a.Str? || a.Lowered?) && '%' !in t0 && '%' !in t1
    ensures Format(t0 + ("%s" + t1), [a], parens, counter, lower) == Ok(Expression(t0 + (StringText(a) + t1), parens))
  {
    var args := [a];
    var p2 := Then(Text(t1), Done);
    var p1 := Then(Ref('s', false), p2);
    var ps := Then(Text(t0), p1);
    assert RefsIn(p2) == 0;
    assert RefsIn(ps) == 1;
    assert Plain(p2);
    assert Plain(p1);
    assert Plain(ps);
    assert t1 + "" == t1;
    assert PatternFrom(p2, 1) == t1;
    assert PatternFrom(p1, 0) == "%s" + t1;
    assert Pattern(ps) == t0 + ("%s" + t1);
    FormatPieces(ps, args, parens, counter, lower);
    StringRef(0, args, lower);
    assert OutputFrom(p2, 1, args, lower) == Some(t1);
    assert OutputFrom(p1, 0, args, lower) == Some(StringText(a) + t1);
  }

  // ---------------------------------------------------------------------
  // Patterns with expression placeholders

  /** The placeholder `%e`, or `%de` with the digit of operand n when explicit. */
  function ERef(explicit: bool, n: nat): string
    requires n < 9
  {
    if explicit then ['%', DigitChar(n + 1), 'e'] else "%e"
  }

  /** Two `%e` placeholders between literal texts print the two operands' texts in their places. */
  lemma FormatTwoExprs(t0: string, t1: string, t2: string, x: Operand, y: Operand, explicit: bool,
                       parens: bool, counter: nat, lower: nat -> Expression)
    requires x.Expr? && y.Expr?
    requires '%' !in t0 && '%' !in t1 && '%' !in t2
    ensures Format(t0 + (ERef(explicit, 0) + (t1 + (ERef(explicit, 1) + t2))), [x, y], parens, counter, lower)
         == Ok(Expression(t0 + (ExprText(x, lower) + (t1 + (ExprText(y, lower) + t2))), parens))
  {
    var args := [x, y];
    var p3 := Then(Text(t2), Done);
    var p2 := Then(Ref('e', explicit), p3);
    var p1 := Then(Text(t1), p2);
    var p0 := Then(Ref('e', explicit), p1);
    var ps := Then(Text(t0), p0);
    assert RefsIn(p3) == 0;
    assert RefsIn(p1) == 1;
    assert RefsIn(ps) == 2;
    assert Plain(p3);
    assert Plain(p2);
    assert Plain(p1);
    assert Plain(p0);
    assert Plain(ps);
    assert t2 + "" == t2;
    assert PatternFrom(p3, 2) == t2;
    assert PatternFrom(p2, 1) == ERef(explicit, 1) + t2;
    assert PatternFrom(p1, 1) == t1 + (ERef(explicit, 1) + t2);
    assert PatternFrom(p0, 0) == ERef(explicit, 0) + (t1 + (ERef(explicit, 1) + t2));
    assert Pattern(ps) == t0 + (ERef(explicit, 0) + (t1 + (ERef(explicit, 1) + t2)));
    FormatPieces(ps, args, parens, counter, lower);
    ExprRef(0, args, lower);
    ExprRef(1, args, lower);
    var sx, sy := ExprText(x, lower), ExprText(y, lower);
    assert OutputFrom(p3, 2, args, lower) == Some(t2);
    assert OutputFrom(p2, 1, args, lower) == Some(sy + t2);
    assert OutputFrom(p1, 1, args, lower) == Some(t1 + (sy + t2));
    assert OutputFrom(p0, 0, args, lower) == Some(sx + (t1 + (sy + t2)));
  }

  /** `%e %t %e` between literal texts prints the operands' texts around the token's spelling. */
  lemma FormatExprTokenExpr(t0: string, t3: string, x: Operand, op: GoTypes.Token, y: Operand,
                            parens: bool, counter: nat, lower: nat -> Expression)
    requires x.Expr? && y.Expr? && '%' !in t0 && '%' !in t3
    ensures Format(t0 + ("%e" + (" " + ("%t" + (" " + ("%e" + t3))))), [x, Tok(op), y], parens, counter, lower)
         == Ok(Expression(t0 + (ExprText(x, lower) + (" " + (GoTypes.Spelling(op) + (" " + (ExprText(y, lower) + t3))))), parens))
  {
    var args := [x, Tok(op), y];
    var p5 := Then(Text(t3), Done);
    var p4 := Then(Ref('e', false), p5);
    var p3 := Then(Text(" "), p4);
    var p2 := Then(Ref('t', false), p3);
    var p1 := Then(Text(" "), p2);
    var p0 := Then(Ref('e', false), p1);
    var ps := Then(Text(t0), p0);
    assert RefsIn(p5) == 0;
    assert RefsIn(p3) == 1;
    assert RefsIn(p1) == 2;
    assert RefsIn(ps) == 3;
    assert Plain(p5);
    assert Plain(p4);
    assert Plain(p3);
    assert Plain(p2);
    assert Plain(p1);
    assert Plain(p0);
    assert Plain(ps);
    assert t3 + "" == t3;
    assert PatternFrom(p5, 3) == t3;
    assert PatternFrom(p4, 2) == "%e" + t3;
    assert PatternFrom(p3, 2) == " " + ("%e" + t3);
    assert PatternFrom(p2, 1) == "%t" + (" " + ("%e" + t3));
    assert PatternFrom(p1, 1) == " " + ("%t" + (" " + ("%e" + t3)));
    assert PatternFrom(p0, 0) == "%e" + (" " + ("%t" + (" " + ("%e" + t3))));
    assert Pattern(ps) == t0 + ("%e" + (" " + ("%t" + (" " + ("%e" + t3)))));
    FormatPieces(ps, args, parens, counter, lower);
    ExprRef(0, args, lower);
    TokenRef(1, args, lower);
    ExprRef(2, args, lower);
    var sx, so, sy := ExprText(x, lower), GoTypes.Spelling(op), ExprText(y, lower);
    assert OutputFrom(p5, 3, args, lower) == Some(t3);
    assert OutputFrom(p4, 2, args, lower) == Some(sy + t3);
    assert OutputFrom(p3, 2, args, lower) == Some(" " + (sy + t3));
    assert OutputFrom(p2, 1, args, lower) == Some(so + (" " + (sy + t3)));
    assert OutputFrom(p1, 1, args, lower) == Some(" " + (so + (" " + (sy + t3))));
    assert OutputFrom(p0, 0, args, lower) == Some(sx + (" " + (so + (" " + (sy + t3)))));
  }

  // ---------------------------------------------------------------------
  // `%%` between pieces

  function PrependBoth(xs: seq<Item>, ys: seq<Item>, r: Option<seq<Item>>): Option<seq<Item>>
  {
    Prepend(xs, Prepend(ys, r))
  }

  lemma PrependTwice(xs: seq<Item>, ys: seq<Item>, r: Option<seq<Item>>)
    ensures PrependBoth(xs, ys, r) == Prepend(xs + ys, r)
  {
    if r.Some? {
      assert xs + (ys + r.value) == (xs + ys) + r.value;
    }
  }

  lemma ConsPrepend(x: Item, ys: seq<Item>, r: Option<seq<Item>>)
    ensures Cons(x, Prepend(ys, r)) == Prepend([x] + ys, r)
  {
    if r.Some? {
      assert [x] + (ys + r.value) == ([x] + ys) + r.value;
    }
  }

  /** The scan of the pieces' pattern followed by more text: their items, then the scan of the rest. */
  lemma {:induction false} ScanPiecesThen(ps: Pieces, n: nat, q: string)
    requires Plain(ps)
    ensures ScanFrom(PatternFrom(ps, n) + q, n) == Prepend(ItemsFrom(ps, n), ScanFrom(q, n + RefsIn(ps)))
    decreases ps, 0
  {
    match ps
    case Done =>
      ScanDoneThen(n, q);
    case Then(Text(s), rest) =>
      ScanTextThen(s, rest, n, q);
    case Then(Ref(tag, digit), rest) =>
      ScanRefThen(tag, digit, rest, n, q);
  }

  lemma ScanDoneThen(n: nat, q: string)
    ensures ScanFrom(PatternFrom(Done, n) + q, n) == Prepend(ItemsFrom(Done, n), ScanFrom(q, n + RefsIn(Done)))
  {
    assert PatternFrom(Done, n) + q == q;
    if ScanFrom(q, n).Some? {
      assert [] + ScanFrom(q, n).value == ScanFrom(q, n).value;
    }
  }

  /** The text step of ScanPiecesThen, given the scan of the remaining pieces. */
  lemma {:induction false} ScanTextThen(s: string, rest: Pieces, n: nat, q: string)
    requires '%' !in s && Plain(rest)
    ensures var ps := Then(Text(s), rest);
      ScanFrom(PatternFrom(ps, n) + q, n) == Prepend(ItemsFrom(ps, n), ScanFrom(q, n + RefsIn(ps)))
    decreases rest, 1
  {
    ScanPiecesThen(rest, n, q);
    TextPieceFacts(s, rest, n, q);
    LitsThen(s, PatternFrom(rest, n) + q, ItemsFrom(rest, n), ScanFrom(q, n + RefsIn(rest)), n);
  }

  /** A leading text piece: its text, its items and its count, regrouped as LitsThen reads them. */
  lemma TextPieceFacts(s: string, rest: Pieces, n: nat, q: string)
    ensures var ps := Then(Text(s), rest);
      && PatternFrom(ps, n) + q == s + (PatternFrom(rest, n) + q)
      && ItemsFrom(ps, n) == Lits(s) + ItemsFrom(rest, n)
      && RefsIn(ps) == RefsIn(rest)
  {
    var ps := Then(Text(s), rest);
    assert PatternFrom(ps, n) == s + PatternFrom(rest, n);
    assert (s + PatternFrom(rest, n)) + q == s + (PatternFrom(rest, n) + q);
  }

  lemma LitsThen(s: string, r: string, items: seq<Item>, tail: Option<seq<Item>>, n: nat)
    requires '%' !in s && ScanFrom(r, n) == Prepend(items, tail)
    ensures ScanFrom(s + r, n) == Prepend(Lits(s) + items, tail)
  {
    ScanLits(s, r, n);
    PrependTwice(Lits(s), items, tail);
  }

  /** The placeholder step of ScanPiecesThen, given the scan of the remaining pieces. */
  lemma {:induction false} ScanRefThen(tag: char, digit: bool, rest: Pieces, n: nat, q: string)
    requires !IsDigit(tag) && Plain(rest)
    ensures var ps := Then(Ref(tag, digit), rest);
      ScanFrom(PatternFrom(ps, n) + q, n) == Prepend(ItemsFrom(ps, n), ScanFrom(q, n + RefsIn(ps)))
    decreases rest, 1
  {
    ScanPiecesThen(rest, n + 1, q);
    RefPieceFacts(tag, digit, rest, n, q);
    RefThen(tag, digit, PatternFrom(rest, n + 1) + q, ItemsFrom(rest, n + 1), ScanFrom(q, n + 1 + RefsIn(rest)), n);
  }

  /** A leading reference piece: its text, its item and its count, regrouped as RefThen reads them. */
  lemma RefPieceFacts(tag: char, digit: bool, rest: Pieces, n: nat, q: string)
    ensures var ps := Then(Ref(tag, digit), rest);
      && PatternFrom(ps, n) + q
         == (if digit && n < 9 then ['%', DigitChar(n + 1), tag] else ['%', tag]) + (PatternFrom(rest, n + 1) + q)
      && ItemsFrom(ps, n) == [Placeholder(tag, n, digit && n < 9)] + ItemsFrom(rest, n + 1)
      && n + RefsIn(ps) == n + 1 + RefsIn(rest)
  {
    var ps := Then(Ref(tag, digit), rest);
    var head := if digit && n < 9 then ['%', DigitChar(n + 1), tag] else ['%', tag];
    assert PatternFrom(ps, n) == head + PatternFrom(rest, n + 1);
    assert (head + PatternFrom(rest, n + 1)) + q == head + (PatternFrom(rest, n + 1) + q);
  }

  lemma RefThen(tag: char, digit: bool, r: string, items: seq<Item>, tail: Option<seq<Item>>, n: nat)
    requires !IsDigit(tag) && ScanFrom(r, n + 1) == Prepend(items, tail)
    ensures ScanFrom((if digit && n < 9 then ['%', DigitChar(n + 1), tag] else ['%', tag]) + r, n)
         == Prepend([Placeholder(tag, n, digit && n < 9)] + items, tail)
  {
    ScanRef(tag, digit, r, n);
    ConsPrepend(Placeholder(tag, n, digit && n < 9), items, tail);
  }

  /** Pieces whose first placeholder, if any, carries its digit. */
  predicate LeadsExplicit(ps: Pieces, n: nat)
  {
    match ps
    case Done => true
    case Then(Text(_), rest) => LeadsExplicit(rest, n)
    case Then(Ref(_, digit), _) => digit && n < 9
  }

  /** A pattern whose first placeholder carries its digit scans the same whatever the running index. */
  lemma {:induction false} ScanShift(ps: Pieces, n: nat, m: int)
    requires Plain(ps) && LeadsExplicit(ps, n)
    ensures ScanFrom(PatternFrom(ps, n), m) == ScanFrom(PatternFrom(ps, n), n)
  {
    match ps
    case Done =>
    case Then(Text(s), rest) =>
      ScanShift(rest, n, m);
      ScanLits(s, PatternFrom(rest, n), m);
      ScanLits(s, PatternFrom(rest, n), n);
    case Then(Ref(tag, digit), rest) =>
      ScanExplicit(DigitChar(n + 1), tag, PatternFrom(rest, n + 1), m);
      ScanExplicit(DigitChar(n + 1), tag, PatternFrom(rest, n + 1), n);
  }

  /**
   * `%%` between two runs of pieces prints one '%' and advances the running
   * index; when the second run opens with an explicit digit the operands it
   * selects are unaffected.
   */
  lemma FormatAroundPercent(psA: Pieces, psB: Pieces, args: seq<Operand>, parens: bool, counter: nat, lower: nat -> Expression)
    requires Plain(psA) && Plain(psB) && LeadsExplicit(psB, RefsIn(psA))
    requires RefsIn(psA) + RefsIn(psB) <= |args|
    ensures var m := RefsIn(psA);
      var a := OutputFrom(psA, 0, args, lower);
      var b := OutputFrom(psB, m, args, lower);
      Format(PatternFrom(psA, 0) + ("%%" + PatternFrom(psB, m)), args, parens, counter, lower)
        == if a.None? || b.None? then Fatal else Ok(Expression(a.value + ("%" + b.value), parens))
  {
    var m := RefsIn(psA);
    var pattern := PatternFrom(psA, 0) + ("%%" + PatternFrom(psB, m));
    var items := PercentItems(psA, psB);
    var a := OutputFrom(psA, 0, args, lower);
    var b := OutputFrom(psB, m, args, lower);
    ScanAroundPercent(psA, psB);
    PercentRefs(psA, psB, |args|);
    PercentBody(psA, psB, args, lower);
    FormatRendering(pattern, items, AroundPercent(a, b), args, parens, counter, lower);
  }

  /** A pattern that hoists nothing formats as its items render. */
  lemma FormatRendering(pattern: string, items: seq<Item>, o: Option<string>, args: seq<Operand>,
                        parens: bool, counter: nat, lower: nat -> Expression)
    requires Scan(pattern) == Some(items) && RefsInRange(items, |args|)
    requires forall i :: 0 <= i < |args| ==> RefCount(items, i) <= 1
    requires RendersAs(items, o, args, lower)
    ensures Format(pattern, args, parens, counter, lower) == if o.None? then Fatal else Ok(Expression(o.value, parens))
  {
    FormatWithoutHoisting(pattern, items, args, parens, counter);
  }

  /** The items of pieces, `%%`, and more pieces. */
  function PercentItems(psA: Pieces, psB: Pieces): seq<Item>
  {
    ItemsFrom(psA, 0) + [Placeholder('%', RefsIn(psA), false)] + ItemsFrom(psB, RefsIn(psA))
  }

  lemma ScanAroundPercent(psA: Pieces, psB: Pieces)
    requires Plain(psA) && Plain(psB) && LeadsExplicit(psB, RefsIn(psA))
    ensures Scan(PatternFrom(psA, 0) + ("%%" + PatternFrom(psB, RefsIn(psA)))) == Some(PercentItems(psA, psB))
  {
    var m := RefsIn(psA);
    var ia := ItemsFrom(psA, 0);
    var rest := [Placeholder('%', m, false)] + ItemsFrom(psB, m);
    ScanPiecesThen(psA, 0, "%%" + PatternFrom(psB, m));
    ScanPercentThen(psB, m);
    assert ia + rest == PercentItems(psA, psB);
  }

  /** `%%` and then pieces that open with an explicit reference. */
  lemma ScanPercentThen(psB: Pieces, m: nat)
    requires Plain(psB) && LeadsExplicit(psB, m)
    ensures ScanFrom("%%" + PatternFrom(psB, m), m) == Some([Placeholder('%', m, false)] + ItemsFrom(psB, m))
  {
    var pb := PatternFrom(psB, m);
    assert "%%" + pb == ['%', '%'] + pb;
    ScanImplicit('%', pb, m);
    ScanShift(psB, m, m + 1);
    ScanPieces(psB, m);
  }

  lemma PercentRefs(psA: Pieces, psB: Pieces, count: nat)
    requires RefsIn(psA) + RefsIn(psB) <= count
    ensures RefsInRange(PercentItems(psA, psB), count)
    ensures forall i :: 0 <= i < count ==> RefCount(PercentItems(psA, psB), i) <= 1
  {
    var m := RefsIn(psA);
    var ia := ItemsFrom(psA, 0);
    var ib := ItemsFrom(psB, m);
    var pc := Placeholder('%', m, false);
    var items := PercentItems(psA, psB);
    PieceRange(psA, 0);
    PieceRange(psB, m);
    forall k | 0 <= k < |items| && items[k].Placeholder? && Counted(items[k].tag)
      ensures 0 <= items[k].n < count
    {
      if k < |ia| {
        assert items[k] == ia[k];
      } else if k > |ia| {
        assert items[k] == ib[k - |ia| - 1];
      }
    }
    forall i | 0 <= i < count ensures RefCount(items, i) <= 1 {
      PieceRefs(psA, 0, i);
      PieceRefs(psB, m, i);
      RefCountAppend(ia, [pc], i);
      RefCountAppend(ia + [pc], ib, i);
      RefCountNone([pc], i);
    }
  }

  /** The text of pieces, `%%` and more pieces, when both runs render. */
  function AroundPercent(a: Option<string>, b: Option<string>): Option<string>
  {
    if a.Some? && b.Some? then Some(a.value + ("%" + b.value)) else None
  }

  lemma PercentBody(psA: Pieces, psB: Pieces, args: seq<Operand>, lower: nat -> Expression)
    ensures RendersAs(PercentItems(psA, psB),
                      AroundPercent(OutputFrom(psA, 0, args, lower), OutputFrom(psB, RefsIn(psA), args, lower)),
                      args, lower)
  {
    var m := RefsIn(psA);
    var a := OutputFrom(psA, 0, args, lower);
    var b := OutputFrom(psB, m, args, lower);
    RenderPieces(psA, 0, args, lower);
    RenderPieces(psB, m, args, lower);
    EscapedPercent(m, args, lower);
    JoinThree(ItemsFrom(psA, 0), [Placeholder('%', m, false)], ItemsFrom(psB, m), a, Some("%"), b, args, lower);
    PercentJoin(a, b);
  }

  lemma PercentJoin(a: Option<string>, b: Option<string>)
    ensures JoinText(JoinText(a, Some("%")), b) == AroundPercent(a, b)
  {
    if a.Some? && b.Some? {
      assert (a.value + "%") + b.value == a.value + ("%" + b.value);
    }
  }

  lemma JoinThree(head: seq<Item>, mid: seq<Item>, tail: seq<Item>, h: Option<string>, m: Option<string>, t: Option<string>,
                  args: seq<Operand>, lower: nat -> Expression)
    requires RendersAs(head, h, args, lower) && RendersAs(mid, m, args, lower) && RendersAs(tail, t, args, lower)
    ensures RendersAs(head + mid + tail, JoinText(JoinText(h, m), t), args, lower)
  {
    JoinOutputs(head, mid, h, m, args, lower);
    JoinOutputs(head + mid, tail, JoinText(h, m), t, args, lower);
  }

  /** `%%` on its own renders one '%'. */
  lemma EscapedPercent(m: nat, args: seq<Operand>, lower: nat -> Expression)
    ensures RendersAs([Placeholder('%', m, false)], Some("%"), args, lower)
  {
    BodyOne(Placeholder('%', m, false), args, Blank(|args|));
    FlattenOne(Raw("%"), args, lower);
  }

  /**
   * A '%' followed by a blank in a pattern is a placeholder with an unknown
   * tag, so the whole call is an internal error.
   */
  lemma StrayPercentIsFatal(t0: string, t1: string, args: seq<Operand>, parens: bool, counter: nat, lower: nat -> Expression)
    requires '%' !in t0 && '%' !in t1
    ensures Format(t0 + ("% " + t1), args, parens, counter, lower) == Fatal
  {
    var p1 := Then(Text(t1), Done);
    var p0 := Then(Ref(' ', false), p1);
    var ps := Then(Text(t0), p0);
    assert Plain(p1);
    assert Plain(p0);
    assert Plain(ps);
    assert t1 + "" == t1;
    assert PatternFrom(p1, 1) == t1;
    assert PatternFrom(p0, 0) == "% " + t1;
    assert Pattern(ps) == t0 + ("% " + t1);
    ScanPieces(ps, 0);
    var items := ItemsFrom(ps, 0);
    assert ItemsFrom(p1, 1) == Lits(t1) + [];
    assert ItemsFrom(p0, 0) == [Placeholder(' ', 0, false)] + ItemsFrom(p1, 1);
    assert items == Lits(t0) + ItemsFrom(p0, 0);
    assert items[|t0|] == Placeholder(' ', 0, false);
    RenderProps.UnknownTagIsFatal(t0 + ("% " + t1), args, parens, counter, lower, |t0|);
  }

  /**
   * Explicit `%1e` and `%2e` references on either side of a `%%`: the `%%`
   * prints one '%' and the second reference still selects operand 2.
   */
  lemma FormatPercentBetween(t0: string, t1: string, t2: string, t3: string, x: Operand, y: Operand,
                             parens: bool, counter: nat, lower: nat -> Expression)
    requires x.Expr? && y.Expr? && '%' !in t0 && '%' !in t1 && '%' !in t2 && '%' !in t3
    ensures Format((t0 + (ERef(true, 0) + t1)) + ("%%" + (t2 + (ERef(true, 1) + t3))), [x, y], parens, counter, lower)
         == Ok(Expression((t0 + (ExprText(x, lower) + t1)) + ("%" + (t2 + (ExprText(y, lower) + t3))), parens))
  {
    var args := [x, y];
    ExplicitBetweenFacts(t0, t1, 0, args, lower);
    ExplicitBetweenFacts(t2, t3, 1, args, lower);
    FormatAroundPercent(ExplicitBetween(t0, t1), ExplicitBetween(t2, t3), args, parens, counter, lower);
  }

  /** One explicit `%e` reference between two literal texts. */
  function ExplicitBetween(t0: string, t1: string): Pieces
  {
    Then(Text(t0), Then(Ref('e', true), Then(Text(t1), Done)))
  }

  lemma ExplicitBetweenFacts(t0: string, t1: string, n: nat, args: seq<Operand>, lower: nat -> Expression)
    requires '%' !in t0 && '%' !in t1 && n < 9 && n < |args| && args[n].Expr?
    ensures Plain(ExplicitBetween(t0, t1)) && RefsIn(ExplicitBetween(t0, t1)) == 1
    ensures LeadsExplicit(ExplicitBetween(t0, t1), n)
    ensures PatternFrom(ExplicitBetween(t0, t1), n) == t0 + (ERef(true, n) + t1)
    ensures OutputFrom(ExplicitBetween(t0, t1), n, args, lower) == Some(t0 + (ExprText(args[n], lower) + t1))
  {
    var last := Then(Text(t1), Done);
    var middle := Then(Ref('e', true), last);
    assert t1 + "" == t1;
    assert RefsIn(last) == 0;
    assert Plain(last) && Plain(middle);
    assert PatternFrom(last, n + 1) == t1;
    assert PatternFrom(middle, n) == ERef(true, n) + t1;
    ExprRef(n, args, lower);
    assert OutputFrom(last, n + 1, args, lower) == Some(t1);
    assert OutputFrom(middle, n, args, lower) == Some(ExprText(args[n], lower) + t1);
  }
}
