/**
 * Composite literals of array, slice and map type: collectIndexedElements,
 * the array and slice constructors built from its result, and map entries.
 *
 * Element texts are inputs: each is the lowering of one element, already
 * converted to the element type (translateImplicitConversionWithCloning),
 * and `zero` is the lowering of the element type's zero value.
 */
module Literals {
  import opened Outcome
  import opened Text
  import opened Expressions
  import opened Template
  import opened Patterns
  import opened Constants
  import opened Engine
  import RenderProps

  /**
   * An element of an array or slice literal: its text, and for a keyed
   * element the integer value of its key (None when the key does not
   * convert to an integer).
   */
  datatype Element = Unkeyed(text: string) | Keyed(key: Option<int>, text: string)

  /** constant.Int64Val of the key reports an exact value. */
  predicate ExactKey(e: Element) {
    e.Keyed? ==> e.key.Some? && FitsInt64(e.key.value)
  }

  // ---------------------------------------------------------------------
  // collectIndexedElements

  /** The elements placed so far, and the position the next unkeyed element is written at. */
  datatype Placement = Placement(elements: seq<string>, next: int)

  /** s grown with zero values until it has n entries (unchanged when it already has). */
  function Pad(s: seq<string>, n: int, zero: string): (r: seq<string>)
    ensures |r| == if n <= |s| then |s| else n
    ensures r[..|s|] == s
    ensures forall k :: |s| <= k < |r| ==> r[k] == zero
  {
    if n <= |s| then s else s + seq(n - |s|, _ => zero)
  }

  /**
   * One element: a keyed element moves the position to its key, the list
   * grows with zero values until the position exists, the text is written
   * there and the position advances. A key that is not an exact int64 is an
   * internal error, and so is a negative position (an index out of range).
   */
  function Place(p: Placement, e: Element, zero: string): Result<Placement>
  {
    if !ExactKey(e) then Fatal
    else
      var i := if e.Keyed? then e.key.value else p.next;
      if i < 0 then Fatal
      else Ok(Placement(Pad(p.elements, i + 1, zero)[i := e.text], i + 1))
  }

  function PlaceAll(elts: seq<Element>, zero: string): Result<Placement>
  {
    if elts == [] then Ok(Placement([], 0))
    else
      var p := PlaceAll(elts[..|elts| - 1], zero);
      if p.Fatal? then Fatal else Place(p.value, elts[|elts| - 1], zero)
  }

  /** The element list collectIndexedElements returns. */
  function Collect(elts: seq<Element>, zero: string): Result<seq<string>>
  {
    var p := PlaceAll(elts, zero);
    if p.Fatal? then Fatal else Ok(p.value.elements)
  }

  /** Once an element fails, the whole literal fails. */
  lemma {:induction false} PrefixFatal(elts: seq<Element>, k: nat, zero: string)
    requires k <= |elts| && PlaceAll(elts[..k], zero).Fatal?
    ensures PlaceAll(elts, zero).Fatal?
    decreases |elts|
  {
    if k < |elts| {
      var front := elts[..|elts| - 1];
      assert front[..k] == elts[..k];
      PrefixFatal(front, k, zero);
    } else {
      assert elts[..k] == elts;
    }
  }

  /** collectIndexedElements: the elements in place, or an internal error. */
  method CollectIndexedElements(elts: seq<Element>, zero: string) returns (r: Result<seq<string>>)
    ensures r == Collect(elts, zero)
  {
    var elements: seq<string> := [];
    var i := 0;
    var k := 0;
    while k < |elts|
      invariant 0 <= k <= |elts|
      invariant PlaceAll(elts[..k], zero) == Ok(Placement(elements, i))
    {
      CollectStep(elts, k, elements, i, zero);
      var placed := PlaceElement(elements, i, elts[k], zero);
      if placed.Fatal? {
        PrefixFatal(elts, k + 1, zero);
        return Fatal;
      }
      elements, i := placed.value.elements, placed.value.next;
      k := k + 1;
    }
    assert elts[..|elts|] == elts;
    return Ok(elements);
  }

  /** One iteration of collectIndexedElements' loop, on the list so far and the running position i. */
  method PlaceElement(elements: seq<string>, i: int, e: Element, zero: string) returns (r: Result<Placement>)
    ensures r == Place(Placement(elements, i), e, zero)
  {
    var j := i;
    if e.Keyed? {
      if !(e.key.Some? && FitsInt64(e.key.value)) {
        return Fatal;
      }
      j := e.key.value;
    }
    var grown := GrowTo(elements, j, zero);
    if j < 0 {
      return Fatal;
    }
    return Ok(Placement(grown[j := e.text], j + 1));
  }

  /** The inner loop of collectIndexedElements: append zero values until position i exists. */
  method GrowTo(elements: seq<string>, i: int, zero: string) returns (grown: seq<string>)
    ensures grown == Pad(elements, i + 1, zero)
  {
    grown := elements;
    while |grown| <= i
      invariant |elements| <= |grown|
      invariant grown == elements + seq(|grown| - |elements|, _ => zero)
      invariant |grown| == |elements| || |grown| <= i + 1
      decreases i + 1 - |grown|
    {
      grown := grown + [zero];
    }
  }

  lemma CollectStep(elts: seq<Element>, k: nat, elements: seq<string>, i: int, zero: string)
    requires k < |elts| && PlaceAll(elts[..k], zero) == Ok(Placement(elements, i))
    ensures PlaceAll(elts[..k + 1], zero) == Place(Placement(elements, i), elts[k], zero)
  {
    assert elts[..k + 1][..k] == elts[..k];
  }

  // ---------------------------------------------------------------------
  // Where the elements end up, stated without the loop

  /** The position the last element is written at: its key, or one past the previous element's (0 for the first). */
  function PositionOfLast(elts: seq<Element>): int
    requires elts != []
  {
    var e := elts[|elts| - 1];
    if e.Keyed? then (if e.key.Some? then e.key.value else 0)
    else if |elts| == 1 then 0 else PositionOfLast(elts[..|elts| - 1]) + 1
  }

  /** The position each element is written at. */
  function Positions(elts: seq<Element>): (ps: seq<int>)
    ensures |ps| == |elts|
  {
    if elts == [] then [] else Positions(elts[..|elts| - 1]) + [PositionOfLast(elts)]
  }

  /** Every key is an exact int64 and no position is negative. */
  predicate Placeable(elts: seq<Element>) {
    forall k :: 0 <= k < |elts| ==> ExactKey(elts[k]) && Positions(elts)[k] >= 0
  }

  function Max(a: int, b: int): int {
    if a < b then b else a
  }

  /** One past the largest position of elts, 0 when there is none. */
  function Reach(elts: seq<Element>): (e: int)
    ensures e >= 0
  {
    if elts == [] then 0 else Max(Reach(elts[..|elts| - 1]), PositionOfLast(elts) + 1)
  }

  /** The text at position q: that of the last element written there, else the zero value. */
  function SlotText(elts: seq<Element>, q: int, zero: string): string
  {
    if elts == [] then zero
    else if PositionOfLast(elts) == q then elts[|elts| - 1].text
    else SlotText(elts[..|elts| - 1], q, zero)
  }

  /** No element is written at or beyond the extent. */
  lemma {:induction false} SlotBeyond(elts: seq<Element>, q: int, zero: string)
    requires q >= Reach(elts)
    ensures SlotText(elts, q, zero) == zero
    decreases |elts|
  {
    if elts != [] {
      SlotBeyond(elts[..|elts| - 1], q, zero);
    }
  }

  /** The placement p is what PlaceAllMeaning says placing elts yields. */
  predicate Describes(p: Placement, elts: seq<Element>, zero: string) {
    |p.elements| == Reach(elts)
    && p.next == (if elts == [] then 0 else PositionOfLast(elts) + 1)
    && forall q :: 0 <= q < |p.elements| ==> p.elements[q] == SlotText(elts, q, zero)
  }

  lemma {:induction false} PlaceAllMeaning(elts: seq<Element>, zero: string)
    ensures PlaceAll(elts, zero).Ok? <==> Placeable(elts)
    ensures PlaceAll(elts, zero).Ok? ==>
      var p := PlaceAll(elts, zero).value;
      |p.elements| == Reach(elts)
      && p.next == (if elts == [] then 0 else PositionOfLast(elts) + 1)
      && forall q :: 0 <= q < |p.elements| ==> p.elements[q] == SlotText(elts, q, zero)
    decreases |elts|
  {
    PlaceAllDescribes(elts, zero);
  }

  lemma {:induction false} PlaceAllDescribes(elts: seq<Element>, zero: string)
    ensures PlaceAll(elts, zero).Ok? <==> Placeable(elts)
    ensures PlaceAll(elts, zero).Ok? ==> Describes(PlaceAll(elts, zero).value, elts, zero)
    decreases |elts|
  {
    if elts != [] {
      var n := |elts|;
      var front := elts[..n - 1];
      var e := elts[n - 1];
      assert elts == front + [e];
      PlaceAllDescribes(front, zero);
      DescribesStep(front, e, elts, zero);
    }
  }

  /** The step of PlaceAllDescribes: one more element keeps both of its conclusions. */
  lemma DescribesStep(front: seq<Element>, e: Element, elts: seq<Element>, zero: string)
    requires elts == front + [e]
    requires PlaceAll(front, zero).Ok? <==> Placeable(front)
    requires PlaceAll(front, zero).Ok? ==> Describes(PlaceAll(front, zero).value, front, zero)
    ensures PlaceAll(elts, zero).Ok? <==> Placeable(elts)
    ensures PlaceAll(elts, zero).Ok? ==> Describes(PlaceAll(elts, zero).value, elts, zero)
  {
    PlaceableLast(front, e, elts);
    if PlaceAll(front, zero).Ok? && ExactKey(e) && PositionOfLast(elts) >= 0 {
      PlaceStep(front, e, elts, zero);
    } else {
      PlaceFails(front, e, elts, zero);
    }
  }

  /** A failed shorter list, an inexact key or a negative position makes placing fail. */
  lemma PlaceFails(front: seq<Element>, e: Element, elts: seq<Element>, zero: string)
    requires elts == front + [e]
    requires PlaceAll(front, zero).Ok? ==> Describes(PlaceAll(front, zero).value, front, zero)
    requires !(PlaceAll(front, zero).Ok? && ExactKey(e) && PositionOfLast(elts) >= 0)
    ensures PlaceAll(elts, zero).Fatal?
  {
    PlaceAllLast(front, e, elts, zero);
    if PlaceAll(front, zero).Ok? && ExactKey(e) {
      PlaceShapeNext(front, e, elts, zero);
    }
  }

  /** Placing a list with one more element is placing that element after the shorter list. */
  lemma PlaceAllLast(front: seq<Element>, e: Element, elts: seq<Element>, zero: string)
    requires elts == front + [e]
    ensures PlaceAll(elts, zero) == if PlaceAll(front, zero).Fatal? then Fatal else Place(PlaceAll(front, zero).value, e, zero)
  {
    assert elts[..|elts| - 1] == front;
  }

  /** After a described placement, the next element goes where Positions puts it. */
  lemma PlaceShapeNext(front: seq<Element>, e: Element, elts: seq<Element>, zero: string)
    requires elts == front + [e]
    requires PlaceAll(front, zero).Ok? && Describes(PlaceAll(front, zero).value, front, zero)
    requires ExactKey(e)
    ensures PositionOfLast(elts) == if e.Keyed? then e.key.value else PlaceAll(front, zero).value.next
  {
    PositionsLast(front, e, elts);
  }

  lemma PlaceableLast(front: seq<Element>, e: Element, elts: seq<Element>)
    requires elts == front + [e]
    ensures Placeable(elts) <==> Placeable(front) && ExactKey(e) && PositionOfLast(elts) >= 0
  {
    var n := |elts|;
    var ps := Positions(elts);
    PositionsLast(front, e, elts);
    if Placeable(front) && ExactKey(e) && ps[n - 1] >= 0 {
      forall k | 0 <= k < n ensures ExactKey(elts[k]) && ps[k] >= 0 {
        if k < n - 1 {
          assert elts[k] == front[k];
          assert ps[k] == Positions(front)[k];
        }
      }
    }
    if Placeable(elts) {
      forall k | 0 <= k < n - 1 ensures ExactKey(front[k]) && Positions(front)[k] >= 0 {
        assert elts[k] == front[k];
        assert ps[k] == Positions(front)[k];
      }
    }
  }

  /** The step of PlaceAllMeaning: placing the last element keeps the meaning. */
  lemma PlaceStep(front: seq<Element>, e: Element, elts: seq<Element>, zero: string)
    requires elts == front + [e] && elts != []
    requires PlaceAll(front, zero).Ok? && Describes(PlaceAll(front, zero).value, front, zero)
    requires ExactKey(e) && PositionOfLast(elts) >= 0
    ensures PlaceAll(elts, zero).Ok? && Describes(PlaceAll(elts, zero).value, elts, zero)
  {
    var pf := PlaceAll(front, zero).value;
    var i := PositionOfLast(elts);
    LastPosition(front, e, elts, zero);
    PlaceAllAt(front, e, elts, zero, i);
    ReachLast(elts);
    assert elts[..|elts| - 1] == front;
    var r := Pad(pf.elements, i + 1, zero)[i := e.text];
    assert PlaceAll(elts, zero).value == Placement(r, i + 1);
    assert |r| == Reach(elts);
    WriteAt(pf.elements, i, e.text, zero, front);
    forall q | 0 <= q < |r| ensures r[q] == SlotText(elts, q, zero) {
      SlotLast(front, e, elts, q, zero);
    }
  }

  lemma SlotLast(front: seq<Element>, e: Element, elts: seq<Element>, q: int, zero: string)
    requires elts == front + [e]
    ensures SlotText(elts, q, zero) == if PositionOfLast(elts) == q then e.text else SlotText(front, q, zero)
  {
    assert elts[..|elts| - 1] == front;
  }

  /** The last element's position is its key, or the running position the shorter list ends with. */
  lemma LastPosition(front: seq<Element>, e: Element, elts: seq<Element>, zero: string)
    requires elts == front + [e]
    requires PlaceAll(front, zero).Ok?
    requires PlaceAll(front, zero).value.next == (if front == [] then 0 else PositionOfLast(front) + 1)
    requires ExactKey(e)
    ensures PositionOfLast(elts) == if e.Keyed? then e.key.value else PlaceAll(front, zero).value.next
  {
    PositionsLast(front, e, elts);
  }

  /** Placing a list whose last element goes to a valid position i. */
  lemma PlaceAllAt(front: seq<Element>, e: Element, elts: seq<Element>, zero: string, i: int)
    requires elts == front + [e]
    requires PlaceAll(front, zero).Ok?
    requires ExactKey(e) && i >= 0 && i == if e.Keyed? then e.key.value else PlaceAll(front, zero).value.next
    ensures PlaceAll(elts, zero) == Ok(Placement(Pad(PlaceAll(front, zero).value.elements, i + 1, zero)[i := e.text], i + 1))
  {
    PlaceAt(PlaceAll(front, zero).value, e, i, zero);
    PlaceAllLast(front, e, elts, zero);
  }

  /** Placing an element whose position is i, when that position is valid. */
  lemma PlaceAt(p: Placement, e: Element, i: int, zero: string)
    requires ExactKey(e) && i >= 0 && i == if e.Keyed? then e.key.value else p.next
    ensures Place(p, e, zero) == Ok(Placement(Pad(p.elements, i + 1, zero)[i := e.text], i + 1))
  {
  }

  lemma ReachLast(elts: seq<Element>)
    requires elts != []
    ensures Reach(elts) == Max(Reach(elts[..|elts| - 1]), PositionOfLast(elts) + 1)
  {
  }

  /** The positions of a list with one more element extend the positions of the shorter list. */
  lemma PositionsLast(front: seq<Element>, e: Element, elts: seq<Element>)
    requires elts == front + [e]
    ensures Positions(elts)[..|elts| - 1] == Positions(front)
    ensures Positions(elts)[|elts| - 1] == PositionOfLast(elts)
    ensures PositionOfLast(elts) == if e.Keyed? then (if e.key.Some? then e.key.value else 0)
      else if front == [] then 0 else PositionOfLast(front) + 1
  {
    assert elts[..|elts| - 1] == front;
  }

  /** Writing t at position i of the collected list, padded with zero values. */
  lemma WriteAt(s: seq<string>, i: nat, t: string, zero: string, front: seq<Element>)
    requires |s| == Reach(front)
    requires forall q :: 0 <= q < |s| ==> s[q] == SlotText(front, q, zero)
    ensures var r := Pad(s, i + 1, zero)[i := t];
      forall q :: 0 <= q < |r| ==> r[q] == (if q == i then t else SlotText(front, q, zero))
  {
    forall q | |s| <= q
      ensures SlotText(front, q, zero) == zero
    {
      SlotBeyond(front, q, zero);
    }
  }

  /**
   * Indexed element placement: the literal is lowered exactly when every
   * key is an exact int64 and no position is negative; the list is then one
   * past the largest position long, and each entry holds the text of the
   * last element written there, or the zero value in a gap.
   */
  lemma CollectMeaning(elts: seq<Element>, zero: string)
    ensures Collect(elts, zero).Ok? <==> Placeable(elts)
    ensures Collect(elts, zero).Ok? ==>
      var els := Collect(elts, zero).value;
      |els| == Reach(elts)
      && forall q :: 0 <= q < |els| ==> els[q] == SlotText(elts, q, zero)
  {
    PlaceAllMeaning(elts, zero);
  }

  /** Unkeyed elements alone are written at 0, 1, 2, ... in order. */
  lemma {:induction false} UnkeyedPositions(elts: seq<Element>)
    requires forall k :: 0 <= k < |elts| ==> elts[k].Unkeyed?
    ensures forall k :: 0 <= k < |elts| ==> Positions(elts)[k] == k
    decreases |elts|
  {
    if elts != [] {
      var front := elts[..|elts| - 1];
      UnkeyedPositions(front);
      assert Positions(elts) == Positions(front) + [PositionOfLast(elts)];
      if front != [] {
        assert Positions(front)[|front| - 1] == PositionOfLast(front);
      }
      assert PositionOfLast(elts) == |front|;
    }
  }

  // ---------------------------------------------------------------------
  // Arrays

  /**
   * The constructor text of an array literal from its collected elements:
   * an empty list gives an empty table, any other is padded with zero
   * values to the declared length and indexed from 0.
   */
  function ArrayText(elements: seq<string>, kind: string, len: nat, zero: string): string
  {
    if elements == [] then "_gi_NewArray({}, \"" + kind + "\", " + NatToDecimal(len) + ")"
    else "_gi_NewArray({[0]=" + Join(Pad(elements, len, zero), ", ") + "}, \"" + kind + "\", "
         + NatToDecimal(len) + ")"
  }

  /** The array branch as written: the constructor text is used as the pattern itself. */
  function ArrayLiteralAsWritten(elts: seq<Element>, zero: string, kind: string, len: nat, counter: nat, lower: nat -> Expression): Result<Expression>
  {
    var c := Collect(elts, zero);
    if c.Fatal? then Fatal else Format(ArrayText(c.value, kind, len, zero), [], false, counter, lower)
  }

  /** The array branch with the constructor text passed as an operand of `%s`. */
  function ArrayLiteral(elts: seq<Element>, zero: string, kind: string, len: nat, counter: nat, lower: nat -> Expression): Result<Expression>
  {
    var c := Collect(elts, zero);
    if c.Fatal? then Fatal else Format("%s", [Str(ArrayText(c.value, kind, len, zero))], false, counter, lower)
  }

  /**
   * An array literal lowers to its constructor text whenever its elements
   * can be placed; the table then lists max(len, extent) entries in position
   * order, each the last element written there or the zero value.
   */
  lemma ArrayLiteralText(elts: seq<Element>, zero: string, kind: string, len: nat, counter: nat, lower: nat -> Expression)
    ensures ArrayLiteral(elts, zero, kind, len, counter, lower).Ok? <==> Placeable(elts)
    ensures Placeable(elts) ==>
      var els := Collect(elts, zero).value;
      var table := Pad(els, len, zero);
      ArrayLiteral(elts, zero, kind, len, counter, lower) == Ok(Expression(ArrayText(els, kind, len, zero), false))
      && (els == [] <==> elts == [])
      && |table| == Max(Reach(elts), len)
      && forall q :: 0 <= q < |table| ==> table[q] == SlotText(elts, q, zero)
  {
    CollectMeaning(elts, zero);
    if Placeable(elts) {
      var els := Collect(elts, zero).value;
      FormatString(Str(ArrayText(els, kind, len, zero)), false, counter, lower);
      if elts != [] {
        assert PositionOfLast(elts) < Reach(elts);
      }
      var table := Pad(els, len, zero);
      forall q | 0 <= q < |table| ensures table[q] == SlotText(elts, q, zero) {
        if q >= |els| {
          SlotBeyond(elts, q, zero);
        }
      }
    }
  }

  /** Where no text holds a '%', the written and the corrected array branch agree. */
  lemma ArrayLiteralAgrees(elts: seq<Element>, zero: string, kind: string, len: nat, counter: nat, lower: nat -> Expression)
    requires Collect(elts, zero).Ok? ==> '%' !in ArrayText(Collect(elts, zero).value, kind, len, zero)
    ensures ArrayLiteralAsWritten(elts, zero, kind, len, counter, lower) == ArrayLiteral(elts, zero, kind, len, counter, lower)
  {
    var c := Collect(elts, zero);
    if c.Ok? {
      var text := ArrayText(c.value, kind, len, zero);
      RenderProps.LiteralPattern(text, [], false, counter, lower);
      FormatString(Str(text), false, counter, lower);
    }
  }

  /** The array branch of translateExpr for a composite literal. */
  method TranslateArrayLiteral(ctx: FuncContext, elts: seq<Element>, zero: string, kind: string, len: nat) returns (r: Result<Expression>)
    modifies ctx
    ensures r == ArrayLiteral(elts, zero, kind, len, old(ctx.varCounter), ctx.lower)
    ensures ctx.varCounter == old(ctx.varCounter)
  {
    ghost var c0 := ctx.varCounter;
    var collected := CollectIndexedElements(elts, zero);
    if collected.Fatal? {
      return Fatal;
    }
    var elements := collected.value;
    if |elements| == 0 {
      var text := "_gi_NewArray({}, \"" + kind + "\", " + NatToDecimal(len) + ")";
      r := ctx.FormatExpr("%s", [Str(text)]);
      FormatString(Str(text), false, c0, ctx.lower);
      WithoutExpressionsNothingHoisted("%s", [Str(text)], false, c0, ctx.lower);
      return;
    }
    while |elements| < len
      invariant |collected.value| <= |elements|
      invariant elements == Pad(collected.value, |elements|, zero)
      invariant |elements| == |collected.value| || |elements| <= len
      decreases len - |elements|
    {
      elements := elements + [zero];
    }
    assert elements == Pad(collected.value, len, zero);
    var text := "_gi_NewArray({[0]=" + Join(elements, ", ") + "}, \"" + kind + "\", " + NatToDecimal(len) + ")";
    r := ctx.FormatExpr("%s", [Str(text)]);
    FormatString(Str(text), false, c0, ctx.lower);
    WithoutExpressionsNothingHoisted("%s", [Str(text)], false, c0, ctx.lower);
  }

  // ---------------------------------------------------------------------
  // Slices

  /** The constructor text of a slice literal: entries indexed from 0, an empty table when the joined text is empty. */
  function SliceText(elements: seq<string>, typeName: string): string
  {
    var ele := Join(elements, ", ");
    "_gi_NewSlice(\"" + typeName + "\",{" + (if |ele| > 0 then "[0]=" + ele else "") + "})"
  }

  /** The slice branch as written: the constructor text is used as the pattern itself. */
  function SliceLiteralAsWritten(elts: seq<Element>, zero: string, typeName: string, counter: nat, lower: nat -> Expression): Result<Expression>
  {
    var c := Collect(elts, zero);
    if c.Fatal? then Fatal else Format(SliceText(c.value, typeName), [], false, counter, lower)
  }

  /** The slice branch with the constructor text passed as an operand of `%s`. */
  function SliceLiteral(elts: seq<Element>, zero: string, typeName: string, counter: nat, lower: nat -> Expression): Result<Expression>
  {
    var c := Collect(elts, zero);
    if c.Fatal? then Fatal else Format("%s", [Str(SliceText(c.value, typeName))], false, counter, lower)
  }

  /** strings.Join starts with the first part. */
  lemma JoinStartsWithFirst(parts: seq<string>, sep: string)
    requires parts != []
    ensures |Join(parts, sep)| >= |parts[0]|
    ensures Join(parts, sep)[..|parts[0]|] == parts[0]
  {
    if |parts| > 1 {
      assert Join(parts, sep) == parts[0] + (sep + Join(parts[1..], sep));
    }
  }

  /**
   * A slice literal lowers to its constructor text whenever its elements
   * can be placed; when the first entry's text is not empty the entries are
   * listed from index 0, as `[0]=` followed by them all.
   */
  lemma SliceLiteralText(elts: seq<Element>, zero: string, typeName: string, counter: nat, lower: nat -> Expression)
    ensures SliceLiteral(elts, zero, typeName, counter, lower).Ok? <==> Placeable(elts)
    ensures Placeable(elts) ==>
      var els := Collect(elts, zero).value;
      SliceLiteral(elts, zero, typeName, counter, lower) == Ok(Expression(SliceText(els, typeName), false))
      && (els != [] && els[0] != "" ==>
            SliceText(els, typeName) == "_gi_NewSlice(\"" + typeName + "\",{" + ("[0]=" + Join(els, ", ")) + "})")
      && (els == [] ==> SliceText(els, typeName) == "_gi_NewSlice(\"" + typeName + "\",{" + "" + "})")
      && (|Join(els, ", ")| > 0 ==>
            SliceText(els, typeName) == "_gi_NewSlice(\"" + typeName + "\",{" + ("[0]=" + Join(els, ", ")) + "})")
      && (|Join(els, ", ")| == 0 ==> SliceText(els, typeName) == "_gi_NewSlice(\"" + typeName + "\",{" + "" + "})")
  {
    CollectMeaning(elts, zero);
    if Placeable(elts) {
      var els := Collect(elts, zero).value;
      FormatString(Str(SliceText(els, typeName)), false, counter, lower);
      if els != [] && els[0] != "" {
        JoinStartsWithFirst(els, ", ");
      }
    }
  }

  /** Where no text holds a '%', the written and the corrected slice branch agree. */
  lemma SliceLiteralAgrees(elts: seq<Element>, zero: string, typeName: string, counter: nat, lower: nat -> Expression)
    requires Collect(elts, zero).Ok? ==> '%' !in SliceText(Collect(elts, zero).value, typeName)
    ensures SliceLiteralAsWritten(elts, zero, typeName, counter, lower) == SliceLiteral(elts, zero, typeName, counter, lower)
  {
    var c := Collect(elts, zero);
    if c.Ok? {
      var text := SliceText(c.value, typeName);
      RenderProps.LiteralPattern(text, [], false, counter, lower);
      FormatString(Str(text), false, counter, lower);
    }
  }

  /**
   * A one-element slice whose element text holds `% ` (as the lowering of an
   * integer remainder does) is an internal error as written, and lowers to
   * its constructor text once the text is passed as an operand.
   */
  lemma SliceWithRemainder(x: string, y: string, zero: string, typeName: string, counter: nat, lower: nat -> Expression)
    requires '%' !in x && '%' !in y && '%' !in typeName && x != ""
    ensures SliceLiteralAsWritten([Unkeyed(x + " % " + y)], zero, typeName, counter, lower) == Fatal
    ensures SliceLiteral([Unkeyed(x + " % " + y)], zero, typeName, counter, lower)
         == Ok(Expression("_gi_NewSlice(\"" + typeName + "\",{[0]=" + x + " % " + y + "})", false))
  {
    var t := x + " % " + y;
    CollectOne(t, zero);
    var text := SliceText([t], typeName);
    SliceTextOne(t, typeName);
    var t0 := "_gi_NewSlice(\"" + typeName + "\",{[0]=" + x + " ";
    var t1 := y + "})";
    RemainderSplit(typeName, x, y);
    StrayPercentIsFatal(t0, t1, [], false, counter, lower);
    FormatString(Str(text), false, counter, lower);
  }

  /** One unkeyed element is collected as itself. */
  lemma CollectOne(t: string, zero: string)
    ensures Collect([Unkeyed(t)], zero) == Ok([t])
  {
    var elts := [Unkeyed(t)];
    assert elts[..0] == [];
    assert PlaceAll(elts[..0], zero) == Ok(Placement([], 0));
    assert Pad([], 1, zero) == [zero];
    assert PlaceAll(elts, zero) == Ok(Placement([zero][0 := t], 1));
    assert [zero][0 := t] == [t];
  }

  lemma SliceTextOne(t: string, typeName: string)
    requires t != ""
    ensures SliceText([t], typeName) == "_gi_NewSlice(\"" + typeName + "\",{[0]=" + t + "})"
  {
    assert Join([t], ", ") == t;
  }

  lemma RemainderSplit(typeName: string, x: string, y: string)
    requires '%' !in x && '%' !in y && '%' !in typeName
    ensures var t0 := "_gi_NewSlice(\"" + typeName + "\",{[0]=" + x + " ";
      "_gi_NewSlice(\"" + typeName + "\",{[0]=" + (x + " % " + y) + "})" == t0 + ("% " + (y + "})"))
      && '%' !in t0 && '%' !in y + "})"
      && "_gi_NewSlice(\"" + typeName + "\",{[0]=" + (x + " % " + y) + "})"
         == "_gi_NewSlice(\"" + typeName + "\",{[0]=" + x + " % " + y + "})"
  {
  }

  /** The slice branch of translateExpr for a composite literal. */
  method TranslateSliceLiteral(ctx: FuncContext, elts: seq<Element>, zero: string, typeName: string) returns (r: Result<Expression>)
    modifies ctx
    ensures r == SliceLiteral(elts, zero, typeName, old(ctx.varCounter), ctx.lower)
    ensures ctx.varCounter == old(ctx.varCounter)
  {
    ghost var c0 := ctx.varCounter;
    var collected := CollectIndexedElements(elts, zero);
    if collected.Fatal? {
      return Fatal;
    }
    var ele := Join(collected.value, ", ");
    if |ele| > 0 {
      ele := "[0]=" + ele;
    }
    var text := "_gi_NewSlice(\"" + typeName + "\",{" + ele + "})";
    r := ctx.FormatExpr("%s", [Str(text)]);
    FormatString(Str(text), false, c0, ctx.lower);
    WithoutExpressionsNothingHoisted("%s", [Str(text)], false, c0, ctx.lower);
  }

  // ---------------------------------------------------------------------
  // Maps

  /** A map literal entry: the texts of its key and its value. */
  datatype Entry = Entry(key: string, value: string)

  /** The table constructor entry of a map element: the key quoted as a field name. */
  function EntryText(e: Entry): string {
    "[\"" + e.key + "\"]=" + e.value
  }

  function EntryTexts(es: seq<Entry>): (ts: seq<string>)
    ensures |ts| == |es| && forall i :: 0 <= i < |es| ==> ts[i] == EntryText(es[i])
  {
    seq(|es|, i requires 0 <= i < |es| => EntryText(es[i]))
  }

  /** The entries loop of the map branch: one entry per element, in element order. */
  method MapEntries(es: seq<Entry>) returns (entries: seq<string>)
    ensures |entries| == |es|
    ensures forall i :: 0 <= i < |es| ==> entries[i] == "[\"" + es[i].key + "\"]=" + es[i].value
  {
    var buffer := new string[|es|];
    for i := 0 to |es|
      invariant forall j :: 0 <= j < i ==> buffer[j] == "[\"" + es[j].key + "\"]=" + es[j].value
    {
      buffer[i] := "[\"" + es[i].key + "\"]=" + es[i].value;
    }
    entries := buffer[..];
  }

  /** The map branch: `_gi_NewMap` with the key and element type names and the joined entries as operands. */
  function MapLiteral(es: seq<Entry>, keyType: string, elemType: string, counter: nat, lower: nat -> Expression): Result<Expression>
  {
    Format("_gi_NewMap(\"%s\", \"%s\", {%s})", [Str(keyType), Str(elemType), Str(Join(EntryTexts(es), ", "))], false, counter, lower)
  }

  /**
   * A map literal always lowers: the type names and the entries, in element
   * order, land in their places verbatim, whatever characters they hold.
   */
  lemma MapLiteralText(es: seq<Entry>, keyType: string, elemType: string, counter: nat, lower: nat -> Expression)
    ensures MapLiteral(es, keyType, elemType, counter, lower)
         == Ok(Expression("_gi_NewMap(\"" + keyType + "\", \"" + elemType + "\", {" + Join(EntryTexts(es), ", ") + "})", false))
  {
    var t0, t1, t2, t3 := "_gi_NewMap(\"", "\", \"", "\", {", "})";
    MapPattern();
    var joined := Join(EntryTexts(es), ", ");
    FormatThreeStrings(t0, t1, t2, t3, Str(keyType), Str(elemType), Str(joined), false, counter, lower);
    MapText(keyType, elemType, joined);
  }

  /*
   * The two regroupings are kept out of MapLiteralText: stated inline, the
   * concrete text equalities swamp its proof.
   */
  lemma MapPattern()
    ensures "_gi_NewMap(\"" + ("%s" + ("\", \"" + ("%s" + ("\", {" + ("%s" + "})")))))
         == "_gi_NewMap(\"%s\", \"%s\", {%s})"
  {
  }

  lemma MapText(k: string, v: string, j: string)
    ensures "_gi_NewMap(\"" + (k + ("\", \"" + (v + ("\", {" + (j + "})")))))
         == "_gi_NewMap(\"" + k + "\", \"" + v + "\", {" + j + "})"
  {
  }

  /** The map branch of translateExpr for a composite literal. */
  method TranslateMapLiteral(ctx: FuncContext, es: seq<Entry>, keyType: string, elemType: string) returns (r: Result<Expression>)
    modifies ctx
    ensures r == MapLiteral(es, keyType, elemType, old(ctx.varCounter), ctx.lower)
    ensures ctx.varCounter == old(ctx.varCounter)
  {
    ghost var c0 := ctx.varCounter;
    var entries := MapEntries(es);
    assert entries == EntryTexts(es);
    var joined := Join(entries, ", ");
    r := ctx.FormatExpr("_gi_NewMap(\"%s\", \"%s\", {%s})", [Str(keyType), Str(elemType), Str(joined)]);
    MapLiteralText(es, keyType, elemType, c0, ctx.lower);
    WithoutExpressionsNothingHoisted("_gi_NewMap(\"%s\", \"%s\", {%s})", [Str(keyType), Str(elemType), Str(joined)], false, c0, ctx.lower);
  }
}
