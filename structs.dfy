/**
 * Composite literals of struct type: filling the element list in keyed or
 * positional mode, and structFieldNameValuesForLua, which pairs every
 * declared field with its value.
 *
 * Element texts are inputs: each is the lowering of one value, already
 * converted to its field's type, and each field carries the lowering of
 * its type's zero value.
 */
module Structs {
  import opened Outcome
  import opened Text
  import opened Expressions
  import opened Template
  import opened Patterns
  import opened Engine

  /** A declared field: its name and the text of its type's zero value. */
  datatype Field = Field(name: string, zero: string)

  /** An element of a struct literal: a bare value, or a field name with a value. */
  datatype StructElement = Value(text: string) | Named(name: string, text: string)

  /** Keyed mode is decided by the first element alone; an empty literal counts as keyed. */
  predicate KeyedMode(elts: seq<StructElement>) {
    elts == [] || elts[0].Named?
  }

  predicate AllNamed(elts: seq<StructElement>) {
    forall k :: 0 <= k < |elts| ==> elts[k].Named?
  }

  predicate AllValues(elts: seq<StructElement>) {
    forall k :: 0 <= k < |elts| ==> elts[k].Value?
  }

  /** The first declared field with the given name, if any. */
  function FieldIndex(fields: seq<Field>, name: string): (r: Option<nat>)
    ensures r.Some? ==> r.value < |fields| && fields[r.value].name == name
                        && forall j :: 0 <= j < r.value ==> fields[j].name != name
    ensures r.None? ==> forall j :: 0 <= j < |fields| ==> fields[j].name != name
  {
    if fields == [] then None
    else if fields[0].name == name then Some(0)
    else
      var r := FieldIndex(fields[1..], name);
      if r.None? then None else Some(r.value + 1)
  }

  /** The zero value of every field, in declaration order. */
  function Zeros(fields: seq<Field>): (zs: seq<string>)
    ensures |zs| == |fields| && forall j :: 0 <= j < |fields| ==> zs[j] == fields[j].zero
  {
    seq(|fields|, j requires 0 <= j < |fields| => fields[j].zero)
  }

  /** Keyed filling: start from the zero values; each element overwrites the first field it names, if any. */
  function KeyedFill(fields: seq<Field>, elts: seq<StructElement>): (s: seq<string>)
    requires AllNamed(elts)
    ensures |s| == |fields|
  {
    if elts == [] then Zeros(fields)
    else
      var s := KeyedFill(fields, elts[..|elts| - 1]);
      var j := FieldIndex(fields, elts[|elts| - 1].name);
      if j.None? then s else s[j.value := elts[|elts| - 1].text]
  }

  /**
   * The element list of the struct branch: one text per declared field, or
   * an internal error. In positional mode the values fill the fields in
   * order and the remaining fields keep the empty text the list was made
   * with; more values than fields index out of range, and a named element
   * among values has no lowering. In keyed mode a bare value fails the type
   * assertion to a key-value pair.
   */
  function FillStruct(fields: seq<Field>, elts: seq<StructElement>): Result<seq<string>>
  {
    if KeyedMode(elts) then
      if !AllNamed(elts) then Fatal else Ok(KeyedFill(fields, elts))
    else if |elts| > |fields| || !AllValues(elts) then Fatal
    else Ok(seq(|fields|, j requires 0 <= j < |fields| => if j < |elts| then elts[j].text else ""))
  }

  /** The element filling of the struct branch of translateExpr. */
  method StructElements(fields: seq<Field>, elts: seq<StructElement>) returns (r: Result<seq<string>>)
    ensures r == FillStruct(fields, elts)
  {
    var elements := new string[|fields|](_ => "");
    var isKeyValue := true;
    if |elts| != 0 {
      isKeyValue := elts[0].Named?;
    }
    var ok;
    if isKeyValue {
      ok := FillKeyed(elements, fields, elts);
    } else {
      ok := FillPositional(elements, fields, elts);
    }
    if !ok {
      return Fatal;
    }
    return Ok(elements[..]);
  }

  /** Positional mode: the values in order, each in the field of its own index. */
  method FillPositional(elements: array<string>, fields: seq<Field>, elts: seq<StructElement>) returns (ok: bool)
    requires elements.Length == |fields| && forall j :: 0 <= j < elements.Length ==> elements[j] == ""
    modifies elements
    ensures ok <==> |elts| <= |fields| && AllValues(elts)
    ensures ok ==> elements[..] == seq(|fields|, j requires 0 <= j < |fields| => if j < |elts| then elts[j].text else "")
  {
    for i := 0 to |elts|
      invariant i <= |fields|
      invariant forall k :: 0 <= k < i ==> elts[k].Value?
      invariant forall j :: 0 <= j < |fields| ==> elements[j] == if j < i then elts[j].text else ""
    {
      if i >= elements.Length || elts[i].Named? {
        return false;
      }
      elements[i] := elts[i].text;
    }
    return true;
  }

  /** Keyed mode: the zero values, then each element written over the first field it names. */
  method FillKeyed(elements: array<string>, fields: seq<Field>, elts: seq<StructElement>) returns (ok: bool)
    requires elements.Length == |fields|
    modifies elements
    ensures ok <==> AllNamed(elts)
    ensures ok ==> elements[..] == KeyedFill(fields, elts)
  {
    for j := 0 to elements.Length
      invariant forall m :: 0 <= m < j ==> elements[m] == fields[m].zero
    {
      elements[j] := fields[j].zero;
    }
    assert elements[..] == KeyedFill(fields, elts[..0]);
    for k := 0 to |elts|
      invariant AllNamed(elts[..k])
      invariant elements[..] == KeyedFill(fields, elts[..k])
    {
      if elts[k].Value? {
        return false;
      }
      assert elts[..k + 1][..k] == elts[..k];
      WriteNamed(elements, fields, elts[k]);
    }
    assert elts[..|elts|] == elts;
    return true;
  }

  /** The inner loop of keyed mode: the element's text goes to the first field of its name, if there is one. */
  method WriteNamed(elements: array<string>, fields: seq<Field>, e: StructElement)
    requires elements.Length == |fields| && e.Named?
    modifies elements
    ensures var j := FieldIndex(fields, e.name);
      elements[..] == if j.None? then old(elements[..]) else old(elements[..])[j.value := e.text]
  {
    var j := 0;
    while j < elements.Length
      invariant 0 <= j <= elements.Length
      invariant forall m :: 0 <= m < j ==> fields[m].name != e.name
      invariant elements[..] == old(elements[..])
    {
      if e.name == fields[j].name {
        elements[j] := e.text;
        return;
      }
      j := j + 1;
    }
  }

  // ---------------------------------------------------------------------
  // Which value each field ends up with

  /**
   * Keyed mode, a field no element names: it keeps its zero value.
   */
  lemma {:induction false} UnnamedFieldKeepsZero(fields: seq<Field>, elts: seq<StructElement>, j: nat)
    requires AllNamed(elts) && j < |fields|
    requires forall k :: 0 <= k < |elts| ==> FieldIndex(fields, elts[k].name) != Some(j)
    ensures KeyedFill(fields, elts)[j] == fields[j].zero
    decreases |elts|
  {
    if elts != [] {
      var front := elts[..|elts| - 1];
      assert forall k :: 0 <= k < |front| ==> front[k] == elts[k];
      UnnamedFieldKeepsZero(fields, front, j);
    }
  }

  /**
   * Keyed mode, the last element whose name first matches field j: that
   * field holds its value, whatever came before.
   */
  lemma {:induction false} LastNamingElementWins(fields: seq<Field>, elts: seq<StructElement>, j: nat, k: nat)
    requires AllNamed(elts) && j < |fields| && k < |elts|
    requires FieldIndex(fields, elts[k].name) == Some(j)
    requires forall m :: k < m < |elts| ==> FieldIndex(fields, elts[m].name) != Some(j)
    ensures KeyedFill(fields, elts)[j] == elts[k].text
    decreases |elts|
  {
    var front := elts[..|elts| - 1];
    if k < |elts| - 1 {
      assert forall m :: 0 <= m < |front| ==> front[m] == elts[m];
      LastNamingElementWins(fields, front, j, k);
    }
  }

  /**
   * The mode is decided by the first element: a literal opened by a named
   * element lowers exactly when every element is named, one opened by a
   * value exactly when every element is a value and there are no more
   * values than fields. Either way every declared field gets exactly one
   * text, a positional value landing on the field of its own index.
   */
  lemma StructElementsMeaning(fields: seq<Field>, elts: seq<StructElement>)
    ensures KeyedMode(elts) ==> (FillStruct(fields, elts).Ok? <==> AllNamed(elts))
    ensures !KeyedMode(elts) ==> (FillStruct(fields, elts).Ok? <==> AllValues(elts) && |elts| <= |fields|)
    ensures FillStruct(fields, elts).Ok? ==> |FillStruct(fields, elts).value| == |fields|
    ensures FillStruct(fields, elts).Ok? && !KeyedMode(elts) ==>
      forall j :: 0 <= j < |fields| ==>
        FillStruct(fields, elts).value[j] == if j < |elts| then elts[j].text else ""
    ensures elts == [] ==> FillStruct(fields, elts) == Ok(Zeros(fields))
  {
  }

  // ---------------------------------------------------------------------
  // structFieldNameValuesForLua

  /** A field of the instance table: the field name quoted as a key. */
  function FieldText(name: string, value: string): string {
    "[\"" + name + "\"]=" + value
  }

  /** The field entries of the instance table, or an internal error when the counts differ. */
  function FieldValues(fields: seq<Field>, ele: seq<string>): Result<seq<string>>
  {
    if |ele| != |fields| then Fatal
    else Ok(seq(|fields|, i requires 0 <= i < |fields| => FieldText(fields[i].name, ele[i])))
  }

  /**
   * structFieldNameValuesForLua: every declared field exactly once, in
   * declaration order, paired with the value at its index; a value count
   * that differs from the field count is an internal error.
   */
  method StructFieldNameValuesForLua(fields: seq<Field>, ele: seq<string>) returns (r: Result<seq<string>>)
    ensures |ele| != |fields| ==> r == Fatal
    ensures |ele| == |fields| ==>
      r.Ok? && |r.value| == |fields|
      && forall i :: 0 <= i < |fields| ==> r.value[i] == "[\"" + fields[i].name + "\"]=" + ele[i]
    ensures r == FieldValues(fields, ele)
  {
    var n := |fields|;
    if |ele| != n {
      return Fatal;
    }
    var vals: seq<string> := [];
    for i := 0 to n
      invariant |vals| == i
      invariant forall m :: 0 <= m < i ==> vals[m] == "[\"" + fields[m].name + "\"]=" + ele[m]
    {
      vals := vals + ["[\"" + fields[i].name + "\"]=" + ele[i]];
    }
    assert vals == seq(|fields|, i requires 0 <= i < |fields| => FieldText(fields[i].name, ele[i]));
    return Ok(vals);
  }

  // ---------------------------------------------------------------------
  // The struct branch

  /** The struct branch: `__reg:NewInstance` with the type name and the joined field entries as operands. */
  function StructLiteral(typeName: string, fields: seq<Field>, elts: seq<StructElement>, counter: nat, lower: nat -> Expression): Result<Expression>
  {
    var els := FillStruct(fields, elts);
    if els.Fatal? then Fatal
    else
      var vals := FieldValues(fields, els.value);
      if vals.Fatal? then Fatal
      else Format("__reg:NewInstance(\"%s\",{%s})", [Str(typeName), Str(Join(vals.value, ", "))], false, counter, lower)
  }

  /**
   * A struct literal lowers exactly when its elements fill the fields (the
   * count check of structFieldNameValuesForLua cannot fire here), and the
   * instance table lists every declared field once, in declaration order.
   */
  lemma StructLiteralText(typeName: string, fields: seq<Field>, elts: seq<StructElement>, counter: nat, lower: nat -> Expression)
    ensures StructLiteral(typeName, fields, elts, counter, lower).Ok? <==> FillStruct(fields, elts).Ok?
    ensures FillStruct(fields, elts).Ok? ==>
      var els := FillStruct(fields, elts).value;
      var vals := seq(|fields|, i requires 0 <= i < |fields| => FieldText(fields[i].name, els[i]));
      StructLiteral(typeName, fields, elts, counter, lower)
        == Ok(Expression("__reg:NewInstance(\"" + typeName + "\",{" + Join(vals, ", ") + "})", false))
  {
    var els := FillStruct(fields, elts);
    if els.Ok? {
      StructElementsMeaning(fields, elts);
      var joined := Join(FieldValues(fields, els.value).value, ", ");
      StructPattern();
      FormatTwoStrings("__reg:NewInstance(\"", "\",{", "})", Str(typeName), Str(joined), false, counter, lower);
      StructText(typeName, joined);
    }
  }

  /** The instance call always lowers, whatever the type name and the field entries. */
  lemma InstanceKeepsCounter(typeName: string, joined: string, counter: nat, lower: nat -> Expression)
    ensures Format("__reg:NewInstance(\"%s\",{%s})", [Str(typeName), Str(joined)], false, counter, lower).Ok?
  {
    assert "__reg:NewInstance(\"" + ("%s" + ("\",{" + ("%s" + "})"))) == "__reg:NewInstance(\"%s\",{%s})";
    FormatTwoStrings("__reg:NewInstance(\"", "\",{", "})", Str(typeName), Str(joined), false, counter, lower);
  }

  /*
   * The two regroupings are kept out of StructLiteralText: stated inline,
   * the concrete text equalities swamp its proof.
   */
  lemma StructPattern()
    ensures "__reg:NewInstance(\"" + ("%s" + ("\",{" + ("%s" + "})"))) == "__reg:NewInstance(\"%s\",{%s})"
  {
  }

  lemma StructText(t: string, j: string)
    ensures "__reg:NewInstance(\"" + (t + ("\",{" + (j + "})"))) == "__reg:NewInstance(\"" + t + "\",{" + j + "})"
  {
  }

  /** The struct branch of translateExpr for a composite literal. */
  method TranslateStructLiteral(ctx: FuncContext, typeName: string, fields: seq<Field>, elts: seq<StructElement>) returns (r: Result<Expression>)
    modifies ctx
    ensures r == StructLiteral(typeName, fields, elts, old(ctx.varCounter), ctx.lower)
    ensures ctx.varCounter == old(ctx.varCounter)
  {
    ghost var c0 := ctx.varCounter;
    var elements := StructElements(fields, elts);
    if elements.Fatal? {
      return Fatal;
    }
    var vals := StructFieldNameValuesForLua(fields, elements.value);
    if vals.Fatal? {
      return Fatal;
    }
    r := ctx.FormatExpr("__reg:NewInstance(\"%s\",{%s})", [Str(typeName), Str(Join(vals.value, ", "))]);
    InstanceKeepsCounter(typeName, Join(vals.value, ", "), c0, ctx.lower);
    WithoutExpressionsNothingHoisted("__reg:NewInstance(\"%s\",{%s})", [Str(typeName), Str(Join(vals.value, ", "))], false, c0, ctx.lower);
  }
}
