# Expression lowering text machinery of a Go-to-Lua compiler

This project is a Dafny model of the code in `pkg/compiler/expressions.go` that produces Lua (LuaJIT) text while a type-checked Go expression tree is lowered. The model proves properties of that code.

Five parts are modelled:

- **The template engine.** This is `formatExprInternal`, called through `formatExpr` and `formatParenExpr`.
  - It scans a pattern of literal bytes and `%[digit]tag` placeholders.
  - It counts the references that the tags `e f h l r i` make to each operand.
  - It hoists every operand referenced more than once that is neither an identifier nor a constant into a fresh temporary `xN`.
  - It then renders the pattern.
  - The engine is specified by functions in `Template` and implemented by the `Engine.FuncContext` class, whose methods mirror the Go loops (the `counts` array, the `vars` list, the `out` buffer and the name counter). Each method is proved equal to the specification.
  - Properties of the specification live in `ScanProps`, `RenderProps`, `HoistProps` and `Patterns`: the scan round trip, single evaluation, fresh and distinct temporaries, the parenthesisation rule and the fatal cases.
- **Composite literals** (`Literals`, `Structs`):
  - `collectIndexedElements` and the array and slice constructors built on it;
  - map entries;
  - keyed and positional struct filling;
  - `structFieldNameValuesForLua`.
- **`identifierConstant`** and the integer branch of constant folding, which adds the `LL` or `ULL` suffix (`Constants`).
- **`fixNumber`** and **`expression.StringWithParens`** (`Constants`, `Expressions`).
- **The binary-operator dispatch** for numeric and string operands (`BinaryOps`).

Some things outside the core become inputs:

- **The lowering of a sub-expression** (`translateExpr` on an AST node) is an oracle `lower: nat -> Expression`, indexed by node id.
- **The type checker's answers** are fields of the operand: whether it is an identifier, its constant value and its underlying type.
- **`newVariable`** is a counter that only grows. It hands out the names `prefix + decimal(counter)`.
- **Element, field and zero-value texts** of composite literals are given as already lowered strings.
- **An internal error** (a Go `panic`) is the `Fatal` outcome.

Three behaviours of the code worth noting:

- **Integer constants are not truncated to the width of their kind.** The value 200 for an `int8` renders as `200LL` (`Constants.NoTruncationExample`).
- **Positional struct literals with fewer values than fields.** These do not fail. The remaining fields keep the empty text that `make([]string, NumFields)` gave them.
- **An explicit digit `0` in a placeholder.** It selects operand 255, because `k - '0' - 1` is computed on a byte. This is always out of range, so it is an internal error.

## Model

| member | source | states |
|---|---|---|
| Expressions.StringWithParens | pkg/compiler/expressions.go:34-39 | parentheses are added around the text exactly when the parens flag is set |
| Template.ExplicitIndex | pkg/compiler/expressions.go:1499-1502 | a digit d selects operand d-1, and the digit 0 wraps to operand 255 |
| Template.ScanImplicit | pkg/compiler/expressions.go:1494-1506 | `%` and a tag that is not a digit select the running index, and the running index then advances by one |
| Template.ScanExplicit | pkg/compiler/expressions.go:1494-1506 | `%`, a digit and a tag select operand digit-1, and the running index continues from the operand after it |
| Template.FormatWithoutHoisting | pkg/compiler/expressions.go:1520-1541 | when no operand is referenced twice, nothing is hoisted, no temporary is used and the output is the body with the requested flag |
| ScanProps.ScanIsWellFormed | pkg/compiler/expressions.go:1492-1510 | every successful scan obeys the indexing rule (literals are never '%'; explicit digits select d-1; other placeholders take the running index), and printing the items back gives the pattern |
| ScanProps.WellFormedScans | pkg/compiler/expressions.go:1492-1510 | scanning the printed form of well-formed items gives those items back |
| ScanProps.ScanRoundTrip | pkg/compiler/expressions.go:1492-1510 | a pattern that scans is reproduced exactly by its items |
| ScanProps.UnscanRoundTrip | pkg/compiler/expressions.go:1492-1510 | well-formed items starting at index 0 are exactly what their printed pattern scans to |
| RenderProps.LiteralPattern | pkg/compiler/expressions.go:1552-1553 | a pattern without '%' is copied verbatim, with the requested flag, whatever the operands |
| RenderProps.EscapeRoundTrip | pkg/compiler/expressions.go:1618-1619 | any text with each '%' doubled renders back to the original text |
| RenderProps.ItemFailureIsFatal | pkg/compiler/expressions.go:1543-1623 | one item that cannot be rendered makes the whole call an internal error |
| RenderProps.UnknownTagIsFatal | pkg/compiler/expressions.go:1620-1621 | a placeholder with a tag outside NUL, %, s, d, t, e, f, h, l, r, i is an internal error |
| RenderProps.MissingOperandIsFatal | pkg/compiler/expressions.go:1554-1617 | a placeholder that selects an operand beyond the list is an internal error |
| RenderProps.WrongStringOperandIsFatal | pkg/compiler/expressions.go:1554-1563 | `%s`, `%d` or `%t` on an operand of the wrong kind fails the type assertion: an internal error |
| RenderProps.CountedNonExpressionIsFatal | pkg/compiler/expressions.go:1564-1617 | a counted tag on an operand that is not an AST expression is an internal error |
| RenderProps.FlattenTagOfConstant | pkg/compiler/expressions.go:1571-1577 | `%f` on an int64-sized constant prints the decimal of the value itself |
| RenderProps.HighLowOfSignedConstant | pkg/compiler/expressions.go:1585-1602 | for an int64 constant, `%h` (an arithmetic shift) and `%l` print signed high and unsigned low halves with high*2^32 + low equal to the value |
| RenderProps.HighLowOfUnsignedConstant | pkg/compiler/expressions.go:1585-1602 | for other kinds, `%h` (a logical shift) and `%l` print unsigned halves with high*2^32 + low equal to the 64-bit pattern |
| Patterns.FormatPieces | pkg/compiler/expressions.go:1543-1629 | a pattern whose placeholders select the operands in turn, each once, renders as the pieces' outputs in order with the requested flag, and nothing is hoisted |
| Patterns.FormatAroundPercent | pkg/compiler/expressions.go:1494-1506 | `%%` prints one '%' and advances the running index, without disturbing explicit references after it |
| Patterns.StrayPercentIsFatal | pkg/compiler/expressions.go:1620-1621 | a '%' followed by a blank in a pattern is an unknown tag: an internal error |
| Patterns.FormatPercentBetween | pkg/compiler/expressions.go:1499-1506 | explicit `%1e` and `%2e` on both sides of `%%` print both operands, with one '%' between them |
| Engine.ScanPattern | pkg/compiler/expressions.go:1492-1510 | the scanning loop yields exactly the scan specification, an internal error when the pattern ends inside a placeholder |
| Engine.CountReferences | pkg/compiler/expressions.go:1512-1518 | counts[i] is the number of counted references to operand i, and a reference beyond the operands is reported |
| Engine.FuncContext.NewVariable | pkg/compiler/expressions.go:1538 | the name is the prefix followed by the counter's decimal, and the counter advances by one |
| Engine.FuncContext.WriteRef | pkg/compiler/expressions.go:1544-1550 | a reference prints the temporary plus suffix if there is one, else the parenthesised lowering plus suffix |
| Engine.FuncContext.RenderReference | pkg/compiler/expressions.go:1564-1617 | the e, f, h, l, r and i cases print what the rendering specification gives for the operand, constant or not |
| Engine.FuncContext.RenderOne | pkg/compiler/expressions.go:1551-1622 | one callback invocation prints the item's specified output, or fails where the specification does |
| Engine.FuncContext.HoistOperands | pkg/compiler/expressions.go:1520-1541 | the hoisting loop fails exactly when a repeated operand is not an expression; otherwise vars, the counter advance, hasAssignments and the `(` + prelude text match the specification |
| Engine.FuncContext.RenderItems | pkg/compiler/expressions.go:1543-1623 | the rendering pass prints the specified body, or fails where it does |
| Engine.FuncContext.FormatExprInternal | pkg/compiler/expressions.go:1459-1630 | the result is the engine specification for the counter on entry, and on success the counter has advanced by the number of hoisted operands |
| Engine.FuncContext.FormatExpr | pkg/compiler/expressions.go:1449-1452 | the engine with the parens flag off |
| Engine.FuncContext.FormatParenExpr | pkg/compiler/expressions.go:1454-1457 | the engine with the parens flag on |
| HoistProps.SingleEvaluation | pkg/compiler/expressions.go:1512-1550 | the code of an operand that is neither identifier nor constant is emitted once if the pattern references it, never otherwise |
| HoistProps.BodyEvals | pkg/compiler/expressions.go:1543-1623 | the body emits such an operand's code once per reference when it has no temporary, never when it has one |
| HoistProps.PreludeEvals | pkg/compiler/expressions.go:1523-1541 | the assignments emit each hoisted operand's code exactly once and no other operand's |
| HoistProps.PreludeOrder | pkg/compiler/expressions.go:1523-1541 | the assignments evaluate exactly the hoisted operands, in strictly increasing operand order |
| HoistProps.HoistedReferencePrintsTemporary | pkg/compiler/expressions.go:1544-1617 | every counted reference to a hoisted operand prints its temporary with the tag's suffix (`$flatten64(v)` for `%f` on a 64-bit kind) |
| HoistProps.TemporaryName | pkg/compiler/expressions.go:1538-1540 | a hoisted operand's temporary is `x` followed by a counter value handed out during this call |
| HoistProps.DistinctTemporaries | pkg/compiler/expressions.go:1538-1540 | two hoisted operands of one call get different temporaries |
| HoistProps.TemporariesNeverReused | pkg/compiler/expressions.go:1538-1540 | a later call never reuses a temporary of an earlier call |
| HoistProps.IdentsAndConstantsNotHoisted | pkg/compiler/expressions.go:1527-1532 | identifiers and constants never get a temporary |
| HoistProps.PreludeStartsWithTemporary | pkg/compiler/expressions.go:1533-1539 | once an operand is hoisted, the prelude text starts with a temporary's name |
| HoistProps.ParensRule | pkg/compiler/expressions.go:1533-1629 | with hoisting the output is `(`, an assignment, ..., `)` and the flag is off; without it the flag is the one requested |
| Literals.CollectIndexedElements | pkg/compiler/expressions.go:176-196 | the loop yields the placement specification: the elements, or an internal error |
| Literals.PlaceElement | pkg/compiler/expressions.go:181-194 | one element: a key moves the position, the list grows with zero values, the text is written and the position advances; a key that is not an exact int64 or a negative position is an internal error |
| Literals.CollectMeaning | pkg/compiler/expressions.go:176-196 | the literal lowers exactly when all keys are exact and all positions non-negative; the list is then one past the largest position long, and each entry holds the last text written there or the zero value |
| Literals.UnkeyedPositions | pkg/compiler/expressions.go:190-193 | unkeyed elements alone are written at 0, 1, 2, ... |
| Literals.ArrayLiteralText | pkg/compiler/expressions.go:200-212 | an array literal lowers exactly when its elements can be placed; it is empty only for no elements; the table is padded to max(extent, declared length) with each slot's last text or zero |
| Literals.ArrayLiteralAgrees | pkg/compiler/expressions.go:206-212 | where the constructor text holds no '%', passing it as the pattern and passing it as an operand agree |
| Literals.TranslateArrayLiteral | pkg/compiler/expressions.go:200-212 | the array branch yields the corrected array lowering, and takes no temporary name |
| Literals.SliceLiteralText | pkg/compiler/expressions.go:213-219 | a slice literal lowers exactly when its elements can be placed; when the joined entries are non-empty they are listed after `[0]=`, and otherwise the table is empty |
| Literals.SliceLiteralAgrees | pkg/compiler/expressions.go:213-219 | where the constructor text holds no '%', the pattern form and the operand form agree |
| Literals.SliceWithRemainder | pkg/compiler/expressions.go:219 | a slice element whose text holds `% ` is an internal error as written, and lowers correctly as an operand |
| Literals.TranslateSliceLiteral | pkg/compiler/expressions.go:213-219 | the slice branch yields the corrected slice lowering, and takes no temporary name |
| Literals.MapEntries | pkg/compiler/expressions.go:222-226 | one `["key"]=value` entry per element, in element order |
| Literals.MapLiteralText | pkg/compiler/expressions.go:221-229 | a map literal always lowers to `_gi_NewMap` with both type names and the entries verbatim |
| Literals.TranslateMapLiteral | pkg/compiler/expressions.go:221-229 | the map branch yields the map lowering, and takes no temporary name |
| Structs.FieldIndex | pkg/compiler/expressions.go:250-255 | the first declared field with the given name, or none when no field has it |
| Structs.StructElements | pkg/compiler/expressions.go:232-257 | the filling code yields the filling specification |
| Structs.FillPositional | pkg/compiler/expressions.go:239-243 | positional mode succeeds exactly for values only and no more values than fields; value j lands in field j and the rest stay empty |
| Structs.FillKeyed | pkg/compiler/expressions.go:244-257 | keyed mode succeeds exactly when every element is named; the fields are the zero values overwritten in element order |
| Structs.WriteNamed | pkg/compiler/expressions.go:249-255 | an element's text goes to the first field of its name, and nothing changes when no field has that name |
| Structs.StructElementsMeaning | pkg/compiler/expressions.go:232-257 | the first element alone decides the mode, and an empty literal is keyed; the success conditions of both modes; one text per field; positional placement; zero values for an empty literal |
| Structs.UnnamedFieldKeepsZero | pkg/compiler/expressions.go:244-256 | in keyed mode a field no element names keeps its zero value |
| Structs.LastNamingElementWins | pkg/compiler/expressions.go:248-256 | in keyed mode a field holds the text of the last element that names it |
| Structs.StructFieldNameValuesForLua | pkg/compiler/expressions.go:1641-1651 | every declared field once, in order, as `["name"]=value`; a count mismatch is an internal error |
| Structs.StructLiteralText | pkg/compiler/expressions.go:232-260 | a struct literal lowers exactly when its elements fill the fields, to `__reg:NewInstance` listing every field once in declaration order |
| Structs.TranslateStructLiteral | pkg/compiler/expressions.go:232-260 | the struct branch yields the struct lowering, and takes no temporary name |
| Constants.IdentifierConstant | pkg/compiler/expressions.go:1099-1114 | ok exactly when a value is present, non-empty, all ASCII letters, `_`, `$` or non-leading digits; the text then is the value, else "" |
| Constants.IdentifierIsLiteralPattern | pkg/compiler/expressions.go:1099-1114 | an accepted identifier holds no '%', so the engine copies it verbatim |
| Constants.EffectiveKind | pkg/compiler/expressions.go:75-82 | the desired type's kind when that type is basic, else the expression's own kind |
| Constants.IntegerConstantText | pkg/compiler/expressions.go:70-98 | a constant lowers exactly when the 64-bit reading its kind selects holds it, and the text is the decimal of the value itself followed by LL or ULL |
| Constants.NoTruncationExample | pkg/compiler/expressions.go:83-91 | 200 lowered for an int8 is `200LL` |
| Constants.FixNumberText | pkg/compiler/expressions.go:1390-1429 | an integer result is the value with its own parentheses and flagged; a float result is unchanged; any other kind is an internal error |
| Constants.FixNumberAcceptsIntegers | pkg/compiler/expressions.go:1395-1428 | the corrected fixNumber succeeds exactly for the sized integer kinds and the two float kinds; as written it succeeds for exactly those kinds except uint64, which panics |
| Constants.FixNumberAsWrittenRejectsUint64 | pkg/compiler/expressions.go:1395-1428 | as written, uint64 falls to the default case, while the corrected function wraps it like the other integers |
| Constants.FixNumberAgrees | pkg/compiler/expressions.go:1395-1428 | for every kind but uint64, the written and the corrected fixNumber agree |
| BinaryOps.OperandType | pkg/compiler/expressions.go:373-378 | the branch type is one of the two operands' types |
| BinaryOps.NotEqualNegatesEqual | pkg/compiler/expressions.go:365-371 | `!=` is " not (" + the `==` lowering with its parentheses + ")", and fails where `==` does |
| BinaryOps.NumericEqualText | pkg/compiler/expressions.go:432-433 | `==` on numbers prints both operands around `==`, flagged for parentheses |
| BinaryOps.NumericNotEqualText | pkg/compiler/expressions.go:365-371 | `!=` on numbers is ` not ((x == y))` |
| BinaryOps.IntegerDivisionGuarded | pkg/compiler/expressions.go:451-468 | integer `/` and `%` are wrapped in `__integerByZeroCheck` with the operator between the operands |
| BinaryOps.QuotientGuarded | pkg/compiler/expressions.go:451-460 | integer `/` is `__integerByZeroCheck(x / y)` |
| BinaryOps.RemainderGuarded | pkg/compiler/expressions.go:467-468 | numeric `%` is `__integerByZeroCheck(x % y)` |
| BinaryOps.RemainderText | pkg/compiler/expressions.go:468 | the remainder pattern's `%%` prints Lua's `%` between the two operands |
| BinaryOps.WideConstantShiftIsZero | pkg/compiler/expressions.go:474-478 | a constant shift amount of 32 or more lowers to `0` |
| BinaryOps.NarrowConstantShiftText | pkg/compiler/expressions.go:469-479 | a smaller constant amount is printed in decimal after the operator (`>>>` for unsigned right shifts), flagged for parentheses by the corrected fixNumber |
| BinaryOps.ArithmeticText | pkg/compiler/expressions.go:434-440 | `+`, `-` and comparisons print Go's operator between the operands; `+`/`-` on integers are flagged for parentheses by the corrected fixNumber |
| BinaryOps.Uint64ArithmeticAsWritten | pkg/compiler/expressions.go:436-440 | on uint64 operands, `+` and `-` print the infix text and pass it to fixNumber, which as written panics for uint64 |
| BinaryOps.NumericDispatch | pkg/compiler/expressions.go:380-497 | every operator but `!=` on a numeric, non-complex branch type goes to the numeric switch |
| BinaryOps.OtherDispatch | pkg/compiler/expressions.go:500-529 | every operator but `!=` on a non-numeric branch type goes to the second switch |
| BinaryOps.StringConcatenation | pkg/compiler/expressions.go:501-507 | `+` on strings is Lua's `..` |
| BinaryOps.ShortCircuitText | pkg/compiler/expressions.go:510-529 | `&&` and `||` whose right operand cannot suspend are Lua's `and` and `or` |
| BinaryOps.TranslateBinary | pkg/compiler/expressions.go:364-560 | the binary-expression case: `!=` as ` not (…)` around `==`, numeric operands through the call table, the rest through the string and boolean forms; None for the forms listed under Left out |
| BinaryOps.NumericCall | pkg/compiler/expressions.go:431-497 | the pattern, operands, parens flag and fixNumber step chosen for each operator on numeric operands |
| BinaryOps.Shift | pkg/compiler/expressions.go:469-485 | constant shifts of 32 or more give `0`, smaller ones print the amount; variable shifts use `$min(%f, 31)` or a `y` temporary |
| BinaryOps.OtherBinary | pkg/compiler/expressions.go:500-529 | string `+` becomes `..`, comparisons keep Go's operator, non-blocking `&&`/`||` become `and`/`or` |
| Constants.IntegerConstant | pkg/compiler/expressions.go:70-98 | the kind is the desired basic kind if any; signed kinds print the int64 value with `LL`, the others the uint64 value with `ULL`; a value that does not fit panics |
| Constants.FixNumberAsWritten | pkg/compiler/expressions.go:1390-1429 | fixNumber as written: listed integer kinds are wrapped by `formatParenExpr("%s", …)`, floats pass through, any other kind (uint64 included) panics |
| Constants.FixNumber | pkg/compiler/expressions.go:1390-1429 | fixNumber with uint64 treated like the other integer kinds |
| Template.Scan | pkg/compiler/expressions.go:1492-1510 | the pattern as literal bytes and placeholders with their tag and operand index; None where the pattern ends inside a placeholder |
| Template.Format | pkg/compiler/expressions.go:1459-1630 | formatExprInternal: scan, count references, hoist, then render the body, or Fatal |
| Structs.FillStruct | pkg/compiler/expressions.go:232-257 | the field texts of a struct literal: positional values in order with empty text after them, or zero values overwritten by each keyed value |
| Structs.StructLiteral | pkg/compiler/expressions.go:232-260 | the struct branch: fill the fields, name them, and format the `__reg:NewInstance` call |
| Literals.ArrayLiteralAsWritten | pkg/compiler/expressions.go:200-212 | the array branch as written: the constructor text, element texts included, is the pattern |
| Literals.SliceLiteralAsWritten | pkg/compiler/expressions.go:213-219 | the slice branch as written: the constructor text, element texts included, is the pattern |
| Literals.MapLiteral | pkg/compiler/expressions.go:221-229 | the map branch: the two type names and the joined entries go through `_gi_NewMap` as `%s` operands |

## Left out

- The rest of `translateExpr` is not modelled: selectors, calls, conversions, pointers, type assertions, function literals and the nil table. Sub-expression lowering is the oracle `lower`. Type names, zero values and `typeKind` are input strings.
- `newVariable` is not part of this model. It lives outside `expressions.go` and is modelled as a counter that only grows.
- Float and complex formatting (`strconv.FormatFloat` for the `r` and `i` tags and for float constants) is treated as opaque text carried by the constant.
- `identifierConstant` on a non-string constant is not modelled. `constant.StringVal` panics there; the input is an optional string.
- The blocking forms of `&&` and `||` are left out. They write statements through `Printf` and bump the case counter. `BinaryOps.TranslateBinary` answers None for them.
- `==` on non-numeric types is left out, because it depends on type names and the shape of interfaces and structs. Complex arithmetic is left out too. `BinaryOps.TranslateBinary` answers None for both.
- BinaryOps.Fix: the lowering of numeric operators calls the corrected fixNumber, so uint64 results of `+`, `-`, `*`, `&^`, `^` and shifts (pkg/compiler/expressions.go:440, 450, 479, 482, 485, 492, 494) lower where the code as written panics; `BinaryOps.Uint64ArithmeticAsWritten` states the panic for `+` and `-`.
- BinaryOps.ArithmeticText: states the `+`/`-` text through the corrected fixNumber; for uint64 the code as written panics instead.
- BinaryOps.NarrowConstantShiftText: states the shift text through the corrected fixNumber; for uint64 the code as written panics instead.
- BinaryOps.Shift: the variable-shift forms (`$min(%f, 31)` and the `y` temporary) are modelled in the function, but no lemma states their text.
- BinaryOps.NumericCall: `*`, `&^`, `^`, `&`, `|` and float `/` are modelled in the call table, but no lemma states their text.
- The counter advance of `newVariable("y")` in the variable-shift form is not tracked in `BinaryOps`. The caller's counter is a parameter.
- JS-package interop, the syscall and reflect special cases, `loadStruct` and debug logging are outside the modelled core.
- BinaryOps.NotEqualNegatesEqual: the model assumes the debug statements at pkg/compiler/expressions.go:57 and :149-154 are absent. As written, the trace at line 57 calls `exprType.String()` eagerly, and for the `==` node that `!=` builds at lines 366-370 the type lookup finds no recorded type, so every `!=` panics there rather than lowering to ` not (…)`.
- BinaryOps.NumericNotEqualText: rests on the same assumption; as written, numeric `!=` panics at pkg/compiler/expressions.go:57 instead of giving ` not ((x == y))`.
- The package-global `debugNilCount` (pkg/compiler/expressions.go:22 and :149-154) counts lowerings of non-constant expressions that are neither a resolved identifier nor a resolved selector. It panics with "where obj nil?" on the third. Every `translateExpr`-level member (the composite-literal and binary-operator branches) assumes this counter never trips.
- The integration tests in `pkg/compiler/struct_test.go` run a Lua VM. They are not part of this model, and neither is the LuaJIT C source.
- Struct element and map entry texts are given already lowered. The implicit conversion with cloning is not part of this model.

## Findings

| source | as written | input that shows it | evidently intended | confidence | as-written member | corrected member |
|---|---|---|---|---|---|---|
| pkg/compiler/expressions.go:206-219 | the array and slice constructor text, element texts included, is passed to `formatExpr` as the pattern | a one-element slice whose element is an integer remainder, which lowers to `__integerByZeroCheck(a % b)` (line 468): the `% ` inside it is an unknown tag, so the lowering panics | pass the text as the operand of a `%s` pattern, so that element texts are copied verbatim | not executed | Literals.SliceWithRemainder | Literals.SliceLiteralText |
| pkg/compiler/expressions.go:1395-1428 | `fixNumber` lists every sized integer kind except `types.Uint64`, so uint64 falls to the default panic | `a + b` on two `uint64` variables: the `+` case calls `fixNumber` with kind Uint64 | treat uint64 like the other integer kinds: `formatParenExpr("%s", value)` | not executed | Constants.FixNumberAsWrittenRejectsUint64 | Constants.FixNumberText |
