/**
 * The part of the go/types oracle the model consults: basic kinds, the
 * type-class predicates the compiler tests them with, and operator tokens.
 */
module GoTypes {

  /** types.BasicKind. */
  datatype Kind =
    | Invalid | Bool | Int | Int8 | Int16 | Int32 | Int64
    | Uint | Uint8 | Uint16 | Uint32 | Uint64 | Uintptr
    | Float32 | Float64 | Complex64 | Complex128 | String | UnsafePointer
    | UntypedBool | UntypedInt | UntypedRune | UntypedFloat | UntypedComplex
    | UntypedString | UntypedNil

  /** The underlying type of an expression, reduced to what the lowering tests. */
  datatype Type = Basic(kind: Kind) | Interface | NonBasic

  predicate IsBoolean(k: Kind) { k == Bool || k == UntypedBool }

  predicate IsInteger(k: Kind) {
    k in {Int, Int8, Int16, Int32, Int64, Uint, Uint8, Uint16, Uint32, Uint64, Uintptr, UntypedInt, UntypedRune}
  }

  predicate IsUnsigned(k: Kind) { k in {Uint, Uint8, Uint16, Uint32, Uint64, Uintptr} }

  predicate IsFloat(k: Kind) { k in {Float32, Float64, UntypedFloat} }

  predicate IsComplex(k: Kind) { k in {Complex64, Complex128, UntypedComplex} }

  predicate IsNumeric(k: Kind) { IsInteger(k) || IsFloat(k) || IsComplex(k) }

  predicate IsString(k: Kind) { k == String || k == UntypedString }

  /** A kind whose values the compiler once split into high and low halves. */
  predicate Is64Bit(k: Kind) { k == Int64 || k == Uint64 }

  /** go/token operators of binary expressions. */
  datatype Token =
    | Add | Sub | Mul | Quo | Rem | And | Or | Xor | Shl | Shr | AndNot
    | LAnd | LOr | Eql | Lss | Gtr | Neq | Leq | Geq

  /** token.Token.String(): the operator as Go spells it. */
  function Spelling(t: Token): (s: string)
    ensures 1 <= |s| <= 2
  {
    match t
    case Add => "+"
    case Sub => "-"
    case Mul => "*"
    case Quo => "/"
    case Rem => "%"
    case And => "&"
    case Or => "|"
    case Xor => "^"
    case Shl => "<<"
    case Shr => ">>"
    case AndNot => "&^"
    case LAnd => "&&"
    case LOr => "||"
    case Eql => "=="
    case Lss => "<"
    case Gtr => ">"
    case Neq => "!="
    case Leq => "<="
    case Geq => ">="
  }
}
