/** The syntax trees of src/parser/syn.rs that expressions and target lists use. */
module Syn {
  import opened Wrappers
  import opened ByteOrder
  import Decimals

  datatype StrVal = InPlace(text: string) | Dyn(text: string)

  /** `Float` keeps the literal's text, without a sign. */
  datatype NumVal = Int(v: i32) | Float(neg: bool, text: string) {
    /** Negating the smallest i32 would overflow and wrap. */
    function Neg(): NumVal {
      match this
      case Int(v) => Int(if v == Decimals.I32_MIN then v else -v)
      case Float(neg, text) => Float(!neg, text)
    }

    function Display(): string {
      match this
      case Int(v) => Decimals.OfInt(v)
      case Float(neg, text) => if neg then "-" + text else text
    }
  }

  datatype Value = Num(num: NumVal) | Str(str: StrVal)

  datatype Location = Location(s: nat, e: nat)

  datatype AExprKind = Op

  datatype Oprands = One(e: Expr) | Two(l: Expr, r: Expr)

  datatype Expr =
    | AConst(val: Value, loc: Location)
    | AExpr(kind: AExprKind, name: seq<StrVal>, oprands: Oprands, loc: Location)

  datatype ResTarget = ResTarget(name: Option<StrVal>, val: Expr, loc: Location)
}
