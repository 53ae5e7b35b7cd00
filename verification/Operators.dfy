/** Expressions of the HIR (names, binary, prefix, postfix and ternary nodes)
    and the printer's operator tables, `crates/backends/leek-backend-leekscript/src/prec.rs`. */
module Operators {
  datatype BinaryOp =
    | Add | Sub | Mul | Div | Mod | IntDiv | Pow
    | Eq | Ne | IdentityEq | IdentityNe | Lt | Le | Gt | Ge
    | And | Or | Xor | BitAnd | BitOr | BitXor | ShiftL | ShiftR | UShiftR
    | NullCoalesce | In | NotIn | Is | Instanceof
    | Assign | AddAssign | SubAssign | MulAssign | DivAssign | IntDivAssign | ModAssign | PowAssign
    | BitAndAssign | BitOrAssign | BitXorAssign | ShiftLAssign | ShiftRAssign | UShiftRAssign
    | NullCoalesceAssign

  datatype UnaryOp = Neg | Pos | Not | BitNot | PreInc | PreDec | Ref

  datatype PostfixOp = PostInc | PostDec | NonNull

  datatype Expr =
    | Name(id: string)
    | Binary(op: BinaryOp, left: Expr, right: Expr)
    | Unary(uop: UnaryOp, operand: Expr)
    | Postfix(pop: PostfixOp, base: Expr)
    | Ternary(cond: Expr, then_: Expr, else_: Expr)

  datatype Assoc = Left | Right

  const PREC_ASSIGN := 1
  const PREC_TERNARY := 2
  const PREC_PREFIX := 14
  const PREC_POSTFIX := 15
  const PREC_ATOM := 100

  /** Precedence of a binary operator; higher binds tighter. */
  function Prec(op: BinaryOp): nat {
    match op
    case Or | NullCoalesce => 3
    case And | Xor => 4
    case BitOr => 5
    case BitXor => 6
    case BitAnd => 7
    case Eq | Ne | IdentityEq | IdentityNe | Is => 8
    case Lt | Le | Gt | Ge | In | NotIn | Instanceof => 9
    case ShiftL | ShiftR | UShiftR => 10
    case Add | Sub => 11
    case Mul | Div | Mod | IntDiv => 12
    case Pow => 13
    case _ => PREC_ASSIGN
  }

  function AssocOf(op: BinaryOp): Assoc {
    match op
    case Add | Sub | Mul | Div | Mod | IntDiv | Eq | Ne | IdentityEq | IdentityNe | Lt | Le | Gt | Ge
      | And | Or | Xor | BitAnd | BitOr | BitXor | ShiftL | ShiftR | UShiftR
      | NullCoalesce | In | NotIn | Is | Instanceof => Left
    case _ => Right
  }

  /** Threshold for the left operand. */
  function LeftMin(op: BinaryOp): nat {
    if AssocOf(op) == Left then Prec(op) else Prec(op) + 1
  }

  /** Threshold for the right operand. */
  function RightMin(op: BinaryOp): nat {
    if AssocOf(op) == Left then Prec(op) + 1 else Prec(op)
  }

  function ExprPrec(e: Expr): nat {
    match e
    case Name(_) => PREC_ATOM
    case Binary(op, _, _) => Prec(op)
    case Unary(_, _) => PREC_PREFIX
    case Postfix(_, _) => PREC_POSTFIX
    case Ternary(_, _, _) => PREC_TERNARY
  }

  /** Source spelling of a binary operator. */
  function BinaryStr(op: BinaryOp): string {
    match op
    case Add => "+"
    case Sub => "-"
    case Mul => "*"
    case Div => "/"
    case Mod => "%"
    case IntDiv => "\\"
    case Pow => "**"
    case Eq => "=="
    case Ne => "!="
    case IdentityEq => "==="
    case IdentityNe => "!=="
    case Lt => "<"
    case Le => "<="
    case Gt => ">"
    case Ge => ">="
    case And => "&&"
    case Or => "||"
    case Xor => "xor"
    case BitAnd => "&"
    case BitOr => "|"
    case BitXor => "^"
    case ShiftL => "<<"
    case ShiftR => ">>"
    case UShiftR => ">>>"
    case NullCoalesce => "??"
    case In => "in"
    case NotIn => "not in"
    case Is => "is"
    case Instanceof => "instanceof"
    case Assign => "="
    case AddAssign => "+="
    case SubAssign => "-="
    case MulAssign => "*="
    case DivAssign => "/="
    case IntDivAssign => "\\="
    case ModAssign => "%="
    case PowAssign => "**="
    case BitAndAssign => "&="
    case BitOrAssign => "|="
    case BitXorAssign => "^="
    case ShiftLAssign => "<<="
    case ShiftRAssign => ">>="
    case UShiftRAssign => ">>>="
    case NullCoalesceAssign => "??="
  }

  function UnaryStr(op: UnaryOp): string {
    match op
    case Neg => "-"
    case Pos => "+"
    case Not => "!"
    case BitNot => "~"
    case PreInc => "++"
    case PreDec => "--"
    case Ref => "@"
  }

  function PostfixStr(op: PostfixOp): string {
    match op
    case PostInc => "++"
    case PostDec => "--"
    case NonNull => "!"
  }
}
