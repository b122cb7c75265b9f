/** The two languages that the back-end of the code generator writes, as expressions with
    their meaning (config/scripts/code/back_end.py): the VHDL of its templates with the
    operations of numeric_std, and the C of its templates with C's integer promotions. */
module BackendTargets {
  import opened Bitwise
  import opened Powers

  datatype Option<+T> = None | Some(value: T)

  // ---------------------------------------------------------------- VHDL

  /** Vectors, unsigned or not, are their width and their value as an unsigned number. */
  datatype VValue = VBool(b: bool) | VInt(i: int) | VBit(bit: bool) | VVec(n: nat, x: int)

  /** Functions of one argument; conversions between std_logic_vector and unsigned change
      nothing and are left out. */
  datatype VFun =
    | Int2Bool | Bit2Bool | Vec2Bit | Bool2Int | Bool2Bit | Bit2Vec(n: nat)
    | ToInteger | ToUnsigned(n: nat) | Resize(n: nat) | VNot | Fill(n: nat) | TwoTo

  datatype VOp =
    | VAnd | VXor | VOr | VCat | VAdd | VSub | VMul | VDiv | VMod | VSll | VSrl
    | VLt | VLe | VGt | VGe | VEq | VNe

  datatype VExpr =
    | VRef(name: string)
    | VConst(value: VValue)
    | VCall(f: VFun, arg: VExpr)
    | VBin(vop: VOp, left: VExpr, right: VExpr)
    | VIndex(name: string, index: VExpr)
    | VSlice(name: string, size: nat, index: VExpr)

  /** A variable: its value in VHDL, its C type and its value in C. */
  datatype Slot = Slot(vhdl: VValue, ctype: CType, c: int)

  type Env = map<string, Slot>

  function Truth(b: bool): int {
    if b then 1 else 0
  }

  /** An integer result, or the error of leaving the 32-bit range. */
  function Integer(i: int): Option<VValue> {
    if -0x8000_0000 <= i <= 0x7FFF_FFFF then Some(VInt(i)) else None
  }

  function VHDLCall(f: VFun, a: VValue): Option<VValue> {
    match (f, a)
    case (Int2Bool, VInt(i)) => Some(VBool(i != 0))
    case (Bit2Bool, VBit(b)) => Some(VBool(b))
    case (Vec2Bit, VVec(_, x)) => Some(VBit(x != 0))
    case (Bool2Int, VBool(b)) => Some(VInt(Truth(b)))
    case (Bool2Bit, VBool(b)) => Some(VBit(b))
    case (Bit2Vec(n), VBit(b)) => Some(VVec(n, Truth(b)))
    case (ToInteger, VVec(_, x)) => Integer(x)
    case (ToUnsigned(n), VInt(i)) => if i >= 0 then Some(VVec(n, i % Pow2(n))) else None
    case (Resize(n), VVec(_, x)) => Some(VVec(n, x % Pow2(n)))
    case (VNot, VBool(b)) => Some(VBool(!b))
    case (VNot, VBit(b)) => Some(VBit(!b))
    case (VNot, VVec(n, x)) => Some(VVec(n, Pow2(n) - 1 - x))
    case (Fill(n), VBit(b)) => Some(VVec(n, if b then Pow2(n) - 1 else 0))
    case (TwoTo, VInt(i)) => if i >= 0 then Integer(Pow2(i)) else None
    case _ => None
  }

  function GateOf(op: VOp): Gate {
    if op == VAnd then And else if op == VOr then Or else Xor
  }

  function Compare(op: VOp, a: int, b: int): bool {
    match op
    case VLt => a < b
    case VLe => a <= b
    case VGt => a > b
    case VGe => a >= b
    case VEq => a == b
    case _ => a != b
  }

  /** Division of integers truncates and mod takes the sign of the divisor; on numbers that
      are not negative both are those of Dafny, and others are an error here. */
  function VHDLBin(op: VOp, a: VValue, b: VValue): Option<VValue> {
    match (a, b)
    case (VBool(x), VBool(y)) =>
      if op == VAnd then Some(VBool(x && y)) else if op == VOr then Some(VBool(x || y))
      else if op == VXor then Some(VBool(x != y)) else None
    case (VBit(x), VBit(y)) =>
      if op == VAnd then Some(VBit(x && y)) else if op == VOr then Some(VBit(x || y))
      else if op == VXor then Some(VBit(x != y)) else None
    case (VInt(x), VInt(y)) =>
      if op == VAdd then Integer(x + y) else if op == VSub then Integer(x - y)
      else if op == VMul then Integer(x * y)
      else if op == VDiv || op == VMod then
        if y == 0 || x < 0 || y < 0 then None else Integer(if op == VDiv then x / y else x % y)
      else if op.VLt? || op.VLe? || op.VGt? || op.VGe? || op.VEq? || op.VNe? then Some(VBool(Compare(op, x, y)))
      else None
    case (VVec(n, x), VVec(m, y)) =>
      if op == VCat then Some(VVec(n + m, x * Pow2(m) + y))
      else if n != m then None
      else if op == VAnd || op == VOr || op == VXor then Some(VVec(n, Op(GateOf(op), n, x, y)))
      else if op == VAdd then Some(VVec(n, (x + y) % Pow2(n)))
      else if op == VSub then Some(VVec(n, (x - y) % Pow2(n)))
      else if op.VLt? || op.VLe? || op.VGt? || op.VGe? || op.VEq? || op.VNe? then Some(VBool(Compare(op, x, y)))
      else None
    case (VVec(n, x), VInt(k)) =>
      if k < 0 then None
      else if op == VSll then Some(VVec(n, x * Pow2(k) % Pow2(n)))
      else if op == VSrl then Some(VVec(n, x / Pow2(k)))
      else None
    case _ => None
  }

  /** The value, or None where the simulator reports an error.  The boolean and and or do
      not evaluate an operand that cannot matter. */
  function VHDL(e: VExpr, env: Env): Option<VValue> {
    match e
    case VRef(name) => if name in env then Some(env[name].vhdl) else None
    case VConst(v) => Some(v)
    case VCall(f, arg) =>
      var a := VHDL(arg, env);
      if a.Some? then VHDLCall(f, a.value) else None
    case VBin(op, left, right) =>
      var a := VHDL(left, env);
      if a.None? then None
      else if op == VAnd && a.value == VBool(false) then Some(VBool(false))
      else if op == VOr && a.value == VBool(true) then Some(VBool(true))
      else
        var b := VHDL(right, env);
        if b.Some? then VHDLBin(op, a.value, b.value) else None
    case VIndex(name, index) =>
      var k := VHDL(index, env);
      if name in env && k.Some? && k.value.VInt? && env[name].vhdl.VVec? && 0 <= k.value.i < env[name].vhdl.n
      then Some(VBit(env[name].vhdl.x / Pow2(k.value.i) % 2 == 1)) else None
    case VSlice(name, size, index) =>
      var k := VHDL(index, env);
      if name in env && k.Some? && k.value.VInt? && env[name].vhdl.VVec?
         && 0 <= k.value.i && k.value.i + size <= env[name].vhdl.n
      then Some(VVec(size, env[name].vhdl.x / Pow2(k.value.i) % Pow2(size))) else None
  }

  // ---------------------------------------------------------------- C

  /** The types that C computes in: the storage types of up to 16 bits promote to int. */
  datatype CType = Int32 | UInt32 | UInt64

  function Width(t: CType): nat {
    if t == UInt64 then 64 else 32
  }

  datatype CValue = CValue(ty: CType, v: int)

  predicate InRange(t: CType, v: int) {
    match t
    case Int32 => -0x8000_0000 <= v <= 0x7FFF_FFFF
    case UInt32 => 0 <= v < 0x1_0000_0000
    case UInt64 => 0 <= v < 0x1_0000_0000_0000_0000
  }

  /** Conversion to the common type of an operation. */
  function Convert(t: CType, v: int): int {
    match t
    case Int32 => v
    case UInt32 => v % 0x1_0000_0000
    case UInt64 => v % 0x1_0000_0000_0000_0000
  }

  function Common(a: CType, b: CType): CType {
    if a == UInt64 || b == UInt64 then UInt64 else if a == UInt32 || b == UInt32 then UInt32 else Int32
  }

  /** The result of arithmetic: unsigned types wrap around, overflow of int is undefined. */
  function Result(t: CType, v: int): Option<CValue> {
    if t == Int32 && !InRange(Int32, v) then None else Some(CValue(t, Convert(t, v)))
  }

  /** Bitwise operations of int act on its two's complement. */
  function Signed(t: CType, bits: nat): int {
    if t == Int32 && bits >= 0x8000_0000 then bits - 0x1_0000_0000 else bits
  }

  datatype COp =
    | CAnd | CXor | COr | CAdd | CSub | CMul | CDiv | CMod | CShl | CShr
    | CLt | CLe | CGt | CGe | CEq | CNe | CLand | CLor

  datatype CExpr =
    | CRef(name: string)
    | CLit(value: int)
    | CCompl(arg: CExpr)
    | CLnot(arg: CExpr)
    | CBin(cop: COp, left: CExpr, right: CExpr)
    | CCond(cond: CExpr, yes: CExpr, no: CExpr)

  function CCompare(op: COp, a: int, b: int): bool {
    match op
    case CLt => a < b
    case CLe => a <= b
    case CGt => a > b
    case CGe => a >= b
    case CEq => a == b
    case _ => a != b
  }

  /** A shift keeps the type of its left operand; a count of its width or more, and a shift
      of int out of its range, are undefined. */
  function CShift(op: COp, a: CValue, k: int): Option<CValue> {
    if k < 0 || k >= Width(a.ty) then None
    else if op == CShr then Some(CValue(a.ty, a.v / Pow2(k)))
    else if a.ty == Int32 && a.v < 0 then None
    else Result(a.ty, a.v * Pow2(k))
  }

  function CBinary(op: COp, a: CValue, b: CValue): Option<CValue> {
    var t := Common(a.ty, b.ty);
    var x, y := Convert(t, a.v), Convert(t, b.v);
    match op
    case CAnd => Some(CValue(t, Signed(t, Op(And, Width(t), x, y))))
    case COr => Some(CValue(t, Signed(t, Op(Or, Width(t), x, y))))
    case CXor => Some(CValue(t, Signed(t, Op(Xor, Width(t), x, y))))
    case CAdd => Result(t, x + y)
    case CSub => Result(t, x - y)
    case CMul => Result(t, x * y)
    case CDiv => if y == 0 || x < 0 || y < 0 then None else Result(t, x / y)
    case CMod => if y == 0 || x < 0 || y < 0 then None else Result(t, x % y)
    case CShl => CShift(CShl, a, b.v)
    case CShr => CShift(CShr, a, b.v)
    case CLand => Some(CValue(Int32, Truth(a.v != 0 && b.v != 0)))
    case CLor => Some(CValue(Int32, Truth(a.v != 0 || b.v != 0)))
    case _ => Some(CValue(Int32, Truth(CCompare(op, x, y))))
  }

  /** The value, or None where C leaves it undefined. */
  function C(e: CExpr, env: Env): Option<CValue> {
    match e
    case CRef(name) => if name in env then Some(CValue(env[name].ctype, env[name].c)) else None
    case CLit(v) => Some(CValue(UInt64, v))
    case CCompl(arg) =>
      var a := C(arg, env);
      if a.None? then None
      else Some(CValue(a.value.ty, if a.value.ty == Int32 then -a.value.v - 1
                                   else Pow2(Width(a.value.ty)) - 1 - a.value.v))
    case CLnot(arg) =>
      var a := C(arg, env);
      if a.None? then None else Some(CValue(Int32, Truth(a.value.v == 0)))
    case CBin(op, left, right) =>
      var a := C(left, env);
      if a.None? then None
      else if op == CLand && a.value.v == 0 then Some(CValue(Int32, 0))
      else if op == CLor && a.value.v != 0 then Some(CValue(Int32, 1))
      else
        var b := C(right, env);
        if b.None? then None else CBinary(op, a.value, b.value)
    case CCond(cond, yes, no) =>
      var a := C(cond, env);
      if a.None? then None else if a.value.v != 0 then C(yes, env) else C(no, env)
  }
}
