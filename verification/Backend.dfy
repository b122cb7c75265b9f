/** The expression generator of the code generator (config/scripts/code/back_end.py): from one
    typed expression it writes VHDL and C, and where the two agree. */
module Backend {
  import opened Bitwise
  import opened Powers
  import Division
  import opened BackendTargets

  /** The primitive types; sizes of vectors are 1 to 64. */
  datatype Ty = Boolean | Natural | Bit | Vec(isUnsigned: bool, n: nat)

  /** Generated code: the two texts and the type. */
  datatype Code = Code(v: VExpr, c: CExpr, ty: Ty)

  const NATURAL_MASK: int := 0x7FFF_FFFF

  function Masked(c: CExpr, n: nat): CExpr {
    CBin(CAnd, c, CLit(Pow2(n) - 1))
  }

  function NonZero(c: CExpr): CExpr {
    CLnot(CLnot(c))
  }

  // ---------------------------------------------------------------- generate_typecast

  function Cast(a: Code, to: Ty, explicit: bool): Option<Code> {
    if a.ty == to then Some(a) else
    match (to, a.ty)
    case (Boolean, Natural) => Some(Code(VCall(Int2Bool, a.v), NonZero(a.c), Boolean))
    case (Boolean, Bit) => Some(Code(VCall(Bit2Bool, a.v), Masked(a.c, 1), Boolean))
    case (Boolean, Vec(_, n)) => Some(Code(VCall(Bit2Bool, VCall(Vec2Bit, a.v)), NonZero(Masked(a.c, n)), Boolean))
    case (Natural, Boolean) => Some(Code(VCall(Bool2Int, a.v), a.c, Natural))
    case (Natural, Bit) => Some(Code(VCall(Bool2Int, VCall(Bit2Bool, a.v)), Masked(a.c, 1), Natural))
    case (Natural, Vec(_, n)) =>
      if n <= 31 then Some(Code(VCall(ToInteger, a.v), Masked(a.c, n), Natural))
      else if explicit then Some(Code(VCall(ToInteger, VCall(Resize(31), a.v)), Masked(a.c, 31), Natural))
      else None
    case (Bit, Boolean) => Some(Code(VCall(Bool2Bit, a.v), a.c, Bit))
    case (Bit, Natural) => Some(Code(VCall(Bool2Bit, VCall(Int2Bool, a.v)), NonZero(a.c), Bit))
    case (Bit, Vec(_, n)) =>
      if n > 1 && !explicit then None else Some(Code(VCall(Vec2Bit, a.v), NonZero(Masked(a.c, n)), Bit))
    case (Vec(_, m), Boolean) => Some(Code(VCall(Bit2Vec(m), VCall(Bool2Bit, a.v)), Masked(a.c, 1), to))
    case (Vec(_, m), Natural) => Some(Code(VCall(ToUnsigned(m), a.v), a.c, to))
    case (Vec(_, m), Bit) => Some(Code(VCall(Bit2Vec(m), a.v), Masked(a.c, 1), to))
    case (Vec(_, m), Vec(_, n)) =>
      if m == n then Some(Code(a.v, a.c, to)) else Some(Code(VCall(Resize(m), a.v), Masked(a.c, n), to))
    case _ => None
  }

  // ---------------------------------------------------------------- agreement

  /** How a value of a type is stored in C: exactly for booleans and naturals, in the low
      bits, with anything above them, for bits and vectors. */
  predicate Repr(ty: Ty, x: VValue, c: CValue) {
    && InRange(c.ty, c.v)
    && match ty
       case Boolean => x.VBool? && c.v == Truth(x.b)
       case Natural => x.VInt? && 0 <= x.i <= NATURAL_MASK && c.v == x.i
       case Bit => x.VBit? && c.v % 2 == Truth(x.bit)
       case Vec(_, n) => 1 <= n <= 64 && x.VVec? && x.n == n && 0 <= x.x < Pow2(n) && c.v % Pow2(n) == x.x
  }

  /** Whenever the VHDL has a value, the C has one, and it stands for the same. */
  predicate Agrees(a: Code, env: Env) {
    VHDL(a.v, env).Some? ==>
      C(a.c, env).Some? && Repr(a.ty, VHDL(a.v, env).value, C(a.c, env).value)
  }

  lemma PowersOfTwo()
    ensures Pow2(0) == 1 && Pow2(1) == 2 && Pow2(8) == 0x100 && Pow2(31) == 0x8000_0000 && Pow2(32) == 0x1_0000_0000
    ensures Pow2(64) == 0x1_0000_0000_0000_0000
  {
    assert Pow2(0) == 1 && Pow2(1) == 2 && Pow2(8) == 0x100;
    assert Pow2(32) == 2 * Pow2(31);
    hide Pow2;
    Pow2Add(8, 8);
    Pow2Add(16, 16);
    Pow2Add(32, 32);
  }

  /** Cutting to more bits first makes no difference. */
  lemma CutTwice(v: int, w: nat, n: nat)
    requires n <= w
    ensures v % Pow2(w) % Pow2(n) == v % Pow2(n)
  {
    hide Pow2;
    Pow2Add(w - n, n);
    Division.ModMod(v, Pow2(w - n), Pow2(n));
  }

  lemma And64(v: int, n: nat)
    requires 1 <= n <= 64
    ensures 0 <= Pow2(n) - 1 < 0x1_0000_0000_0000_0000
    ensures Op(And, 64, v % 0x1_0000_0000_0000_0000, Pow2(n) - 1) == v % Pow2(n) < 0x1_0000_0000_0000_0000
  {
    hide Pow2, Op;
    PowersOfTwo();
    Pow2Mono(n, 64);
    AndMask(64, v % Pow2(64), n);
    CutTwice(v, 64, n);
  }

  /** An operation that evaluates both operands. */
  lemma BinValue(op: COp, l: CExpr, r: CExpr, env: Env)
    requires C(l, env).Some? && C(r, env).Some? && op != CLand && op != CLor
    ensures C(CBin(op, l, r), env) == CBinary(op, C(l, env).value, C(r, env).value)
  {
  }

  lemma LitValue(k: int, env: Env)
    ensures C(CLit(k), env) == Some(CValue(UInt64, k))
  {
  }

  /** A mask keeps the low bits of any value, also of a negative int. */
  lemma MaskValue(c: CExpr, n: nat, env: Env)
    requires 1 <= n <= 64 && C(c, env).Some?
    ensures C(Masked(c, n), env) == Some(CValue(UInt64, C(c, env).value.v % Pow2(n)))
    ensures 0 <= C(c, env).value.v % Pow2(n) < 0x1_0000_0000_0000_0000
  {
    hide Pow2, Op, C;
    And64(C(c, env).value.v, n);
    LitValue(Pow2(n) - 1, env);
    BinValue(CAnd, c, CLit(Pow2(n) - 1), env);
    Division.Small(Pow2(n) - 1, 0x1_0000_0000_0000_0000);
  }

  lemma NonZeroValue(c: CExpr, env: Env)
    requires C(c, env).Some?
    ensures C(NonZero(c), env) == Some(CValue(Int32, Truth(C(c, env).value.v != 0)))
  {
  }

  /** A function of a function. */
  lemma CallTwice(f: VFun, g: VFun, e: VExpr, env: Env)
    ensures VHDL(VCall(f, VCall(g, e)), env) ==
      var x := VHDL(e, env);
      if x.None? then None
      else var y := VHDLCall(g, x.value); if y.None? then None else VHDLCall(f, y.value)
  {
    assert VHDL(VCall(g, e), env) == var x := VHDL(e, env); if x.None? then None else VHDLCall(g, x.value);
  }

  lemma CastToBoolean(a: Code, env: Env)
    requires Agrees(a, env) && Cast(a, Boolean, true).Some?
    ensures Agrees(Cast(a, Boolean, true).value, env)
  {
    hide Pow2;
    PowersOfTwo();
    CallTwice(Bit2Bool, Vec2Bit, a.v, env);
    if VHDL(a.v, env).Some? {
      match a.ty
      case Boolean =>
      case Natural => NonZeroValue(a.c, env);
      case Bit => MaskValue(a.c, 1, env);
      case Vec(_, n) =>
        MaskValue(a.c, n, env);
        NonZeroValue(Masked(a.c, n), env);
        hide C, Masked;
    }
  }

  lemma CastToNatural(a: Code, env: Env)
    requires Agrees(a, env) && Cast(a, Natural, true).Some?
    ensures Agrees(Cast(a, Natural, true).value, env)
  {
    hide Pow2, Op, Masked, C;
    PowersOfTwo();
    CallTwice(Bool2Int, Bit2Bool, a.v, env);
    CallTwice(ToInteger, Resize(31), a.v, env);
    if VHDL(a.v, env).Some? {
      if a.ty == Bit { MaskValue(a.c, 1, env); } else if a.ty.Vec? { VecToNatural(a, env); }
    }
  }

  lemma VecToNatural(a: Code, env: Env)
    requires Agrees(a, env) && a.ty.Vec? && VHDL(a.v, env).Some?
    ensures Agrees(Cast(a, Natural, true).value, env)
  {
    hide Pow2, Op, Masked, C, VHDL;
    PowersOfTwo();
    var n := a.ty.n;
    MaskValue(a.c, n, env);
    if n <= 31 {
      CallValue(ToInteger, a.v, env);
      Pow2Mono(n, 31);
    } else {
      CallTwice(ToInteger, Resize(31), a.v, env);
      MaskValue(a.c, 31, env);
      CutTwice(C(a.c, env).value.v, n, 31);
    }
  }


  lemma CastToBit(a: Code, env: Env)
    requires Agrees(a, env) && Cast(a, Bit, true).Some?
    ensures Agrees(Cast(a, Bit, true).value, env)
  {
    hide Pow2, Op;
    PowersOfTwo();
    CallTwice(Bool2Bit, Int2Bool, a.v, env);
    if VHDL(a.v, env).Some? {
      match a.ty
      case Boolean =>
      case Natural => NonZeroValue(a.c, env);
      case Bit =>
      case Vec(_, n) =>
        MaskValue(a.c, n, env);
        NonZeroValue(Masked(a.c, n), env);
    }
  }

  /** A number below the power of two, cut. */
  lemma CutSmall(v: int, n: nat)
    requires 0 <= v < Pow2(n)
    ensures v % Pow2(n) == v
  {
    Division.Small(v, Pow2(n));
  }

  lemma ResizedVec(a: Code, uns: bool, m: nat, n: nat, env: Env)
    requires Agrees(a, env) && a.ty.Vec? && a.ty.n == n != m && 1 <= m <= 64
    ensures Agrees(Code(VCall(Resize(m), a.v), Masked(a.c, n), Vec(uns, m)), env)
  {
    hide Pow2, Op, C, Masked;
    if VHDL(a.v, env).Some? {
      var v := C(a.c, env).value.v;
      MaskValue(a.c, n, env);
      if m > n {
        Pow2Mono(n, m);
        CutSmall(v % Pow2(n), m);
      } else {
        CutTwice(v, n, m);
      }
    }
  }

  lemma CastToVec(a: Code, uns: bool, m: nat, env: Env)
    requires Agrees(a, env) && Cast(a, Vec(uns, m), true).Some? && 1 <= m <= 64
    ensures Agrees(Cast(a, Vec(uns, m), true).value, env)
  {
    hide Pow2, Op, Masked;
    PowersOfTwo();
    Pow2Mono(1, m);
    CallTwice(Bit2Vec(m), Bool2Bit, a.v, env);
    if a.ty.Vec? {
      if a.ty.n != m { ResizedVec(a, uns, m, a.ty.n, env); }
    } else if VHDL(a.v, env).Some? {
      MaskValue(a.c, 1, env);
      if !a.ty.Natural? { CutSmall(C(a.c, env).value.v % 2, m); }
    }
  }

  lemma ExplicitCast(a: Code, to: Ty, explicit: bool)
    requires Cast(a, to, explicit).Some?
    ensures Cast(a, to, true) == Cast(a, to, explicit) && Cast(a, to, true).value.ty == to
  {
  }

  /** Every cast keeps the two codes in agreement. */
  lemma CastAgrees(a: Code, to: Ty, explicit: bool, env: Env)
    requires Agrees(a, env) && Cast(a, to, explicit).Some? && (to.Vec? ==> 1 <= to.n <= 64)
    ensures Agrees(Cast(a, to, explicit).value, env) && Cast(a, to, explicit).value.ty == to
  {
    hide Agrees, Cast;
    ExplicitCast(a, to, explicit);
    match to
    case Boolean => CastToBoolean(a, env);
    case Natural => CastToNatural(a, env);
    case Bit => CastToBit(a, env);
    case Vec(uns, m) => CastToVec(a, uns, m, env);
  }

  // ---------------------------------------------------------------- generate_expr

  datatype UnOp = LNot | Compl

  datatype BinOp =
    | LAnd | LXor | LOr | BAnd | BXor | BOr | Cat | Plus | Minus | Times | Over | Rem
    | ShiftLeft | ShiftRight | Less | LessEq | Greater | GreaterEq | Equal | NotEqual

  function VOpOf(op: BinOp): VOp {
    match op
    case LAnd => VAnd case LXor => VXor case LOr => VOr
    case BAnd => VAnd case BXor => VXor case BOr => VOr
    case Cat => VCat case Plus => VAdd case Minus => VSub case Times => VMul case Over => VDiv case Rem => VMod
    case ShiftLeft => VSll case ShiftRight => VSrl
    case Less => VLt case LessEq => VLe case Greater => VGt case GreaterEq => VGe case Equal => VEq case NotEqual => VNe
  }

  function COpOf(op: BinOp): COp {
    match op
    case LAnd => CLand case LXor => CNe case LOr => CLor
    case BAnd => CAnd case BXor => CXor case BOr => COr
    case Cat => COr case Plus => CAdd case Minus => CSub case Times => CMul case Over => CDiv case Rem => CMod
    case ShiftLeft => CShl case ShiftRight => CShr
    case Less => CLt case LessEq => CLe case Greater => CGt case GreaterEq => CGe case Equal => CEq case NotEqual => CNe
  }

  predicate Logical(op: BinOp) { op == LAnd || op == LXor || op == LOr }

  predicate Gating(op: BinOp) { op == BAnd || op == BXor || op == BOr }

  predicate Relational(op: BinOp) {
    op == Less || op == LessEq || op == Greater || op == GreaterEq || op == Equal || op == NotEqual
  }

  /** Types that the C-like operators take. */
  predicate Numeric(ty: Ty) { ty == Natural || ty == Boolean }

  /** The width that a type takes part in an addition or comparison with. */
  function SizeOf(ty: Ty): nat {
    match ty
    case Vec(_, n) => n
    case Natural => 31
    case _ => 1
  }

  function Max(a: nat, b: nat): nat {
    if a > b then a else b
  }

  function Min(a: nat, b: nat): nat {
    if a < b then a else b
  }

  /** Casts both operands to one type. */
  function Both(a: Code, b: Code, ty: Ty): Option<(Code, Code)> {
    var x, y := Cast(a, ty, false), Cast(b, ty, false);
    if x.None? || y.None? then None else Some((x.value, y.value))
  }

  /** One bit applied to all bits of a vector of n. */
  function Filled(a: Code, ty: Ty): Code
    requires ty.Vec?
  {
    Code(VCall(Fill(ty.n), a.v), CCond(Masked(a.c, 1), CLit(0xFFFF_FFFF_FFFF_FFFF), CLit(0)), ty)
  }

  /** The bit that gates a vector, filled up. */
  function Gated(x: Code, y: Code): Option<(Code, Code)> {
    if x.ty.Vec? && (y.ty == Boolean || y.ty == Bit || (y.ty.Vec? && y.ty.n == 1)) then
      var z := Cast(y, Bit, false);
      if z.None? then None else Some((x, Filled(z.value, x.ty)))
    else None
  }

  /** The typing and coercion of the two operands; None where the generator reports that the
      operator is not defined. */
  function Coerced(op: BinOp, a: Code, b: Code): Option<(Code, Code)> {
    if Logical(op) then Both(a, b, Boolean)
    else if Gating(op) then
      if Numeric(a.ty) && Numeric(b.ty) then Both(a, b, Natural)
      else if a.ty == Bit && b.ty == Bit then Some((a, b))
      else if a.ty.Vec? && b.ty.Vec? && a.ty.n == b.ty.n then Both(a, b, a.ty)
      else if b.ty.Vec? then Gated(b, a)
      else Gated(a, b)
    else if op == Cat then
      if Numeric(a.ty) || Numeric(b.ty) then None
      else
        var uns := a.ty.Vec? && a.ty.isUnsigned;
        var x, y := Cast(a, Vec(uns, SizeOf(a.ty)), false), Cast(b, Vec(uns, SizeOf(b.ty)), false);
        if x.None? || y.None? then None else Some((x.value, y.value))
    else if op == Plus || op == Minus then
      if Numeric(a.ty) && Numeric(b.ty) then Both(a, b, Natural)
      else Both(a, b, Vec(true, Min(64, Max(SizeOf(a.ty), SizeOf(b.ty)) + 1)))
    else if op == Times || op == Over || op == Rem then
      if Numeric(a.ty) && Numeric(b.ty) then Both(a, b, Natural) else None
    else if op == ShiftLeft || op == ShiftRight then
      if a.ty == Bit || !Numeric(b.ty) then None
      else
        var x, y := Cast(a, if a.ty.Vec? then Vec(true, a.ty.n) else Natural, false), Cast(b, Natural, false);
        if x.None? || y.None? then None else Some((x.value, y.value))
    else if a.ty == Natural && b.ty == Natural then Some((a, b))
    else Both(a, b, Vec(true, Max(SizeOf(a.ty), SizeOf(b.ty))))
  }

  /** Of two vectors of different widths, only a first one of one bit is a gate, for all
      bits of the second; a second one of one bit is not. */
  lemma GateWidths(op: BinOp, a: Code, b: Code)
    requires Gating(op) && a.ty.Vec? && b.ty.Vec? && a.ty.n != b.ty.n
    ensures Coerced(op, a, b).Some? <==> a.ty.n == 1
    ensures Coerced(op, a, b).Some? ==> var (x, y) := Coerced(op, a, b).value; x == b && y.ty == b.ty
  {
    assert a.ty.n == 1 ==> Cast(a, Bit, false).Some?;
  }

  /** The code for operands that have been coerced. */
  function Emit(op: BinOp, a: Code, b: Code): Code {
    var v, c := VBin(VOpOf(op), a.v, b.v), CBin(COpOf(op), a.c, b.c);
    if Logical(op) || Relational(op) then Code(v, c, Boolean)
    else if Gating(op) && a.ty == Natural then
      Code(VCall(ToInteger, VBin(VOpOf(op), VCall(ToUnsigned(31), a.v), VCall(ToUnsigned(31), b.v))), c, Natural)
    else if Gating(op) then Code(v, c, a.ty)
    else if op == Cat && a.ty.Vec? && b.ty.Vec? then
      Code(v, CBin(COr, CBin(CShl, a.c, CLit(b.ty.n)), Masked(b.c, b.ty.n)), Vec(a.ty.isUnsigned, a.ty.n + b.ty.n))
    else if a.ty.Vec? then
      if op == ShiftRight then Code(v, CBin(CShr, Masked(a.c, a.ty.n), b.c), a.ty) else Code(v, c, a.ty)
    else if op == ShiftLeft then Code(VBin(VMul, a.v, VCall(TwoTo, b.v)), Masked(c, 31), Natural)
    else if op == ShiftRight then Code(VBin(VDiv, a.v, VCall(TwoTo, b.v)), Masked(c, 31), Natural)
    else Code(v, Masked(c, 31), Natural)
  }

  function Binary(op: BinOp, a: Code, b: Code): Option<Code> {
    var r := Coerced(op, a, b);
    if r.None? then None else Some(Emit(op, r.value.0, r.value.1))
  }

  function Unary(op: UnOp, a: Code): Option<Code> {
    if op == LNot then
      var x := Cast(a, Boolean, false);
      if x.None? then None else Some(Code(VCall(VNot, x.value.v), CLnot(x.value.c), Boolean))
    else if Numeric(a.ty) then
      var x := Cast(a, Natural, false);
      if x.None? then None
      else Some(Code(VBin(VSub, VConst(VInt(NATURAL_MASK)), x.value.v), CBin(CSub, CLit(NATURAL_MASK), x.value.c),
        Natural))
    else Some(Code(VCall(VNot, a.v), CCompl(a.c), a.ty))
  }

  // ---------------------------------------------------------------- where C keeps up

  /** A shift left by k in C gives the product on n bits: the count is below the width of the
      type, an int stays in range, and no bit of the n is lost at the end of the type. */
  predicate ShiftFits(a: CValue, k: int, n: nat) {
    && 0 <= k < Width(a.ty)
    && (if a.ty == Int32 then 0 <= a.v && InRange(Int32, a.v * Pow2(k)) else ReachesTo(a.ty, n, a.v * Pow2(k)))
  }

  /** The n low bits of a number have nothing above the width of an unsigned type. */
  predicate ReachesTo(t: CType, n: nat, v: int) {
    n <= Width(t) || v % Pow2(n) < Pow2(Width(t))
  }

  /** A sum or difference r is right on n bits. */
  predicate SumFits(t: CType, n: nat, r: int) {
    if t == Int32 then InRange(Int32, r) else ReachesTo(t, n, r)
  }

  /** A bitwise operation in C is right on n bits: its type has them, or is int, which stands
      for all higher bits, or none of the operands has lost a sign that matters. */
  predicate GateFits(op: BinOp, t: CType, n: nat, x: int, y: int) {
    n <= 32 || t != UInt32 || op == BAnd || (0 <= x && 0 <= y)
  }

  /** The high parts h and k of two numbers do not change how the low parts compare: they are
      the same, or compare as the low parts do. */
  predicate SettledBelow(op: VOp, h: int, k: int, low: int, low': int) {
    h == k || Compare(op, h, k) == Compare(op, low, low')
  }

  /** A comparison in C of two vectors of n bits is right: what C has above the vectors does
      not change it, nor does a sign that 32 unsigned bits have lost below their top. */
  predicate RelationFits(op: VOp, t: CType, n: nat, x: int, y: int) {
    var u, v, m := Convert(t, x), Convert(t, y), Pow2(n);
    if t == UInt32 && n > 32 then SettledBelow(op, Truth(x < 0), Truth(y < 0), u, v)
    else SettledBelow(op, u / m, v / m, u % m, v % m)
  }

  /** What the C of a coerced operation needs to agree with the VHDL. */
  predicate KeepsUp(op: BinOp, a: Code, b: Code, env: Env)
    requires C(a.c, env).Some? && C(b.c, env).Some?
  {
    var x, y := C(a.c, env).value, C(b.c, env).value;
    var t := Common(x.ty, y.ty);
    if Gating(op) then a.ty.Vec? ==> GateFits(op, t, a.ty.n, x.v, y.v)
    else if op == Cat then a.ty.Vec? && b.ty.Vec? ==> a.ty.n + b.ty.n <= 64 && ShiftFits(x, b.ty.n, a.ty.n + b.ty.n)
    else if op == Plus then a.ty.Vec? ==> SumFits(t, a.ty.n, x.v + y.v)
    else if op == Minus then if a.ty.Vec? then SumFits(t, a.ty.n, x.v - y.v) else y.v <= x.v
    else if op == ShiftLeft then a.ty.Vec? ==> ShiftFits(x, y.v, a.ty.n)
    else if op == ShiftRight then a.ty.Vec? ==> y.v < 64
    else if Relational(op) then a.ty.Vec? && b.ty.Vec? ==> RelationFits(VOpOf(op), t, a.ty.n, x.v, y.v)
    else true
  }

  // ---------------------------------------------------------------- the operators agree

  /** Conversion to the common type keeps the low bits. */
  lemma ConvertLow(t: CType, v: int, n: nat)
    requires n <= Width(t)
    ensures Convert(t, v) % Pow2(n) == v % Pow2(n)
  {
    hide Pow2;
    PowersOfTwo();
    CutTwice(v, Width(t), n);
  }

  lemma SignedLow(bits: nat, n: nat)
    requires n <= 32
    ensures Signed(Int32, bits) % Pow2(n) == bits % Pow2(n)
  {
    hide Pow2;
    PowersOfTwo();
    Pow2Add(32 - n, n);
    var k: int := 0 - Pow2(32 - n);
    assert k * Pow2(n) == -0x1_0000_0000;
    Division.DivAdd(k, Pow2(n), bits);
  }

  function GateFor(op: BinOp): Gate {
    if op == BAnd then And else if op == BOr then Or else Xor
  }

  /** A bitwise operation in C, as far as n bits of its type go. */
  lemma GateLow(op: BinOp, x: CValue, y: CValue, n: nat)
    requires Gating(op) && n <= Width(Common(x.ty, y.ty)) && InRange(x.ty, x.v) && InRange(y.ty, y.v)
    ensures var r := CBinary(COpOf(op), x, y);
      r.Some? && InRange(r.value.ty, r.value.v)
        && r.value.v % Pow2(n) == Op(GateFor(op), n, x.v % Pow2(n), y.v % Pow2(n))
  {
    hide Pow2, Op;
    PowersOfTwo();
    var t := Common(x.ty, y.ty);
    var cx, cy := Convert(t, x.v), Convert(t, y.v);
    OpCut(GateFor(op), Width(t), n, cx, cy);
    OpLow(GateFor(op), n, cx, cy);
    ConvertLow(t, x.v, n);
    ConvertLow(t, y.v, n);
    if t == Int32 { SignedLow(Op(GateFor(op), 32, cx, cy), n); }
  }

  /** The sign of an int stands for all bits from the 32nd on. */
  lemma GateInt(op: BinOp, x: CValue, y: CValue, n: nat)
    requires Gating(op) && n > 32 && x.ty == y.ty == Int32 && InRange(Int32, x.v) && InRange(Int32, y.v)
    ensures var r := CBinary(COpOf(op), x, y);
      r.Some? && r.value.ty == Int32 && InRange(Int32, r.value.v)
      && r.value.v % Pow2(n) == Op(GateFor(op), n, x.v, y.v)
  {
    hide Pow2, Op, CBinary, Signed;
    PowersOfTwo();
    var g, p, q := GateFor(op), if x.v < 0 then -1 else 0, if y.v < 0 then -1 else 0;
    var u, v := x.v - p * Pow2(31), y.v - q * Pow2(31);
    GateOfInts(op, x.v, y.v);
    IntParts(g, 32, x.v, y.v, p, q, u, v);
    IntParts(g, n, x.v, y.v, p, q, u, v);
    SignExtended(Bitwise.Bit(g, p, q), Op(g, 31, u, v), n);
  }

  lemma GateOfInts(op: BinOp, x: int, y: int)
    requires Gating(op)
    ensures CBinary(COpOf(op), CValue(Int32, x), CValue(Int32, y))
      == Some(CValue(Int32, Signed(Int32, Op(GateFor(op), 32, x, y))))
  {
    hide Pow2, Op;
  }

  lemma IntParts(g: Gate, n: nat, x: int, y: int, p: int, q: int, u: nat, v: nat)
    requires n > 31 && -1 <= p <= 0 && -1 <= q <= 0 && u < Pow2(31) && v < Pow2(31)
    requires x == p * Pow2(31) + u && y == q * Pow2(31) + v
    ensures Op(g, n, x, y) == Bitwise.Bit(g, p, q) * (Pow2(n - 31) - 1) * Pow2(31) + Op(g, 31, u, v)
    ensures n == 32 ==> Op(g, n, x, y) == Bitwise.Bit(g, p, q) * Pow2(31) + Op(g, 31, u, v)
  {
    hide Pow2, Op, Bitwise.Bit;
    PowersOfTwo();
    OpParts(g, n, 31, x, y, p, q, u, v);
    OpAlike(g, n - 31, p, q);
  }

  lemma SignExtended(s: nat, low: nat, n: nat)
    requires s <= 1 && low < Pow2(31) && n > 32
    ensures var c := s * Pow2(31) + low;
      Signed(Int32, c) % Pow2(n) == s * (Pow2(n - 31) - 1) * Pow2(31) + low && InRange(Int32, Signed(Int32, c))
  {
    hide Pow2;
    PowersOfTwo();
    Pow2Add(n - 31, 31);
    Pow2Mono(31, n);
    assert s == 1 ==> s * (Pow2(n - 31) - 1) * Pow2(31) == Pow2(n) - Pow2(31);
    Division.Parts(low - s * Pow2(31), Pow2(n), 0 - s, low - s * Pow2(31) + s * Pow2(n));
  }

  /** In unsigned 32 bits, the bits above are lost where a sign reaches them. */
  lemma GateUnsigned(op: BinOp, x: CValue, y: CValue, n: nat)
    requires Gating(op) && n > 32 && Common(x.ty, y.ty) == UInt32 && InRange(x.ty, x.v) && InRange(y.ty, y.v)
    ensures var r := CBinary(COpOf(op), x, y);
      && r.Some? && InRange(r.value.ty, r.value.v)
      && (r.value.v % Pow2(n) == Op(GateFor(op), n, x.v, y.v) <==> GateFits(op, UInt32, n, x.v, y.v))
  {
    hide Pow2, Op;
    PowersOfTwo();
    var g, p, q := GateFor(op), if x.v < 0 then -1 else 0, if y.v < 0 then -1 else 0;
    var u, v := x.v - p * Pow2(32), y.v - q * Pow2(32);
    OpParts(g, n, 32, x.v, y.v, p, q, u, v);
    OpAlike(g, n - 32, p, q);
    Pow2Mono(1, n - 32);
    Pow2Mono(32, n);
    Division.Parts(x.v, Pow2(32), p, u);
    Division.Parts(y.v, Pow2(32), q, v);
    assert CBinary(COpOf(op), x, y) == Some(CValue(UInt32, Op(g, 32, u, v)));
    Division.Small(Op(g, 32, u, v), Pow2(n));
    SignBits(op, p, q);
    LostHigh(Bitwise.Bit(g, p, q), Pow2(n - 32) - 1, Pow2(32));
  }

  lemma SignBits(op: BinOp, p: int, q: int)
    requires Gating(op) && -1 <= p <= 0 && -1 <= q <= 0 && (p == 0 || q == 0)
    ensures Bitwise.Bit(GateFor(op), p, q) == 0 <==> op == BAnd || (p == 0 && q == 0)
  {
  }

  lemma LostHigh(bit: int, high: int, p: int)
    requires 0 <= bit <= 1 && high > 0 && p > 0
    ensures bit * high * p == 0 <==> bit == 0
  {
  }

  /** A bitwise operation in C is right on n bits exactly when it fits. */
  lemma GateValue(op: BinOp, x: CValue, y: CValue, n: nat)
    requires Gating(op) && n <= 64 && InRange(x.ty, x.v) && InRange(y.ty, y.v)
    ensures var r := CBinary(COpOf(op), x, y);
      && r.Some? && InRange(r.value.ty, r.value.v)
      && (r.value.v % Pow2(n) == Op(GateFor(op), n, x.v % Pow2(n), y.v % Pow2(n))
          <==> GateFits(op, Common(x.ty, y.ty), n, x.v, y.v))
  {
    hide Pow2, Op, CBinary;
    OpLow(GateFor(op), n, x.v, y.v);
    if n <= Width(Common(x.ty, y.ty)) {
      GateLow(op, x, y, n);
    } else if Common(x.ty, y.ty) == Int32 {
      GateInt(op, x, y, n);
    } else {
      GateUnsigned(op, x, y, n);
    }
  }

  /** What VHDL and C make of two operands that have values. */
  lemma BothValues(op: BinOp, a: Code, b: Code, env: Env)
    requires Agrees(a, env) && Agrees(b, env) && !Logical(op) && !a.ty.Boolean?
    requires VHDL(VBin(VOpOf(op), a.v, b.v), env).Some?
    ensures VHDL(a.v, env).Some? && VHDL(b.v, env).Some?
    ensures Repr(a.ty, VHDL(a.v, env).value, C(a.c, env).value) && Repr(b.ty, VHDL(b.v, env).value, C(b.c, env).value)
    ensures VHDL(VBin(VOpOf(op), a.v, b.v), env) == VHDLBin(VOpOf(op), VHDL(a.v, env).value, VHDL(b.v, env).value)
    ensures C(CBin(COpOf(op), a.c, b.c), env) == CBinary(COpOf(op), C(a.c, env).value, C(b.c, env).value)
  {
    hide Pow2, Op;
    BinValue(COpOf(op), a.c, b.c, env);
  }

  lemma LogicAgrees(op: BinOp, a: Code, b: Code, env: Env)
    requires Logical(op) && a.ty == b.ty == Boolean && Agrees(a, env)
    requires (VHDL(a.v, env) == Some(VBool(op == LOr)) && op != LXor) || Agrees(b, env)
    ensures Agrees(Emit(op, a, b), env)
  {
    hide Pow2, Op;
    if op == LAnd { AndAgrees(a, b, env); } else if op == LOr { OrAgrees(a, b, env); } else { XorAgrees(a, b, env); }
  }

  lemma AndAgrees(a: Code, b: Code, env: Env)
    requires a.ty == b.ty == Boolean && Agrees(a, env) && (VHDL(a.v, env) == Some(VBool(false)) || Agrees(b, env))
    ensures Agrees(Emit(LAnd, a, b), env)
  {
    hide Pow2, Op;
  }

  lemma OrAgrees(a: Code, b: Code, env: Env)
    requires a.ty == b.ty == Boolean && Agrees(a, env) && (VHDL(a.v, env) == Some(VBool(true)) || Agrees(b, env))
    ensures Agrees(Emit(LOr, a, b), env)
  {
    hide Pow2, Op;
  }

  lemma XorAgrees(a: Code, b: Code, env: Env)
    requires a.ty == b.ty == Boolean && Agrees(a, env) && Agrees(b, env)
    ensures Agrees(Emit(LXor, a, b), env)
  {
    hide Pow2, Op;
  }

  lemma GateAgrees(op: BinOp, a: Code, b: Code, env: Env)
    requires Gating(op) && a.ty.Vec? && b.ty.Vec? && a.ty.n == b.ty.n && Agrees(a, env) && Agrees(b, env)
    requires C(a.c, env).Some? && C(b.c, env).Some? ==> KeepsUp(op, a, b, env)
    ensures Agrees(Emit(op, a, b), env)
  {
    hide Pow2, Op, VHDL, C, CBinary, GateFits;
    if VHDL(VBin(VOpOf(op), a.v, b.v), env).Some? {
      BothValues(op, a, b, env);
      GateValue(op, C(a.c, env).value, C(b.c, env).value, a.ty.n);
    }
  }

  lemma GateBitAgrees(op: BinOp, a: Code, b: Code, env: Env)
    requires Gating(op) && a.ty == b.ty == Bit && Agrees(a, env) && Agrees(b, env)
    ensures Agrees(Emit(op, a, b), env)
  {
    hide Pow2, Op, VHDL, C, CBinary, VHDLBin, Bitwise.Bit;
    if VHDL(VBin(VOpOf(op), a.v, b.v), env).Some? {
      BothValues(op, a, b, env);
      var x, y := C(a.c, env).value, C(b.c, env).value;
      PowersOfTwo();
      GateLow(op, x, y, 1);
      OpBit(GateFor(op), x.v % 2, y.v % 2);
      BitVHDL(op, VHDL(a.v, env).value.bit, VHDL(b.v, env).value.bit);
    }
  }

  lemma BitVHDL(op: BinOp, x: bool, y: bool)
    requires Gating(op)
    ensures var r := VHDLBin(VOpOf(op), VBit(x), VBit(y));
      r.Some? && r.value.VBit? && Truth(r.value.bit) == Bitwise.Bit(GateFor(op), Truth(x), Truth(y))
  {
  }

  lemma OpBit(g: Gate, a: int, b: int)
    ensures Op(g, 1, a, b) == Bitwise.Bit(g, a, b)
  {
    assert Op(g, 0, a / 2, b / 2) == 0;
  }

  /** On naturals, bitwise operations go through vectors of 31 bits in VHDL. */
  lemma GateNaturalAgrees(op: BinOp, a: Code, b: Code, env: Env)
    requires Gating(op) && a.ty == b.ty == Natural && Agrees(a, env) && Agrees(b, env)
    ensures Agrees(Emit(op, a, b), env)
  {
    hide Pow2, Op, C, VHDL, VHDLBin, CBinary, VHDLCall;
    var va, vb := VCall(ToUnsigned(31), a.v), VCall(ToUnsigned(31), b.v);
    CallValue(ToInteger, VBin(VOpOf(op), va, vb), env);
    if VHDL(VBin(VOpOf(op), va, vb), env).Some? {
      VecBin(op, va, vb, env);
      CallValue(ToUnsigned(31), a.v, env);
      CallValue(ToUnsigned(31), b.v, env);
      var x, y := C(a.c, env).value, C(b.c, env).value;
      BinValue(COpOf(op), a.c, b.c, env);
      GateNaturalValue(op, x, y);
    }
  }

  lemma GateNaturalValue(op: BinOp, x: CValue, y: CValue)
    requires Gating(op) && 0 <= x.v <= NATURAL_MASK && 0 <= y.v <= NATURAL_MASK
    ensures VHDLCall(ToUnsigned(31), VInt(x.v)) == Some(VVec(31, x.v))
    ensures VHDLCall(ToUnsigned(31), VInt(y.v)) == Some(VVec(31, y.v))
    ensures var r := Op(GateFor(op), 31, x.v, y.v);
      && 0 <= r <= NATURAL_MASK && CBinary(COpOf(op), x, y) == Some(CValue(Common(x.ty, y.ty), r))
      && VHDLBin(VOpOf(op), VVec(31, x.v), VVec(31, y.v)) == Some(VVec(31, r))
      && VHDLCall(ToInteger, VVec(31, r)) == Some(VInt(r))
  {
    hide Pow2, Op, CBinary;
    PowersOfTwo();
    GateSmall(op, x, y);
    CutSmall(x.v, 31);
    CutSmall(y.v, 31);
  }

  lemma CallValue(f: VFun, e: VExpr, env: Env)
    ensures VHDL(VCall(f, e), env) == if VHDL(e, env).None? then None else VHDLCall(f, VHDL(e, env).value)
  {
  }

  lemma VecBin(op: BinOp, l: VExpr, r: VExpr, env: Env)
    requires l.VCall? && r.VCall? && l.f.ToUnsigned? && r.f.ToUnsigned? && VHDL(VBin(VOpOf(op), l, r), env).Some?
    ensures VHDL(l, env).Some? && VHDL(r, env).Some?
    ensures VHDL(VBin(VOpOf(op), l, r), env) == VHDLBin(VOpOf(op), VHDL(l, env).value, VHDL(r, env).value)
  {
  }

  lemma GateSmall(op: BinOp, x: CValue, y: CValue)
    requires Gating(op) && 0 <= x.v < Pow2(31) && 0 <= y.v < Pow2(31)
    ensures CBinary(COpOf(op), x, y) == Some(CValue(Common(x.ty, y.ty), Op(GateFor(op), 31, x.v, y.v)))
  {
    hide Pow2, Op;
    PowersOfTwo();
    var w := Width(Common(x.ty, y.ty));
    OpSmall(GateFor(op), w, 31, x.v, y.v);
  }

  // ---------------------------------------------------------------- concatenation and shifts

  /** An unsigned result is right on n bits exactly when these reach no further than its type. */
  lemma UnsignedLow(t: CType, n: nat, v: int)
    requires t != Int32
    ensures Convert(t, v) % Pow2(n) == v % Pow2(n) <==> ReachesTo(t, n, v)
    ensures InRange(t, Convert(t, v))
  {
    hide Pow2;
    PowersOfTwo();
    var w := Width(t);
    if n <= w {
      CutTwice(v, w, n);
    } else {
      CutTwice(v, n, w);
      Pow2Mono(w, n);
      Division.Small(v % Pow2(w), Pow2(n));
      if v % Pow2(n) < Pow2(w) { Division.Small(v % Pow2(n), Pow2(w)); }
    }
  }

  /** A shift left in C is right on n bits exactly when it fits. */
  lemma ShiftedLow(a: CValue, k: int, n: nat)
    requires InRange(a.ty, a.v) && k >= 0
    ensures var r := CShift(CShl, a, k);
      && (r.Some? ==> r.value.ty == a.ty && InRange(a.ty, r.value.v))
      && (r.Some? && r.value.v % Pow2(n) == a.v * Pow2(k) % Pow2(n) <==> ShiftFits(a, k, n))
  {
    hide Pow2;
    if a.ty != Int32 { UnsignedLow(a.ty, n, a.v * Pow2(k)); }
    hide ReachesTo;
  }

  /** The low bits of a shifted number and a number that fills the free bits. */
  lemma Joined(v: int, m: nat, k: nat, b: nat)
    requires b < Pow2(k)
    ensures (v * Pow2(k) + b) % Pow2(m + k) == v % Pow2(m) * Pow2(k) + b
  {
    hide Pow2;
    Pow2Add(m, k);
    var q, r := v / Pow2(m), v % Pow2(m);
    assert v == q * Pow2(m) + r;
    assert v * Pow2(k) + b == q * Pow2(m + k) + (r * Pow2(k) + b);
    Division.InRange(Pow2(k), Pow2(m), r, b);
    Division.Parts(v * Pow2(k) + b, Pow2(m + k), q, r * Pow2(k) + b);
  }

  lemma OrJoins(s: int, v: int, m: nat, k: nat, b: nat)
    requires m + k <= 64 && b < Pow2(k) && s % Pow2(m + k) == v * Pow2(k) % Pow2(m + k)
    ensures Op(Or, 64, s % 0x1_0000_0000_0000_0000, b) % Pow2(m + k) == v % Pow2(m) * Pow2(k) + b
  {
    hide Pow2, Op;
    PowersOfTwo();
    var n := m + k;
    OpCut(Or, 64, n, s % Pow2(64), b);
    OpLow(Or, n, s % Pow2(64), b);
    CutTwice(s, 64, n);
    OpLow(Or, n, v * Pow2(k), b);
    OrShifted(n, v, k, b);
    Joined(v, m, k, b);
  }

  /** The two halves of a concatenation in C. */
  lemma CatValue(x: CValue, y: CValue, m: nat, k: nat)
    requires InRange(x.ty, x.v) && 1 <= m && 1 <= k && m + k <= 64 && ShiftFits(x, k, m + k)
    ensures var s := CBinary(CShl, x, CValue(UInt64, k));
      s.Some? && var r := CBinary(COr, s.value, CValue(UInt64, y.v % Pow2(k)));
      && r.Some? && InRange(r.value.ty, r.value.v)
      && r.value.v % Pow2(m + k) == x.v % Pow2(m) * Pow2(k) + y.v % Pow2(k) < Pow2(m + k)
  {
    hide Pow2, Op;
    PowersOfTwo();
    ShiftedLow(x, k, m + k);
    var s := CShift(CShl, x, k).value;
    Pow2Mono(k, 64);
    Division.Small(y.v % Pow2(k), 0x1_0000_0000_0000_0000);
    OrJoins(s.v, x.v, m, k, y.v % Pow2(k));
    JoinedBelow(x.v % Pow2(m), m, k, y.v % Pow2(k));
  }

  lemma CatVHDL(m: nat, x: int, k: nat, y: int)
    ensures VHDLBin(VCat, VVec(m, x), VVec(k, y)) == Some(VVec(m + k, x * Pow2(k) + y))
  {
    hide Pow2, Op;
  }

  lemma CatAgrees(a: Code, b: Code, env: Env)
    requires a.ty.Vec? && b.ty.Vec? && Agrees(a, env) && Agrees(b, env)
    requires C(a.c, env).Some? && C(b.c, env).Some? ==> KeepsUp(Cat, a, b, env)
    ensures Agrees(Emit(Cat, a, b), env)
  {
    hide Pow2, Op, VHDL, C, Masked, CBinary, ShiftFits, VHDLBin;
    if VHDL(VBin(VCat, a.v, b.v), env).Some? {
      BothValues(Cat, a, b, env);
      var m, k := a.ty.n, b.ty.n;
      LitValue(k, env);
      BinValue(CShl, a.c, CLit(k), env);
      CatValue(C(a.c, env).value, C(b.c, env).value, m, k);
      CatVHDL(m, VHDL(a.v, env).value.x, k, VHDL(b.v, env).value.x);
      MaskValue(b.c, k, env);
      BinValue(COr, CBin(CShl, a.c, CLit(k)), Masked(b.c, k), env);
    }
  }

  lemma JoinedBelow(x: nat, m: nat, k: nat, b: nat)
    requires x < Pow2(m) && b < Pow2(k)
    ensures 0 <= x * Pow2(k) + b < Pow2(m + k)
  {
    hide Pow2;
    Pow2Add(m, k);
    Division.InRange(Pow2(k), Pow2(m), x, b);
  }

  lemma ShiftVHDL(op: BinOp, n: nat, x: int, k: nat)
    requires op == ShiftLeft || op == ShiftRight
    ensures VHDLBin(VOpOf(op), VVec(n, x), VInt(k))
      == Some(VVec(n, if op == ShiftLeft then x * Pow2(k) % Pow2(n) else x / Pow2(k)))
  {
    hide Pow2, Op;
  }

  lemma ShiftRightValue(x: int, n: nat, k: nat)
    requires 1 <= n <= 64 && k < 64
    ensures var r := x % Pow2(n) / Pow2(k);
      && CBinary(CShr, CValue(UInt64, x % Pow2(n)), CValue(UInt32, k)) == Some(CValue(UInt64, r))
      && 0 <= r < Pow2(n) && r % Pow2(n) == r && r < 0x1_0000_0000_0000_0000
  {
    hide Pow2, Op;
    PowersOfTwo();
    Pow2Mono(n, 64);
    Shrinks(x % Pow2(n), k);
    CutSmall(x % Pow2(n) / Pow2(k), n);
  }

  lemma ShiftCount(op: COp, x: CValue, y: CValue)
    requires op == CShl || op == CShr
    ensures CBinary(op, x, y) == CShift(op, x, y.v)
  {
    hide Pow2, Op;
  }

  lemma ShiftAgrees(op: BinOp, a: Code, b: Code, env: Env)
    requires (op == ShiftLeft || op == ShiftRight) && a.ty.Vec? && b.ty == Natural && Agrees(a, env) && Agrees(b, env)
    requires C(a.c, env).Some? && C(b.c, env).Some? ==> KeepsUp(op, a, b, env)
    ensures Agrees(Emit(op, a, b), env)
  {
    hide Pow2, Op, VHDL, C, Masked, CBinary, VHDLBin, ShiftFits, CShift;
    if VHDL(VBin(VOpOf(op), a.v, b.v), env).Some? {
      BothValues(op, a, b, env);
      var n, x, y := a.ty.n, C(a.c, env).value, C(b.c, env).value;
      ShiftVHDL(op, n, x.v % Pow2(n), y.v);
      ShiftCount(COpOf(op), x, y);
      if op == ShiftLeft {
        ShiftedLow(x, y.v, n);
        ShiftedCut(x.v, n, y.v);
      } else {
        MaskValue(a.c, n, env);
        BinValue(CShr, Masked(a.c, n), b.c, env);
        ShiftCount(CShr, CValue(UInt64, x.v % Pow2(n)), y);
        ShiftCount(CShr, CValue(UInt64, x.v % Pow2(n)), CValue(UInt32, y.v));
        ShiftRightValue(x.v, n, y.v);
      }
    }
  }

  lemma Shrinks(x: nat, k: nat)
    ensures 0 <= x / Pow2(k) <= x
  {
    hide Pow2;
    Division.QuotientAtMost(x, Pow2(k));
  }

  lemma ShiftedCut(v: int, n: nat, k: nat)
    ensures v % Pow2(n) * Pow2(k) % Pow2(n) == v * Pow2(k) % Pow2(n)
  {
    hide Pow2;
    Division.ModTimes(v, Pow2(n), Pow2(k));
  }

  /** Shifts of naturals are products and quotients in VHDL. */
  lemma ShiftNaturalAgrees(op: BinOp, a: Code, b: Code, env: Env)
    requires (op == ShiftLeft || op == ShiftRight) && a.ty == b.ty == Natural && Agrees(a, env) && Agrees(b, env)
    ensures Agrees(Emit(op, a, b), env)
  {
    hide Pow2, Op, VHDL, C, Masked, VHDLBin, CBinary;
    var vop := if op == ShiftLeft then VMul else VDiv;
    if VHDL(VBin(vop, a.v, VCall(TwoTo, b.v)), env).Some? {
      CallValue(TwoTo, b.v, env);
      TimesPower(vop, a.v, b.v, env);
      var x, y := C(a.c, env).value, C(b.c, env).value;
      ShiftNaturalValue(op, x, y);
      BinValue(COpOf(op), a.c, b.c, env);
      MaskValue(CBin(COpOf(op), a.c, b.c), 31, env);
      PowersOfTwo();
      CutSmall(C(CBin(COpOf(op), a.c, b.c), env).value.v, 31);
    }
  }

  lemma ShiftNaturalValue(op: BinOp, x: CValue, y: CValue)
    requires (op == ShiftLeft || op == ShiftRight) && 0 <= x.v <= NATURAL_MASK && 0 <= y.v <= NATURAL_MASK
    requires VHDLCall(TwoTo, VInt(y.v)).Some?
    requires VHDLBin(if op == ShiftLeft then VMul else VDiv, VInt(x.v), VHDLCall(TwoTo, VInt(y.v)).value).Some?
    ensures var r := if op == ShiftLeft then x.v * Pow2(y.v) else x.v / Pow2(y.v);
      && 0 <= r <= NATURAL_MASK && CBinary(COpOf(op), x, y) == Some(CValue(x.ty, r))
      && VHDLBin(if op == ShiftLeft then VMul else VDiv, VInt(x.v), VHDLCall(TwoTo, VInt(y.v)).value) == Some(VInt(r))
  {
    hide Pow2, Op, Convert;
    CountSmall(y.v);
    Shrinks(x.v, y.v);
    var r := if op == ShiftLeft then x.v * Pow2(y.v) else x.v / Pow2(y.v);
    assert r >= 0 by { Division.InRange(Pow2(y.v), x.v + 1, x.v, 0); }
    Kept(x.ty, r);
  }

  lemma CountSmall(k: nat)
    requires Pow2(k) <= 0x7FFF_FFFF
    ensures k < 31
  {
    hide Pow2;
    PowersOfTwo();
    if k >= 31 { Pow2Mono(31, k); }
  }

  lemma TimesPower(op: VOp, l: VExpr, r: VExpr, env: Env)
    requires (op == VMul || op == VDiv) && VHDL(VBin(op, l, VCall(TwoTo, r)), env).Some?
    ensures VHDL(l, env).Some? && VHDL(VCall(TwoTo, r), env).Some?
    ensures VHDL(VBin(op, l, VCall(TwoTo, r)), env) == VHDLBin(op, VHDL(l, env).value, VHDL(VCall(TwoTo, r), env).value)
  {
    hide Pow2, Op;
  }

  // ---------------------------------------------------------------- arithmetic and comparison

  function Sum(op: BinOp, x: int, y: int): int {
    if op == Plus then x + y else x - y
  }

  /** A sum or difference in C is right on n bits exactly when it fits. */
  lemma SumLow(op: BinOp, x: CValue, y: CValue, n: nat)
    requires (op == Plus || op == Minus) && InRange(x.ty, x.v) && InRange(y.ty, y.v)
    ensures var r := CBinary(COpOf(op), x, y);
      && (r.Some? ==> InRange(r.value.ty, r.value.v))
      && (r.Some? && r.value.v % Pow2(n) == Sum(op, x.v, y.v) % Pow2(n)
          <==> SumFits(Common(x.ty, y.ty), n, Sum(op, x.v, y.v)))
  {
    hide Pow2, Op, Sum;
    var t := Common(x.ty, y.ty);
    SumValue(op, x, y);
    if t == Int32 {
      Kept(t, x.v);
      Kept(t, y.v);
    } else {
      SumConverts(op, t, x.v, y.v);
      UnsignedLow(t, n, Sum(op, x.v, y.v));
    }
    hide ReachesTo;
  }

  /** Converting the operands first does not change what an unsigned type makes of a sum. */
  lemma SumConverts(op: BinOp, t: CType, x: int, y: int)
    requires (op == Plus || op == Minus) && t != Int32
    ensures Convert(t, Sum(op, Convert(t, x), Convert(t, y))) == Convert(t, Sum(op, x, y))
  {
    Division.ModSum(x, y, if t == UInt32 then 0x1_0000_0000 else 0x1_0000_0000_0000_0000);
  }

  lemma SumValue(op: BinOp, x: CValue, y: CValue)
    requires op == Plus || op == Minus
    ensures var t := Common(x.ty, y.ty);
      CBinary(COpOf(op), x, y) == Result(t, Sum(op, Convert(t, x.v), Convert(t, y.v)))
  {
    hide Pow2, Op;
  }

  lemma Kept(t: CType, v: int)
    requires InRange(t, v)
    ensures Convert(t, v) == v
  {
  }

  lemma SumCut(op: BinOp, x: int, y: int, n: nat)
    ensures Sum(op, x, y) % Pow2(n) == Sum(op, x % Pow2(n), y % Pow2(n)) % Pow2(n)
  {
    hide Pow2;
    Division.ModSum(x, y, Pow2(n));
  }

  lemma SumVHDL(op: BinOp, n: nat, x: int, y: int)
    requires op == Plus || op == Minus
    ensures VHDLBin(VOpOf(op), VVec(n, x), VVec(n, y)) == Some(VVec(n, Sum(op, x, y) % Pow2(n)))
  {
    hide Pow2, Op;
  }

  lemma SumAgrees(op: BinOp, a: Code, b: Code, env: Env)
    requires (op == Plus || op == Minus) && a.ty.Vec? && b.ty == a.ty && Agrees(a, env) && Agrees(b, env)
    requires C(a.c, env).Some? && C(b.c, env).Some? ==> KeepsUp(op, a, b, env)
    ensures Agrees(Emit(op, a, b), env)
  {
    hide Pow2, Op, VHDL, C, VHDLBin, CBinary, SumFits;
    if VHDL(VBin(VOpOf(op), a.v, b.v), env).Some? {
      BothValues(op, a, b, env);
      var x, y := C(a.c, env).value, C(b.c, env).value;
      SumVHDL(op, a.ty.n, x.v % Pow2(a.ty.n), y.v % Pow2(a.ty.n));
      SumLow(op, x, y, a.ty.n);
      SumCut(op, x.v, y.v, a.ty.n);
    }
  }

  lemma NaturalAgrees(op: BinOp, a: Code, b: Code, env: Env)
    requires op == Plus || op == Minus || op == Times || op == Over || op == Rem
    requires a.ty == b.ty == Natural && Agrees(a, env) && Agrees(b, env)
    requires C(a.c, env).Some? && C(b.c, env).Some? ==> KeepsUp(op, a, b, env)
    ensures Agrees(Emit(op, a, b), env)
  {
    hide Pow2, Op, VHDL, C, Masked;
    if VHDL(VBin(VOpOf(op), a.v, b.v), env).Some? {
      BothValues(op, a, b, env);
      var x, y := C(a.c, env).value, C(b.c, env).value;
      NaturalValue(op, x, y, VHDL(VBin(VOpOf(op), a.v, b.v), env).value.i);
      var c := CBin(COpOf(op), a.c, b.c);
      MaskValue(c, 31, env);
      PowersOfTwo();
      CutSmall(C(c, env).value.v, 31);
    }
  }

  lemma NaturalValue(op: BinOp, x: CValue, y: CValue, r: int)
    requires op == Plus || op == Minus || op == Times || op == Over || op == Rem
    requires 0 <= x.v <= NATURAL_MASK && 0 <= y.v <= NATURAL_MASK && (op == Minus ==> y.v <= x.v)
    requires VHDLBin(VOpOf(op), VInt(x.v), VInt(y.v)) == Some(VInt(r))
    ensures 0 <= r <= NATURAL_MASK && CBinary(COpOf(op), x, y) == Some(CValue(Common(x.ty, y.ty), r))
  {
    hide Pow2, Op, Convert;
    var t := Common(x.ty, y.ty);
    Kept(t, x.v);
    Kept(t, y.v);
    NaturalResult(op, x.v, y.v, r);
    Kept(t, r);
  }

  function Exact(op: BinOp, x: int, y: int): int
    requires op == Over || op == Rem ==> y != 0
  {
    match op
    case Plus => x + y
    case Minus => x - y
    case Times => x * y
    case Over => x / y
    case Rem => x % y
    case _ => 0
  }

  lemma NaturalResult(op: BinOp, x: int, y: int, r: int)
    requires op == Plus || op == Minus || op == Times || op == Over || op == Rem
    requires 0 <= x <= NATURAL_MASK && 0 <= y <= NATURAL_MASK && (op == Minus ==> y <= x)
    requires VHDLBin(VOpOf(op), VInt(x), VInt(y)) == Some(VInt(r))
    ensures (op == Over || op == Rem ==> y != 0) && r == Exact(op, x, y) && 0 <= r <= NATURAL_MASK
  {
    hide Pow2, Op, Exact;
    if op == Plus || op == Minus { ExactSum(x, y); }
    else if op == Times { TimesResult(x, y, r); }
    else if op == Over { OverResult(x, y, r); }
    else { RemResult(x, y, r); }
  }

  lemma ExactSum(x: int, y: int)
    ensures Exact(Plus, x, y) == x + y && Exact(Minus, x, y) == x - y
  {
  }

  lemma TimesResult(x: nat, y: nat, r: int)
    requires VHDLBin(VMul, VInt(x), VInt(y)) == Some(VInt(r))
    ensures r == Exact(Times, x, y) && 0 <= r <= NATURAL_MASK
  {
    hide Pow2, Op;
    Division.InRange(y + 1, x + 1, x, 0);
  }

  lemma OverResult(x: nat, y: nat, r: int)
    requires x <= NATURAL_MASK && VHDLBin(VDiv, VInt(x), VInt(y)) == Some(VInt(r))
    ensures y != 0 && r == Exact(Over, x, y) && 0 <= r <= NATURAL_MASK
  {
    hide Pow2, Op;
    Division.QuotientAtMost(x, y);
  }

  lemma RemResult(x: nat, y: nat, r: int)
    requires y <= NATURAL_MASK && VHDLBin(VMod, VInt(x), VInt(y)) == Some(VInt(r))
    ensures y != 0 && r == Exact(Rem, x, y) && 0 <= r <= NATURAL_MASK
  {
    hide Pow2, Op;
  }

  lemma CompareVHDL(op: BinOp, a: VValue, b: VValue)
    requires Relational(op) && ((a.VInt? && b.VInt?) || (a.VVec? && b.VVec? && a.n == b.n))
    ensures VHDLBin(VOpOf(op), a, b)
      == Some(VBool(Compare(VOpOf(op), if a.VInt? then a.i else a.x, if b.VInt? then b.i else b.x)))
  {
    hide Pow2, Op;
  }

  /** Comparing is comparing the low parts exactly when the high parts are settled below. */
  lemma ComparedBelow(op: VOp, p: int, q: int, m: int)
    requires m > 0
    ensures Compare(op, p, q) == Compare(op, p % m, q % m) <==> SettledBelow(op, p / m, q / m, p % m, q % m)
  {
    var h, k := p / m, q / m;
    HighFirst(p, q, m, h, k, p % m, q % m);
    if h != k { ComparedHigh(op, p, q, h, k); }
  }

  lemma HighFirst(p: int, q: int, m: int, h: int, k: int, low: int, low': int)
    requires p == h * m + low && q == k * m + low' && 0 <= low < m && 0 <= low' < m
    ensures (h < k ==> p < q) && (h > k ==> p > q) && (h == k ==> p - q == low - low')
  {
    if h < k { AtLeastOnce(k - h, m); } else if h > k { AtLeastOnce(h - k, m); }
    assert p - q == (h - k) * m + low - low';
  }

  lemma AtLeastOnce(x: int, m: int)
    requires x >= 1 && m > 0
    ensures x * m >= m
  {
  }

  lemma ComparedHigh(op: VOp, p: int, q: int, h: int, k: int)
    requires (h < k && p < q) || (h > k && p > q)
    ensures Compare(op, p, q) == Compare(op, h, k)
  {
  }

  /** A comparison in C is right on vectors of n bits exactly when it fits. */
  lemma RelationValue(op: VOp, x: CValue, y: CValue, n: nat)
    requires n <= 64 && InRange(x.ty, x.v) && InRange(y.ty, y.v)
    ensures var t := Common(x.ty, y.ty);
      Compare(op, Convert(t, x.v), Convert(t, y.v)) == Compare(op, x.v % Pow2(n), y.v % Pow2(n))
      <==> RelationFits(op, t, n, x.v, y.v)
  {
    hide Pow2, Compare, SettledBelow;
    var t := Common(x.ty, y.ty);
    if t == UInt32 && n > 32 {
      SignsLost(op, x, y, n);
    } else {
      if t != Int32 {
        ConvertLow(t, x.v, n);
        ConvertLow(t, y.v, n);
      }
      ComparedBelow(op, Convert(t, x.v), Convert(t, y.v), Pow2(n));
    }
  }

  lemma SignsLost(op: VOp, x: CValue, y: CValue, n: nat)
    requires n > 32 && Common(x.ty, y.ty) == UInt32 && InRange(x.ty, x.v) && InRange(y.ty, y.v)
    ensures Compare(op, Convert(UInt32, x.v), Convert(UInt32, y.v)) == Compare(op, x.v % Pow2(n), y.v % Pow2(n))
      <==> SettledBelow(op, Truth(x.v < 0), Truth(y.v < 0), Convert(UInt32, x.v), Convert(UInt32, y.v))
  {
    hide Pow2, Compare, SettledBelow;
    PowersOfTwo();
    var h := Pow2(n - 32) - 1;
    Pow2Mono(1, n - 32);
    SignHigh(x.v, n);
    SignHigh(y.v, n);
    ComparedBelow(op, x.v % Pow2(n), y.v % Pow2(n), Pow2(32));
    SignsCompared(op, h, x.v < 0, y.v < 0, Convert(UInt32, x.v), Convert(UInt32, y.v));
  }

  /** The bits of a vector above 32 are those of the sign. */
  lemma SignHigh(x: int, n: nat)
    requires n > 32 && -0x8000_0000 <= x < 0x1_0000_0000
    ensures var p := x % Pow2(n);
      p % Pow2(32) == Convert(UInt32, x) && p / Pow2(32) == if x < 0 then Pow2(n - 32) - 1 else 0
  {
    hide Pow2;
    PowersOfTwo();
    Pow2Mono(32, n);
    Pow2Add(n - 32, 32);
    if x < 0 {
      Division.Parts(x, Pow2(n), -1, x + Pow2(n));
      Division.Parts(x + Pow2(n), Pow2(32), Pow2(n - 32) - 1, x + Pow2(32));
    } else {
      Division.Small(x, Pow2(n));
      Division.Small(x, Pow2(32));
    }
  }

  lemma SignsCompared(op: VOp, h: int, p: bool, q: bool, u: int, v: int)
    requires h > 0
    ensures SettledBelow(op, if p then h else 0, if q then h else 0, u, v)
      <==> SettledBelow(op, Truth(p), Truth(q), u, v)
  {
  }

  lemma CompareAgrees(op: BinOp, a: Code, b: Code, env: Env)
    requires Relational(op) && Agrees(a, env) && Agrees(b, env)
    requires (a.ty == b.ty == Natural) || (a.ty.Vec? && b.ty == a.ty)
    requires C(a.c, env).Some? && C(b.c, env).Some? ==> KeepsUp(op, a, b, env)
    ensures Agrees(Emit(op, a, b), env)
  {
    hide Pow2, Op, VHDL, C, CBinary, VHDLBin, Compare, RelationFits, Convert;
    if VHDL(VBin(VOpOf(op), a.v, b.v), env).Some? {
      BothValues(op, a, b, env);
      var x, y := C(a.c, env).value, C(b.c, env).value;
      CompareVHDL(op, VHDL(a.v, env).value, VHDL(b.v, env).value);
      CompareValue(op, x, y);
      if a.ty.Vec? {
        RelationValue(VOpOf(op), x, y, a.ty.n);
      } else {
        WideEnough(x.ty, Common(x.ty, y.ty), x.v);
        WideEnough(y.ty, Common(x.ty, y.ty), y.v);
      }
    }
  }

  lemma CompareValue(op: BinOp, x: CValue, y: CValue)
    requires Relational(op)
    ensures var t := Common(x.ty, y.ty);
      CBinary(COpOf(op), x, y) == Some(CValue(Int32, Truth(Compare(VOpOf(op), Convert(t, x.v), Convert(t, y.v)))))
  {
    hide Pow2, Op;
  }

  lemma WideEnough(s: CType, t: CType, v: int)
    requires InRange(s, v) && 0 <= v && Common(s, t) == t
    ensures Convert(t, v) == v
  {
  }

  // ---------------------------------------------------------------- one operator

  predicate SizedTy(ty: Ty) {
    ty.Vec? ==> 1 <= ty.n <= 64
  }

  lemma BothAgree(a: Code, b: Code, ty: Ty, env: Env)
    requires Both(a, b, ty).Some? && Agrees(a, env) && Agrees(b, env) && SizedTy(ty)
    ensures var (x, y) := Both(a, b, ty).value; Agrees(x, env) && Agrees(y, env) && x.ty == y.ty == ty
  {
    hide Agrees, Cast;
    CastAgrees(a, ty, false, env);
    CastAgrees(b, ty, false, env);
  }

  lemma FilledAgrees(a: Code, ty: Ty, env: Env)
    requires a.ty == Bit && Agrees(a, env) && ty.Vec? && SizedTy(ty)
    ensures Agrees(Filled(a, ty), env)
  {
    hide Pow2, Op, Masked;
    CallValue(Fill(ty.n), a.v, env);
    if VHDL(a.v, env).Some? {
      MaskValue(a.c, 1, env);
      PowersOfTwo();
      AllOnes(ty.n);
      CondValue(Masked(a.c, 1), 0xFFFF_FFFF_FFFF_FFFF, 0, env);
    }
  }

  lemma CondValue(c: CExpr, yes: int, no: int, env: Env)
    requires C(c, env).Some?
    ensures C(CCond(c, CLit(yes), CLit(no)), env) == Some(CValue(UInt64, if C(c, env).value.v != 0 then yes else no))
  {
  }

  lemma AllOnes(n: nat)
    requires n <= 64
    ensures 0xFFFF_FFFF_FFFF_FFFF % Pow2(n) == Pow2(n) - 1 && 0 % Pow2(n) == 0
  {
    hide Pow2;
    PowersOfTwo();
    Pow2Add(64 - n, n);
    Division.Parts(0xFFFF_FFFF_FFFF_FFFF, Pow2(n), Pow2(64 - n) - 1, Pow2(n) - 1);
    Division.Small(0, Pow2(n));
  }

  lemma GatedAgree(a: Code, b: Code, env: Env)
    requires Gated(a, b).Some? && Agrees(a, env) && Agrees(b, env) && SizedTy(a.ty)
    ensures var (x, y) := Gated(a, b).value; Agrees(x, env) && Agrees(y, env) && x.ty.Vec? && y.ty == x.ty == a.ty
  {
    hide Agrees, Cast;
    CastAgrees(b, Bit, false, env);
    FilledAgrees(Cast(b, Bit, false).value, a.ty, env);
  }

  /** What the coercion of an operator makes of the types of its operands. */
  predicate CoercedTo(op: BinOp, x: Ty, y: Ty) {
    if Logical(op) then x == y == Boolean
    else if Gating(op) then (x == y && (x == Natural || x == Bit)) || (x.Vec? && y == x)
    else if op == Cat then x.Vec? && y.Vec?
    else if op == ShiftLeft || op == ShiftRight then (x.Vec? || x == Natural) && y == Natural
    else if op == Times || op == Over || op == Rem then x == y == Natural
    else x == y && (x == Natural || x.Vec?)
  }

  lemma CoercedAgree(op: BinOp, a: Code, b: Code, env: Env)
    requires Coerced(op, a, b).Some? && Agrees(a, env) && Agrees(b, env) && SizedTy(a.ty) && SizedTy(b.ty)
    ensures var (x, y) := Coerced(op, a, b).value;
      Agrees(x, env) && Agrees(y, env) && CoercedTo(op, x.ty, y.ty)
  {
    hide Agrees, Cast, Gated, Both;
    if Gating(op) {
      GatingAgree(op, a, b, env);
    } else if Logical(op) {
      BothAgree(a, b, Boolean, env);
    } else if op == Cat {
      var uns := a.ty.Vec? && a.ty.isUnsigned;
      CastAgrees(a, Vec(uns, SizeOf(a.ty)), false, env);
      CastAgrees(b, Vec(uns, SizeOf(b.ty)), false, env);
    } else if op == ShiftLeft || op == ShiftRight {
      CastAgrees(a, if a.ty.Vec? then Vec(true, a.ty.n) else Natural, false, env);
      CastAgrees(b, Natural, false, env);
    } else {
      ArithmeticAgree(op, a, b, env);
    }
  }

  lemma GatingAgree(op: BinOp, a: Code, b: Code, env: Env)
    requires Gating(op) && Coerced(op, a, b).Some? && Agrees(a, env) && Agrees(b, env) && SizedTy(a.ty) && SizedTy(b.ty)
    ensures var (x, y) := Coerced(op, a, b).value;
      Agrees(x, env) && Agrees(y, env) && CoercedTo(op, x.ty, y.ty)
  {
    hide Agrees, Cast, Gated, Both;
    if Numeric(a.ty) && Numeric(b.ty) {
      BothAgree(a, b, Natural, env);
    } else if a.ty == Bit && b.ty == Bit {
    } else if a.ty.Vec? && b.ty.Vec? && a.ty.n == b.ty.n {
      BothAgree(a, b, a.ty, env);
    } else if b.ty.Vec? {
      GatedAgree(b, a, env);
    } else {
      GatedAgree(a, b, env);
    }
  }

  lemma ArithmeticAgree(op: BinOp, a: Code, b: Code, env: Env)
    requires !Logical(op) && !Gating(op) && op != Cat && op != ShiftLeft && op != ShiftRight
    requires Coerced(op, a, b).Some? && Agrees(a, env) && Agrees(b, env) && SizedTy(a.ty) && SizedTy(b.ty)
    ensures var (x, y) := Coerced(op, a, b).value;
      Agrees(x, env) && Agrees(y, env) && CoercedTo(op, x.ty, y.ty)
  {
    hide Agrees, Cast, Gated, Both;
    if a.ty == Natural && b.ty == Natural && Relational(op) {
    } else if Numeric(a.ty) && Numeric(b.ty) && !Relational(op) {
      BothAgree(a, b, Natural, env);
    } else if op == Plus || op == Minus {
      BothAgree(a, b, Vec(true, Min(64, Max(SizeOf(a.ty), SizeOf(b.ty)) + 1)), env);
    } else {
      BothAgree(a, b, Vec(true, Max(SizeOf(a.ty), SizeOf(b.ty))), env);
    }
  }

  /** Every operator keeps the two codes in agreement as long as C keeps up. */
  lemma EmitAgrees(op: BinOp, a: Code, b: Code, env: Env)
    requires CoercedTo(op, a.ty, b.ty) && Agrees(a, env) && Agrees(b, env)
    requires C(a.c, env).Some? && C(b.c, env).Some? ==> KeepsUp(op, a, b, env)
    ensures Agrees(Emit(op, a, b), env)
  {
    hide Agrees, KeepsUp, Emit;
    if Logical(op) {
      LogicAgrees(op, a, b, env);
    } else if Gating(op) {
      if a.ty == Natural { GateNaturalAgrees(op, a, b, env); }
      else if a.ty == Bit { GateBitAgrees(op, a, b, env); }
      else { GateAgrees(op, a, b, env); }
    } else if op == Cat {
      CatAgrees(a, b, env);
    } else if op == ShiftLeft || op == ShiftRight {
      if a.ty.Vec? { ShiftAgrees(op, a, b, env); } else { ShiftNaturalAgrees(op, a, b, env); }
    } else if Relational(op) {
      CompareAgrees(op, a, b, env);
    } else if a.ty.Vec? {
      SumAgrees(op, a, b, env);
    } else {
      NaturalAgrees(op, a, b, env);
    }
  }

  /** The complement of a vector in C reaches only as far as its type; int stands for all
      higher bits. */
  predicate ComplementFits(a: Code, env: Env) {
    C(a.c, env).Some? && a.ty.Vec? ==> C(a.c, env).value.ty == UInt32 ==> a.ty.n <= 32
  }

  lemma ComplementLow(v: int, n: nat)
    ensures (-v - 1) % Pow2(n) == Pow2(n) - 1 - v % Pow2(n)
  {
    hide Pow2;
    var q, r := v / Pow2(n), v % Pow2(n);
    assert v == q * Pow2(n) + r;
    assert (-q - 1) * Pow2(n) == -(q * Pow2(n)) - Pow2(n);
    Division.Parts(-v - 1, Pow2(n), -q - 1, Pow2(n) - 1 - r);
  }

  lemma ComplementAgrees(a: Code, env: Env)
    requires Agrees(a, env) && (a.ty == Bit || a.ty.Vec?) && ComplementFits(a, env)
    ensures Agrees(Code(VCall(VNot, a.v), CCompl(a.c), a.ty), env)
  {
    hide Pow2, Op;
    CallValue(VNot, a.v, env);
    PowersOfTwo();
    if VHDL(a.v, env).Some? {
      var x := C(a.c, env).value;
      var n := if a.ty.Vec? then a.ty.n else 1;
      ComplementLow(x.v, n);
      if x.ty != Int32 {
        ComplementLow(x.v, Width(x.ty));
        CutSmall(x.v, Width(x.ty));
        CutTwice(-x.v - 1, Width(x.ty), n);
      }
    }
  }

  lemma UnaryAgrees(op: UnOp, a: Code, env: Env)
    requires Unary(op, a).Some? && Agrees(a, env) && (op == Compl ==> ComplementFits(a, env))
    ensures Agrees(Unary(op, a).value, env)
  {
    hide Pow2, Op, Cast;
    if op == LNot {
      CastAgrees(a, Boolean, false, env);
      CallValue(VNot, Cast(a, Boolean, false).value.v, env);
    } else if Numeric(a.ty) {
      CastAgrees(a, Natural, false, env);
      FromAllOnes(Cast(a, Natural, false).value, env);
    } else {
      ComplementAgrees(a, env);
    }
  }

  lemma FromAllOnes(x: Code, env: Env)
    requires x.ty == Natural && Agrees(x, env)
    ensures Agrees(Code(VBin(VSub, VConst(VInt(NATURAL_MASK)), x.v), CBin(CSub, CLit(NATURAL_MASK), x.c), Natural), env)
  {
    hide Pow2, Op, C, VHDL, VHDLBin, CBinary;
    var all := VConst(VInt(NATURAL_MASK));
    FromAllVHDL(x.v, env);
    if VHDL(x.v, env).Some? {
      LitValue(NATURAL_MASK, env);
      BinValue(CSub, CLit(NATURAL_MASK), x.c, env);
      FromAllValues(C(x.c, env).value);
    }
  }

  lemma FromAllVHDL(x: VExpr, env: Env)
    ensures VHDL(VBin(VSub, VConst(VInt(NATURAL_MASK)), x), env)
      == if VHDL(x, env).None? then None else VHDLBin(VSub, VInt(NATURAL_MASK), VHDL(x, env).value)
  {
    hide Pow2, Op, VHDLBin;
  }

  lemma FromAllValues(x: CValue)
    requires 0 <= x.v <= NATURAL_MASK
    ensures VHDLBin(VSub, VInt(NATURAL_MASK), VInt(x.v)) == Some(VInt(NATURAL_MASK - x.v))
    ensures CBinary(CSub, CValue(UInt64, NATURAL_MASK), x) == Some(CValue(UInt64, NATURAL_MASK - x.v))
  {
    hide Pow2, Op;
  }
}
