/** Whole expressions and assignments of the code generator: the VHDL and the C of any nested
    expression agree wherever C's types keep up (config/scripts/code/back_end.py). */
module BackendProgram {
  import opened Bitwise
  import opened Powers
  import opened BackendTargets
  import opened Backend
  import Division

  datatype Expr =
    | Ref(name: string)
    | Lit(value: nat, ty: Ty)
    | Index(name: string, index: Expr)
    | Slice(name: string, size: nat, index: Expr)
    | CastTo(arg: Expr, to: Ty, explicit: bool)
    | Un(uop: UnOp, arg: Expr)
    | Bin(bop: BinOp, left: Expr, right: Expr)

  type Decls = map<string, Ty>

  /** The type that C computes a variable of a type in. */
  function Storage(ty: Ty): CType {
    match ty
    case Natural => UInt32
    case Vec(_, n) => if n <= 16 then Int32 else if n <= 32 then UInt32 else UInt64
    case _ => Int32
  }

  predicate InLiteral(ty: Ty, v: nat) {
    match ty
    case Natural => v <= NATURAL_MASK
    case Vec(_, n) => v < Pow2(n)
    case _ => v <= 1
  }

  /** generate_literal. */
  function Literal(v: nat, ty: Ty): Code {
    var value := match ty
      case Boolean => VBool(v != 0)
      case Natural => VInt(v)
      case Bit => VBit(v == 1)
      case Vec(_, n) => VVec(n, v);
    Code(VConst(value), CLit(v), ty)
  }

  /** The code of an expression, or None where the generator reports an error. */
  function Generate(e: Expr, decls: Decls): Option<Code> {
    match e
    case Ref(name) => if name in decls then Some(Code(VRef(name), CRef(name), decls[name])) else None
    case Lit(v, ty) => if SizedTy(ty) && InLiteral(ty, v) then Some(Literal(v, ty)) else None
    case Index(name, index) =>
      var i := Generate(index, decls);
      if name in decls && decls[name].Vec? && i.Some? then
        Some(Code(VIndex(name, i.value.v), CBin(CShr, CRef(name), i.value.c), Bit))
      else None
    case Slice(name, size, index) =>
      var i := Generate(index, decls);
      if name in decls && decls[name].Vec? && 1 <= size <= decls[name].n && i.Some? then
        Some(Code(VSlice(name, size, i.value.v), CBin(CShr, CRef(name), i.value.c), Vec(decls[name].isUnsigned, size)))
      else None
    case CastTo(arg, to, explicit) =>
      var a := Generate(arg, decls);
      if a.Some? && SizedTy(to) then Cast(a.value, to, explicit) else None
    case Un(op, arg) =>
      var a := Generate(arg, decls);
      if a.Some? then Unary(op, a.value) else None
    case Bin(op, left, right) =>
      var a, b := Generate(left, decls), Generate(right, decls);
      if a.Some? && b.Some? then Binary(op, a.value, b.value) else None
  }

  /** Every vector in the expression has at most 64 bits. */
  predicate Sized(e: Expr, decls: Decls) {
    && (Generate(e, decls).Some? ==> SizedTy(Generate(e, decls).value.ty))
    && match e
       case Index(_, index) => Sized(index, decls)
       case Slice(_, _, index) => Sized(index, decls)
       case CastTo(arg, _, _) => Sized(arg, decls)
       case Un(_, arg) => Sized(arg, decls)
       case Bin(_, left, right) => Sized(left, decls) && Sized(right, decls)
       case _ => true
  }

  /** The variables hold values of their types. */
  ghost predicate Stored(decls: Decls, env: Env) {
    forall name :: name in decls ==>
      && name in env && SizedTy(decls[name]) && env[name].ctype == Storage(decls[name]) && env[name].c >= 0
      && Repr(decls[name], env[name].vhdl, CValue(env[name].ctype, env[name].c))
  }

  /** The left operand of && or || makes the right one irrelevant. */
  predicate Decides(op: BinOp, left: Code, env: Env) {
    (op == LAnd || op == LOr) && left.ty == Boolean && VHDL(left.v, env) == Some(VBool(op == LOr))
  }

  /** C keeps up at every operator that is evaluated. */
  predicate Tame(e: Expr, decls: Decls, env: Env) {
    match e
    case Index(_, index) => Tame(index, decls, env)
    case Slice(_, _, index) => Tame(index, decls, env)
    case CastTo(arg, _, _) => Tame(arg, decls, env)
    case Un(op, arg) =>
      Tame(arg, decls, env)
      && (op == Compl && Generate(arg, decls).Some? ==> ComplementFits(Generate(arg, decls).value, env))
    case Bin(op, left, right) =>
      var a, b := Generate(left, decls), Generate(right, decls);
      Tame(left, decls, env)
      && (a.Some? && b.Some? && Coerced(op, a.value, b.value).Some? ==>
           var (x, y) := Coerced(op, a.value, b.value).value;
           Decides(op, x, env)
           || (Tame(right, decls, env) && (C(x.c, env).Some? && C(y.c, env).Some? ==> KeepsUp(op, x, y, env))))
    case _ => true
  }

  lemma LiteralAgrees(v: nat, ty: Ty, env: Env)
    requires SizedTy(ty) && InLiteral(ty, v)
    ensures Agrees(Literal(v, ty), env)
  {
    hide Pow2;
    PowersOfTwo();
    if ty.Vec? {
      Pow2Mono(ty.n, 64);
      CutSmall(v, ty.n);
    }
  }

  /** Bits k to k + s - 1 of a number do not depend on the bits from n on. */
  lemma BitsBelow(c: nat, n: nat, k: nat, s: nat)
    requires k + s <= n
    ensures c % Pow2(n) / Pow2(k) % Pow2(s) == c / Pow2(k) % Pow2(s)
  {
    hide Pow2;
    Pow2Add(n - k, k);
    Pow2Add(n - k - s, s);
    Division.PartBelow(c, Pow2(k), Pow2(n - k - s), Pow2(s));
  }

  lemma StorageHolds(ty: Ty)
    requires ty.Vec? && SizedTy(ty)
    ensures ty.n <= Width(Storage(ty))
  {
  }

  /** A right shift of a variable by an index or slice bound. */
  lemma {:induction false} SliceValue(name: string, ic: CExpr, k: nat, decls: Decls, env: Env)
    requires Stored(decls, env) && name in decls && decls[name].Vec? && k < decls[name].n
    requires C(ic, env).Some? && C(ic, env).value.v == k
    ensures C(CBin(CShr, CRef(name), ic), env) == Some(CValue(env[name].ctype, env[name].c / Pow2(k)))
    ensures InRange(env[name].ctype, env[name].c / Pow2(k))
    ensures env[name].vhdl == VVec(decls[name].n, env[name].c % Pow2(decls[name].n))
  {
    hide Pow2, Op, C;
    StorageHolds(decls[name]);
    assert C(CRef(name), env) == Some(CValue(env[name].ctype, env[name].c)) by { RefValue(name, env); }
    BinValue(CShr, CRef(name), ic, env);
    ShiftCount(CShr, CValue(env[name].ctype, env[name].c), C(ic, env).value);
    Division.QuotientAtMost(env[name].c, Pow2(k));
  }

  lemma RefValue(name: string, env: Env)
    requires name in env
    ensures C(CRef(name), env) == Some(CValue(env[name].ctype, env[name].c))
  {
  }

  lemma IndexAgrees(name: string, i: Code, decls: Decls, env: Env)
    requires Stored(decls, env) && name in decls && decls[name].Vec? && Agrees(i, env)
    ensures Agrees(Code(VIndex(name, i.v), CBin(CShr, CRef(name), i.c), Bit), env)
  {
    hide Pow2, Op, C;
    PowersOfTwo();
    if VHDL(VIndex(name, i.v), env).Some? {
      var k := VHDL(i.v, env).value.i;
      SliceValue(name, i.c, k, decls, env);
      BitsBelow(env[name].c, decls[name].n, k, 1);
    }
  }

  lemma SliceAgrees(name: string, size: nat, i: Code, decls: Decls, env: Env)
    requires Stored(decls, env) && name in decls && decls[name].Vec? && 1 <= size <= decls[name].n && Agrees(i, env)
    ensures Agrees(Code(VSlice(name, size, i.v), CBin(CShr, CRef(name), i.c), Vec(decls[name].isUnsigned, size)), env)
  {
    hide Pow2, Op, C;
    if VHDL(VSlice(name, size, i.v), env).Some? {
      var k := VHDL(i.v, env).value.i;
      SliceValue(name, i.c, k, decls, env);
      BitsBelow(env[name].c, decls[name].n, k, size);
    }
  }

  /** The generated VHDL and C agree: wherever the VHDL has a value, the C is defined and its
      value, reduced to the width of the type, is the same; booleans and naturals without
      reduction. */
  lemma {:induction false} GenerateAgrees(e: Expr, decls: Decls, env: Env)
    requires Stored(decls, env) && Generate(e, decls).Some? && Sized(e, decls) && Tame(e, decls, env)
    ensures Agrees(Generate(e, decls).value, env)
    decreases e, 1
  {
    hide Agrees, Cast, Unary, Binary, Repr, KeepsUp, ComplementFits, VHDL, C, Coerced, Emit;
    match e
    case Ref(name) => RefAgrees(name, decls, env);
    case Lit(v, ty) => LiteralAgrees(v, ty, env);
    case Index(name, index) =>
      GenerateAgrees(index, decls, env);
      IndexAgrees(name, Generate(index, decls).value, decls, env);
    case Slice(name, size, index) =>
      GenerateAgrees(index, decls, env);
      SliceAgrees(name, size, Generate(index, decls).value, decls, env);
    case CastTo(arg, to, explicit) =>
      GenerateAgrees(arg, decls, env);
      CastAgrees(Generate(arg, decls).value, to, explicit, env);
    case Un(op, arg) =>
      GenerateAgrees(arg, decls, env);
      UnaryAgrees(op, Generate(arg, decls).value, env);
    case Bin(op, left, right) =>
      BinAgrees(op, left, right, decls, env);
  }

  lemma RefAgrees(name: string, decls: Decls, env: Env)
    requires Stored(decls, env) && name in decls
    ensures Agrees(Code(VRef(name), CRef(name), decls[name]), env)
  {
  }

  lemma {:induction false} BinAgrees(op: BinOp, left: Expr, right: Expr, decls: Decls, env: Env)
    requires Stored(decls, env) && Generate(Bin(op, left, right), decls).Some?
    requires Sized(Bin(op, left, right), decls) && Tame(Bin(op, left, right), decls, env)
    ensures Agrees(Generate(Bin(op, left, right), decls).value, env)
    decreases Bin(op, left, right), 0
  {
    hide Agrees, Cast, Repr, KeepsUp, VHDL, C, Coerced, Emit;
    var a, b := Generate(left, decls).value, Generate(right, decls).value;
    var (x, y) := Coerced(op, a, b).value;
    GenerateAgrees(left, decls, env);
    if Decides(op, x, env) {
      DecidedAgrees(op, a, b, env);
    } else {
      GenerateAgrees(right, decls, env);
      CoercedAgree(op, a, b, env);
      EmitAgrees(op, x, y, env);
    }
  }

  lemma DecidedAgrees(op: BinOp, a: Code, b: Code, env: Env)
    requires Coerced(op, a, b).Some? && Agrees(a, env) && Decides(op, Coerced(op, a, b).value.0, env)
    ensures Agrees(Emit(op, Coerced(op, a, b).value.0, Coerced(op, a, b).value.1), env)
  {
    hide Agrees, Cast, Repr, Emit;
    var (x, y) := Coerced(op, a, b).value;
    CastAgrees(a, Boolean, false, env);
    CastTypes(b);
    LogicAgrees(op, x, y, env);
  }

  lemma CastTypes(b: Code)
    ensures Cast(b, Boolean, false).Some? ==> Cast(b, Boolean, false).value.ty == Boolean
  {
  }

  // ---------------------------------------------------------------- exactly where C keeps up

  /** Both texts have a value, and they stand for the same. */
  predicate Valued(a: Code, env: Env) {
    Agrees(a, env) && VHDL(a.v, env).Some?
  }

  /** A concatenation agrees exactly when the left operand, moved up, fits the type that C
      shifts it in. */
  lemma CatExact(a: Code, b: Code, env: Env)
    requires a.ty.Vec? && b.ty.Vec? && Valued(a, env) && Valued(b, env) && a.ty.n + b.ty.n <= 64
    ensures Agrees(Emit(Cat, a, b), env) <==> ShiftFits(C(a.c, env).value, b.ty.n, a.ty.n + b.ty.n)
  {
    hide *;
    CatValued(a, b, env);
    if ShiftFits(C(a.c, env).value, b.ty.n, a.ty.n + b.ty.n) { CatKept(a, b, env); } else { CatDiffers(a, b, env); }
  }

  lemma CatValued(a: Code, b: Code, env: Env)
    requires a.ty.Vec? && b.ty.Vec? && Valued(a, env) && Valued(b, env)
    ensures C(a.c, env).Some? && C(b.c, env).Some?
  {
    hide VHDL, C;
  }

  lemma CatKept(a: Code, b: Code, env: Env)
    requires a.ty.Vec? && b.ty.Vec? && Valued(a, env) && Valued(b, env) && a.ty.n + b.ty.n <= 64
    requires ShiftFits(C(a.c, env).value, b.ty.n, a.ty.n + b.ty.n)
    ensures Agrees(Emit(Cat, a, b), env)
  {
    hide Pow2, VHDL, C, Emit, ShiftFits, Agrees;
    CatAgrees(a, b, env);
  }

  lemma CatDiffers(a: Code, b: Code, env: Env)
    requires a.ty.Vec? && b.ty.Vec? && Valued(a, env) && Valued(b, env) && a.ty.n + b.ty.n <= 64
    requires !ShiftFits(C(a.c, env).value, b.ty.n, a.ty.n + b.ty.n)
    ensures !Agrees(Emit(Cat, a, b), env)
  {
    hide Pow2, Op, VHDL, C, Masked, CBinary, VHDLBin, ShiftFits, CShift, Agrees;
    CatParts(a, b, env);
    var m, k, x, y := a.ty.n, b.ty.n, C(a.c, env).value, C(b.c, env).value;
    CatCode(a.c, b.c, k, env);
    if CShift(CShl, x, k).Some? { CatLost(x, m, k, y.v % Pow2(k)); }
    Differs(Emit(Cat, a, b), m + k, x.v % Pow2(m) * Pow2(k) + y.v % Pow2(k), env);
  }

  lemma CatParts(a: Code, b: Code, env: Env)
    requires a.ty.Vec? && b.ty.Vec? && Valued(a, env) && Valued(b, env)
    ensures C(a.c, env).Some? && C(b.c, env).Some? && 1 <= a.ty.n && 1 <= b.ty.n <= 64
    ensures var m, k, x, y := a.ty.n, b.ty.n, C(a.c, env).value, C(b.c, env).value;
      InRange(x.ty, x.v) && VHDL(Emit(Cat, a, b).v, env) == Some(VVec(m + k, x.v % Pow2(m) * Pow2(k) + y.v % Pow2(k)))
  {
    hide Pow2, Op, VHDL, C, VHDLBin, Agrees;
    VectorValue(a, env);
    VectorValue(b, env);
    var m, k, x, y := a.ty.n, b.ty.n, C(a.c, env).value, C(b.c, env).value;
    BinVHDL(VCat, a.v, b.v, env);
    CatVHDL(m, x.v % Pow2(m), k, y.v % Pow2(k));
  }

  lemma VectorValue(a: Code, env: Env)
    requires a.ty.Vec? && Valued(a, env)
    ensures C(a.c, env).Some? && 1 <= a.ty.n <= 64
    ensures var x := C(a.c, env).value; InRange(x.ty, x.v) && VHDL(a.v, env) == Some(VVec(a.ty.n, x.v % Pow2(a.ty.n)))
  {
    hide Pow2, VHDL, C;
  }

  /** Code whose C has no value or one with other low bits than the VHDL. */
  lemma Differs(a: Code, n: nat, x: int, env: Env)
    requires a.ty.Vec? && a.ty.n == n && VHDL(a.v, env) == Some(VVec(n, x))
    requires C(a.c, env).Some? ==> C(a.c, env).value.v % Pow2(n) != x
    ensures !Agrees(a, env)
  {
    hide Pow2, VHDL, C;
  }

  /** The C of a concatenation, by its shift. */
  lemma CatCode(a: CExpr, b: CExpr, k: nat, env: Env)
    requires C(a, env).Some? && C(b, env).Some? && 1 <= k <= 64
    ensures var c := CBin(COr, CBin(CShl, a, CLit(k)), Masked(b, k)); var s := CShift(CShl, C(a, env).value, k);
      C(c, env) == if s.None? then None else CBinary(COr, s.value, CValue(UInt64, C(b, env).value.v % Pow2(k)))
  {
    hide Pow2, Op, C, Masked, CBinary, CShift;
    LitValue(k, env);
    BinValue(CShl, a, CLit(k), env);
    ShiftCount(CShl, C(a, env).value, CValue(UInt64, k));
    MaskValue(b, k, env);
    if CShift(CShl, C(a, env).value, k).Some? {
      BinValue(COr, CBin(CShl, a, CLit(k)), Masked(b, k), env);
    } else {
      NoLeft(COr, CBin(CShl, a, CLit(k)), Masked(b, k), env);
    }
  }

  lemma BinVHDL(op: VOp, l: VExpr, r: VExpr, env: Env)
    requires VHDL(l, env).Some? && VHDL(r, env).Some? && !VHDL(l, env).value.VBool?
    ensures VHDL(VBin(op, l, r), env) == VHDLBin(op, VHDL(l, env).value, VHDL(r, env).value)
  {
    hide Pow2, Op, VHDLBin;
  }

  lemma NoLeft(op: COp, l: CExpr, r: CExpr, env: Env)
    requires C(l, env).None?
    ensures C(CBin(op, l, r), env).None?
  {
  }

  /** Bits shifted out of a 32-bit word are missing from the concatenation. */
  lemma CatLost(x: CValue, m: nat, k: nat, b: nat)
    requires InRange(x.ty, x.v) && 1 <= k && m + k <= 64 && b < Pow2(k)
    requires CShift(CShl, x, k).Some? && !ShiftFits(x, k, m + k)
    ensures var r := CBinary(COr, CShift(CShl, x, k).value, CValue(UInt64, b));
      r.Some? ==> r.value.v % Pow2(m + k) != x.v % Pow2(m) * Pow2(k) + b
  {
    hide Pow2, Op, ReachesTo, ShiftFits, CShift, CBinary;
    LostIn32(x, m, k);
    var s := CShift(CShl, x, k).value.v;
    ShiftedLow(x, k, m + k);
    LostBits(x.v, k, b);
    Joined(x.v, m, k, b);
    if (s + b) % Pow2(m + k) == (x.v * Pow2(k) + b) % Pow2(m + k) {
      SameAfter(s, x.v * Pow2(k), b, Pow2(m + k));
    }
  }

  lemma SameAfter(s: int, v: int, b: int, d: int)
    requires d > 0 && (s + b) % d == (v + b) % d
    ensures s % d == v % d
  {
    var p, q, r := (s + b) / d, (v + b) / d, (s + b) % d;
    assert s + b == p * d + r && v + b == q * d + r;
    Division.DivAdd(p - q, d, v);
  }

  lemma LostIn32(x: CValue, m: nat, k: nat)
    requires InRange(x.ty, x.v) && 1 <= k && m + k <= 64
    requires CShift(CShl, x, k).Some? && !ShiftFits(x, k, m + k)
    ensures x.ty == UInt32 && k < 32 && CShift(CShl, x, k) == Some(CValue(UInt32, x.v * Pow2(k) % 0x1_0000_0000))
  {
    hide Pow2, Op;
  }

  lemma LostBits(v: nat, k: nat, b: nat)
    requires 1 <= k < 32 && b < Pow2(k)
    ensures var s := v * Pow2(k) % 0x1_0000_0000;
      CBinary(COr, CValue(UInt32, s), CValue(UInt64, b)) == Some(CValue(UInt64, s + b))
  {
    hide Pow2, Op, CBinary;
    PowersOfTwo();
    Pow2Mono(k, 64);
    Pow2Add(32 - k, k);
    Division.ScaledMod(v, Pow2(k), Pow2(32 - k));
    LowOr(v % Pow2(32 - k), k, b);
    OrValue(v * Pow2(k) % 0x1_0000_0000, b);
  }

  lemma OrValue(s: nat, b: nat)
    requires s < Pow2(32) && b < Pow2(64)
    ensures CBinary(COr, CValue(UInt32, s), CValue(UInt64, b)) == Some(CValue(UInt64, Op(Or, 64, s, b)))
  {
    hide Pow2, Op;
    PowersOfTwo();
    Division.Small(s, Pow2(64));
    Division.Small(b, Pow2(64));
  }

  lemma LowOr(h: nat, k: nat, b: nat)
    requires 1 <= k < 32 && h < Pow2(32 - k) && b < Pow2(k)
    ensures 0 <= h * Pow2(k) < Pow2(32) && h * Pow2(k) + b < Pow2(32)
    ensures Op(Or, 64, h * Pow2(k), b) == h * Pow2(k) + b
  {
    hide Pow2, Op;
    PowersOfTwo();
    Pow2Add(32 - k, k);
    Division.InRange(Pow2(k), Pow2(32 - k), h, b);
    OrShifted(64, h, k, b);
    Division.Small(h * Pow2(k) + b, Pow2(64));
  }

  /** A bitwise operation agrees exactly when no lost sign reaches the bits of the vector. */
  lemma GateExact(op: BinOp, a: Code, b: Code, env: Env)
    requires Gating(op) && a.ty.Vec? && b.ty == a.ty && Valued(a, env) && Valued(b, env)
    ensures var x, y := C(a.c, env).value, C(b.c, env).value;
      Agrees(Emit(op, a, b), env) <==> GateFits(op, Common(x.ty, y.ty), a.ty.n, x.v, y.v)
  {
    hide Pow2, Op, VHDL, C, CBinary, GateFits;
    var x, y := C(a.c, env).value, C(b.c, env).value;
    BinVHDL(VOpOf(op), a.v, b.v, env);
    BinValue(COpOf(op), a.c, b.c, env);
    GateValue(op, x, y, a.ty.n);
  }

  /** A sum or difference of vectors agrees exactly when it fits. */
  lemma SumExact(op: BinOp, a: Code, b: Code, env: Env)
    requires (op == Plus || op == Minus) && a.ty.Vec? && b.ty == a.ty && Valued(a, env) && Valued(b, env)
    ensures var x, y := C(a.c, env).value, C(b.c, env).value;
      Agrees(Emit(op, a, b), env) <==> SumFits(Common(x.ty, y.ty), a.ty.n, Sum(op, x.v, y.v))
  {
    hide Pow2, Op, VHDL, C, CBinary, VHDLBin, SumFits;
    var x, y, n := C(a.c, env).value, C(b.c, env).value, a.ty.n;
    BinVHDL(VOpOf(op), a.v, b.v, env);
    BinValue(COpOf(op), a.c, b.c, env);
    SumVHDL(op, n, x.v % Pow2(n), y.v % Pow2(n));
    SumLow(op, x, y, n);
    SumCut(op, x.v, y.v, n);
  }

  /** A shift left agrees exactly when it fits the type that C shifts in. */
  lemma ShiftLeftExact(a: Code, b: Code, env: Env)
    requires a.ty.Vec? && b.ty == Natural && Valued(a, env) && Valued(b, env)
    ensures Agrees(Emit(ShiftLeft, a, b), env) <==> ShiftFits(C(a.c, env).value, C(b.c, env).value.v, a.ty.n)
  {
    hide Pow2, Op, VHDL, C, CBinary, VHDLBin, ShiftFits, CShift;
    var x, y := C(a.c, env).value, C(b.c, env).value;
    BinVHDL(VSll, a.v, b.v, env);
    ShiftVHDL(ShiftLeft, a.ty.n, x.v % Pow2(a.ty.n), y.v);
    BinValue(CShl, a.c, b.c, env);
    ShiftCount(CShl, x, y);
    ShiftedLow(x, y.v, a.ty.n);
    ShiftedCut(x.v, a.ty.n, y.v);
  }

  /** A shift right agrees exactly when the count is below the 64 bits that C masks to. */
  lemma ShiftRightExact(a: Code, b: Code, env: Env)
    requires a.ty.Vec? && b.ty == Natural && Valued(a, env) && Valued(b, env)
    ensures Agrees(Emit(ShiftRight, a, b), env) <==> C(b.c, env).value.v < 64
  {
    hide Pow2, Op, VHDL, C, Masked, CBinary, VHDLBin;
    var n, x, y := a.ty.n, C(a.c, env).value, C(b.c, env).value;
    if y.v < 64 {
      ShiftAgrees(ShiftRight, a, b, env);
    } else {
      BinVHDL(VSrl, a.v, b.v, env);
      ShiftVHDL(ShiftRight, n, x.v % Pow2(n), y.v);
      MaskValue(a.c, n, env);
      BinValue(CShr, Masked(a.c, n), b.c, env);
      ShiftCount(CShr, CValue(UInt64, x.v % Pow2(n)), y);
    }
  }

  /** A complement agrees exactly when it does not end at 32 bits before the vector does. */
  lemma ComplementExact(a: Code, env: Env)
    requires a.ty.Vec? && Valued(a, env)
    ensures Agrees(Code(VCall(VNot, a.v), CCompl(a.c), a.ty), env) <==> ComplementFits(a, env)
  {
    hide Pow2, Op;
    if ComplementFits(a, env) {
      ComplementAgrees(a, env);
    } else {
      PowersOfTwo();
      CallValue(VNot, a.v, env);
      var x, n := C(a.c, env).value.v, a.ty.n;
      Pow2Add(32, n - 32);
      Pow2Mono(1, n - 32);
      Division.Small(x, Pow2(n));
      Division.Small(Pow2(32) - 1 - x, Pow2(n));
    }
  }

  /** A difference of naturals agrees exactly when it is a natural. */
  lemma MinusExact(a: Code, b: Code, env: Env)
    requires a.ty == b.ty == Natural && Valued(a, env) && Valued(b, env)
    ensures Agrees(Emit(Minus, a, b), env) <==> C(b.c, env).value.v <= C(a.c, env).value.v
  {
    hide Pow2, Op, VHDL, C, CBinary, Masked;
    if C(b.c, env).value.v <= C(a.c, env).value.v {
      NaturalAgrees(Minus, a, b, env);
    } else {
      BinVHDL(VSub, a.v, b.v, env);
    }
  }

  /** A comparison of vectors agrees exactly when what C has above them does not change it. */
  lemma RelationExact(op: BinOp, a: Code, b: Code, env: Env)
    requires Relational(op) && a.ty.Vec? && b.ty == a.ty && Valued(a, env) && Valued(b, env)
    ensures var x, y := C(a.c, env).value, C(b.c, env).value;
      Agrees(Emit(op, a, b), env) <==> RelationFits(VOpOf(op), Common(x.ty, y.ty), a.ty.n, x.v, y.v)
  {
    hide Pow2, Op, VHDL, C, CBinary, VHDLBin, Compare, RelationFits, Convert;
    var x, y := C(a.c, env).value, C(b.c, env).value;
    BinVHDL(VOpOf(op), a.v, b.v, env);
    BinValue(COpOf(op), a.c, b.c, env);
    CompareVHDL(op, VHDL(a.v, env).value, VHDL(b.v, env).value);
    CompareValue(op, x, y);
    RelationValue(VOpOf(op), x, y, a.ty.n);
  }

  /** The C value is the VHDL value, without anything in the bits above. */
  predicate Canonical(a: Code, env: Env) {
    a.ty.Vec? && Valued(a, env) && C(a.c, env).value.v == VHDL(a.v, env).value.x
  }

  /** All comparisons of operands without garbage agree, and those of operands with the same
      garbage. */
  lemma CanonicalCompare(op: BinOp, a: Code, b: Code, env: Env)
    requires Relational(op) && b.ty == a.ty && Canonical(a, env) && Canonical(b, env)
    ensures Agrees(Emit(op, a, b), env)
  {
    hide Pow2, Op, VHDL, C, Compare;
    var x, y := C(a.c, env).value, C(b.c, env).value;
    RelationExact(op, a, b, env);
    WideEnough(x.ty, Common(x.ty, y.ty), x.v);
    WideEnough(y.ty, Common(x.ty, y.ty), y.v);
    Division.Small(x.v, Pow2(a.ty.n));
    Division.Small(y.v, Pow2(a.ty.n));
  }

  /** An operand of fewer than 64 bits compares right with every literal of its type exactly
      when it is without garbage. */
  lemma CanonicalExact(a: Code, env: Env)
    requires a.ty.Vec? && a.ty.n < 64 && Valued(a, env)
    ensures Canonical(a, env) <==> forall z: nat :: z < Pow2(a.ty.n) ==> Agrees(Emit(Equal, a, Literal(z, a.ty)), env)
  {
    hide Pow2, Op, VHDL, C, Compare, Emit;
    var n, x := a.ty.n, VHDL(a.v, env).value.x;
    if Canonical(a, env) {
      forall z: nat | z < Pow2(n) ensures Agrees(Emit(Equal, a, Literal(z, a.ty)), env) {
        LiteralValued(z, a.ty, env);
        CanonicalCompare(Equal, a, Literal(z, a.ty), env);
      }
    } else {
      LiteralValued(x, a.ty, env);
      LiteralTells(a, env);
    }
  }

  lemma LiteralValued(z: nat, ty: Ty, env: Env)
    requires ty.Vec? && z < Pow2(ty.n) && 1 <= ty.n < 64
    ensures Canonical(Literal(z, ty), env) && C(CLit(z), env) == Some(CValue(UInt64, z))
  {
    hide Pow2, Op;
    PowersOfTwo();
    Pow2Mono(ty.n, 64);
    Division.Small(z, Pow2(ty.n));
  }

  lemma LiteralTells(a: Code, env: Env)
    requires a.ty.Vec? && a.ty.n < 64 && Valued(a, env) && !Canonical(a, env)
    ensures !Agrees(Emit(Equal, a, Literal(VHDL(a.v, env).value.x, a.ty)), env)
  {
    hide Pow2, Op, VHDL, C, Emit, RelationFits;
    var n, x, z := a.ty.n, C(a.c, env).value, VHDL(a.v, env).value.x;
    LiteralValued(z, a.ty, env);
    RelationExact(Equal, a, Literal(z, a.ty), env);
    if RelationFits(VEq, UInt64, n, x.v, z) { LiteralFits(x, n, z); }
  }

  lemma LiteralFits(x: CValue, n: nat, z: nat)
    requires InRange(x.ty, x.v) && n < 64 && z == x.v % Pow2(n) && RelationFits(VEq, UInt64, n, x.v, z)
    ensures x.v == z
  {
    hide Pow2;
    PowersOfTwo();
    Pow2Mono(n, 64);
    Division.Small(z, Pow2(n));
    Division.Small(z, Pow2(64));
    ConvertLow(UInt64, x.v, n);
    var u := x.v % Pow2(64);
    Recomposed(u, n);
    NotNegative(x, n);
    Division.Small(x.v, Pow2(64));
  }

  lemma Recomposed(u: nat, n: nat)
    requires u / Pow2(n) == 0
    ensures u == u % Pow2(n)
  {
    hide Pow2;
    assert u == u / Pow2(n) * Pow2(n) + u % Pow2(n);
  }

  /** A negative int has bits above any vector of fewer than 64. */
  lemma NotNegative(x: CValue, n: nat)
    requires InRange(x.ty, x.v) && n < 64 && x.v % Pow2(64) < Pow2(n)
    ensures 0 <= x.v < Pow2(64)
  {
    hide Pow2;
    PowersOfTwo();
    Pow2Mono(n, 63);
    Pow2Add(63, 1);
    if x.v < 0 { Division.Parts(x.v, Pow2(64), -1, x.v + Pow2(64)); }
  }

  /** What is asked of the operands of an operator is exactly what agreement takes. */
  lemma KeepsUpExact(op: BinOp, a: Code, b: Code, env: Env)
    requires CoercedTo(op, a.ty, b.ty) && Valued(a, env) && Valued(b, env)
    requires VHDL(Emit(op, a, b).v, env).Some? && (op == Cat ==> a.ty.n + b.ty.n <= 64)
    ensures Agrees(Emit(op, a, b), env) <==> KeepsUp(op, a, b, env)
  {
    hide Agrees, VHDL, C, Emit, ShiftFits, SumFits, GateFits, RelationFits, Common, Pow2;
    if !a.ty.Vec? {
      if op == Minus { MinusExact(a, b, env); } else { EmitAgrees(op, a, b, env); }
    } else if Gating(op) {
      GateExact(op, a, b, env);
    } else if op == Cat {
      CatExact(a, b, env);
    } else if op == Plus || op == Minus {
      SumExact(op, a, b, env);
    } else if op == ShiftLeft {
      ShiftLeftExact(a, b, env);
    } else if op == ShiftRight {
      ShiftRightExact(a, b, env);
    } else {
      RelationExact(op, a, b, env);
    }
  }

  /** The variables of two examples. */
  const BYTES: Decls := map["a" := Vec(false, 8), "b" := Vec(false, 8)]
  const ZERO_AND_ONES: Env := map["a" := Slot(VVec(8, 0), Int32, 0), "b" := Slot(VVec(8, 255), Int32, 255)]
  const WORD_AND_BYTE: Decls := map["a" := Vec(false, 32), "b" := Vec(false, 8)]
  const TOP_AND_ONE: Env := map["a" := Slot(VVec(32, 0x8000_0000), UInt32, 0x8000_0000),
    "b" := Slot(VVec(8, 1), Int32, 1)]

  lemma ExamplesStored()
    ensures Stored(BYTES, ZERO_AND_ONES) && Stored(WORD_AND_BYTE, TOP_AND_ONE)
  {
    hide Pow2;
    PowersOfTwo();
  }

  /** The complement of an 8-bit vector is an int in C and keeps its high bits: compared with
      a variable that holds the same eight bits, it differs. */
  lemma GarbageCompared()
    ensures Stored(BYTES, ZERO_AND_ONES)
    ensures var code := Generate(Bin(Equal, Un(Compl, Ref("a")), Ref("b")), BYTES);
      && code.Some? && VHDL(code.value.v, ZERO_AND_ONES) == Some(VBool(true))
      && C(code.value.c, ZERO_AND_ONES) == Some(CValue(Int32, 0))
  {
    hide Pow2, Op, Stored, VHDL, C, Cast;
    ExamplesStored();
    var left := Un(Compl, Ref("a"));
    var a, b := Code(VCall(VNot, VRef("a")), CCompl(CRef("a")), Vec(false, 8)),
      Code(VRef("b"), CRef("b"), Vec(false, 8));
    assert Generate(left, BYTES) == Some(a);
    SameSize(a);
    SameSize(b);
    PowersOfTwo();
    GarbageValues();
    assert Generate(Bin(Equal, left, Ref("b")), BYTES)
      == Some(Code(VBin(VEq, a.v, b.v), CBin(CEq, a.c, b.c), Boolean));
  }

  /** Compared with another complement it does not: both have the same bits above. */
  lemma {:induction false} ComplementsCompared(op: BinOp, env: Env)
    requires Relational(op) && Stored(BYTES, env) && env["a"].c < 0x100 && env["b"].c < 0x100
    ensures var code := Generate(Bin(op, Un(Compl, Ref("a")), Un(Compl, Ref("b"))), BYTES);
      code.Some? && VHDL(code.value.v, env).Some? && Agrees(code.value, env)
  {
    hide *;
    var a, b := ComplementCode("a"), ComplementCode("b");
    ComplementOfByte("a", env);
    ComplementOfByte("b", env);
    ComplementsEmitted(op);
    RelationExact(op, a, b, env);
    BothNegative(VOpOf(op), C(a.c, env).value.v, C(b.c, env).value.v);
    ComplementsValued(op, a, b, env);
  }

  function ComplementCode(name: string): (a: Code)
    ensures a.ty == Vec(true, 8)
  {
    Code(VCall(VNot, VRef(name)), CCompl(CRef(name)), Vec(true, 8))
  }

  lemma ComplementsEmitted(op: BinOp)
    requires Relational(op)
    ensures Generate(Bin(op, Un(Compl, Ref("a")), Un(Compl, Ref("b"))), BYTES)
      == Some(Emit(op, ComplementCode("a"), ComplementCode("b")))
  {
    hide Binary, Emit;
    var a, b := ComplementCode("a").(ty := Vec(false, 8)), ComplementCode("b").(ty := Vec(false, 8));
    ComplementGenerated("a");
    ComplementGenerated("b");
    BytesCompared(op, a, b);
    assert Generate(Bin(op, Un(Compl, Ref("a")), Un(Compl, Ref("b"))), BYTES) == Binary(op, a, b);
  }

  lemma ComplementGenerated(name: string)
    requires name in BYTES
    ensures Generate(Un(Compl, Ref(name)), BYTES) == Some(ComplementCode(name).(ty := Vec(false, 8)))
  {
  }

  lemma BytesCompared(op: BinOp, a: Code, b: Code)
    requires Relational(op) && a.ty == b.ty == Vec(false, 8)
    ensures Binary(op, a, b) == Some(Emit(op, a.(ty := Vec(true, 8)), b.(ty := Vec(true, 8))))
  {
    hide Cast, Emit;
    SameSize(a);
    SameSize(b);
  }

  lemma ComplementsValued(op: BinOp, a: Code, b: Code, env: Env)
    requires Relational(op) && a.ty == b.ty == Vec(true, 8) && Valued(a, env) && Valued(b, env)
    ensures VHDL(Emit(op, a, b).v, env).Some?
  {
    hide Pow2, Op, VHDL, C, VHDLBin;
    BinVHDL(VOpOf(op), a.v, b.v, env);
    CompareVHDL(op, VHDL(a.v, env).value, VHDL(b.v, env).value);
  }

  lemma {:induction false} ComplementOfByte(name: string, env: Env)
    requires (name == "a" || name == "b") && Stored(BYTES, env) && env[name].c < 0x100
    ensures var a := ComplementCode(name);
      Valued(a, env) && C(a.c, env).Some? && C(a.c, env).value.ty == Int32 && -0x100 <= C(a.c, env).value.v < 0
  {
    hide Pow2, Op;
    RefAgrees(name, BYTES, env);
    var v := Code(VRef(name), CRef(name), Vec(true, 8));
    ComplementAgrees(v, env);
    CallValue(VNot, VRef(name), env);
  }

  lemma BothNegative(op: VOp, x: int, y: int)
    requires -0x100 <= x < 0 && -0x100 <= y < 0
    ensures RelationFits(op, Common(Int32, Int32), 8, x, y)
  {
    hide Pow2;
    PowersOfTwo();
    Division.Parts(x, 0x100, -1, x + 0x100);
    Division.Parts(y, 0x100, -1, y + 0x100);
  }

  lemma SameSize(a: Code)
    requires a.ty == Vec(false, 8)
    ensures Cast(a, Vec(true, 8), false) == Some(Code(a.v, a.c, Vec(true, 8)))
  {
  }

  lemma GarbageValues()
    ensures VHDL(VBin(VEq, VCall(VNot, VRef("a")), VRef("b")), ZERO_AND_ONES) == Some(VBool(true))
    ensures C(CBin(CEq, CCompl(CRef("a")), CRef("b")), ZERO_AND_ONES) == Some(CValue(Int32, 0))
  {
    hide Pow2, Op;
    PowersOfTwo();
    assert VHDL(VCall(VNot, VRef("a")), ZERO_AND_ONES) == Some(VVec(8, 255));
    assert C(CCompl(CRef("a")), ZERO_AND_ONES) == Some(CValue(Int32, -1));
  }

  /** The top bit of the left operand is lost in a concatenation of 32 and 8 bits. */
  lemma ConcatenationLost()
    ensures Stored(WORD_AND_BYTE, TOP_AND_ONE)
    ensures var code := Generate(Bin(Cat, Ref("a"), Ref("b")), WORD_AND_BYTE);
      && code.Some? && VHDL(code.value.v, TOP_AND_ONE) == Some(VVec(40, 0x80_0000_0001))
      && C(code.value.c, TOP_AND_ONE) == Some(CValue(UInt64, 1))
  {
    hide Pow2, Op, C, Stored, VHDL, CBinary;
    ExamplesStored();
    PowersOfTwo();
    RefValue("a", TOP_AND_ONE);
    RefValue("b", TOP_AND_ONE);
    RefVHDL("a", TOP_AND_ONE);
    RefVHDL("b", TOP_AND_ONE);
    BinVHDL(VCat, VRef("a"), VRef("b"), TOP_AND_ONE);
    CatVHDL(32, 0x8000_0000, 8, 1);
    CatCode(CRef("a"), CRef("b"), 8, TOP_AND_ONE);
    OrOne();
  }

  lemma RefVHDL(name: string, env: Env)
    requires name in env
    ensures VHDL(VRef(name), env) == Some(env[name].vhdl)
  {
  }

  lemma OrOne()
    ensures CBinary(COr, CValue(UInt32, 0), CValue(UInt64, 1)) == Some(CValue(UInt64, 1))
  {
    hide Pow2, Op;
    PowersOfTwo();
    OrShifted(64, 0, 8, 1);
  }
}
