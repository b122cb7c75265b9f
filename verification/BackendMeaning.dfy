/** What an expression of the source language means, in integers (config/scripts/code/back_end.py):
    the types and values that its operators are documented to have, without either of the
    languages that are generated. */
module BackendMeaning {
  import opened Powers
  import opened BackendTargets
  import opened Backend
  import opened BackendProgram
  import Bitwise
  import Division

  // ---------------------------------------------------------------- types

  /** The casts that are made without being asked for lose nothing but on the way to a boolean. */
  predicate Castable(from: Ty, to: Ty, explicit: bool) {
    explicit || !from.Vec? || ((to == Natural ==> from.n <= 31) && (to == Bit ==> from.n <= 1))
  }

  /** One bit that gates a vector. */
  predicate OneBit(ty: Ty) {
    ty == Boolean || ty == Bit || (ty.Vec? && ty.n == 1)
  }

  function BinType(op: BinOp, s: Ty, t: Ty): Option<Ty> {
    match op
    case LAnd => Some(Boolean) case LXor => Some(Boolean) case LOr => Some(Boolean)
    case BAnd => GateType(s, t) case BXor => GateType(s, t) case BOr => GateType(s, t)
    case Cat => if Numeric(s) || Numeric(t) then None else Some(Vec(s.Vec? && s.isUnsigned, SizeOf(s) + SizeOf(t)))
    case Plus => Some(SumType(s, t)) case Minus => Some(SumType(s, t))
    case Times => if Numeric(s) && Numeric(t) then Some(Natural) else None
    case Over => if Numeric(s) && Numeric(t) then Some(Natural) else None
    case Rem => if Numeric(s) && Numeric(t) then Some(Natural) else None
    case ShiftLeft => ShiftType(s, t) case ShiftRight => ShiftType(s, t)
    case _ => Some(Boolean)
  }

  /** Naturals, two bits, vectors of one size, or a vector and one bit. */
  function GateType(s: Ty, t: Ty): Option<Ty> {
    if Numeric(s) && Numeric(t) then Some(Natural)
    else if s == Bit && t == Bit then Some(Bit)
    else if s.Vec? && t.Vec? && s.n == t.n then Some(s)
    else if t.Vec? && OneBit(s) then Some(t)
    else if s.Vec? && (t == Boolean || t == Bit) then Some(s)
    else None
  }

  /** A natural, or a vector with room for the carry, of at most 64 bits. */
  function SumType(s: Ty, t: Ty): Ty {
    if Numeric(s) && Numeric(t) then Natural
    else
      var size := if SizeOf(s) > SizeOf(t) then SizeOf(s) else SizeOf(t);
      Vec(true, if size < 64 then size + 1 else 64)
  }

  function ShiftType(s: Ty, t: Ty): Option<Ty> {
    if !Numeric(t) || s == Bit then None else if s.Vec? then Some(Vec(true, s.n)) else Some(Natural)
  }

  /** The type of an expression, or None where there is an error. */
  function TypeOf(e: Expr, decls: Decls): Option<Ty> {
    match e
    case Ref(name) => if name in decls then Some(decls[name]) else None
    case Lit(v, ty) => if SizedTy(ty) && InLiteral(ty, v) then Some(ty) else None
    case Index(name, index) =>
      if name in decls && decls[name].Vec? && TypeOf(index, decls).Some? then Some(Bit) else None
    case Slice(name, size, index) =>
      if name in decls && decls[name].Vec? && 1 <= size <= decls[name].n && TypeOf(index, decls).Some?
      then Some(Vec(decls[name].isUnsigned, size)) else None
    case CastTo(arg, to, explicit) =>
      var s := TypeOf(arg, decls);
      if s.Some? && SizedTy(to) && Castable(s.value, to, explicit) then Some(to) else None
    case Un(op, arg) =>
      var s := TypeOf(arg, decls);
      if s.None? then None
      else if op == LNot then Some(Boolean)
      else if Numeric(s.value) then Some(Natural) else s
    case Bin(op, left, right) =>
      var s, t := TypeOf(left, decls), TypeOf(right, decls);
      if s.None? || t.None? then None else BinType(op, s.value, t.value)
  }

  // ---------------------------------------------------------------- values

  /** The number that a value of a type becomes as one of another. */
  function Converted(x: int, from: Ty, to: Ty): int {
    if from == to then x
    else match to
      case Boolean => Truth(x != 0)
      case Bit => Truth(x != 0)
      case Natural => x % 0x8000_0000
      case Vec(_, n) => x % Pow2(n)
  }

  /** A bitwise operation on w bits. */
  function Gates(op: BinOp, w: nat, x: int, y: int): nat {
    if w == 0 then 0
    else
      var p, q := x % 2 == 1, y % 2 == 1;
      2 * Gates(op, w - 1, x / 2, y / 2) + Truth(if op == BAnd then p && q else if op == BOr then p || q else p != q)
  }

  /** The operand of a bitwise operation on vectors of n bits; a single bit counts for all. */
  function Spread(ty: Ty, n: nat, x: int): int {
    if ty.Vec? && ty.n == n then x else if x != 0 then Pow2(n) - 1 else 0
  }

  function GateValueOf(op: BinOp, s: Ty, t: Ty, x: int, y: int): int {
    if Numeric(s) && Numeric(t) then Gates(op, 31, x, y)
    else if s == Bit && t == Bit then Gates(op, 1, x, y)
    else
      var n := if t.Vec? then t.n else SizeOf(s);
      Gates(op, n, Spread(s, n, x), Spread(t, n, y))
  }

  function BinNumber(op: BinOp, s: Ty, t: Ty, x: int, y: int): int {
    match op
    case LAnd => Truth(x != 0 && y != 0)
    case LXor => Truth((x != 0) != (y != 0))
    case LOr => Truth(x != 0 || y != 0)
    case Cat => x * Pow2(SizeOf(t)) + y
    case Plus => var r := SumType(s, t); if r.Vec? then (x + y) % Pow2(r.n) else x + y
    case Minus => var r := SumType(s, t); if r.Vec? then (x - y) % Pow2(r.n) else x - y
    case Times => x * y
    case Over => if y == 0 then 0 else x / y
    case Rem => if y == 0 then 0 else x % y
    case ShiftLeft => if y < 0 then 0 else if s.Vec? then x * Pow2(y) % Pow2(s.n) else x * Pow2(y)
    case ShiftRight => if y < 0 then 0 else x / Pow2(y)
    case Less => Truth(x < y)
    case LessEq => Truth(x <= y)
    case Greater => Truth(x > y)
    case GreaterEq => Truth(x >= y)
    case Equal => Truth(x == y)
    case NotEqual => Truth(x != y)
    case _ => GateValueOf(op, s, t, x, y)
  }

  type Store = map<string, int>

  /** The value of an expression, as a number, when the variables have the numbers of the store;
      of interest only where it has a type. */
  function Means(e: Expr, decls: Decls, store: Store): int {
    match e
    case Ref(name) => if name in store then store[name] else 0
    case Lit(v, ty) => v
    case Index(name, index) =>
      var k := Means(index, decls, store);
      if name in store && k >= 0 then store[name] / Pow2(k) % 2 else 0
    case Slice(name, size, index) =>
      var k := Means(index, decls, store);
      if name in store && k >= 0 then store[name] / Pow2(k) % Pow2(size) else 0
    case CastTo(arg, to, explicit) =>
      var s := TypeOf(arg, decls);
      if s.Some? then Converted(Means(arg, decls, store), s.value, to) else 0
    case Un(op, arg) =>
      var x, s := Means(arg, decls, store), TypeOf(arg, decls);
      if op == LNot then Truth(x == 0)
      else if s.None? then 0
      else if Numeric(s.value) then 0x7FFF_FFFF - x
      else Pow2(SizeOf(s.value)) - 1 - x
    case Bin(op, left, right) =>
      var s, t := TypeOf(left, decls), TypeOf(right, decls);
      if s.None? || t.None? then 0
      else BinNumber(op, s.value, t.value, Means(left, decls, store), Means(right, decls, store))
  }

  // ---------------------------------------------------------------- the generator's types

  lemma CastType(a: Code, to: Ty, explicit: bool)
    ensures Cast(a, to, explicit).Some? <==> Castable(a.ty, to, explicit)
    ensures Cast(a, to, explicit).Some? ==> Cast(a, to, explicit).value.ty == to
  {
  }

  /** What Binary makes of the types. */
  ghost predicate Typed(op: BinOp, a: Code, b: Code) {
    var r, ty := Binary(op, a, b), BinType(op, a.ty, b.ty);
    (r.Some? <==> ty.Some?) && (r.Some? ==> r.value.ty == ty.value)
  }

  lemma BothTypes(a: Code, b: Code, ty: Ty)
    ensures Both(a, b, ty).Some? <==> Castable(a.ty, ty, false) && Castable(b.ty, ty, false)
    ensures Both(a, b, ty).Some? ==> Both(a, b, ty).value.0.ty == ty == Both(a, b, ty).value.1.ty
  {
    hide Cast, Castable;
    CastType(a, ty, false);
    CastType(b, ty, false);
  }

  lemma VecCastable(from: Ty, uns: bool, n: nat)
    ensures Castable(from, Vec(uns, n), false)
  {
  }

  lemma LogicType(op: BinOp, a: Code, b: Code)
    requires Logical(op)
    ensures Typed(op, a, b)
  {
    hide Both;
    BothTypes(a, b, Boolean);
  }

  lemma GatesType(op: BinOp, a: Code, b: Code)
    requires Gating(op)
    ensures Typed(op, a, b)
  {
    hide Both, Gated, Filled;
    BothTypes(a, b, Natural);
    BothTypes(a, b, a.ty);
    GatedType(a, b);
    GatedType(b, a);
  }

  lemma GatedType(x: Code, y: Code)
    ensures Gated(x, y).Some? <==> x.ty.Vec? && OneBit(y.ty)
    ensures Gated(x, y).Some? ==> Gated(x, y).value.0 == x && Gated(x, y).value.1.ty == x.ty
  {
    hide Cast;
    CastType(y, Bit, false);
  }

  lemma CatType(a: Code, b: Code)
    ensures Typed(Cat, a, b)
  {
    hide Cast;
    var uns := a.ty.Vec? && a.ty.isUnsigned;
    CastType(a, Vec(uns, SizeOf(a.ty)), false);
    CastType(b, Vec(uns, SizeOf(b.ty)), false);
  }

  lemma SumsType(op: BinOp, a: Code, b: Code)
    requires op == Plus || op == Minus
    ensures Typed(op, a, b)
  {
    hide Both, Masked, VOpOf, COpOf;
    BothTypes(a, b, Natural);
    BothTypes(a, b, SumType(a.ty, b.ty));
  }

  lemma ProductType(op: BinOp, a: Code, b: Code)
    requires op == Times || op == Over || op == Rem
    ensures Typed(op, a, b)
  {
    hide Both, Masked, VOpOf, COpOf;
    BothTypes(a, b, Natural);
  }

  lemma ShiftsType(op: BinOp, a: Code, b: Code)
    requires op == ShiftLeft || op == ShiftRight
    ensures Typed(op, a, b)
  {
    hide Cast;
    CastType(a, if a.ty.Vec? then Vec(true, a.ty.n) else Natural, false);
    CastType(b, Natural, false);
  }

  /** What is generated for a relation. */
  lemma RelationCode(op: BinOp, a: Code, b: Code)
    requires Relational(op)
    ensures var r := if a.ty == Natural && b.ty == Natural then Some((a, b))
                     else Both(a, b, Vec(true, Max(SizeOf(a.ty), SizeOf(b.ty))));
      Binary(op, a, b) == if r.None? then None
        else var (p, q) := r.value; Some(Code(VBin(VOpOf(op), p.v, q.v), CBin(COpOf(op), p.c, q.c), Boolean))
  {
    hide Both, Masked, VOpOf, COpOf, Max, SizeOf, Gated;
  }

  lemma RelationType(op: BinOp, a: Code, b: Code)
    requires Relational(op)
    ensures Typed(op, a, b)
  {
    hide Both, VOpOf, COpOf, Castable, Binary;
    RelationCode(op, a, b);
    BothTypes(a, b, Vec(true, Max(SizeOf(a.ty), SizeOf(b.ty))));
    VecCastable(a.ty, true, Max(SizeOf(a.ty), SizeOf(b.ty)));
    VecCastable(b.ty, true, Max(SizeOf(a.ty), SizeOf(b.ty)));
  }

  lemma BinaryType(op: BinOp, a: Code, b: Code)
    ensures Typed(op, a, b)
  {
    hide Typed;
    if Logical(op) { LogicType(op, a, b); } else if Gating(op) { GatesType(op, a, b); }
    else if op == Cat { CatType(a, b); } else if Relational(op) { RelationType(op, a, b); }
    else if op == ShiftLeft || op == ShiftRight { ShiftsType(op, a, b); }
    else if op == Plus || op == Minus { SumsType(op, a, b); } else { ProductType(op, a, b); }
  }

  /** The generator reports an error exactly where there is no type, and gives the type. */
  lemma {:induction false} GeneratesType(e: Expr, decls: Decls)
    ensures Generate(e, decls).Some? <==> TypeOf(e, decls).Some?
    ensures Generate(e, decls).Some? ==> Generate(e, decls).value.ty == TypeOf(e, decls).value
  {
    hide Cast, Castable, Binary, BinType;
    match e
    case Ref(name) =>
    case Lit(v, ty) =>
    case Index(name, index) => GeneratesType(index, decls);
    case Slice(name, size, index) => GeneratesType(index, decls);
    case CastTo(arg, to, explicit) =>
      GeneratesType(arg, decls);
      if Generate(arg, decls).Some? { CastType(Generate(arg, decls).value, to, explicit); }
    case Un(op, arg) =>
      GeneratesType(arg, decls);
      if Generate(arg, decls).Some? { UnaryType(op, Generate(arg, decls).value); }
    case Bin(op, left, right) =>
      GeneratesType(left, decls);
      GeneratesType(right, decls);
      if Generate(left, decls).Some? && Generate(right, decls).Some? {
        BinaryType(op, Generate(left, decls).value, Generate(right, decls).value);
      }
  }

  lemma UnaryType(op: UnOp, a: Code)
    ensures Unary(op, a).Some?
    ensures Unary(op, a).value.ty == if op == LNot then Boolean else if Numeric(a.ty) then Natural else a.ty
  {
  }

  // ---------------------------------------------------------------- the values of the VHDL

  function Number(v: VValue): int {
    match v
    case VBool(b) => Truth(b)
    case VInt(i) => i
    case VBit(b) => Truth(b)
    case VVec(_, x) => x
  }

  predicate HasType(v: VValue, ty: Ty) {
    match ty
    case Boolean => v.VBool?
    case Natural => v.VInt? && v.i <= NATURAL_MASK
    case Bit => v.VBit?
    case Vec(_, n) => n >= 1 && v.VVec? && v.n == n && 0 <= v.x < Pow2(n)
  }

  /** Where it has a value, it is one of the type and stands for the number. */
  predicate Denotes(a: VExpr, ty: Ty, x: int, env: Env) {
    VHDL(a, env).Some? ==> HasType(VHDL(a, env).value, ty) && Number(VHDL(a, env).value) == x
  }

  lemma CastDenotes(a: Code, to: Ty, explicit: bool, x: int, env: Env)
    requires Cast(a, to, explicit).Some? && Denotes(a.v, a.ty, x, env) && (to.Vec? ==> to.n >= 1)
    ensures Denotes(Cast(a, to, explicit).value.v, to, Converted(x, a.ty, to), env)
  {
    hide Pow2, Denotes, Converted, Cast;
    ExplicitCast(a, to, explicit);
    match to
    case Boolean => BooleanDenotes(a, x, env);
    case Natural => NaturalDenotes(a, x, env);
    case Bit => BitDenotes(a, x, env);
    case Vec(uns, m) => VecDenotes(a, uns, m, x, env);
  }

  lemma BooleanDenotes(a: Code, x: int, env: Env)
    requires Cast(a, Boolean, true).Some? && Denotes(a.v, a.ty, x, env)
    ensures Denotes(Cast(a, Boolean, true).value.v, Boolean, Converted(x, a.ty, Boolean), env)
  {
    hide Pow2, Masked, NonZero;
    CallTwice(Bit2Bool, Vec2Bit, a.v, env);
    CallValue(Int2Bool, a.v, env);
    CallValue(Bit2Bool, a.v, env);
    hide VHDL;
  }

  lemma NaturalDenotes(a: Code, x: int, env: Env)
    requires Cast(a, Natural, true).Some? && Denotes(a.v, a.ty, x, env)
    ensures Denotes(Cast(a, Natural, true).value.v, Natural, Converted(x, a.ty, Natural), env)
  {
    hide Pow2, Masked, NonZero;
    CallTwice(Bool2Int, Bit2Bool, a.v, env);
    CallTwice(ToInteger, Resize(31), a.v, env);
    CallValue(Bool2Int, a.v, env);
    CallValue(ToInteger, a.v, env);
    PowersOfTwo();
    if a.ty.Vec? && a.ty.n <= 31 { Pow2Mono(a.ty.n, 31); }
    hide VHDL;
  }

  lemma BitDenotes(a: Code, x: int, env: Env)
    requires Cast(a, Bit, true).Some? && Denotes(a.v, a.ty, x, env)
    ensures Denotes(Cast(a, Bit, true).value.v, Bit, Converted(x, a.ty, Bit), env)
  {
    hide Pow2, Masked, NonZero;
    CallTwice(Bool2Bit, Int2Bool, a.v, env);
    CallValue(Bool2Bit, a.v, env);
    CallValue(Vec2Bit, a.v, env);
    hide VHDL;
  }

  lemma VecDenotes(a: Code, uns: bool, m: nat, x: int, env: Env)
    requires Cast(a, Vec(uns, m), true).Some? && Denotes(a.v, a.ty, x, env) && m >= 1
    ensures Denotes(Cast(a, Vec(uns, m), true).value.v, Vec(uns, m), Converted(x, a.ty, Vec(uns, m)), env)
  {
    hide Pow2, Masked, NonZero;
    CallTwice(Bit2Vec(m), Bool2Bit, a.v, env);
    CallValue(ToUnsigned(m), a.v, env);
    CallValue(Bit2Vec(m), a.v, env);
    CallValue(Resize(m), a.v, env);
    PowersOfTwo();
    Pow2Mono(1, m);
    if VHDL(a.v, env).Some? && 0 <= x < Pow2(m) { CutSmall(x, m); }
    hide VHDL;
  }

  // ---------------------------------------------------------------- the operators

  lemma {:induction false} GatesAre(op: BinOp, w: nat, x: int, y: int)
    requires Gating(op)
    ensures Gates(op, w, x, y) == Bitwise.Op(GateFor(op), w, x, y)
  {
    if w > 0 { GatesAre(op, w - 1, x / 2, y / 2); }
  }

  /** A binary operation that has a value, on operands that are not boolean. */
  lemma BinParts(op: VOp, l: VExpr, r: VExpr, env: Env)
    requires VHDL(VBin(op, l, r), env).Some? && (VHDL(l, env).Some? ==> !VHDL(l, env).value.VBool?)
    ensures VHDL(l, env).Some? && VHDL(r, env).Some?
    ensures VHDL(VBin(op, l, r), env) == VHDLBin(op, VHDL(l, env).value, VHDL(r, env).value)
  {
    hide Pow2, VHDLBin;
  }

  lemma LogicDenotes(op: BinOp, a: Code, b: Code, x: int, y: int, env: Env)
    requires Logical(op) && Binary(op, a, b).Some? && Denotes(a.v, a.ty, x, env) && Denotes(b.v, b.ty, y, env)
    ensures Denotes(Binary(op, a, b).value.v, Boolean, BinNumber(op, a.ty, b.ty, x, y), env)
  {
    hide Pow2, Denotes, Converted;
    var (p, q) := Coerced(op, a, b).value;
    CastDenotes(a, Boolean, false, x, env);
    CastDenotes(b, Boolean, false, y, env);
    assert Cast(a, Boolean, false).Some? && Cast(b, Boolean, false).Some?;
    hide Cast;
    ToTruth(a, p.v, x, env);
    ToTruth(b, q.v, y, env);
    LogicValue(op, p.v, q.v, x != 0, y != 0, env);
  }

  lemma SameConverted(x: int, ty: Ty)
    ensures Converted(x, ty, ty) == x
  {
  }

  lemma ToTruth(a: Code, v: VExpr, x: int, env: Env)
    requires Denotes(v, Boolean, Converted(x, a.ty, Boolean), env) && (a.ty == Boolean ==> Denotes(v, Boolean, x, env))
    ensures Denotes(v, Boolean, Truth(x != 0), env)
  {
    hide VHDL;
  }

  lemma LogicValue(op: BinOp, l: VExpr, r: VExpr, p: bool, q: bool, env: Env)
    requires Logical(op) && Denotes(l, Boolean, Truth(p), env) && Denotes(r, Boolean, Truth(q), env)
    ensures Denotes(VBin(VOpOf(op), l, r), Boolean,
      Truth(if op == LAnd then p && q else if op == LOr then p || q else p != q), env)
  {
    hide Pow2;
  }

  /** Operands of one type, as numbers of it. */
  lemma BothDenote(a: Code, b: Code, ty: Ty, x: int, y: int, env: Env)
    requires Both(a, b, ty).Some? && Denotes(a.v, a.ty, x, env) && Denotes(b.v, b.ty, y, env) && (ty.Vec? ==> ty.n >= 1)
    ensures var (p, q) := Both(a, b, ty).value;
      Denotes(p.v, ty, Converted(x, a.ty, ty), env) && Denotes(q.v, ty, Converted(y, b.ty, ty), env)
  {
    hide Pow2, Denotes, Converted, Cast;
    CastDenotes(a, ty, false, x, env);
    CastDenotes(b, ty, false, y, env);
  }

  /** Booleans and naturals are as naturals what they are. */
  lemma AsNatural(a: Code, v: VExpr, x: int, env: Env)
    requires Numeric(a.ty) && Denotes(a.v, a.ty, x, env) && Denotes(v, Natural, Converted(x, a.ty, Natural), env)
    requires VHDL(v, env).Some? ==> VHDL(a.v, env).Some?
    ensures Denotes(v, Natural, x, env)
  {
    hide VHDL;
  }

  /** A cast has a value only where its operand has. */
  lemma CastStrict(a: Code, to: Ty, env: Env)
    requires Cast(a, to, false).Some? && VHDL(Cast(a, to, false).value.v, env).Some?
    ensures VHDL(a.v, env).Some?
  {
    hide Pow2, VHDLCall, Masked, NonZero;
  }

  lemma NaturalsDenote(a: Code, b: Code, x: int, y: int, env: Env)
    requires Both(a, b, Natural).Some? && Numeric(a.ty) && Numeric(b.ty)
    requires Denotes(a.v, a.ty, x, env) && Denotes(b.v, b.ty, y, env)
    ensures var (p, q) := Both(a, b, Natural).value; Denotes(p.v, Natural, x, env) && Denotes(q.v, Natural, y, env)
  {
    hide Pow2, Denotes, Converted, Cast;
    BothDenote(a, b, Natural, x, y, env);
    var (p, q) := Both(a, b, Natural).value;
    if VHDL(p.v, env).Some? { CastStrict(a, Natural, env); }
    if VHDL(q.v, env).Some? { CastStrict(b, Natural, env); }
    AsNatural(a, p.v, x, env);
    AsNatural(b, q.v, y, env);
  }

  lemma NaturalValue(op: BinOp, l: VExpr, r: VExpr, x: int, y: int, env: Env)
    requires op == Plus || op == Minus || op == Times || op == Over || op == Rem
    requires Denotes(l, Natural, x, env) && Denotes(r, Natural, y, env)
    ensures Denotes(VBin(VOpOf(op), l, r), Natural, BinNumber(op, Natural, Natural, x, y), env)
  {
    hide Pow2, VHDL, Bitwise.Op;
    if VHDL(VBin(VOpOf(op), l, r), env).Some? { BinParts(VOpOf(op), l, r, env); }
  }

  lemma NaturalRelation(op: BinOp, l: VExpr, r: VExpr, x: int, y: int, env: Env)
    requires Relational(op) && Denotes(l, Natural, x, env) && Denotes(r, Natural, y, env)
    ensures Denotes(VBin(VOpOf(op), l, r), Boolean, BinNumber(op, Natural, Natural, x, y), env)
  {
    hide Pow2, VHDL, Bitwise.Op;
    if VHDL(VBin(VOpOf(op), l, r), env).Some? { BinParts(VOpOf(op), l, r, env); }
  }

  /** The types of its operands do not matter for a relation. */
  lemma RelationNumber(op: BinOp, s: Ty, t: Ty, s': Ty, t': Ty, x: int, y: int)
    requires Relational(op)
    ensures BinNumber(op, s, t, x, y) == BinNumber(op, s', t', x, y)
  {
  }

  lemma VectorSum(op: BinOp, l: VExpr, r: VExpr, ty: Ty, x: int, y: int, env: Env)
    requires (op == Plus || op == Minus) && ty.Vec? && Denotes(l, ty, x, env) && Denotes(r, ty, y, env)
    ensures Denotes(VBin(VOpOf(op), l, r), ty, (if op == Plus then x + y else x - y) % Pow2(ty.n), env)
  {
    hide Pow2, VHDL;
    if VHDL(VBin(VOpOf(op), l, r), env).Some? { BinParts(VOpOf(op), l, r, env); }
  }

  lemma VectorRelation(op: BinOp, l: VExpr, r: VExpr, ty: Ty, x: int, y: int, env: Env)
    requires Relational(op) && ty.Vec? && Denotes(l, ty, x, env) && Denotes(r, ty, y, env)
    ensures Denotes(VBin(VOpOf(op), l, r), Boolean, BinNumber(op, ty, ty, x, y), env)
  {
    hide Pow2, VHDL;
    if VHDL(VBin(VOpOf(op), l, r), env).Some? { BinParts(VOpOf(op), l, r, env); }
  }

  /** A value that is made a vector of at least its size is kept. */
  lemma CastKeeps(a: Code, uns: bool, n: nat, x: int, env: Env)
    requires Cast(a, Vec(uns, n), false).Some? && Denotes(a.v, a.ty, x, env) && n >= SizeOf(a.ty) && n >= 1
    ensures Denotes(Cast(a, Vec(uns, n), false).value.v, Vec(uns, n), x, env)
  {
    hide Pow2, Converted, Cast, HasType, Number, VHDL;
    var v := Cast(a, Vec(uns, n), false).value.v;
    CastDenotes(a, Vec(uns, n), false, x, env);
    if VHDL(v, env).Some? {
      CastStrict(a, Vec(uns, n), env);
      if a.ty.Natural? { CountCast(a, uns, n, env); }
      Fits(a, n, x, env);
      Division.Small(x, Pow2(n));
      ConvertedSame(a.ty, Vec(uns, n), x);
    }
  }

  lemma ConvertedSame(from: Ty, to: Ty, x: int)
    requires to.Vec? && x % Pow2(to.n) == x
    ensures Converted(x, from, to) == x
  {
  }

  /** Only a number that is not negative becomes a vector. */
  lemma CountCast(a: Code, uns: bool, n: nat, env: Env)
    requires a.ty.Natural? && Cast(a, Vec(uns, n), false).Some? && VHDL(Cast(a, Vec(uns, n), false).value.v, env).Some?
    ensures VHDL(a.v, env).Some? && (VHDL(a.v, env).value.VInt? ==> VHDL(a.v, env).value.i >= 0)
  {
    hide Pow2;
  }

  lemma Fits(a: Code, n: nat, x: int, env: Env)
    requires Denotes(a.v, a.ty, x, env) && VHDL(a.v, env).Some? && n >= SizeOf(a.ty) && n >= 1
    requires a.ty.Natural? && VHDL(a.v, env).value.VInt? ==> VHDL(a.v, env).value.i >= 0
    ensures 0 <= x < Pow2(n)
  {
    hide Pow2, VHDL;
    PowersOfTwo();
    Pow2Mono(1, n);
    Pow2Mono(SizeOf(a.ty), n);
  }

  lemma VectorsDenote(a: Code, b: Code, n: nat, x: int, y: int, env: Env)
    requires Both(a, b, Vec(true, n)).Some? && Denotes(a.v, a.ty, x, env) && Denotes(b.v, b.ty, y, env)
    requires n >= 1 && n >= SizeOf(a.ty) && n >= SizeOf(b.ty)
    ensures var (p, q) := Both(a, b, Vec(true, n)).value;
      Denotes(p.v, Vec(true, n), x, env) && Denotes(q.v, Vec(true, n), y, env)
  {
    hide Denotes, Cast;
    CastKeeps(a, true, n, x, env);
    CastKeeps(b, true, n, y, env);
  }

  lemma RelationDenotes(op: BinOp, a: Code, b: Code, x: int, y: int, env: Env)
    requires Relational(op) && Binary(op, a, b).Some? && Denotes(a.v, a.ty, x, env) && Denotes(b.v, b.ty, y, env)
    requires SizeOf(a.ty) >= 1
    ensures Denotes(Binary(op, a, b).value.v, Boolean, BinNumber(op, a.ty, b.ty, x, y), env)
  {
    hide Denotes, Both, BinNumber, Pow2, Binary, VOpOf, COpOf;
    RelationCode(op, a, b);
    if a.ty == Natural && b.ty == Natural {
      NaturalRelation(op, a.v, b.v, x, y, env);
    } else {
      var n := Max(SizeOf(a.ty), SizeOf(b.ty));
      RelationNumber(op, a.ty, b.ty, Vec(true, n), Vec(true, n), x, y);
      VectorsDenote(a, b, n, x, y, env);
      var (p, q) := Both(a, b, Vec(true, n)).value;
      VectorRelation(op, p.v, q.v, Vec(true, n), x, y, env);
    }
  }

  lemma ArithmeticDenotes(op: BinOp, a: Code, b: Code, x: int, y: int, env: Env)
    requires op == Plus || op == Minus || op == Times || op == Over || op == Rem
    requires Binary(op, a, b).Some? && Denotes(a.v, a.ty, x, env) && Denotes(b.v, b.ty, y, env)
    requires SizeOf(a.ty) >= 1 && SizeOf(a.ty) <= 64 && SizeOf(b.ty) <= 64
    ensures Denotes(Binary(op, a, b).value.v, BinType(op, a.ty, b.ty).value, BinNumber(op, a.ty, b.ty, x, y), env)
  {
    hide Denotes, Both, Pow2;
    BinaryType(op, a, b);
    if Numeric(a.ty) && Numeric(b.ty) {
      NaturalsDenote(a, b, x, y, env);
      var (p, q) := Both(a, b, Natural).value;
      NaturalValue(op, p.v, q.v, x, y, env);
    } else {
      var n := SumType(a.ty, b.ty).n;
      VectorsDenote(a, b, n, x, y, env);
      var (p, q) := Both(a, b, Vec(true, n)).value;
      VectorSum(op, p.v, q.v, Vec(true, n), x, y, env);
    }
  }

  lemma CatDenotes(a: Code, b: Code, x: int, y: int, env: Env)
    requires Binary(Cat, a, b).Some? && Denotes(a.v, a.ty, x, env) && Denotes(b.v, b.ty, y, env)
    requires SizeOf(a.ty) >= 1 && SizeOf(b.ty) >= 1
    ensures Denotes(Binary(Cat, a, b).value.v, BinType(Cat, a.ty, b.ty).value, BinNumber(Cat, a.ty, b.ty, x, y), env)
  {
    hide Denotes, Cast, Pow2;
    BinaryType(Cat, a, b);
    var uns := a.ty.Vec? && a.ty.isUnsigned;
    CastKeeps(a, uns, SizeOf(a.ty), x, env);
    CastKeeps(b, uns, SizeOf(b.ty), y, env);
    CastType(a, Vec(uns, SizeOf(a.ty)), false);
    CastType(b, Vec(uns, SizeOf(b.ty)), false);
    var (p, q) := Coerced(Cat, a, b).value;
    CatValueOf(p.v, q.v, uns, SizeOf(a.ty), SizeOf(b.ty), x, y, env);
  }

  lemma CatValueOf(l: VExpr, r: VExpr, uns: bool, m: nat, n: nat, x: int, y: int, env: Env)
    requires Denotes(l, Vec(uns, m), x, env) && Denotes(r, Vec(uns, n), y, env)
    ensures Denotes(VBin(VCat, l, r), Vec(uns, m + n), x * Pow2(n) + y, env)
  {
    hide Pow2, VHDL;
    if VHDL(VBin(VCat, l, r), env).Some? {
      BinParts(VCat, l, r, env);
      Pow2Add(m, n);
      Division.InRange(Pow2(n), Pow2(m), x, y);
    }
  }

  lemma ShiftDenotes(op: BinOp, a: Code, b: Code, x: int, y: int, env: Env)
    requires (op == ShiftLeft || op == ShiftRight) && Binary(op, a, b).Some?
    requires Denotes(a.v, a.ty, x, env) && Denotes(b.v, b.ty, y, env) && SizeOf(a.ty) >= 1
    ensures Denotes(Binary(op, a, b).value.v, BinType(op, a.ty, b.ty).value, BinNumber(op, a.ty, b.ty, x, y), env)
  {
    hide Denotes, Cast, Pow2;
    BinaryType(op, a, b);
    CountDenotes(b, y, env);
    var q := Cast(b, Natural, false).value;
    CastType(b, Natural, false);
    if a.ty.Vec? {
      CastType(a, Vec(true, a.ty.n), false);
      CastKeeps(a, true, a.ty.n, x, env);
      ShiftValue(op, Cast(a, Vec(true, a.ty.n), false).value.v, q.v, a.ty.n, x, y, env);
    } else {
      CastType(a, Natural, false);
      CountDenotes(a, x, env);
      PowerValue(op, Cast(a, Natural, false).value.v, q.v, x, y, env);
    }
  }

  lemma CountDenotes(a: Code, x: int, env: Env)
    requires Numeric(a.ty) && Cast(a, Natural, false).Some? && Denotes(a.v, a.ty, x, env)
    ensures Denotes(Cast(a, Natural, false).value.v, Natural, x, env)
  {
    hide Pow2, Denotes, Converted, Cast;
    CastDenotes(a, Natural, false, x, env);
    if VHDL(Cast(a, Natural, false).value.v, env).Some? { CastStrict(a, Natural, env); }
    AsNatural(a, Cast(a, Natural, false).value.v, x, env);
  }

  lemma ShiftValue(op: BinOp, l: VExpr, r: VExpr, n: nat, x: int, y: int, env: Env)
    requires (op == ShiftLeft || op == ShiftRight) && Denotes(l, Vec(true, n), x, env) && Denotes(r, Natural, y, env)
    ensures Denotes(VBin(VOpOf(op), l, r), Vec(true, n), BinNumber(op, Vec(true, n), Natural, x, y), env)
  {
    hide Pow2, VHDL;
    if VHDL(VBin(VOpOf(op), l, r), env).Some? {
      BinParts(VOpOf(op), l, r, env);
      if y >= 0 { Division.QuotientAtMost(x, Pow2(y)); }
    }
  }

  /** Naturals are shifted by multiplying with and dividing by a power of two. */
  lemma PowerValue(op: BinOp, l: VExpr, r: VExpr, x: int, y: int, env: Env)
    requires (op == ShiftLeft || op == ShiftRight) && Denotes(l, Natural, x, env) && Denotes(r, Natural, y, env)
    ensures Denotes(VBin(if op == ShiftLeft then VMul else VDiv, l, VCall(TwoTo, r)), Natural,
      BinNumber(op, Natural, Natural, x, y), env)
  {
    hide Pow2, VHDL;
    var vop := if op == ShiftLeft then VMul else VDiv;
    if VHDL(VBin(vop, l, VCall(TwoTo, r)), env).Some? {
      BinParts(vop, l, VCall(TwoTo, r), env);
      CallValue(TwoTo, r, env);
    }
  }

  // ---------------------------------------------------------------- bitwise operations

  lemma GateDenotes(op: BinOp, a: Code, b: Code, x: int, y: int, env: Env)
    requires Gating(op) && Binary(op, a, b).Some? && Denotes(a.v, a.ty, x, env) && Denotes(b.v, b.ty, y, env)
    requires SizeOf(a.ty) >= 1 && SizeOf(b.ty) >= 1
    ensures Denotes(Binary(op, a, b).value.v, BinType(op, a.ty, b.ty).value, BinNumber(op, a.ty, b.ty, x, y), env)
  {
    hide Denotes, Cast, Pow2, Gates, Spread, Both, Gated;
    BinaryType(op, a, b);
    if Numeric(a.ty) && Numeric(b.ty) {
      NaturalsDenote(a, b, x, y, env);
      var (p, q) := Both(a, b, Natural).value;
      BothTypes(a, b, Natural);
      GateNaturals(op, p.v, q.v, x, y, env);
    } else if a.ty == Bit && b.ty == Bit {
      GateBits(op, a.v, b.v, x, y, env);
    } else if a.ty.Vec? && b.ty.Vec? && a.ty.n == b.ty.n {
      SameDenote(a, b, x, y, env);
      var (p, q) := Both(a, b, a.ty).value;
      BothTypes(a, b, a.ty);
      GateVectors(op, p.v, q.v, a.ty, x, y, env);
      SpreadSame(a.ty, x);
      SpreadSame(b.ty, y);
    } else if b.ty.Vec? {
      GatedDenote(b, a, y, x, env);
      GatedType(b, a);
      var (p, q) := Gated(b, a).value;
      GateVectors(op, p.v, q.v, b.ty, y, Spread(a.ty, b.ty.n, x), env);
      SpreadSame(b.ty, y);
      GatesCommute(op, b.ty.n, y, Spread(a.ty, b.ty.n, x));
    } else {
      GatedDenote(a, b, x, y, env);
      GatedType(a, b);
      var (p, q) := Gated(a, b).value;
      GateVectors(op, p.v, q.v, a.ty, x, Spread(b.ty, a.ty.n, y), env);
      SpreadSame(a.ty, x);
    }
  }

  lemma SpreadSame(ty: Ty, x: int)
    requires ty.Vec?
    ensures Spread(ty, ty.n, x) == x
  {
  }

  lemma {:induction false} GatesCommute(op: BinOp, w: nat, x: int, y: int)
    ensures Gates(op, w, x, y) == Gates(op, w, y, x)
  {
    if w > 0 { GatesCommute(op, w - 1, x / 2, y / 2); }
  }

  lemma SameDenote(a: Code, b: Code, x: int, y: int, env: Env)
    requires a.ty.Vec? && b.ty.Vec? && a.ty.n == b.ty.n >= 1 && Both(a, b, a.ty).Some?
    requires Denotes(a.v, a.ty, x, env) && Denotes(b.v, b.ty, y, env)
    ensures var (p, q) := Both(a, b, a.ty).value; Denotes(p.v, a.ty, x, env) && Denotes(q.v, a.ty, y, env)
  {
    hide Denotes, Cast;
    CastKeeps(a, a.ty.isUnsigned, a.ty.n, x, env);
    CastKeeps(b, a.ty.isUnsigned, a.ty.n, y, env);
  }

  lemma GateVectors(op: BinOp, l: VExpr, r: VExpr, ty: Ty, x: int, y: int, env: Env)
    requires Gating(op) && ty.Vec? && Denotes(l, ty, x, env) && Denotes(r, ty, y, env)
    ensures Denotes(VBin(VOpOf(op), l, r), ty, Gates(op, ty.n, x, y), env)
  {
    hide Pow2, VHDL, Gates, Bitwise.Op;
    GatesAre(op, ty.n, x, y);
    if VHDL(VBin(VOpOf(op), l, r), env).Some? { BinParts(VOpOf(op), l, r, env); }
  }

  lemma GateBits(op: BinOp, l: VExpr, r: VExpr, x: int, y: int, env: Env)
    requires Gating(op) && Denotes(l, Bit, x, env) && Denotes(r, Bit, y, env)
    ensures Denotes(VBin(VOpOf(op), l, r), Bit, Gates(op, 1, x, y), env)
  {
    hide Pow2, VHDL;
    assert Gates(op, 0, x / 2, y / 2) == 0;
    if VHDL(VBin(VOpOf(op), l, r), env).Some? { BinParts(VOpOf(op), l, r, env); }
  }

  lemma GateNaturals(op: BinOp, l: VExpr, r: VExpr, x: int, y: int, env: Env)
    requires Gating(op) && Denotes(l, Natural, x, env) && Denotes(r, Natural, y, env)
    ensures Denotes(VCall(ToInteger, VBin(VOpOf(op), VCall(ToUnsigned(31), l), VCall(ToUnsigned(31), r))), Natural,
      Gates(op, 31, x, y), env)
  {
    hide Pow2, VHDL, Gates, Bitwise.Op;
    var ul, ur := VCall(ToUnsigned(31), l), VCall(ToUnsigned(31), r);
    CallValue(ToUnsigned(31), l, env);
    CallValue(ToUnsigned(31), r, env);
    CallValue(ToInteger, VBin(VOpOf(op), ul, ur), env);
    PowersOfTwo();
    GatesAre(op, 31, x, y);
    if VHDL(VBin(VOpOf(op), ul, ur), env).Some? {
      BinParts(VOpOf(op), ul, ur, env);
      Division.Small(x, Pow2(31));
      Division.Small(y, Pow2(31));
    }
  }

  /** A single bit as an operand for all bits of a vector. */
  lemma GatedDenote(a: Code, b: Code, x: int, y: int, env: Env)
    requires Gated(a, b).Some? && a.ty.n >= 1 && !(b.ty.Vec? && b.ty.n == a.ty.n)
    requires Denotes(a.v, a.ty, x, env) && Denotes(b.v, b.ty, y, env)
    ensures var (p, q) := Gated(a, b).value;
      Denotes(p.v, a.ty, x, env) && Denotes(q.v, a.ty, Spread(b.ty, a.ty.n, y), env)
  {
    hide Pow2, Cast, Masked;
    CastDenotes(b, Bit, false, y, env);
    var z := Cast(b, Bit, false).value;
    if VHDL(z.v, env).Some? { CastStrict(b, Bit, env); }
    CallValue(Fill(a.ty.n), z.v, env);
    Pow2Mono(1, a.ty.n);
    PowersOfTwo();
    hide VHDL;
  }

  // ---------------------------------------------------------------- whole expressions

  function UnNumber(op: UnOp, s: Ty, x: int): int {
    if op == LNot then Truth(x == 0) else if Numeric(s) then 0x7FFF_FFFF - x else Pow2(SizeOf(s)) - 1 - x
  }

  lemma UnaryDenotes(op: UnOp, a: Code, x: int, env: Env)
    requires Denotes(a.v, a.ty, x, env) && SizeOf(a.ty) >= 1
    ensures Unary(op, a).Some?
    ensures Denotes(Unary(op, a).value.v, Unary(op, a).value.ty, UnNumber(op, a.ty, x), env)
  {
    hide Denotes, Cast, Pow2, Converted;
    UnaryType(op, a);
    if op == LNot {
      CastType(a, Boolean, false);
      CastDenotes(a, Boolean, false, x, env);
      var v := Cast(a, Boolean, false).value.v;
      SameConverted(x, Boolean);
      ToTruth(a, v, x, env);
      NotTruth(v, x != 0, env);
    } else if Numeric(a.ty) {
      CastType(a, Natural, false);
      CountDenotes(a, x, env);
      FromMask(Cast(a, Natural, false).value.v, x, env);
    } else {
      NotVector(a.v, a.ty, x, env);
    }
  }

  lemma NotTruth(v: VExpr, p: bool, env: Env)
    requires Denotes(v, Boolean, Truth(p), env)
    ensures Denotes(VCall(VNot, v), Boolean, Truth(!p), env)
  {
    hide VHDL, Pow2;
    CallValue(VNot, v, env);
  }

  lemma FromMask(v: VExpr, x: int, env: Env)
    requires Denotes(v, Natural, x, env)
    ensures Denotes(VBin(VSub, VConst(VInt(NATURAL_MASK)), v), Natural, 0x7FFF_FFFF - x, env)
  {
    hide Pow2;
    var mask := VConst(VInt(NATURAL_MASK));
    if VHDL(VBin(VSub, mask, v), env).Some? { BinParts(VSub, mask, v, env); }
  }

  lemma NotVector(v: VExpr, ty: Ty, x: int, env: Env)
    requires !Numeric(ty) && Denotes(v, ty, x, env)
    ensures Denotes(VCall(VNot, v), ty, Pow2(SizeOf(ty)) - 1 - x, env)
  {
    hide VHDL, Pow2;
    PowersOfTwo();
    CallValue(VNot, v, env);
  }

  lemma BinDenotes(op: BinOp, a: Code, b: Code, x: int, y: int, env: Env)
    requires Binary(op, a, b).Some? && Denotes(a.v, a.ty, x, env) && Denotes(b.v, b.ty, y, env)
    requires 1 <= SizeOf(a.ty) <= 64 && 1 <= SizeOf(b.ty) <= 64
    ensures Denotes(Binary(op, a, b).value.v, BinType(op, a.ty, b.ty).value, BinNumber(op, a.ty, b.ty, x, y), env)
  {
    hide Denotes, Binary, BinNumber;
    BinaryType(op, a, b);
    if Logical(op) { LogicDenotes(op, a, b, x, y, env); } else if Gating(op) { GateDenotes(op, a, b, x, y, env); }
    else if op == Cat { CatDenotes(a, b, x, y, env); } else if Relational(op) { RelationDenotes(op, a, b, x, y, env); }
    else if op == ShiftLeft || op == ShiftRight { ShiftDenotes(op, a, b, x, y, env); }
    else { ArithmeticDenotes(op, a, b, x, y, env); }
  }

  /** The numbers of the variables. */
  function StoreOf(decls: Decls, env: Env): (s: Store)
    requires forall name :: name in decls ==> name in env
    ensures forall name :: name in s <==> name in decls
    ensures forall name :: name in decls ==> s[name] == Number(env[name].vhdl)
  {
    map name | name in decls :: Number(env[name].vhdl)
  }

  lemma RefDenotes(name: string, decls: Decls, env: Env)
    requires Stored(decls, env) && name in decls
    ensures Denotes(VRef(name), decls[name], StoreOf(decls, env)[name], env) && SizeOf(decls[name]) >= 1
    ensures env[name].vhdl.VVec? ==> env[name].vhdl.x == StoreOf(decls, env)[name]
  {
    hide Pow2;
  }

  lemma IndexDenotes(name: string, v: VExpr, k: int, decls: Decls, env: Env)
    requires Stored(decls, env) && name in decls
    requires VHDL(v, env).Some? && VHDL(v, env).value.VInt? ==> VHDL(v, env).value.i == k
    ensures Denotes(VIndex(name, v), Bit, if k >= 0 then StoreOf(decls, env)[name] / Pow2(k) % 2 else 0, env)
  {
    hide Pow2;
    RefDenotes(name, decls, env);
  }

  lemma SliceDenotes(name: string, size: nat, v: VExpr, k: int, uns: bool, decls: Decls, env: Env)
    requires Stored(decls, env) && name in decls
    requires VHDL(v, env).Some? && VHDL(v, env).value.VInt? ==> VHDL(v, env).value.i == k
    requires size >= 1
    ensures Denotes(VSlice(name, size, v), Vec(uns, size),
      if k >= 0 then StoreOf(decls, env)[name] / Pow2(k) % Pow2(size) else 0, env)
  {
    hide Pow2;
    RefDenotes(name, decls, env);
  }

  lemma LiteralDenotes(v: nat, ty: Ty, env: Env)
    requires SizedTy(ty) && InLiteral(ty, v)
    ensures Denotes(Literal(v, ty).v, ty, v, env)
  {
    hide Pow2;
  }

  lemma SizesPositive(e: Expr, decls: Decls, env: Env)
    requires Stored(decls, env) && TypeOf(e, decls).Some? && Sized(e, decls)
    ensures 1 <= SizeOf(TypeOf(e, decls).value) <= 64
  {
    hide Stored;
    GeneratesType(e, decls);
    SizedSize(TypeOf(e, decls).value);
  }

  lemma SizedSize(ty: Ty)
    requires SizedTy(ty)
    ensures 1 <= SizeOf(ty) <= 64
  {
  }

  lemma IntDenoted(v: VExpr, ty: Ty, x: int, env: Env)
    requires Denotes(v, ty, x, env)
    ensures VHDL(v, env).Some? && VHDL(v, env).value.VInt? ==> VHDL(v, env).value.i == x
  {
    hide VHDL;
  }

  /** The VHDL generated for an expression has, where it has a value, the meaning of the
      expression: for every operator, cast, index and slice. */
  lemma {:induction false} VHDLMeans(e: Expr, decls: Decls, env: Env)
    requires Stored(decls, env) && Generate(e, decls).Some? && Sized(e, decls)
    ensures TypeOf(e, decls) == Some(Generate(e, decls).value.ty)
    ensures Denotes(Generate(e, decls).value.v, Generate(e, decls).value.ty, Means(e, decls, StoreOf(decls, env)), env)
  {
    hide Stored, Denotes, Cast, Unary, Binary, VHDL, Converted, BinNumber, BinType, Castable;
    GeneratesType(e, decls);
    StoredNames(decls, env);
    match e
    case Ref(name) => RefDenotes(name, decls, env);
    case Lit(v, ty) => LiteralDenotes(v, ty, env);
    case Index(name, index) =>
      VHDLMeans(index, decls, env);
      var i, k := Generate(index, decls).value, Means(index, decls, StoreOf(decls, env));
      IntDenoted(i.v, i.ty, k, env);
      IndexDenotes(name, i.v, k, decls, env);
    case Slice(name, size, index) =>
      VHDLMeans(index, decls, env);
      var i, k := Generate(index, decls).value, Means(index, decls, StoreOf(decls, env));
      IntDenoted(i.v, i.ty, k, env);
      SliceDenotes(name, size, i.v, k, decls[name].isUnsigned, decls, env);
    case CastTo(arg, to, explicit) =>
      VHDLMeans(arg, decls, env);
      CastDenotes(Generate(arg, decls).value, to, explicit, Means(arg, decls, StoreOf(decls, env)), env);
      CastType(Generate(arg, decls).value, to, explicit);
    case Un(op, arg) =>
      VHDLMeans(arg, decls, env);
      SizesPositive(arg, decls, env);
      UnaryDenotes(op, Generate(arg, decls).value, Means(arg, decls, StoreOf(decls, env)), env);
    case Bin(op, left, right) =>
      VHDLMeans(left, decls, env);
      VHDLMeans(right, decls, env);
      SizesPositive(left, decls, env);
      SizesPositive(right, decls, env);
      BinDenotes(op, Generate(left, decls).value, Generate(right, decls).value,
        Means(left, decls, StoreOf(decls, env)), Means(right, decls, StoreOf(decls, env)), env);
  }

  lemma StoredNames(decls: Decls, env: Env)
    requires Stored(decls, env)
    ensures forall name :: name in decls ==> name in env
  {
  }

  /** And so does the C, where C keeps up: exactly for booleans and naturals, in the low bits for
      bits and vectors. */
  lemma CMeans(e: Expr, decls: Decls, env: Env)
    requires Stored(decls, env) && Generate(e, decls).Some? && Sized(e, decls) && Tame(e, decls, env)
    requires VHDL(Generate(e, decls).value.v, env).Some?
    ensures var a := Generate(e, decls).value;
      && C(a.c, env).Some?
      && var c, x := C(a.c, env).value.v, Means(e, decls, StoreOf(decls, env));
         if Numeric(a.ty) then c == x else c % Pow2(SizeOf(a.ty)) == x
  {
    hide Stored, VHDL, C, Generate, Tame, Sized, Means, Pow2;
    StoredNames(decls, env);
    PowersOfTwo();
    VHDLMeans(e, decls, env);
    GenerateAgrees(e, decls, env);
  }
}
