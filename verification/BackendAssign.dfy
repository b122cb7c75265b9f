/** The assignments of the code generator (generate_assignment in
    config/scripts/code/back_end.py): whole variables, bits and slices. */
module BackendAssign {
  import opened Bitwise
  import opened Powers
  import opened BackendTargets
  import opened Backend
  import opened BackendProgram
  import Division

  const W64: int := 0x1_0000_0000_0000_0000

  /** The width of the C type of a variable. */
  function StoreBits(ty: Ty): nat {
    match ty
    case Natural => 32
    case Vec(_, n) => if n <= 8 then 8 else if n <= 16 then 16 else if n <= 32 then 32 else 64
    case _ => 8
  }

  /** What C keeps of a value that is stored in a variable. */
  function Store(ty: Ty, v: int): int {
    v % Pow2(StoreBits(ty))
  }

  lemma StoreSizes()
    ensures Pow2(8) == 0x100 && Pow2(16) == 0x1_0000
  {
    hide Pow2;
    PowersOfTwo();
    Pow2Add(8, 8);
  }

  /** A whole variable: the new contents stand for the value assigned. */
  lemma AssignAgrees(a: Code, env: Env)
    requires Agrees(a, env) && VHDL(a.v, env).Some?
    ensures Repr(a.ty, VHDL(a.v, env).value, CValue(Storage(a.ty), Store(a.ty, C(a.c, env).value.v)))
  {
    hide Pow2, Op, VHDL, C;
    PowersOfTwo();
    StoreSizes();
    var v := C(a.c, env).value.v;
    match a.ty
    case Vec(_, n) => CutTwice(v, StoreBits(a.ty), n);
    case Bit => CutTwice(v, 8, 1);
    case _ => Division.Small(v, Pow2(StoreBits(a.ty)));
  }

  // ---------------------------------------------------------------- bits and slices

  /** {0} &= ~mask, the mask of s bits at k. */
  function Cleared(ty: Ty, c: int, k: nat, s: nat): int {
    Store(ty, Op(And, 64, c % W64, W64 - 1 - (Pow2(s) - 1) * Pow2(k)))
  }

  /** {0} |= r. */
  function Joined(ty: Ty, c: int, r: CValue): Option<int> {
    var v := CBinary(COr, CValue(Storage(ty), c), r);
    if v.None? then None else Some(Store(ty, v.value.v))
  }

  /** The contents of a variable after an assignment to bit k, or None where C leaves it
      undefined: the value is shifted in its own type. */
  function AssignBit(ty: Ty, c: int, x: CValue, k: nat): Option<int> {
    var bit := CBinary(CAnd, x, CValue(Int32, 1));
    if bit.None? then None
    else
      var r := CShift(CShl, bit.value, k);
      if r.None? then None else Joined(ty, Cleared(ty, c, k, 1), r.value)
  }

  /** The contents after an assignment to the s bits from k on. */
  function AssignSlice(ty: Ty, c: int, x: CValue, k: nat, s: nat): Option<int> {
    var r := CShift(CShl, x, k);
    if r.None? then None
    else
      var field := CBinary(CAnd, r.value, CValue(UInt64, (Pow2(s) - 1) * Pow2(k)));
      if field.None? then None else Joined(ty, Cleared(ty, c, k, s), field.value)
  }

  /** A number as the bits above a field, the field and the bits below. */
  lemma Split(c: nat, k: nat, s: nat)
    ensures var h, f, l := c / Pow2(k + s), c / Pow2(k) % Pow2(s), c % Pow2(k);
      && c == h * Pow2(k + s) + f * Pow2(k) + l && h >= 0
      && forall y :: SetBits(c, k, s, y) == h * Pow2(k + s) + y * Pow2(k) + l
  {
    hide Pow2;
    Pow2Add(k, s);
    Division.DivNest(c, Pow2(k), Pow2(s));
    var q, h, f, l := c / Pow2(k), c / Pow2(k + s), c / Pow2(k) % Pow2(s), c % Pow2(k);
    assert q == h * Pow2(s) + f;
    assert c == q * Pow2(k) + l;
    assert q * Pow2(k) == h * (Pow2(k) * Pow2(s)) + f * Pow2(k);
  }

  /** A replaced field stays within the bits that the number and the field had. */
  lemma SetBelow(c: nat, k: nat, s: nat, y: nat, n: nat)
    requires c < Pow2(n) && y < Pow2(s) && k + s <= n
    ensures 0 <= SetBits(c, k, s, y) < Pow2(n)
  {
    hide Pow2, SetBits;
    Split(c, k, s);
    Pow2Add(n - k - s, k + s);
    Pow2Add(s, k);
    FieldSet(c, y, Pow2(n - k - s), Pow2(s), Pow2(k));
  }

  lemma FieldSet(c: nat, y: nat, ph: int, pm: int, pl: int)
    requires pm > 0 && pl > 0 && c < ph * (pm * pl) && y < pm
    ensures pm * pl > 0 && 0 <= c / (pm * pl) * (pm * pl) + y * pl + c % pl < ph * (pm * pl)
  {
    assert pm * pl > 0;
    Division.QuotientBelow(c, pm * pl, ph);
    Division.FieldsBelow(c / (pm * pl), y, c % pl, ph, pm, pl);
  }

  /** The field reads back as the value, and the bits above and below it are as before. */
  lemma SetReads(c: nat, k: nat, s: nat, y: nat)
    requires y < Pow2(s)
    ensures var r := SetBits(c, k, s, y);
      r / Pow2(k) % Pow2(s) == y && r % Pow2(k) == c % Pow2(k) && r / Pow2(k + s) == c / Pow2(k + s)
  {
    hide Pow2, SetBits;
    Split(c, k, s);
    Pow2Add(s, k);
    var r, h, l := SetBits(c, k, s, y), c / Pow2(k + s), c % Pow2(k);
    FieldReads(r, h, y, l, Pow2(s), Pow2(k));
  }

  lemma FieldReads(r: int, h: int, y: nat, l: nat, pm: int, pl: int)
    requires pm > 0 && pl > 0 && y < pm && l < pl && r == h * (pm * pl) + y * pl + l
    ensures pm * pl > 0 && r / pl % pm == y && r % pl == l && r / (pm * pl) == h
  {
    assert r == (h * pm + y) * pl + l;
    Division.Parts(r, pl, h * pm + y, l);
    Division.Parts(h * pm + y, pm, h, y);
    Division.InRange(pl, pm, y, l);
    Division.Parts(r, pm * pl, h, y * pl + l);
  }

  /** Bits above the vector do not matter. */
  lemma SetCut(c: nat, k: nat, s: nat, y: nat, n: nat)
    requires y < Pow2(s) && k + s <= n
    ensures SetBits(c, k, s, y) % Pow2(n) == SetBits(c % Pow2(n), k, s, y)
  {
    hide Pow2;
    BitsBelow(c, n, k, s);
    var q, r := c / Pow2(n), c % Pow2(n);
    assert c == q * Pow2(n) + r;
    SetBelow(r, k, s, y, n);
    Division.Parts(SetBits(c, k, s, y), Pow2(n), q, SetBits(r, k, s, y));
  }

  lemma ClearedField(c: nat, k: nat, s: nat)
    ensures SetBits(c, k, s, 0) / Pow2(k) % Pow2(s) == 0
  {
    hide Pow2, SetBits;
    Split(c, k, s);
    Pow2Add(s, k);
    Division.MiddleField(c / Pow2(k + s), c % Pow2(k), Pow2(s), Pow2(k));
  }

  lemma ClearedValue(ty: Ty, c: nat, k: nat, s: nat)
    requires ty.Vec? && SizedTy(ty) && k + s <= ty.n && c < Pow2(StoreBits(ty))
    ensures Cleared(ty, c, k, s) == SetBits(c, k, s, 0) && 0 <= SetBits(c, k, s, 0) < Pow2(StoreBits(ty))
  {
    hide Pow2, Op, SetBits;
    PowersOfTwo();
    var m := (Pow2(s) - 1) * Pow2(k);
    Pow2Mono(StoreBits(ty), 64);
    SetBelow(c, k, s, 0, StoreBits(ty));
    Division.Small(c, W64);
    OpLow(And, 64, c, W64 - 1 - m);
    OpLow(And, 64, c, -1 - m);
    Division.DivAdd(1, W64, -1 - m);
    AndNotField(64, c, k, s);
    Division.Small(SetBits(c, k, s, 0), W64);
    Division.Small(SetBits(c, k, s, 0), Pow2(StoreBits(ty)));
  }

  /** Or with a field of s bits at k, in any type that holds it. */
  lemma JoinedValue(ty: Ty, c: nat, k: nat, s: nat, y: nat, t: CType)
    requires ty.Vec? && SizedTy(ty) && k + s <= ty.n && c < Pow2(StoreBits(ty)) && y < Pow2(s)
    requires InRange(t, y * Pow2(k))
    ensures Joined(ty, Cleared(ty, c, k, s), CValue(t, y * Pow2(k))) == Some(SetBits(c, k, s, y))
  {
    hide Pow2, Op, SetBits, Cleared, CBinary, Common;
    ClearedValue(ty, c, k, s);
    ClearedField(c, k, s);
    var c0 := SetBits(c, k, s, 0);
    SetBelow(c, k, s, y, StoreBits(ty));
    assert SetBits(c, k, s, y) == c0 + y * Pow2(k) by { Split(c, k, s); }
    OrField(Width(Common(Storage(ty), t)), c0, k, s, y);
    OrStored(ty, c0, y * Pow2(k), t);
    Division.Small(SetBits(c, k, s, y), Pow2(StoreBits(ty)));
  }

  /** Or of stored contents and bits that are clear in them. */
  lemma OrStored(ty: Ty, c: nat, b: nat, t: CType)
    requires ty.Vec? && c < Pow2(StoreBits(ty)) && c + b < Pow2(StoreBits(ty)) && InRange(t, b)
    requires Op(Or, Width(Common(Storage(ty), t)), c, b) == (c + b) % Pow2(Width(Common(Storage(ty), t)))
    ensures CBinary(COr, CValue(Storage(ty), c), CValue(t, b)) == Some(CValue(Common(Storage(ty), t), c + b))
  {
    hide Pow2, Op;
    PowersOfTwo();
    StoreSizes();
    StorageFits(ty, c);
    StorageFits(ty, c + b);
    var u := Common(Storage(ty), t);
    WideEnough(Storage(ty), u, c);
    WideEnough(t, u, b);
    WideEnough(Storage(ty), u, c + b);
    Division.Small(c + b, Pow2(Width(u)));
  }

  lemma StorageFits(ty: Ty, c: nat)
    requires ty.Vec? && c < Pow2(StoreBits(ty))
    ensures InRange(Storage(ty), c) && c < Pow2(Width(Storage(ty))) && (Storage(ty) == Int32 ==> c < 0x1_0000)
  {
    hide Pow2;
    PowersOfTwo();
    StoreSizes();
  }

  // ---------------------------------------------------------------- agreement

  /** An assignment to a slice does in C what it does in VHDL exactly when the value shifted
      in its own type keeps up; the bits of the variable above its width do not matter. */
  lemma AssignSliceAgrees(ty: Ty, c: nat, x: CValue, k: nat, s: nat)
    requires ty.Vec? && SizedTy(ty) && k + s <= ty.n && 1 <= s && c < Pow2(StoreBits(ty)) && InRange(x.ty, x.v)
    ensures AssignSlice(ty, c, x, k, s) == Some(SetBits(c, k, s, x.v % Pow2(s))) <==> ShiftFits(x, k, k + s)
    ensures Repr(ty, VVec(ty.n, SetBits(c % Pow2(ty.n), k, s, x.v % Pow2(s))),
      CValue(Storage(ty), SetBits(c, k, s, x.v % Pow2(s))))
  {
    hide Pow2, Op, SetBits, AssignSlice, ShiftFits, CShift, Repr;
    StillRepr(ty, c, k, s, x.v % Pow2(s));
    ShiftedLow(x, k, k + s);
    AssignedSlice(ty, c, x, k, s);
    if CShift(CShl, x, k).Some? {
      ShiftedMultiple(x, k, s);
      var y := CShift(CShl, x, k).value.v / Pow2(k) % Pow2(s);
      if SetBits(c, k, s, y) == SetBits(c, k, s, x.v % Pow2(s)) { OtherField(c, k, s, y, x.v % Pow2(s)); }
    }
  }

  /** The field that an assignment to a slice leaves, if the shift is defined. */
  lemma AssignedSlice(ty: Ty, c: nat, x: CValue, k: nat, s: nat)
    requires ty.Vec? && SizedTy(ty) && k + s <= ty.n && c < Pow2(StoreBits(ty)) && InRange(x.ty, x.v)
    ensures var r := CShift(CShl, x, k);
      AssignSlice(ty, c, x, k, s) == if r.None? then None else Some(SetBits(c, k, s, r.value.v / Pow2(k) % Pow2(s)))
  {
    hide Pow2, Op, SetBits, Cleared, CBinary, Joined, CShift;
    if CShift(CShl, x, k).Some? {
      var r := CShift(CShl, x, k).value;
      var y := r.v / Pow2(k) % Pow2(s);
      ShiftedMultiple(x, k, s);
      FieldValue(r, k, s);
      FieldInRange(y, k, s);
      JoinedValue(ty, c, k, s, y, UInt64);
    }
  }

  /** Different fields make different contents. */
  lemma OtherField(c: int, k: nat, s: nat, y: int, z: int)
    requires SetBits(c, k, s, y) == SetBits(c, k, s, z)
    ensures y == z
  {
    hide Pow2;
    assert (y - z) * Pow2(k) == 0;
    Division.SmallMultiple(y - z, Pow2(k));
  }

  /** The field that arrives is the one meant exactly when the shifted value is right. */
  lemma ShiftedMultiple(x: CValue, k: nat, s: nat)
    requires InRange(x.ty, x.v) && CShift(CShl, x, k).Some?
    ensures var r := CShift(CShl, x, k).value;
      && r.v >= 0 && r.v < W64
      && (r.v / Pow2(k) % Pow2(s) == x.v % Pow2(s) <==> r.v % Pow2(k + s) == x.v * Pow2(k) % Pow2(k + s))
  {
    hide Pow2;
    PowersOfTwo();
    var w, r := Width(x.ty), CShift(CShl, x, k).value.v;
    Pow2Add(w - k, k);
    Pow2Add(s, k);
    Division.ScaledMod(x.v, Pow2(k), Pow2(w - k));
    var h := if x.ty == Int32 then x.v else x.v % Pow2(w - k);
    assert r == h * Pow2(k) >= 0;
    Division.Parts(r, Pow2(k), h, 0);
    Division.ScaledMod(h, Pow2(k), Pow2(s));
    Division.ScaledMod(x.v, Pow2(k), Pow2(s));
    Scaled(h % Pow2(s), x.v % Pow2(s), Pow2(k));
  }

  lemma Scaled(a: int, b: int, p: int)
    requires p > 0
    ensures a * p == b * p <==> a == b
  {
    if a * p == b * p {
      assert (a - b) * p == 0;
      Division.SmallMultiple(a - b, p);
    }
  }

  lemma StillRepr(ty: Ty, c: nat, k: nat, s: nat, y: nat)
    requires ty.Vec? && SizedTy(ty) && k + s <= ty.n && c < Pow2(StoreBits(ty)) && y < Pow2(s)
    ensures Repr(ty, VVec(ty.n, SetBits(c % Pow2(ty.n), k, s, y)), CValue(Storage(ty), SetBits(c, k, s, y)))
  {
    hide Pow2, Op, SetBits;
    SetBelow(c, k, s, y, StoreBits(ty));
    StorageFits(ty, SetBits(c, k, s, y));
    SetCut(c, k, s, y, ty.n);
  }

  lemma FieldInRange(y: nat, k: nat, s: nat)
    requires y < Pow2(s) && k + s <= 64
    ensures InRange(UInt64, y * Pow2(k)) && 0 <= (Pow2(s) - 1) * Pow2(k) < W64
  {
    hide Pow2;
    PowersOfTwo();
    Pow2Add(s, k);
    Pow2Mono(k + s, 64);
    Division.InRange(Pow2(k), Pow2(s), y, 0);
    Division.InRange(Pow2(k), Pow2(s), Pow2(s) - 1, 0);
  }

  /** The mask leaves the field of the shifted value. */
  lemma FieldValue(r: CValue, k: nat, s: nat)
    requires 0 <= r.v < W64 && k + s <= 64
    ensures CBinary(CAnd, r, CValue(UInt64, (Pow2(s) - 1) * Pow2(k)))
      == Some(CValue(UInt64, r.v / Pow2(k) % Pow2(s) * Pow2(k)))
  {
    hide Pow2, Op;
    FieldInRange(0, k, s);
    Division.Small((Pow2(s) - 1) * Pow2(k), W64);
    Division.Small(r.v, W64);
    AndField(64, r.v, k, s);
  }

  /** C can move a bit of its type to place k: below the width, and a one in an int not to
      the sign bit. */
  predicate Movable(t: CType, bit: int, k: nat) {
    k < Width(t) && (t == Int32 && bit != 0 ==> k <= 30)
  }

  lemma LowBitOf(x: CValue)
    requires InRange(x.ty, x.v)
    ensures CBinary(CAnd, x, CValue(Int32, 1)) == Some(CValue(x.ty, x.v % 2))
  {
    hide Pow2, Op;
    PowersOfTwo();
    var w := Width(x.ty);
    ConvertLow(x.ty, x.v, 1);
    AndMask(w, Convert(x.ty, x.v), 1);
  }

  lemma MovedBit(t: CType, bit: nat, k: nat)
    requires bit <= 1
    ensures Movable(t, bit, k) ==>
      && CShift(CShl, CValue(t, bit), k) == Some(CValue(t, bit * Pow2(k)))
      && InRange(t, bit * Pow2(k))
    ensures !Movable(t, bit, k) ==> CShift(CShl, CValue(t, bit), k).None?
  {
    hide Pow2;
    PowersOfTwo();
    if bit == 0 {
      assert bit * Pow2(k) == 0;
    } else {
      assert bit * Pow2(k) == Pow2(k);
      if k <= 30 { Pow2Mono(k + 1, 31); Double(k + 1); } else { Pow2Mono(31, k); }
      if k < Width(t) { Pow2Mono(k + 1, Width(t)); Double(k + 1); }
    }
  }

  /** An assignment to one bit does in C what it does in VHDL, or is undefined, and the
      latter exactly when C cannot move the bit to its place. */
  lemma AssignBitAgrees(ty: Ty, c: nat, x: CValue, k: nat)
    requires ty.Vec? && SizedTy(ty) && k < ty.n && c < Pow2(StoreBits(ty)) && InRange(x.ty, x.v)
    ensures AssignBit(ty, c, x, k) == if Movable(x.ty, x.v % 2, k) then Some(SetBits(c, k, 1, x.v % 2)) else None
    ensures Repr(ty, VVec(ty.n, SetBits(c % Pow2(ty.n), k, 1, x.v % 2)), CValue(Storage(ty), SetBits(c, k, 1, x.v % 2)))
  {
    hide Pow2, Op, SetBits, Cleared, CBinary, Joined, CShift, Movable;
    PowersOfTwo();
    LowBitOf(x);
    MovedBit(x.ty, x.v % 2, k);
    if Movable(x.ty, x.v % 2, k) { JoinedValue(ty, c, k, 1, x.v % 2, x.ty); }
    StillRepr(ty, c, k, 1, x.v % 2);
  }
}
