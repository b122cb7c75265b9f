/** The ADPCM coder and decoder (test-progs/src/adpcm1.c). */
module Adpcm {

  const INDEX_TABLE: seq<int> := [-1, -1, -1, -1, 2, 4, 6, 8, -1, -1, -1, -1, 2, 4, 6, 8]

  const STEPS_0: seq<int> := [7, 8, 9, 10, 11, 12, 13, 14, 16, 17]
  const STEPS_10: seq<int> := [19, 21, 23, 25, 28, 31, 34, 37, 41, 45]
  const STEPS_20: seq<int> := [50, 55, 60, 66, 73, 80, 88, 97, 107, 118]
  const STEPS_30: seq<int> := [130, 143, 157, 173, 190, 209, 230, 253, 279, 307]
  const STEPS_40: seq<int> := [337, 371, 408, 449, 494, 544, 598, 658, 724, 796]
  const STEPS_50: seq<int> := [876, 963, 1060, 1166, 1282, 1411, 1552, 1707, 1878, 2066]
  const STEPS_60: seq<int> := [2272, 2499, 2749, 3024, 3327, 3660, 4026, 4428, 4871, 5358]
  const STEPS_70: seq<int> := [5894, 6484, 7132, 7845, 8630, 9493, 10442, 11487, 12635, 13899]
  const STEPS_80: seq<int> := [15289, 16818, 18500, 20350, 22385, 24623, 27086, 29794, 32767]

  const STEP_TABLE: seq<int> :=
    STEPS_0 + STEPS_10 + STEPS_20 + STEPS_30 + STEPS_40 + STEPS_50 + STEPS_60 + STEPS_70 + STEPS_80

  type sample = x: int | -32768 <= x <= 32767
  type nibble = x: int | 0 <= x < 16
  type byte = x: int | 0 <= x < 256
  type index = x: int | 0 <= x <= 88

  function StepSize(i: index): int {
    STEP_TABLE[i]
  }

  /** The prediction and the place in the step table. */
  datatype State = State(pred: sample, idx: index)

  function Clamp(x: int): sample {
    if x > 32767 then 32767 else if x < -32768 then -32768 else x
  }

  function NextIndex(i: index, delta: nibble): index {
    var j := i + INDEX_TABLE[delta];
    if j < 0 then 0 else if j > 88 then 88 else j
  }

  /** The change of the prediction that a code stands for. */
  function Change(step: int, delta: nibble): int {
    step / 8
      + (if delta / 4 % 2 == 1 then step else 0)
      + (if delta / 2 % 2 == 1 then step / 2 else 0)
      + (if delta % 2 == 1 then step / 4 else 0)
  }

  /** The decoder takes a code. */
  function Decoded(s: State, delta: nibble): State {
    var d := Change(StepSize(s.idx), delta);
    State(Clamp(if delta >= 8 then s.pred - d else s.pred + d), NextIndex(s.idx, delta))
  }

  /** The quotient of a difference by the step in three binary digits, the low ones by the
      halved step. */
  function Quotient(diff: int, step: int): (q: nibble)
    ensures q < 8
  {
    var d1 := if diff >= step then diff - step else diff;
    var d2 := if d1 >= step / 2 then d1 - step / 2 else d1;
    (if diff >= step then 4 else 0) + (if d1 >= step / 2 then 2 else 0) + (if d2 >= step / 2 / 2 then 1 else 0)
  }

  /** The code of a sample: the quotient of its distance from the prediction, and the sign. */
  function Code(s: State, val: sample): nibble {
    if val - s.pred >= 0 then Quotient(val - s.pred, StepSize(s.idx)) else Quotient(s.pred - val, StepSize(s.idx)) + 8
  }

  function Distance(a: int, b: int): nat {
    if a >= b then a - b else b - a
  }

  /** The change that the coder adds up while it takes the digits off the difference. */
  function Accumulated(diff: int, step: int): int {
    var d1 := if diff >= step then diff - step else diff;
    var d2 := if d1 >= step / 2 then d1 - step / 2 else d1;
    step / 8 + (if diff >= step then step else 0) + (if d1 >= step / 2 then step / 2 else 0)
      + (if d2 >= step / 2 / 2 then step / 2 / 2 else 0)
  }

  /** The coder takes a sample: its own new prediction, from what it has added up. */
  function CoderNext(s: State, val: sample): State {
    var d := Accumulated(Distance(val, s.pred), StepSize(s.idx));
    State(Clamp(if val - s.pred < 0 then s.pred - d else s.pred + d), NextIndex(s.idx, Code(s, val)))
  }

  /** The decoder makes of the code what the coder has made of the sample. */
  lemma CoderDecoder(s: State, val: sample)
    ensures CoderNext(s, val) == Decoded(s, Code(s, val))
  {
    var step := StepSize(s.idx);
    hide StepSize, Quotient, Change, NextIndex, Accumulated;
    QuotientChange(Distance(val, s.pred), step);
    SignKeepsChange(step, Quotient(Distance(val, s.pred), step));
  }

  /** Where the difference is below twice the step, the new prediction is close. */
  lemma ErrorBound(s: State, val: sample)
    requires Distance(val, s.pred) < 2 * StepSize(s.idx)
    ensures Distance(val, CoderNext(s, val).pred) <= StepSize(s.idx) / 8 + 2
  {
    var step := StepSize(s.idx);
    hide StepSize, NextIndex, Accumulated;
    QuotientError(Distance(val, s.pred), step);
  }

  /** The sign does not count for the size of the change. */
  lemma SignKeepsChange(step: int, q: nibble)
    requires q < 8
    ensures Change(step, q + 8) == Change(step, q)
  {
  }

  lemma QuotientError(diff: int, step: int)
    requires 0 <= diff < 2 * step
    ensures Distance(diff, Accumulated(diff, step)) <= step / 8 + 2
  {
  }

  /** What the digits of the quotient stand for is what the coder has added up. */
  lemma QuotientChange(diff: int, step: int)
    ensures Change(step, Quotient(diff, step)) == Accumulated(diff, step)
  {
    assert step / 2 / 2 == step / 4;
  }

  // ---------------------------------------------------------------- what the codes do

  /** A magnitude m stands for m and a half quarters of the step, but for the bits that the
      shifts drop. */
  lemma ChangeMeans(step: nat, delta: nibble)
    ensures 0 <= (2 * (delta % 8) + 1) * step - 8 * Change(step, delta) < 24
  {
    var m := delta % 8;
    assert delta / 4 % 2 == m / 4 && delta / 2 % 2 == m / 2 % 2 && delta % 2 == m % 2;
    ChangeDigits(step, m);
    SignOnly(step, delta);
  }

  lemma SignOnly(step: nat, delta: nibble)
    ensures Change(step, delta) == Change(step, delta % 8)
  {
    if delta >= 8 { SignKeepsChange(step, delta - 8); }
  }

  lemma ChangeDigits(step: nat, m: nibble)
    requires m < 8
    ensures 0 <= (2 * m + 1) * step - 8 * Change(step, m) < 24
  {
    if m == 0 {} else if m == 1 {} else if m == 2 {} else if m == 3 {}
    else if m == 4 {} else if m == 5 {} else if m == 6 {} else {}
  }

  /** Where the decoder goes with a code, before it is kept to 16 bits. */
  function Target(s: State, delta: nibble): int {
    if delta < 8 then s.pred + Change(StepSize(s.idx), delta) else s.pred - Change(StepSize(s.idx), delta)
  }

  /** No other magnitude comes closer to the difference by more than one. */
  lemma NearestChange(diff: nat, step: nat, m: nibble)
    requires m < 8
    ensures Distance(diff, Change(step, Quotient(diff, step))) <= Distance(diff, Change(step, m)) + 1
  {
    QuotientChange(diff, step);
    ChangeValues(step);
    assert step / 2 / 2 == step / 4 && step / 4 / 2 == step / 8;
    hide Change, Quotient, Distance;
    NearestSum(diff, step, step / 2, step / 4, step / 8, m, Change(step, m), Accumulated(diff, step));
  }

  /** The digits that the coder takes, by their values, against any others. */
  lemma NearestSum(diff: nat, s: nat, h: nat, q: nat, e: nat, m: nibble, other: int, sum: int)
    requires m < 8 && s - 1 <= 2 * h <= s && h - 1 <= 2 * q <= h && q - 1 <= 2 * e <= q
    requires other
      == e + (if m / 4 == 1 then s else 0) + (if m / 2 % 2 == 1 then h else 0) + if m % 2 == 1 then q else 0
    requires var d1 := if diff >= s then diff - s else diff; var d2 := if d1 >= h then d1 - h else d1;
      sum == e + (if diff >= s then s else 0) + (if d1 >= h then h else 0) + if d2 >= q then q else 0
    ensures Distance(diff, sum) <= Distance(diff, other) + 1
  {
    if diff >= s + h {} else if diff >= s {} else if diff >= h {} else {}
  }

  lemma ChangeValues(step: nat)
    ensures Change(step, 0) == step / 8 && Change(step, 1) == step / 8 + step / 4
    ensures Change(step, 2) == step / 8 + step / 2 && Change(step, 3) == step / 8 + step / 2 + step / 4
    ensures Change(step, 4) == step / 8 + step && Change(step, 5) == step / 8 + step + step / 4
    ensures Change(step, 6) == step / 8 + step + step / 2
    ensures Change(step, 7) == step / 8 + step + step / 2 + step / 4
  {
  }

  /** Of all sixteen codes, none brings the decoder closer to the sample by more than one than
      the code that is chosen. */
  lemma BestCode(s: State, val: sample, delta: nibble)
    ensures Distance(val, CoderNext(s, val).pred) <= Distance(val, Target(s, delta)) + 1
  {
    var step, diff := StepSize(s.idx), Distance(val, s.pred);
    hide StepSize, Change, Quotient, Accumulated, NextIndex, Clamp;
    StepPositive(s.idx);
    QuotientChange(diff, step);
    NearestChange(diff, step, delta % 8);
    NearestChange(diff, step, 0);
    SignOnly(step, delta);
    LeastChange(step, delta % 8);
    var d := Accumulated(diff, step);
    ClampCloser(val, if val - s.pred < 0 then s.pred - d else s.pred + d);
  }

  lemma ClampCloser(val: sample, x: int)
    ensures Distance(val, Clamp(x)) <= Distance(val, x)
  {
  }

  lemma StepPositive(i: index)
    ensures StepSize(i) >= 7
  {
  }

  lemma LeastChange(step: nat, m: nibble)
    ensures Change(step, m) >= Change(step, 0) >= 0
  {
  }

  /** A sample two steps away or more: the largest magnitude, and the prediction moves towards
      the sample by almost two steps. */
  lemma LoudSample(s: State, val: sample)
    requires Distance(val, s.pred) >= 2 * StepSize(s.idx)
    ensures var step := StepSize(s.idx); var d := step + step / 2 + step / 4 + step / 8;
      if val >= s.pred then Code(s, val) == 7 && CoderNext(s, val).pred == s.pred + d
      else Code(s, val) == 15 && CoderNext(s, val).pred == s.pred - d
  {
    var step := StepSize(s.idx);
    StepPositive(s.idx);
    hide StepSize, NextIndex;
    LargestDigits(Distance(val, s.pred), step);
  }

  lemma LargestDigits(diff: int, step: int)
    requires 0 <= 2 * step <= diff
    ensures Quotient(diff, step) == 7 && Accumulated(diff, step) == step + step / 2 + step / 4 + step / 8
  {
  }

  /** The bit of weight eight is the sign of the difference. */
  lemma SignBit(s: State, val: sample)
    ensures Code(s, val) >= 8 <==> val < s.pred
  {
  }

  /** A small magnitude makes the step one smaller, a magnitude m of 4 or more makes it
      2 (m - 3) larger, within the table. */
  lemma IndexLaw(i: index, delta: nibble)
    ensures var m := delta % 8;
      if m < 4 then NextIndex(i, delta) == (if i == 0 then 0 else i - 1)
      else NextIndex(i, delta) == (if i + 2 * (m - 3) > 88 then 88 else i + 2 * (m - 3))
  {
    if delta == 0 {} else if delta == 1 {} else if delta == 2 {} else if delta == 3 {}
    else if delta == 4 {} else if delta == 5 {} else if delta == 6 {} else if delta == 7 {}
    else if delta == 8 {} else if delta == 9 {} else if delta == 10 {} else if delta == 11 {}
    else if delta == 12 {} else if delta == 13 {} else if delta == 14 {} else {}
  }

  predicate Grows(x: int, y: int, i: index) {
    x < y && (i < 87 ==> -9 <= 10 * y - 11 * x <= 9)
  }

  /** The steps grow from 7 by a tenth from one to the next, rounded down, up to the largest
      16-bit number. */
  lemma StepsGrow(i: index)
    ensures StepSize(0) == 7 && StepSize(88) == 32767
    ensures i < 88 ==> Grows(StepSize(i), StepSize(i + 1), i)
  {
    hide Grows;
    if i < 10 { Steps0(i); } else if i < 20 { Steps10(i); } else if i < 30 { Steps20(i); }
    else if i < 40 { Steps30(i); } else if i < 50 { Steps40(i); } else if i < 60 { Steps50(i); }
    else if i < 70 { Steps60(i); } else if i < 80 { Steps70(i); } else if i < 88 { Steps80(i); }
  }

  lemma Steps0(i: index)
    requires 0 <= i < 10
    ensures Grows(STEP_TABLE[i], STEP_TABLE[i + 1], i)
  {
    assert STEP_TABLE[10] == 19;
  }

  lemma Steps10(i: index)
    requires 10 <= i < 20
    ensures Grows(STEP_TABLE[i], STEP_TABLE[i + 1], i)
  {
    assert STEP_TABLE[20] == 50;
  }

  lemma Steps20(i: index)
    requires 20 <= i < 30
    ensures Grows(STEP_TABLE[i], STEP_TABLE[i + 1], i)
  {
    assert STEP_TABLE[30] == 130;
  }

  lemma Steps30(i: index)
    requires 30 <= i < 40
    ensures Grows(STEP_TABLE[i], STEP_TABLE[i + 1], i)
  {
    assert STEP_TABLE[40] == 337;
  }

  lemma Steps40(i: index)
    requires 40 <= i < 50
    ensures Grows(STEP_TABLE[i], STEP_TABLE[i + 1], i)
  {
    assert STEP_TABLE[50] == 876;
  }

  lemma Steps50(i: index)
    requires 50 <= i < 60
    ensures Grows(STEP_TABLE[i], STEP_TABLE[i + 1], i)
  {
    assert STEP_TABLE[60] == 2272;
  }

  lemma Steps60(i: index)
    requires 60 <= i < 70
    ensures Grows(STEP_TABLE[i], STEP_TABLE[i + 1], i)
  {
    assert STEP_TABLE[70] == 5894;
  }

  lemma Steps70(i: index)
    requires 70 <= i < 80
    ensures Grows(STEP_TABLE[i], STEP_TABLE[i + 1], i)
  {
    assert STEP_TABLE[80] == 15289;
  }

  lemma Steps80(i: index)
    requires 80 <= i < 88
    ensures Grows(STEP_TABLE[i], STEP_TABLE[i + 1], i)
  {
    assert STEP_TABLE[88] == 32767;
  }

  // ---------------------------------------------------------------- sequences

  /** The codes of the samples and the state after them. */
  function Coded(s: State, samples: seq<sample>): (r: (seq<nibble>, State))
    ensures |r.0| == |samples|
  {
    if samples == [] then ([], s)
    else
      var (codes, t) := Coded(s, samples[..|samples| - 1]);
      var c := Code(t, samples[|samples| - 1]);
      (codes + [c], CoderNext(t, samples[|samples| - 1]))
  }

  /** The predictions of the coder, one after each sample. */
  function Predictions(s: State, samples: seq<sample>): (r: seq<sample>)
    ensures |r| == |samples|
  {
    if samples == [] then []
    else Predictions(s, samples[..|samples| - 1]) + [Coded(s, samples).1.pred]
  }

  /** The outputs of the decoder and the state after them. */
  function DecodedAll(s: State, codes: seq<nibble>): (r: (seq<sample>, State))
    ensures |r.0| == |codes|
  {
    if codes == [] then ([], s)
    else
      var (out, t) := DecodedAll(s, codes[..|codes| - 1]);
      var u := Decoded(t, codes[|codes| - 1]);
      (out + [u.pred], u)
  }

  /** From equal states, the decoder puts out what the coder predicts and ends in its state. */
  lemma {:induction false} Lockstep(s: State, samples: seq<sample>)
    ensures DecodedAll(s, Coded(s, samples).0) == (Predictions(s, samples), Coded(s, samples).1)
  {
    if samples != [] {
      var most := samples[..|samples| - 1];
      Lockstep(s, most);
      var codes := Coded(s, samples).0;
      assert codes[..|codes| - 1] == Coded(s, most).0;
      hide Decoded, CoderNext, Code;
      CoderDecoder(Coded(s, most).1, samples[|samples| - 1]);
    }
  }

  /** Two codes to a byte, the first one high; an odd one at the end is alone. */
  function Packed(codes: seq<nibble>): (b: seq<byte>)
    ensures |b| == (|codes| + 1) / 2
  {
    if codes == [] then []
    else if |codes| == 1 then [Byte(codes[0], 0)]
    else [Byte(codes[0], codes[1])] + Packed(codes[2..])
  }

  /** The first of two codes is the high half of their byte. */
  lemma {:induction false} PackedByte(codes: seq<nibble>, k: nat)
    requires k < (|codes| + 1) / 2
    ensures Packed(codes)[k] as int == 16 * codes[2 * k] + if 2 * k + 1 < |codes| then codes[2 * k + 1] as int else 0
  {
    if k > 0 {
      PackedByte(codes[2..], k - 1);
      assert Packed(codes)[k] == Packed(codes[2..])[k - 1];
    }
  }

  function Byte(high: nibble, low: nibble): byte {
    high * 16 + low as int
  }

  /** A byte as a signed char. */
  function Signed(b: byte): int {
    if b >= 128 then b - 256 else b
  }

  /** Code k as the decoder takes it out of the bytes, which are signed. */
  function Nibble(b: seq<byte>, k: nat): nibble
    requires k / 2 < |b|
  {
    var v := Signed(b[k / 2]);
    if k % 2 == 0 then v / 16 % 16 else v % 16
  }

  lemma {:induction false} PackedNibble(codes: seq<nibble>, k: nat)
    requires k < |codes|
    ensures Nibble(Packed(codes), k) == codes[k]
  {
    if k >= 2 {
      PackedNibble(codes[2..], k - 2);
      assert k / 2 - 1 == (k - 2) / 2 && k % 2 == (k - 2) % 2;
      assert Packed(codes)[k / 2] == Packed(codes[2..])[k / 2 - 1];
      hide Byte, Signed;
    } else {
      ByteParts(codes[0], if |codes| > 1 then codes[1] else 0);
    }
  }

  lemma ByteParts(high: nibble, low: nibble)
    ensures Signed(Byte(high, low)) / 16 % 16 == high && Signed(Byte(high, low)) % 16 == low
  {
  }

  /** One code more in the bytes. */
  lemma {:induction false} PackedNext(codes: seq<nibble>, c: nibble)
    ensures |codes| % 2 == 0 ==> Packed(codes + [c]) == Packed(codes) + [Byte(c, 0)]
    ensures |codes| % 2 == 1 ==>
      Packed(codes + [c]) == Packed(codes)[..|codes| / 2] + [Byte(codes[|codes| - 1], c)]
  {
    if |codes| >= 2 {
      PackedNext(codes[2..], c);
      assert (codes + [c])[2..] == codes[2..] + [c];
    }
  }

  // ---------------------------------------------------------------- the loops

  /** struct adpcm_state. */
  class AdpcmState {
    var valprev: sample
    var idx: index

    constructor (valprev: sample, idx: index)
      ensures Now() == State(valprev, idx)
    {
      this.valprev, this.idx := valprev, idx;
    }

    function Now(): State
      reads this
    {
      State(valprev, idx)
    }
  }

  /** Steps 1 and 2 of the coder: the digits, and the change they stand for. */
  method Quantize(difference: int, stepsize: int) returns (d: nibble, vpdiff: int)
    ensures d == Quotient(difference, stepsize) && vpdiff == Accumulated(difference, stepsize)
  {
    var diff, step := difference, stepsize;
    d := 0;
    vpdiff := step / 8;
    if diff >= step {
      d := 4;
      diff := diff - step;
      vpdiff := vpdiff + step;
    }
    step := step / 2;
    if diff >= step {
      d := d + 2;
      diff := diff - step;
      vpdiff := vpdiff + step;
    }
    step := step / 2;
    if diff >= step {
      d := d + 1;
      vpdiff := vpdiff + step;
    }
  }

  /** One turn of the loop of adpcm_coder up to the output. */
  method CodeSample(val: sample, pred: sample, idx: index) returns (delta: nibble, pred': sample, idx': index)
    ensures delta == Code(State(pred, idx), val) && State(pred', idx') == CoderNext(State(pred, idx), val)
  {
    hide StepSize, Accumulated, Quotient;
    var diff := val - pred;
    var sign := 0;
    if diff < 0 {
      sign := 8;
      diff := -diff;
    }
    var d, vpdiff := Quantize(diff, StepSize(idx));
    pred' := Clamp(if sign != 0 then pred - vpdiff else pred + vpdiff);
    delta := d + sign;
    var j := idx + INDEX_TABLE[delta];
    idx' := if j < 0 then 0 else if j > 88 then 88 else j;
  }

  /** adpcm_coder. */
  method Coder(indata: array<sample>, outdata: array<byte>, len: int, state: AdpcmState)
    requires len <= indata.Length && (len + 1) / 2 <= outdata.Length
    modifies outdata, state
    ensures len <= 0 ==> outdata[..] == old(outdata[..]) && state.Now() == old(state.Now())
    ensures len > 0 ==> var r := Coded(old(state.Now()), old(indata[..len]));
      && outdata[..(len + 1) / 2] == Packed(r.0) && outdata[(len + 1) / 2..] == old(outdata[(len + 1) / 2..])
      && state.Now() == r.1
  {
    hide Code, CoderNext, Packed, Coded;
    ghost var s := state.Now();
    ghost var input := indata[..];
    var pred, idx := state.valprev, state.idx;
    var buffer: byte, step := 0, true;
    var inp, outp := 0, 0;
    StartCoded(s);
    while inp < len
      invariant 0 <= inp && (inp <= len || inp == 0) && outp == inp / 2 && (step <==> inp % 2 == 0) && state.Now() == s
      invariant inp <= |input| && indata[..] == input && State(pred, idx) == Coded(s, input[..inp]).1
      invariant outdata[..outp] == Packed(Coded(s, input[..inp]).0)[..outp]
      invariant forall k :: outp <= k < outdata.Length ==> outdata[k] == old(outdata[k])
      invariant !step ==> buffer == Byte(Coded(s, input[..inp]).0[inp - 1], 0)
    {
      ghost var codes := Coded(s, input[..inp]).0;
      var delta;
      delta, pred, idx := CodeSample(indata[inp], pred, idx);
      CodedNext(s, input, inp);
      PackedNext(codes, delta);
      ghost var packed := Packed(codes);
      if step {
        buffer := Byte(delta, 0);
        assert Packed(codes + [delta])[..outp] == packed[..outp];
      } else {
        outdata[outp] := delta + buffer;
        assert outdata[..outp + 1] == packed[..outp] + [Byte(codes[inp - 1], delta)];
        outp := outp + 1;
      }
      step := !step;
      inp := inp + 1;
    }
    if !step {
      PackedAlone(Coded(s, input[..inp]).0);
      outdata[outp] := buffer;
      outp := outp + 1;
    }
    state.valprev := pred;
    state.idx := idx;
  }

  lemma StartCoded(s: State)
    ensures Coded(s, []) == ([], s) && Packed([]) == []
  {
  }

  lemma CodedNext(s: State, samples: seq<sample>, k: nat)
    requires k < |samples|
    ensures var (codes, t) := Coded(s, samples[..k]); var c := Code(t, samples[k]);
      Coded(s, samples[..k + 1]) == (codes + [c], CoderNext(t, samples[k]))
  {
    hide Code, CoderNext;
    assert samples[..k + 1][..k] == samples[..k];
  }

  lemma PackedAlone(codes: seq<nibble>)
    requires |codes| % 2 == 1
    ensures Packed(codes)[|codes| / 2] == Byte(codes[|codes| - 1], 0)
  {
    var most := codes[..|codes| - 1];
    PackedNext(most, codes[|codes| - 1]);
    assert codes == most + [codes[|codes| - 1]];
  }

  /** Steps 2 to 6 of the decoder. */
  method DecodeCode(delta: nibble, pred: sample, idx: index) returns (pred': sample, idx': index)
    ensures State(pred', idx') == Decoded(State(pred, idx), delta)
  {
    hide StepSize;
    var step := StepSize(idx);
    var vpdiff := step / 8;
    if delta / 4 % 2 == 1 { vpdiff := vpdiff + step; }
    if delta / 2 % 2 == 1 { vpdiff := vpdiff + step / 2; }
    if delta % 2 == 1 { vpdiff := vpdiff + step / 4; }
    pred' := Clamp(if delta >= 8 then pred - vpdiff else pred + vpdiff);
    var j := idx + INDEX_TABLE[delta];
    idx' := if j < 0 then 0 else if j > 88 then 88 else j;
  }

  lemma DecodedNext(s: State, codes: seq<nibble>, k: nat)
    requires k < |codes|
    ensures var (out, t) := DecodedAll(s, codes[..k]); var u := Decoded(t, codes[k]);
      DecodedAll(s, codes[..k + 1]) == (out + [u.pred], u)
  {
    hide Decoded;
    assert codes[..k + 1][..k] == codes[..k];
  }

  lemma StartDecoded(s: State)
    ensures DecodedAll(s, []) == ([], s)
  {
  }

  /** adpcm_decoder. */
  method DecodeCodes(indata: array<byte>, outdata: array<sample>, len: int, state: AdpcmState, ghost codes: seq<nibble>)
    requires len <= outdata.Length && (len + 1) / 2 <= indata.Length
    requires len >= 0 ==> |codes| == len
    requires forall k :: 0 <= k < |codes| && k < len ==> Nibble(indata[..], k) == codes[k]
    modifies outdata, state
    ensures len <= 0 ==> outdata[..] == old(outdata[..]) && state.Now() == old(state.Now())
    ensures len > 0 ==> var r := DecodedAll(old(state.Now()), codes);
      outdata[..len] == r.0 && outdata[len..] == old(outdata[len..]) && state.Now() == r.1
  {
    hide Decoded, DecodedAll, Signed;
    ghost var s := state.Now();
    StartDecoded(s);
    var pred, idx := state.valprev, state.idx;
    var inp, outp := 0, 0;
    var buffer: int, second := 0, false;
    while outp < len
      invariant 0 <= outp && (outp <= len || outp == 0) && inp == (outp + 1) / 2 && (second <==> outp % 2 == 1)
      invariant state.Now() == s && indata[..] == old(indata[..])
      invariant outp <= |codes| || len < 0
      invariant len >= 0 ==>
        && State(pred, idx) == DecodedAll(s, codes[..outp]).1
        && outdata[..outp] == DecodedAll(s, codes[..outp]).0
      invariant len < 0 ==> outp == 0 && State(pred, idx) == s
      invariant forall k :: outp <= k < outdata.Length ==> outdata[k] == old(outdata[k])
      invariant second ==> buffer == Signed(indata[outp / 2])
    {
      var delta: nibble;
      if second {
        delta := buffer % 16;
      } else {
        buffer := Signed(indata[inp]);
        inp := inp + 1;
        delta := buffer / 16 % 16;
      }
      second := !second;
      assert delta == Nibble(indata[..], outp) == codes[outp];
      pred, idx := DecodeCode(delta, pred, idx);
      DecodedNext(s, codes, outp);
      outdata[outp] := pred;
      outp := outp + 1;
    }
    assert codes[..|codes|] == codes;
    state.valprev := pred;
    state.idx := idx;
  }

  /** Coder and decoder one after the other, from equal states: the output is what the coder
      predicted, and the states are equal again, for odd lengths too. */
  method RoundTrip(samples: array<sample>, valprev: sample, idx: index)
    returns (output: seq<sample>, left: State, right: State)
    ensures output == Predictions(State(valprev, idx), samples[..])
    ensures left == right == Coded(State(valprev, idx), samples[..]).1
  {
    hide Coded, CoderNext, Code, DecodedAll, Decoded, Predictions, Packed, Nibble;
    var n := samples.Length;
    var bytes := new byte[(n + 1) / 2];
    var out := new sample[n];
    var coder := new AdpcmState(valprev, idx);
    var decoder := new AdpcmState(valprev, idx);
    ghost var s := State(valprev, idx);
    Lockstep(s, samples[..]);
    StartCoded(s);
    StartDecoded(s);
    assert samples[..n] == samples[..];
    Coder(samples, bytes, n, coder);
    ghost var codes := Coded(s, samples[..]).0;
    if n > 0 {
      assert bytes[..(n + 1) / 2] == bytes[..];
      forall k | 0 <= k < n ensures Nibble(bytes[..], k) == codes[k] { PackedNibble(codes, k); }
    }
    DecodeCodes(bytes, out, n, decoder, codes);
    output, left, right := out[..], coder.Now(), decoder.Now();
    assert out[..n] == out[..];
  }
}
