/** The arithmetic unit: operations that leave their verdict in the condition flags. */
module Alu {
  import opened Powers
  import opened AluSpec
  import opened AluShiftSpec

  class CpuState {
    var CF: bool
    var PF: bool
    var ZF: bool
    var SF: bool
    var OF: bool

    function Eflags(): Flags
      reads this
    {
      Flags(CF, PF, ZF, SF, OF)
    }

    constructor ()
      ensures Eflags() == Flags(false, false, false, false, false)
    {
      CF, PF, ZF, SF, OF := false, false, false, false, false;
    }

    // ---------- the flag setters ----------

    /** `result` is the wrapped sum of `src` and some `dest`; there is one for every result. */
    method SetCFAdd(result: uint32, src: uint32, w: Width, ghost dest: uint32)
      requires Low(result, w) == Low(Low(dest, w) + Low(src, w), w)
      modifies this`CF
      ensures CF <==> Low(dest, w) + Low(src, w) >= Base(w)
    {
      WrapSum(Low(dest, w) + Low(src, w), w);
      hide Base, Low;
      CF := Low(result, w) < Low(src, w);
    }

    method SetCFAdc(result: uint32, src: uint32, w: Width, ghost dest: uint32)
      requires Low(result, w) == Low(Low(dest, w) + Low(src, w) + Carry(CF), w)
      modifies this`CF
      ensures CF <==> Low(dest, w) + Low(src, w) + Carry(old(CF)) >= Base(w)
    {
      WrapSum(Low(dest, w) + Low(src, w) + Carry(CF), w);
      hide Base, Low;
      if !CF {
        SetCFAdd(result, src, w, dest);
      } else {
        CF := Low(result, w) <= Low(src, w);
      }
    }

    method SetCFSub(src: uint32, dest: uint32, w: Width)
      modifies this`CF
      ensures CF <==> Low(dest, w) - Low(src, w) < 0
    {
      CF := Low(src, w) > Low(dest, w);
    }

    method SetCFSbb(src: uint32, dest: uint32, w: Width)
      modifies this`CF
      ensures CF <==> Low(dest, w) - Low(src, w) - Carry(old(CF)) < 0
    {
      if !CF {
        SetCFSub(src, dest, w);
      } else {
        CF := Low(src, w) >= Low(dest, w);
      }
    }

    method SetPF(result: uint32)
      modifies this`PF
      ensures PF == EvenParity(result)
    {
      assert result / Pow2(0) == result;
      hide Ones, Pow2;
      var cnt := 0;
      ghost var rest: nat := result;   // what the loop has not looked at
      for i := 0 to 8
        invariant rest == result / Pow2(i) && cnt + Ones(rest, 8 - i) == Ones(result, 8)
      {
        ShiftThenHalve(result, i);
        OnesStep(rest, 8 - i);
        if result / Pow2(i) % 2 == 1 {
          cnt := cnt + 1;
        }
        rest := rest / 2;
      }
      NoOnes(rest);
      PF := cnt % 2 == 0;
    }

    method SetZF(result: uint32, w: Width)
      modifies this`ZF
      ensures ZF == (Low(result, w) == 0)
    {
      ZF := Low(result, w) == 0;
    }

    method SetSF(result: uint32, w: Width)
      modifies this`SF
      ensures SF == (Signed(Low(result, w), w) < 0)
    {
      SignBitIs(Low(result, w), w);
      SF := Low(result, w) / Half(w) % 2 == 1;
    }

    method SetOFAdx(result: uint32, src: uint32, dest: uint32, w: Width, ghost c: bool)
      modifies this`OF
      ensures var r, s, d := Signed(Low(result, w), w), Signed(Low(src, w), w), Signed(Low(dest, w), w);
        OF <==> (s < 0 <==> d < 0) && (r < 0 <==> s >= 0)
      ensures Low(result, w) == Low(Low(dest, w) + Low(src, w) + Carry(c), w) ==>
        (OF <==> !InRange(Signed(Low(dest, w), w) + Signed(Low(src, w), w) + Carry(c), w))
    {
      SumOverflows(result, src, dest, w, c);
      SignBitIs(Low(src, w), w);
      SignBitIs(Low(dest, w), w);
      SignBitIs(Low(result, w), w);
      hide Signed, Base, Half, InRange;
      var sign_src := Low(src, w) / Half(w) % 2;
      var sign_dest := Low(dest, w) / Half(w) % 2;
      var sign_result := Low(result, w) / Half(w) % 2;
      if sign_src == sign_dest {
        if sign_result != sign_src {
          OF := true;
        } else {
          OF := false;
        }
      } else {
        OF := false;
      }
    }

    method SetOFSux(result: uint32, src: uint32, dest: uint32, w: Width, ghost c: bool)
      modifies this`OF
      ensures var r, s, d := Signed(Low(result, w), w), Signed(Low(src, w), w), Signed(Low(dest, w), w);
        OF <==> (s < 0 <==> d >= 0) && (r < 0 <==> d >= 0)
      ensures Low(result, w) == Low(Low(dest, w) - Low(src, w) - Carry(c), w) ==>
        (OF <==> !InRange(Signed(Low(dest, w), w) - Signed(Low(src, w), w) - Carry(c), w))
    {
      DifferenceOverflows(result, src, dest, w, c);
      SignBitIs(Low(src, w), w);
      SignBitIs(Low(dest, w), w);
      SignBitIs(Low(result, w), w);
      hide Signed, Base, Half, InRange;
      var sign_src := Low(src, w) / Half(w) % 2;
      var sign_dest := Low(dest, w) / Half(w) % 2;
      var sign_result := Low(result, w) / Half(w) % 2;
      if sign_src != sign_dest {
        if sign_result != sign_dest {
          OF := true;
        } else {
          OF := false;
        }
      } else {
        OF := false;
      }
    }

    // ---------- addition and subtraction ----------

    method AluAdd(src: uint32, dest: uint32, w: Width) returns (r: uint32)
      modifies this
      ensures Outcome(r, Eflags()) == Added(dest, src, false, w)
      ensures ZF <==> r == 0
    {
      hide EvenParity, Signed, Base, Half, InRange, Low, Wrap32, Carry;
      NoCarry();
      var result := Wrap32(Low(dest, w) + Low(src, w));
      ResultIs(Low(dest, w) + Low(src, w), w, result);
      SetCFAdd(result, src, w, dest);
      SetPF(result);
      SetZF(result, w);
      SetSF(result, w);
      SetOFAdx(result, src, dest, w, false);
      r := Low(result, w);
    }

    method AluAdc(src: uint32, dest: uint32, w: Width) returns (r: uint32)
      modifies this
      ensures Outcome(r, Eflags()) == Added(dest, src, old(CF), w)
      ensures ZF <==> r == 0
    {
      hide EvenParity, Signed, Base, Half, InRange, Low, Wrap32, Carry;
      NoCarry();
      ghost var c := CF;
      var result := Wrap32(Low(dest, w) + Low(src, w) + Carry(CF));
      ResultIs(Low(dest, w) + Low(src, w) + Carry(CF), w, result);
      SetCFAdc(result, src, w, dest);
      SetPF(result);
      SetZF(result, w);
      SetSF(result, w);
      SetOFAdx(result, src, dest, w, c);
      r := Low(result, w);
    }

    method AluSub(src: uint32, dest: uint32, w: Width) returns (r: uint32)
      modifies this
      ensures Outcome(r, Eflags()) == Subtracted(dest, src, false, w)
      ensures ZF <==> r == 0
    {
      hide EvenParity, Signed, Base, Half, InRange, Low, Wrap32, Carry;
      NoCarry();
      var result := Wrap32(Low(dest, w) - Low(src, w));
      ResultIs(Low(dest, w) - Low(src, w), w, result);
      SetCFSub(src, dest, w);
      SetPF(result);
      SetZF(result, w);
      SetSF(result, w);
      SetOFSux(result, src, dest, w, false);
      r := Low(result, w);
    }

    method AluSbb(src: uint32, dest: uint32, w: Width) returns (r: uint32)
      modifies this
      ensures Outcome(r, Eflags()) == Subtracted(dest, src, old(CF), w)
      ensures ZF <==> r == 0
    {
      hide EvenParity, Signed, Base, Half, InRange, Low, Wrap32, Carry;
      NoCarry();
      ghost var c := CF;
      var result := Wrap32(Low(dest, w) - (Low(src, w) + Carry(CF)));
      ResultIs(Low(dest, w) - (Low(src, w) + Carry(CF)), w, result);
      SetCFSbb(src, dest, w);
      SetPF(result);
      SetZF(result, w);
      SetSF(result, w);
      SetOFSux(result, src, dest, w, c);
      r := Low(result, w);
    }

    // ---------- shifts, for counts the host language defines ----------

    function LastShift(r: nat): Shifted
      reads this
    {
      Shifted(r, CF, PF, ZF, SF)
    }

    method AluShl(src: uint32, dest: uint32, w: Width) returns (r: uint32)
      requires w == 32 ==> src != 0 && src != 32
      modifies this
      ensures ZF <==> r == 0
      ensures src >= 1 ==> LastShift(r) == ShlBits(Low(dest, w), src, w)
      ensures src == 0 ==> LastShift(r) == Flagged(Low(dest, w), Bit(dest, w), w)
      ensures OF == if src == 1 then SF != CF else old(OF)
    {
      hide ShlBits, EvenParity, Bit, Shl, Below, Base, Half, Low, Signed;
      if src == 0 {
        ShlNothing(dest, w);
      } else {
        ShlResult(dest, src, w);
      }
      if src == 1 {
        OF := Bit(dest, w - 1) != Bit(dest, w - 2);
      }
      if src > w {
        r := 0;
        CF, PF, ZF, SF := false, true, true, false;
      } else {
        r := Low(Shl(Low(dest, w), src) % 0x1_0000_0000, w);
        CF := Bit(dest, w - src);
        SetPF(r);
        SetZF(r, w);
        SetSF(r, w);
      }
    }

    method AluSal(src: uint32, dest: uint32, w: Width) returns (r: uint32)
      requires w == 32 ==> src != 0 && src != 32
      modifies this
      ensures ZF <==> r == 0
      ensures src >= 1 ==>
        (LastShift(r) == ShlBits(Low(dest, w), src, w) <==> !(src > w && Signed(Low(dest, w), w) < 0))
      ensures src == 0 ==> LastShift(r) == Flagged(Low(dest, w), Bit(dest, w), w)
      ensures src > w && Signed(Low(dest, w), w) < 0 ==> LastShift(r) == Shifted(Base(w) - 1, true, true, false, true)
      ensures OF == if src == 1 then SF != CF else old(OF)
    {
      hide ShlBits, EvenParity, Bit, Shl, Below, Base, Half, Low, Signed;
      if src == 0 {
        ShlNothing(dest, w);
      } else {
        ShlResult(dest, src, w);
      }
      if src == 1 {
        OF := Bit(dest, w - 1) != Bit(dest, w - 2);
      }
      if src > w {
        if Bit(dest, w - 1) {
          r := Base(w) - 1;
          CF, PF, ZF, SF := true, true, false, true;
        } else {
          r := 0;
          CF, PF, ZF, SF := false, true, true, false;
        }
      } else {
        r := Low(Shl(Low(dest, w), src) % 0x1_0000_0000, w);
        SetPF(r);
        SetZF(r, w);
        SetSF(r, w);
        CF := Bit(dest, w - src);
      }
    }

    method AluShr(src: uint32, dest: uint32, w: Width) returns (r: uint32)
      requires src >= 1 && !(src == 32 && w == 32)
      modifies this
      ensures ZF <==> r == 0
      ensures LastShift(r) == ShrBits(Low(dest, w), src, w)
      ensures OF == if src == 1 then Signed(Low(dest, w), w) < 0 else old(OF)
    {
      hide ShrBits, EvenParity, Bit, Shr, Base, Half, Low, Signed;
      ShrResult(dest, src, w);
      if src == 1 {
        OF := Bit(dest, w - 1);
      }
      if src > w {
        r := 0;
        CF, PF, ZF, SF := false, true, true, false;
      } else {
        r := Low(Shr(Low(dest, w), src), w);
        CF := Bit(dest, src - 1);
        SetPF(r);
        SetZF(r, w);
        SetSF(r, w);
      }
    }

    method AluSar(src: uint32, dest: uint32, w: Width) returns (r: uint32)
      requires src >= 1 && !(src == 32 && w == 32)
      modifies this
      ensures ZF <==> r == 0
      ensures LastShift(r) == SarBits(Low(dest, w), src, w)
      ensures OF == if src == 1 then false else old(OF)
    {
      hide SarBits, EvenParity, Bit, Shr, Shl, Base, Half, Low, Signed, Pow2;
      SarResult(dest, src, w);
      if src == 1 {
        OF := false;
      }
      if src > w {
        if Bit(dest, w - 1) {
          r := Base(w) - 1;
          CF, PF, ZF, SF := true, true, false, true;
        } else {
          r := 0;
          CF, PF, ZF, SF := false, true, true, false;
        }
      } else if Bit(dest, w - 1) {
        // the two halves of the bitwise or have no bit in common
        r := Low(Shr(Low(dest, w), src) + Shl(Pow2(src) - 1, w - src), w);
        SetPF(r);
        SetZF(r, w);
        SetSF(r, w);
        CF := Bit(dest, src - 1);
      } else {
        r := Low(Shr(Low(dest, w), src), w);
        SetPF(r);
        SetZF(r, w);
        SetSF(r, w);
        CF := Bit(dest, src - 1);
      }
    }
  }
}
