/** Interrupt priorities of the Cortex-M0: four 8-bit lanes to a word, only word access. */
module Nvic {

  /** The low b bits of x. */
  function Low(x: bv32, b: bv32): bv32
    requires b <= 8
  {
    x & ((1 << b) - 1)
  }

  /** That is the remainder of x modulo 2^b, x >> b being the quotient. */
  lemma LowIsRemainder(x: bv32, b: bv32)
    requires b <= 8
    ensures Low(x, b) < 1 << b
    ensures x == ((x >> b) << b) + Low(x, b)
  {
  }

  /** _BIT_SHIFT: the lane of an interrupt number, which may be negative. */
  function BitShift(irq: int): bv32 {
    var lane := irq % 4;
    if lane == 0 then 0 else if lane == 1 then 8 else if lane == 2 then 16 else 24
  }

  predicate IsLane(shift: bv32) {
    shift == 0 || shift == 8 || shift == 16 || shift == 24
  }

  /** _IP_IDX on the number as an unsigned word. */
  function IpIndex(irq: int): int {
    (irq % 0x1_0000_0000) / 4
  }

  /** _SHP_IDX; the subtraction is unsigned. */
  function ShpIndex(irq: int): int {
    (((irq % 0x1_0000_0000) % 16 - 8) % 0x1_0000_0000) / 4
  }

  function Lane(w: bv32, shift: bv32): bv32
    requires shift <= 24
  {
    (w >> shift) & 0xFF
  }

  function PutLane(w: bv32, shift: bv32, b: bv32): bv32
    requires shift <= 24
  {
    (w & !(0xFF << shift)) | (b << shift)
  }

  /** The lane contents for a priority: only the upper prioBits are implemented. */
  function Aligned(priority: bv32, prioBits: bv32): bv32
    requires 1 <= prioBits <= 8
  {
    (priority << (8 - prioBits)) & 0xFF
  }

  function WithField(w: bv32, shift: bv32, priority: bv32, prioBits: bv32): bv32
    requires shift <= 24 && 1 <= prioBits <= 8
  {
    PutLane(w, shift, Aligned(priority, prioBits))
  }

  function Field(w: bv32, shift: bv32, prioBits: bv32): bv32
    requires shift <= 24 && 1 <= prioBits <= 8
  {
    Lane(w, shift) >> (8 - prioBits)
  }

  lemma LaneWritten(w: bv32, i: bv32, j: bv32, b: bv32)
    requires IsLane(i) && IsLane(j) && b <= 0xFF
    ensures Lane(PutLane(w, i, b), j) == if i == j then b else Lane(w, j)
  {
    if i == 0 {
    } else if i == 8 {
    } else if i == 16 {
    } else {
      assert i == 24;
    }
  }

  lemma PriorityBits(priority: bv32, prioBits: bv32)
    requires 1 <= prioBits <= 8
    ensures Aligned(priority, prioBits) >> (8 - prioBits) == Low(priority, prioBits)
    ensures Aligned(priority, prioBits) == Low(priority, prioBits) << (8 - prioBits)
    ensures Aligned(priority, prioBits) <= 0xFF
  {
  }

  lemma BitShiftLanes(i: int, j: int)
    ensures IsLane(BitShift(i))
    ensures BitShift(i) == BitShift(j) <==> i % 4 == j % 4
  {
  }

  /** Writing one lane is read back modulo the implemented bits and leaves the three others alone. */
  lemma FieldWritten(w: bv32, i: bv32, j: bv32, priority: bv32, prioBits: bv32)
    requires 1 <= prioBits <= 8 && IsLane(i) && IsLane(j)
    ensures Field(WithField(w, i, priority, prioBits), j, prioBits) ==
      if i == j then Low(priority, prioBits) else Field(w, j, prioBits)
  {
    hide Lane, Low, PutLane, Aligned;
    PriorityBits(priority, prioBits);
    LaneWritten(w, i, j, Aligned(priority, prioBits));
  }

  /** The lane itself holds the priority in its upper bits, and the other lanes keep all of theirs. */
  lemma ByteWritten(w: bv32, i: bv32, j: bv32, priority: bv32, prioBits: bv32)
    requires 1 <= prioBits <= 8 && IsLane(i) && IsLane(j)
    ensures Lane(WithField(w, i, priority, prioBits), j) ==
      if i == j then Aligned(priority, prioBits) else Lane(w, j)
  {
    hide Lane, Low, PutLane, Aligned;
    PriorityBits(priority, prioBits);
    LaneWritten(w, i, j, Aligned(priority, prioBits));
  }

  /** Numbers __NVIC_SetPriority has a register for. */
  predicate HasPriority(irq: int) {
    -8 <= irq < 32
  }

  /** Two different numbers never share both register and lane. */
  lemma LanesDistinct(i: int, j: int)
    requires HasPriority(i) && HasPriority(j) && i != j && (i < 0 <==> j < 0)
    ensures i % 4 == j % 4 ==> if i >= 0 then IpIndex(i) != IpIndex(j) else ShpIndex(i) != ShpIndex(j)
  {
    hide IpIndex, ShpIndex;
    IndexOf(i);
    IndexOf(j);
  }

  lemma IndexOf(i: int)
    requires HasPriority(i)
    ensures i >= 0 ==> 0 <= IpIndex(i) == i / 4 < 8
    ensures i < 0 ==> 0 <= ShpIndex(i) == (i + 8) / 4 < 2
  {
    if i < 0 {
      assert i % 0x1_0000_0000 == i + 0x1_0000_0000;
      assert (i + 0x1_0000_0000) % 16 == i + 16;
      assert (i + 8) % 0x1_0000_0000 == i + 8;
    } else {
      assert i % 0x1_0000_0000 == i;
    }
  }

  class Controller {
    /** __NVIC_PRIO_BITS. */
    const prioBits: bv32
    const ip: array<bv32>
    const shp: array<bv32>

    ghost predicate Valid() {
      1 <= prioBits <= 8 && ip.Length == 8 && shp.Length == 2 && ip != shp
    }

    /** The whole lane of an interrupt, with the bits that are not implemented. */
    ghost function ByteOf(irq: int): bv32
      requires Valid() && HasPriority(irq)
      reads ip, shp
    {
      IndexOf(irq);
      Lane(if irq >= 0 then ip[IpIndex(irq)] else shp[ShpIndex(irq)], BitShift(irq))
    }

    ghost function PriorityOf(irq: int): bv32
      requires Valid() && HasPriority(irq)
      reads ip, shp
    {
      IndexOf(irq);
      Field(if irq >= 0 then ip[IpIndex(irq)] else shp[ShpIndex(irq)], BitShift(irq), prioBits)
    }

    /** Which word and which of its bytes that is: four interrupts to a word, the exceptions counted from -8. */
    lemma RegisterOf(irq: int)
      requires Valid() && HasPriority(irq)
      ensures irq >= 0 ==> ByteOf(irq) == Lane(ip[irq / 4], BitShift(irq))
      ensures irq < 0 ==> ByteOf(irq) == Lane(shp[(irq + 8) / 4], BitShift(irq))
      ensures BitShift(irq) as int == 8 * (irq % 4)
    {
      IndexOf(irq);
      BitShiftIs(irq);
    }

    /** The registers as a map from interrupt number to priority. */
    ghost function Priorities(): map<int, bv32>
      requires Valid()
      reads ip, shp
    {
      map irq | -8 <= irq < 32 :: PriorityOf(irq)
    }

    constructor (prioBits: bv32)
      requires 1 <= prioBits <= 8
      ensures Valid() && this.prioBits == prioBits && fresh(ip) && fresh(shp)
    {
      this.prioBits := prioBits;
      ip := new bv32[8];
      shp := new bv32[2];
    }

    method SetPriority(irq: int, priority: bv32)
      requires Valid() && HasPriority(irq)
      modifies ip, shp
      ensures Priorities() == old(Priorities())[irq := Low(priority, prioBits)]
      ensures forall j :: HasPriority(j) ==>
        ByteOf(j) == if j == irq then Aligned(priority, prioBits) else old(ByteOf(j))
    {
      hide Field, Lane, Aligned, WithField, IpIndex, ShpIndex, BitShift, Low;
      IndexOf(irq);
      BitShiftLanes(irq, irq);
      ghost var w := if irq >= 0 then ip[IpIndex(irq)] else shp[ShpIndex(irq)];
      ghost var w' := WithField(w, BitShift(irq), priority, prioBits);
      if irq >= 0 {
        ip[IpIndex(irq)] := WithField(ip[IpIndex(irq)], BitShift(irq), priority, prioBits);
      } else {
        shp[ShpIndex(irq)] := WithField(shp[ShpIndex(irq)], BitShift(irq), priority, prioBits);
      }
      forall j | HasPriority(j)
        ensures PriorityOf(j) == if j == irq then Low(priority, prioBits) else old(PriorityOf(j))
        ensures ByteOf(j) == if j == irq then Aligned(priority, prioBits) else old(ByteOf(j))
      {
        IndexOf(j);
        BitShiftLanes(irq, j);
        BitShiftLanes(j, irq);
        FieldWritten(w, BitShift(irq), BitShift(j), priority, prioBits);
        ByteWritten(w, BitShift(irq), BitShift(j), priority, prioBits);
        if j != irq && (j < 0 <==> irq < 0) { LanesDistinct(irq, j); }
      }
    }

    method GetPriority(irq: int) returns (p: bv32)
      requires Valid() && HasPriority(irq)
      ensures p == Priorities()[irq]
    {
      IndexOf(irq);
      if irq >= 0 {
        p := Field(ip[IpIndex(irq)], BitShift(irq), prioBits);
      } else {
        p := Field(shp[ShpIndex(irq)], BitShift(irq), prioBits);
      }
    }

    /** Any sequence of settings. */
    method SetAll(calls: seq<(int, bv32)>)
      requires Valid() && forall k :: 0 <= k < |calls| ==> HasPriority(calls[k].0)
      modifies ip, shp
      ensures Priorities() == Applied(old(Priorities()), calls, prioBits)
    {
      hide Low, Priorities;
      assert calls[..0] == [];
      for k := 0 to |calls|
        invariant Priorities() == Applied(old(Priorities()), calls[..k], prioBits)
      {
        SetPriority(calls[k].0, calls[k].1);
        assert calls[..k + 1][..k] == calls[..k];
      }
      assert calls[..|calls|] == calls;
    }
  }

  function Applied(m: map<int, bv32>, calls: seq<(int, bv32)>, prioBits: bv32): map<int, bv32>
    requires prioBits <= 8
  {
    if calls == [] then m
    else
      var last := calls[|calls| - 1];
      Applied(m, calls[..|calls| - 1], prioBits)[last.0 := Low(last.1, prioBits)]
  }

  /** After any settings an interrupt has the priority last set for it, modulo 2^prioBits, or its old one. */
  lemma {:induction false} AppliedIsLastSet(m: map<int, bv32>, calls: seq<(int, bv32)>, prioBits: bv32, irq: int, k: int)
    requires prioBits <= 8 && irq in m && -1 <= k < |calls|
    requires k >= 0 ==> calls[k].0 == irq
    requires forall j :: k < j < |calls| ==> calls[j].0 != irq
    ensures irq in Applied(m, calls, prioBits)
    ensures Applied(m, calls, prioBits)[irq] == if k < 0 then m[irq] else Low(calls[k].1, prioBits)
  {
    hide Low;
    if calls == [] {
    } else if k == |calls| - 1 {
    } else {
      AppliedIsLastSet(m, calls[..|calls| - 1], prioBits, irq, k);
    }
  }

  // ----- priority grouping

  function PreemptBits(group: bv32, prioBits: bv32): bv32 {
    var g := group & 7;
    if 7 - g > prioBits then prioBits else 7 - g
  }

  function SubBits(group: bv32, prioBits: bv32): bv32 {
    var g := group & 7;
    if g + prioBits < 7 then 0 else (g - 7) + prioBits
  }

  /** The two fields always fill the implemented bits exactly. */
  lemma FieldsFill(group: bv32, prioBits: bv32)
    requires 1 <= prioBits <= 8
    ensures PreemptBits(group, prioBits) <= 7 && SubBits(group, prioBits) <= 8
    ensures PreemptBits(group, prioBits) + SubBits(group, prioBits) == prioBits
  {
  }

  function EncodePriority(group: bv32, preempt: bv32, sub: bv32, prioBits: bv32): bv32
    requires 1 <= prioBits <= 8
  {
    FieldsFill(group, prioBits);
    Joined(preempt, sub, PreemptBits(group, prioBits), SubBits(group, prioBits))
  }

  function Joined(preempt: bv32, sub: bv32, preemptBits: bv32, subBits: bv32): bv32
    requires preemptBits <= 8 && subBits <= 8
  {
    (Low(preempt, preemptBits) << subBits) | Low(sub, subBits)
  }

  /** Decoding undoes encoding, modulo the field sizes, and loses nothing of the implemented bits. */
  method DecodePriority(priority: bv32, group: bv32, prioBits: bv32) returns (preempt: bv32, sub: bv32)
    requires 1 <= prioBits <= 8
    ensures forall p, s :: priority == EncodePriority(group, p, s, prioBits) ==>
      && preempt == Low(p, PreemptWidth(group, prioBits))
      && sub == Low(s, SubWidth(group, prioBits))
    ensures EncodePriority(group, preempt, sub, prioBits) == Low(priority, prioBits)
  {
    hide Low, Joined;
    var preemptBits, subBits := PreemptWidth(group, prioBits), SubWidth(group, prioBits);
    FieldsFill(group, prioBits);
    preempt := Low(priority >> subBits, preemptBits);
    sub := Low(priority, subBits);
    forall p, s | priority == EncodePriority(group, p, s, prioBits)
      ensures preempt == Low(p, preemptBits) && sub == Low(s, subBits)
    {
      FieldsApart(p, s, preemptBits, subBits);
    }
    FieldsRejoin(priority, preemptBits, subBits);
  }

  function PreemptWidth(group: bv32, prioBits: bv32): (b: bv32)
    requires 1 <= prioBits <= 8
    ensures b <= 8
  {
    FieldsFill(group, prioBits);
    PreemptBits(group, prioBits)
  }

  function SubWidth(group: bv32, prioBits: bv32): (b: bv32)
    requires 1 <= prioBits <= 8
    ensures b <= 8
  {
    FieldsFill(group, prioBits);
    SubBits(group, prioBits)
  }

  lemma FieldsApart(p: bv32, s: bv32, preemptBits: bv32, subBits: bv32)
    requires preemptBits <= 8 && subBits <= 8 && preemptBits + subBits <= 8
    ensures var e := Joined(p, s, preemptBits, subBits);
      && Low(e >> subBits, preemptBits) == Low(p, preemptBits)
      && Low(e, subBits) == Low(s, subBits)
      && Low(e, preemptBits + subBits) == e
  {
  }

  lemma FieldsRejoin(e: bv32, preemptBits: bv32, subBits: bv32)
    requires preemptBits <= 8 && subBits <= 8 && preemptBits + subBits <= 8
    ensures Joined(Low(e >> subBits, preemptBits), Low(e, subBits), preemptBits, subBits) == Low(e, preemptBits + subBits)
  {
    LowTwice(e >> subBits, preemptBits);
    LowTwice(e, subBits);
    LowSplit(e, preemptBits, subBits);
  }

  lemma LowTwice(x: bv32, b: bv32)
    requires b <= 8
    ensures Low(Low(x, b), b) == Low(x, b)
  {
  }

  lemma LowSplit(e: bv32, a: bv32, b: bv32)
    requires a <= 8 && b <= 8 && a + b <= 8
    ensures (Low(e >> b, a) << b) | Low(e, b) == Low(e, a + b)
  {
    if b == 0 {
    } else if b == 1 {
    } else if b == 2 {
    } else if b == 3 {
    } else if b == 4 {
    } else if b == 5 {
    } else if b == 6 {
    } else if b == 7 {
    } else {
      assert b == 8;
    }
  }

  // ----- where the group puts the binary point

  predicate Bit(x: bv32, i: bv32)
    requires i < 32
  {
    (x >> i) & 1 == 1
  }

  /** The lowest bit of the lane that belongs to the preemption priority. */
  function Top(group: bv32, prioBits: bv32): (top: bv32)
    requires 1 <= prioBits <= 8
    ensures top <= 8 && top > group & 7 && top >= 8 - prioBits
    ensures top == (group & 7) + 1 || top == 8 - prioBits
  {
    if (group & 7) + 1 > 8 - prioBits then (group & 7) + 1 else 8 - prioBits
  }

  /** The preemption field goes from there to the end of the lane, the other from the first implemented bit to there. */
  lemma WidthsAre(group: bv32, prioBits: bv32)
    requires 1 <= prioBits <= 8
    ensures PreemptBits(group, prioBits) == 8 - Top(group, prioBits)
    ensures SubBits(group, prioBits) == Top(group, prioBits) - (8 - prioBits)
  {
  }

  lemma JoinedBits(preempt: bv32, sub: bv32, a: bv32, b: bv32, i: bv32)
    requires a <= 8 && b <= 8 && a + b <= 8 && i < 8
    ensures Bit(Joined(preempt, sub, a, b), i) ==
      if i < b then Bit(sub, i) else if i < a + b then Bit(preempt, i - b) else false
  {
  }

  lemma AlignedBits(priority: bv32, prioBits: bv32, i: bv32)
    requires 1 <= prioBits <= 8 && i < 8
    ensures Bit(Aligned(priority, prioBits), i) == if i < 8 - prioBits then false else Bit(priority, i - (8 - prioBits))
  {
  }

  /**
    Bit by bit, in the lane of the register: bits that are not implemented are zero, those above bit group & 7 come
    from the preemption priority, and those up to it from the subpriority, each field starting with its lowest bit.
   */
  lemma BinaryPoint(group: bv32, preempt: bv32, sub: bv32, prioBits: bv32, i: bv32)
    requires 1 <= prioBits <= 8 && i < 8
    ensures Bit(Aligned(EncodePriority(group, preempt, sub, prioBits), prioBits), i) ==
      if i < 8 - prioBits then false
      else if i > group & 7 then Bit(preempt, i - Top(group, prioBits))
      else Bit(sub, i - (8 - prioBits))
  {
    hide Bit, Joined, Aligned, PreemptBits, SubBits;
    WidthsAre(group, prioBits);
    FieldsFill(group, prioBits);
    AlignedBits(EncodePriority(group, preempt, sub, prioBits), prioBits, i);
    if i >= 8 - prioBits {
      JoinedBits(preempt, sub, PreemptBits(group, prioBits), SubBits(group, prioBits), i - (8 - prioBits));
    }
  }

  // ----- where the lanes are in a word

  /** Lane k of a word are its bits 8 * k to 8 * k + 7, lane 0 being the low byte; the lanes make up the word. */
  lemma LanesAre(w: bv32)
    ensures Lane(w, 0) == w & 0xFF && Lane(w, 24) == w >> 24
    ensures w == Lane(w, 0) | (Lane(w, 8) << 8) | (Lane(w, 16) << 16) | (Lane(w, 24) << 24)
  {
  }

  lemma BitShiftIs(irq: int)
    ensures BitShift(irq) as int == 8 * (irq % 4)
  {
  }

  /** An encoded priority fits the implemented bits, so a register gives it back unchanged. */
  lemma EncodedSurvives(group: bv32, preempt: bv32, sub: bv32, prioBits: bv32)
    requires 1 <= prioBits <= 8
    ensures Low(EncodePriority(group, preempt, sub, prioBits), prioBits) == EncodePriority(group, preempt, sub, prioBits)
  {
    hide Low, Joined, PreemptBits, SubBits;
    FieldsFill(group, prioBits);
    FieldsApart(preempt, sub, PreemptBits(group, prioBits), SubBits(group, prioBits));
  }

  /** Encode, set, get, decode: the caller's two values come back modulo their field sizes. */
  method StoreGrouped(nvic: Controller, irq: int, group: bv32, preempt: bv32, sub: bv32) returns (p: bv32, s: bv32)
    requires nvic.Valid() && HasPriority(irq)
    modifies nvic.ip, nvic.shp
    ensures p == Low(preempt, PreemptWidth(group, nvic.prioBits))
    ensures s == Low(sub, SubWidth(group, nvic.prioBits))
  {
    hide Low, EncodePriority, PreemptWidth, SubWidth;
    var e := EncodePriority(group, preempt, sub, nvic.prioBits);
    EncodedSurvives(group, preempt, sub, nvic.prioBits);
    nvic.SetPriority(irq, e);
    var stored := nvic.GetPriority(irq);
    p, s := DecodePriority(stored, group, nvic.prioBits);
  }
}
