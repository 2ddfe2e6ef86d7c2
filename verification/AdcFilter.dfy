/** ADC_control.c, PDB0_isr: the filters that run on every set of samples. */
module AdcFilter {
  /** FILTR_AVER_SZ */
  const AVERAGED := 16

  /** The weight of the accumulated offset: it is shifted right by twelve places. */
  const SCALE := 4096

  // ---- The filter that takes the constant part from a current ----

  /** The current shown for a sample: the sample less the offset found so far. Division by SCALE is the arithmetic shift. */
  function Current(sample: nat, offs: int): int {
    sample - offs / SCALE
  }

  function NextOffset(sample: nat, offs: int): int {
    offs + Current(sample, offs)
  }

  /** The offset stays where samples up to a bound can bring it. */
  predicate InRange(offs: int, bound: nat) {
    0 <= offs <= SCALE * bound + (SCALE - 1)
  }

  /** One step keeps the offset in range, for any sample up to the bound. */
  lemma StaysInRange(sample: nat, offs: int, bound: nat)
    requires sample <= bound && InRange(offs, bound)
    ensures InRange(NextOffset(sample, offs), bound)
  {
    var q, r := offs / SCALE, offs % SCALE;
    assert offs == SCALE * q + r;
  }

  /** The offset after a series of samples. */
  function OffsetAfter(samples: seq<nat>, offs: int): int
    decreases |samples|
  {
    if samples == [] then offs else NextOffset(samples[|samples| - 1], OffsetAfter(samples[..|samples| - 1], offs))
  }

  lemma {:induction false} AlwaysInRange(samples: seq<nat>, offs: int, bound: nat)
    requires InRange(offs, bound) && forall i :: 0 <= i < |samples| ==> samples[i] <= bound
    ensures InRange(OffsetAfter(samples, offs), bound)
    decreases |samples|
  {
    if samples != [] {
      AlwaysInRange(samples[..|samples| - 1], offs, bound);
      StaysInRange(samples[|samples| - 1], OffsetAfter(samples[..|samples| - 1], offs), bound);
    }
  }

  /** With 16-bit samples no sum passes what a 32-bit integer holds. */
  lemma NoOverflow(offs: int, sample: nat)
    requires InRange(offs, 0xFFFF) && sample <= 0xFFFF
    ensures 0 <= offs < 0x8000_0000 && -0x8000_0000 <= Current(sample, offs) < 0x8000_0000
    ensures 0 <= NextOffset(sample, offs) < 0x8000_0000
  {
    StaysInRange(sample, offs, 0xFFFF);
  }

  // ---- Settling on a constant sample ----

  function OffsetAt(sample: nat, offs: int, n: nat): int {
    if n == 0 then offs else NextOffset(sample, OffsetAt(sample, offs, n - 1))
  }

  /** The current shown n interrupts later. */
  function CurrentAt(sample: nat, offs: int, n: nat): int {
    Current(sample, OffsetAt(sample, offs, n))
  }

  /** How far the offset is from where it rests. */
  function Gap(sample: nat, offs: int): nat {
    if offs < SCALE * sample then SCALE * sample - offs
    else if offs >= SCALE * sample + SCALE then offs - (SCALE * sample + SCALE - 1)
    else 0
  }

  /** The current is zero exactly when nothing is missing, and it points to where the offset rests. */
  lemma GapIs(sample: nat, offs: int)
    ensures Gap(sample, offs) == 0 <==> Current(sample, offs) == 0
    ensures Current(sample, offs) > 0 <==> offs < SCALE * sample
  {
    var q, r := offs / SCALE, offs % SCALE;
    assert offs == SCALE * q + r;
  }

  /** A step brings the current nearer to zero, never to the other side of it, and closes the gap by the current at least. */
  lemma Nearer(sample: nat, offs: int)
    ensures var c, c' := Current(sample, offs), Current(sample, NextOffset(sample, offs));
            if c >= 0 then 0 <= c' <= c else c <= c' <= 0
    ensures Gap(sample, offs) > 0 ==> Gap(sample, NextOffset(sample, offs)) < Gap(sample, offs)
    ensures Gap(sample, offs) == 0 ==> NextOffset(sample, offs) == offs
  {
    GapIs(sample, offs);
    GapIs(sample, NextOffset(sample, offs));
    var q, r := offs / SCALE, offs % SCALE;
    assert offs == SCALE * q + r;
    var n := NextOffset(sample, offs);
    var p, t := n / SCALE, n % SCALE;
    assert n == SCALE * p + t;
  }

  /** What is missing shrinks by its 4096th part, rounded up, in every step. */
  lemma GapShrinks(sample: nat, offs: int)
    ensures var g := Gap(sample, offs); Gap(sample, NextOffset(sample, offs)) == g - (g + 4095) / 4096
  {
    var q, r := offs / SCALE, offs % SCALE;
    assert offs == SCALE * q + r;
  }

  /** The current never crosses zero and never grows, however long the sample stays. */
  lemma {:induction false} NoOvershoot(sample: nat, offs: int, n: nat)
    ensures if CurrentAt(sample, offs, 0) >= 0 then 0 <= CurrentAt(sample, offs, n + 1) <= CurrentAt(sample, offs, n)
            else CurrentAt(sample, offs, n) <= CurrentAt(sample, offs, n + 1) <= 0
    decreases n
  {
    Nearer(sample, OffsetAt(sample, offs, n));
    if n > 0 {
      NoOvershoot(sample, offs, n - 1);
    }
  }

  lemma {:induction false} GapCloses(sample: nat, offs: int, n: nat)
    ensures Gap(sample, OffsetAt(sample, offs, n)) <= if n <= Gap(sample, offs) then Gap(sample, offs) - n else 0
    decreases n
  {
    if n > 0 {
      GapCloses(sample, offs, n - 1);
      Nearer(sample, OffsetAt(sample, offs, n - 1));
    }
  }

  /** On a constant sample the current is exactly zero after finitely many interrupts, and from then on. */
  lemma Settles(sample: nat, offs: int, n: nat)
    requires n >= Gap(sample, offs)
    ensures CurrentAt(sample, offs, n) == 0 && OffsetAt(sample, offs, n + 1) == OffsetAt(sample, offs, n)
  {
    GapCloses(sample, offs, n);
    GapIs(sample, OffsetAt(sample, offs, n));
    Nearer(sample, OffsetAt(sample, offs, n));
  }

  // ---- The running average ----

  function Sum(s: seq<nat>): nat {
    if s == [] then 0 else Sum(s[..|s| - 1]) + s[|s| - 1]
  }

  lemma {:induction false} SumUpdate(s: seq<nat>, i: nat, x: nat)
    requires i < |s|
    ensures Sum(s[i := x]) == Sum(s) - s[i] + x
    decreases |s|
  {
    var t := s[i := x];
    if i < |s| - 1 {
      assert t[..|t| - 1] == s[..|s| - 1][i := x];
      SumUpdate(s[..|s| - 1], i, x);
    } else {
      assert t[..|t| - 1] == s[..|s| - 1];
    }
  }

  lemma {:induction false} SumBound(s: seq<nat>, bound: nat)
    requires forall i :: 0 <= i < |s| ==> s[i] <= bound
    ensures Sum(s) <= |s| * bound
    decreases |s|
  {
    if s != [] {
      SumBound(s[..|s| - 1], bound);
    }
  }

  lemma {:induction false} SumOfSame(s: seq<nat>, x: nat)
    requires forall i :: 0 <= i < |s| ==> s[i] == x
    ensures Sum(s) == |s| * x
    decreases |s|
  {
    if s != [] {
      SumOfSame(s[..|s| - 1], x);
    }
  }

  /** The latest sixteen samples, the latest last, with zeros before the first. */
  function Sample(history: seq<nat>, k: nat): nat
    requires k < AVERAGED
  {
    if k < |history| then history[|history| - 1 - k] else 0
  }

  /** Where the sample of k interrupts ago is. */
  function Place(aai: nat, k: nat): (i: nat)
    requires aai < AVERAGED && k < AVERAGED
    ensures i < AVERAGED
  {
    (aai + AVERAGED - 1 - k) % AVERAGED
  }

  lemma PlaceSteps(aai: nat, k: nat)
    requires aai < AVERAGED && k < AVERAGED
    ensures var next := if aai + 1 >= AVERAGED then 0 else aai + 1;
            if k == 0 then Place(next, 0) == aai else Place(next, k) == Place(aai, k - 1) && Place(aai, k - 1) != aai
  {}

  /** The samples of one interrupt. */
  datatype Samples = Samples(w: nat, v: nat, u: nat, bus: nat)

  class Results {
    var iwOffs: int
    var ivOffs: int
    var iuOffs: int
    var iw: int
    var iv: int
    var iu: int
    const vBusArr: array<nat>
    var vBusAcc: int
    var aai: nat
    var vBus: int

    /** The bus samples so far. */
    ghost var history: seq<nat>

    /** The accumulator is the sum of the stored samples, and they are the latest ones. */
    ghost predicate Valid()
      reads this, vBusArr
    {
      && vBusArr.Length == AVERAGED && aai < AVERAGED && vBusAcc == Sum(vBusArr[..])
      && forall k :: 0 <= k < AVERAGED ==> vBusArr[Place(aai, k)] == Sample(history, k)
    }

    constructor ()
      ensures Valid() && fresh(vBusArr) && iwOffs == ivOffs == iuOffs == 0 && history == []
    {
      vBusArr := new nat[AVERAGED](_ => 0);
      iwOffs, ivOffs, iuOffs, iw, iv, iu := 0, 0, 0, 0, 0, 0;
      vBusAcc, aai, vBus, history := 0, 0, 0, [];
      new;
      SumOfSame(vBusArr[..], 0);
    }

    /** The running average of the bus voltage. */
    method Average(sample: nat)
      requires Valid()
      modifies this`vBusAcc, this`aai, this`vBus, this`history, vBusArr
      ensures Valid() && history == old(history) + [sample] && vBus == Sum(vBusArr[..]) / 16
    {
      ghost var s, a := vBusArr[..], aai;
      vBusAcc := vBusAcc - vBusArr[aai];
      vBusArr[aai] := sample;
      vBusAcc := vBusAcc + vBusArr[aai];
      SumUpdate(s, aai, sample);
      assert vBusArr[..] == s[aai := sample];
      aai := aai + 1;
      if aai >= AVERAGED { aai := 0; }
      history := history + [sample];
      vBus := vBusAcc / AVERAGED;
      forall k | 0 <= k < AVERAGED
        ensures vBusArr[Place(aai, k)] == Sample(history, k)
      {
        PlaceSteps(a, k);
        if k > 0 {
          assert Sample(history, k) == Sample(old(history), k - 1);
        }
      }
    }

    /** The filter part of PDB0_isr. */
    method Isr(s: Samples)
      requires Valid()
      modifies this, vBusArr
      ensures Valid() && history == old(history) + [s.bus]
      ensures iw == Current(s.w, old(iwOffs)) && iwOffs == NextOffset(s.w, old(iwOffs))
      ensures iv == Current(s.v, old(ivOffs)) && ivOffs == NextOffset(s.v, old(ivOffs))
      ensures iu == Current(s.u, old(iuOffs)) && iuOffs == NextOffset(s.u, old(iuOffs))
      ensures vBus == Sum(vBusArr[..]) / 16
    {
      iw := s.w - iwOffs / SCALE;
      iwOffs := iwOffs + iw;
      iv := s.v - ivOffs / SCALE;
      ivOffs := ivOffs + iv;
      iu := s.u - iuOffs / SCALE;
      iuOffs := iuOffs + iu;
      Average(s.bus);
    }

    /** The average shown lies within the bound of the latest samples, and is the sample itself once sixteen were equal. */
    lemma AverageIs(bound: nat)
      requires Valid() && forall k :: 0 <= k < 16 ==> Sample(history, k) <= bound
      ensures Sum(vBusArr[..]) / 16 <= bound
      ensures (forall k :: 0 <= k < 16 ==> Sample(history, k) == bound) ==> Sum(vBusArr[..]) / 16 == bound
    {
      var s := vBusArr[..];
      forall i | 0 <= i < AVERAGED
        ensures s[i] == Sample(history, (aai + AVERAGED - 1 - i) % AVERAGED)
      {
        PlaceInverse(aai, i);
      }
      SumBound(s, bound);
      if forall k :: 0 <= k < AVERAGED ==> Sample(history, k) == bound {
        SumOfSame(s, bound);
      }
    }
  }

  lemma PlaceInverse(aai: nat, i: nat)
    requires aai < AVERAGED && i < AVERAGED
    ensures Place(aai, (aai + AVERAGED - 1 - i) % AVERAGED) == i
  {}
}
