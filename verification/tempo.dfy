/** The octave-correction heuristic applied to a raw tempo estimate, shared by
    the librosa engine and the Essentia engine. The raw estimate itself comes
    from the signal-processing library and is an input here. */
module Tempo {
  import opened Common

  const MinBpm: real := 40.0
  const MaxBpm: real := 200.0
  const SweetSpot: real := 120.0

  /** Doubling is tried below this tempo ... */
  const DoubleBelow: real := 80.0
  /** ... and halving above this one. */
  const HalveAbove: real := 160.0

  function Dist(x: real, t: real): real {
    if x >= t then x - t else t - x
  }

  predicate InBand(b: real) { MinBpm <= b <= MaxBpm }

  /** `[base] + [base * 2] if base < 80 + [base / 2] if base > 160` */
  function OctaveCandidates(base: real): seq<real> {
    [base] + (if base < DoubleBelow then [base * 2.0] else [])
           + (if base > HalveAbove then [base / 2.0] else [])
  }

  /** The in-band candidates, in their original order. */
  function KeepInBand(cs: seq<real>): (vs: seq<real>)
    ensures forall i :: 0 <= i < |vs| ==> InBand(vs[i]) && vs[i] in cs
    ensures forall c :: c in cs && InBand(c) ==> c in vs
    ensures |vs| <= |cs|
  {
    if |cs| == 0 then []
    else (if InBand(cs[0]) then [cs[0]] else []) + KeepInBand(cs[1..])
  }

  /** `min(cs, key=lambda x: abs(x - t))` as an index: the first element of least
      distance to `t`. */
  function ClosestIndex(cs: seq<real>, t: real): (k: nat)
    requires |cs| > 0
    ensures k < |cs|
    ensures forall j :: 0 <= j < |cs| ==> Dist(cs[k], t) <= Dist(cs[j], t)
    ensures forall j :: 0 <= j < k ==> Dist(cs[j], t) > Dist(cs[k], t)
  {
    if |cs| == 1 then 0
    else
      var k := ClosestIndex(cs[..|cs| - 1], t);
      if Dist(cs[|cs| - 1], t) < Dist(cs[k], t) then |cs| - 1 else k
  }

  /** The heuristic before rounding: the in-band candidate closest to 120, if any. */
  function CorrectOctave(base: real): (r: Option<real>)
    ensures r.Some? ==> InBand(r.value) && r.value in OctaveCandidates(base)
    ensures r.Some? ==> forall c :: c in OctaveCandidates(base) && InBand(c) ==>
                          Dist(r.value, SweetSpot) <= Dist(c, SweetSpot)
    ensures r.None? <==> forall c :: c in OctaveCandidates(base) ==> !InBand(c)
  {
    var valid := KeepInBand(OctaveCandidates(base));
    if |valid| == 0 then None else Some(valid[ClosestIndex(valid, SweetSpot)])
  }

  /** The heuristic in closed form: 80..160 is kept, 20..80 doubled, 160..400
      halved, anything else (zero and negative tempi included) rejected. */
  lemma OctaveClosedForm(base: real)
    ensures CorrectOctave(base) ==
      if DoubleBelow <= base <= HalveAbove then Some(base)
      else if 20.0 <= base < DoubleBelow then Some(base * 2.0)
      else if HalveAbove < base <= 400.0 then Some(base / 2.0)
      else None
  {
    if DoubleBelow <= base <= HalveAbove {
      OctaveKept(base);
    } else if base < DoubleBelow {
      OctaveLow(base);
    } else {
      OctaveHigh(base);
    }
  }

  lemma OctaveKept(base: real)
    requires DoubleBelow <= base <= HalveAbove
    ensures CorrectOctave(base) == Some(base)
  {
    assert OctaveCandidates(base) == [base];
    KeepOne(base);
    ClosestOne(base, SweetSpot);
  }

  lemma OctaveLow(base: real)
    requires base < DoubleBelow
    ensures CorrectOctave(base) == if 20.0 <= base then Some(base * 2.0) else None
  {
    var d := base * 2.0;
    assert OctaveCandidates(base) == [base, d];
    KeepPair(base, d);
    var valid := KeepInBand([base, d]);
    if base < 20.0 {
      assert valid == [];
    } else if base < MinBpm {
      assert valid == [d];
      ClosestOne(d, SweetSpot);
    } else {
      assert valid == [base, d];
      assert Dist(d, SweetSpot) < Dist(base, SweetSpot);
      ClosestPair(base, d, SweetSpot);
    }
  }

  lemma OctaveHigh(base: real)
    requires HalveAbove < base
    ensures CorrectOctave(base) == if base <= 400.0 then Some(base / 2.0) else None
  {
    var h := base / 2.0;
    assert OctaveCandidates(base) == [base, h];
    KeepPair(base, h);
    var valid := KeepInBand([base, h]);
    if base > 400.0 {
      assert valid == [];
    } else if base > MaxBpm {
      assert valid == [h];
      ClosestOne(h, SweetSpot);
    } else {
      assert valid == [base, h];
      assert Dist(h, SweetSpot) < Dist(base, SweetSpot);
      ClosestPair(base, h, SweetSpot);
    }
  }

  lemma KeepOne(a: real)
    ensures KeepInBand([a]) == if InBand(a) then [a] else []
  {
    assert [a][1..] == [];
  }

  lemma KeepPair(a: real, b: real)
    ensures KeepInBand([a, b]) == (if InBand(a) then [a] else []) + (if InBand(b) then [b] else [])
  {
    assert [a, b][1..] == [b];
    KeepOne(b);
  }

  lemma ClosestOne(a: real, t: real)
    ensures ClosestIndex([a], t) == 0
  {
  }

  lemma ClosestPair(a: real, b: real, t: real)
    ensures ClosestIndex([a, b], t) == if Dist(b, t) < Dist(a, t) then 1 else 0
  {
    assert [a, b][..1] == [a];
    ClosestOne(a, t);
  }

  /** `round(x, 1)`, with halves rounded up. */
  function Round1(x: real): (r: real)
    ensures x - 0.05 < r <= x + 0.05
    ensures InBand(x) ==> InBand(r)
  {
    var n := (x * 10.0 + 0.5).Floor;
    assert n as real <= x * 10.0 + 0.5 < n as real + 1.0;
    n as real / 10.0
  }

  /** The tempo the librosa engine reports for a raw estimate `base`. */
  function Estimate(base: real): (r: Option<real>)
    ensures r.Some? ==> InBand(r.value)
    ensures r.Some? <==> 20.0 <= base <= 400.0
    ensures r.Some? ==>
      && CorrectOctave(base).Some?
      && CorrectOctave(base).value - 0.05 < r.value <= CorrectOctave(base).value + 0.05
  {
    OctaveClosedForm(base);
    match CorrectOctave(base)
    case None => None
    case Some(b) => Some(Round1(b))
  }

  /** The Essentia engine's tempo: the same heuristic, applied only when the
      rhythm extractor reports a positive tempo. */
  function EssentiaEstimate(bpmValue: real): (r: Option<real>)
    ensures r.Some? ==> InBand(r.value)
    ensures bpmValue <= 0.0 ==> r.None?
    ensures bpmValue > 0.0 ==> r == Estimate(bpmValue)
  {
    if bpmValue > 0.0 then Estimate(bpmValue) else None
  }

  /** The Essentia engine's positivity guard changes nothing: the heuristic
      already rejects every non-positive tempo. */
  lemma EssentiaGuardRedundant(bpmValue: real)
    ensures EssentiaEstimate(bpmValue) == Estimate(bpmValue)
  {
    OctaveClosedForm(bpmValue);
  }

  /** The worked examples: 70 becomes 140, 170 becomes 85. */
  lemma OctaveExamples()
    ensures CorrectOctave(70.0) == Some(140.0)
    ensures CorrectOctave(170.0) == Some(85.0)
  {
    OctaveClosedForm(70.0);
    OctaveClosedForm(170.0);
  }
}
