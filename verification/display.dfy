/** Two display helpers of the desktop app: the playback clock text and the
    colour of a similarity badge. */
module Display {
  import opened Strings

  // ---------------------------------------------------------------- format_time

  /** `format_time(ms)`: whole minutes, ':' and two-digit seconds. Python's `//`
      and `%` floor, which Dafny's `/` and `%` agree with for a positive divisor. */
  function FormatTime(ms: int): string {
    var seconds := ms / 1000;
    IntToString(seconds / 60) + ":" + Pad2(seconds % 60)
  }

  lemma ParsePad2(n: nat)
    requires n < 100
    ensures |Pad2(n)| == 2
    ensures ParseNat(Pad2(n)) == n
  {
    ParseNatToString(n);
    if n < 10 {
      assert Pad2(n)[..1] == "0";
    } else {
      assert NatToString(n) == NatToString(n / 10) + [DigitChar(n % 10)];
    }
  }

  /** Reading the clock text of a non-negative position back gives the position
      to the second: minutes, then two digits of seconds below 60. */
  lemma {:induction false} FormatTimeReadsBack(ms: nat)
    ensures var t := FormatTime(ms);
      exists m: string, sec: string ::
        && t == m + ":" + sec
        && (forall i :: 0 <= i < |m| ==> IsDigit(m[i]))
        && |sec| == 2 && (forall i :: 0 <= i < 2 ==> IsDigit(sec[i]))
        && ParseNat(sec) < 60
        && ParseNat(m) * 60000 + ParseNat(sec) * 1000 <= ms < ParseNat(m) * 60000 + ParseNat(sec) * 1000 + 1000
  {
    var seconds := ms / 1000;
    var minutes := seconds / 60;
    var rest := seconds % 60;
    var m := NatToString(minutes);
    var sec := Pad2(rest);
    ParseNatToString(minutes);
    ParsePad2(rest);
    assert FormatTime(ms) == m + ":" + sec;
    assert ms == seconds * 1000 + ms % 1000;
    assert seconds == minutes * 60 + rest;
    assert seconds * 1000 == minutes * 60000 + rest * 1000;
  }

  // ---------------------------------------------------------------- get_similarity_color

  /** The lower edges of the colour bands, from red upwards. */
  const Thresholds: seq<real> := [25.0, 40.0, 55.0, 70.0, 85.0]

  /** The badge colours from the lowest band (red) to the highest (bright green). */
  const Palette: seq<string> := ["#ff5252", "#ff6e40", "#ffab40", "#ffd740", "#69f0ae", "#00e676"]

  /** `get_similarity_color`: the first threshold met, from the top. */
  function SimilarityColor(p: real): string {
    if p >= 85.0 then "#00e676"
    else if p >= 70.0 then "#69f0ae"
    else if p >= 55.0 then "#ffd740"
    else if p >= 40.0 then "#ffab40"
    else if p >= 25.0 then "#ff6e40"
    else "#ff5252"
  }

  /** How many thresholds `p` reaches. */
  function Band(p: real, ts: seq<real>): (b: nat)
    ensures b <= |ts|
  {
    if |ts| == 0 then 0 else (if p >= ts[0] then 1 else 0) + Band(p, ts[1..])
  }

  /** The colour of a similarity is the palette entry for the number of
      thresholds it reaches. */
  lemma ColorIsBand(p: real)
    ensures SimilarityColor(p) == Palette[Band(p, Thresholds)]
  {
    var b4 := if p >= 85.0 then 1 else 0;
    assert Band(p, [85.0]) == b4 by { assert [85.0][1..] == []; }
    var b3 := (if p >= 70.0 then 1 else 0) + b4;
    assert Band(p, [70.0, 85.0]) == b3 by { assert [70.0, 85.0][1..] == [85.0]; }
    var b2 := (if p >= 55.0 then 1 else 0) + b3;
    assert Band(p, [55.0, 70.0, 85.0]) == b2 by { assert [55.0, 70.0, 85.0][1..] == [70.0, 85.0]; }
    var b1 := (if p >= 40.0 then 1 else 0) + b2;
    assert Band(p, [40.0, 55.0, 70.0, 85.0]) == b1 by { assert [40.0, 55.0, 70.0, 85.0][1..] == [55.0, 70.0, 85.0]; }
    assert Band(p, Thresholds) == (if p >= 25.0 then 1 else 0) + b1 by { assert Thresholds[1..] == [40.0, 55.0, 70.0, 85.0]; }
  }

  /** A higher similarity never reaches fewer thresholds, so its colour is never
      further down the palette. */
  lemma {:induction false} BandMonotone(p: real, q: real, ts: seq<real>)
    requires p <= q
    ensures Band(p, ts) <= Band(q, ts)
  {
    if |ts| > 0 {
      BandMonotone(p, q, ts[1..]);
    }
  }

  /** The colour changes only at a threshold: similarities that reach the same
      thresholds share a colour, and the six colours are all different. */
  lemma ColorsDistinct(p: real, q: real)
    ensures SimilarityColor(p) == SimilarityColor(q) <==> Band(p, Thresholds) == Band(q, Thresholds)
  {
    ColorIsBand(p);
    ColorIsBand(q);
  }
}
