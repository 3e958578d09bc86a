/** The simulated rover of tools/rover_sim.cpp: wrapping encoders, steering, current and voltage. */
module Plant {
  import opened Words
  import opened Protocol

  /** C++ division truncates toward zero. */
  function TruncDiv(a: int, b: int): int
    requires b > 0
  {
    if a >= 0 then a / b else -(-a / b)
  }

  /** The distance a sequence of drive commands covers, in encoder counts. */
  function Travel(drives: seq<i16>): int {
    if drives == [] then 0 else Travel(drives[..|drives| - 1]) + TruncDiv(drives[|drives| - 1], 10)
  }

  /** The quotient's multiple of b is the one nearest to a between a and zero. */
  lemma TruncDivRoundsToZero(a: int, b: int)
    requires b > 0
    ensures var p := b * TruncDiv(a, b);
            (a >= 0 ==> 0 <= p <= a < p + b) && (a <= 0 ==> p - b < a <= p <= 0)
  {
    var m := if a >= 0 then a else -a;
    QuotientBounds(m, b);
    NegatedProduct(b, m / b);
  }

  lemma QuotientBounds(m: nat, b: int)
    requires b > 0
    ensures 0 <= b * (m / b) <= m < b * (m / b) + b
  {
    assert m == b * (m / b) + m % b;
    assert m / b >= 0;
  }

  lemma NegatedProduct(b: int, q: int)
    ensures b * -q == -(b * q)
  {}

  /** Driving a sequence and then its negation brings the counter back. */
  lemma {:induction false} ThereAndBack(drives: seq<i16>, back: seq<i16>)
    requires |back| == |drives| && forall i | 0 <= i < |drives| :: back[i] == -(drives[i] as int)
    ensures Travel(drives) + Travel(back) == 0 && Travel(drives + back) == 0
  {
    hide TruncDiv;
    TravelConcat(drives, back);
    if drives != [] {
      var n := |drives| - 1;
      ThereAndBack(drives[..n], back[..n]);
      TruncDivOdd(drives[n], 10);
    }
  }

  lemma TruncDivOdd(a: int, b: int)
    requires b > 0
    ensures TruncDiv(-a, b) == -TruncDiv(a, b)
  {}

  /** Commands below ten in magnitude never move the counter. */
  lemma {:induction false} CreepGoesNowhere(drives: seq<i16>)
    requires forall i | 0 <= i < |drives| :: -10 < drives[i] < 10
    ensures Travel(drives) == 0
  {
    if drives != [] { CreepGoesNowhere(drives[..|drives| - 1]); }
  }

  /** Each turn the counter moves by a tenth of the command, rounded toward zero. */
  lemma TravelStep(drives: seq<i16>, d: i16)
    ensures var step := Travel(drives + [d]) - Travel(drives);
            (d >= 0 ==> 0 <= 10 * step <= d < 10 * step + 10) && (d <= 0 ==> 10 * step - 10 < d <= 10 * step <= 0)
  {
    hide TruncDiv;
    TravelSnoc(drives, d);
    TruncDivRoundsToZero(d, 10);
  }

  lemma TravelSnoc(drives: seq<i16>, d: i16)
    ensures Travel(drives + [d]) == Travel(drives) + TruncDiv(d, 10)
  {
    assert (drives + [d])[..|drives|] == drives;
  }

  lemma {:induction false} TravelConcat(before: seq<i16>, later: seq<i16>)
    ensures Travel(before + later) == Travel(before) + Travel(later)
  {
    if later == [] {
      assert before + later == before;
    } else {
      var n := |later| - 1;
      TravelConcat(before, later[..n]);
      assert (before + later)[..|before + later| - 1] == before + later[..n];
    }
  }

  /**
   * Two encoder readings, however often the counter wrapped, tell the distance
   * driven between them exactly when that distance fits an int32.
   */
  lemma EncoderMeasures(before: seq<i16>, later: seq<i16>, x: i32, y: i32)
    requires Wrap32(x) == Wrap32(Travel(before)) && Wrap32(y) == Wrap32(Travel(before + later))
    ensures WrapI32(y - x) == Travel(later) <==> -TWO_31 <= Travel(later) < TWO_31
  {
    hide Wrap32, WrapI32;
    TravelConcat(before, later);
    WrapRecoversDisplacement(Travel(before), Travel(before + later), x, y);
  }

  /** One turn of the steering toward its command. */
  function Slew(fb: i16, steer: i16): (r: i16)
  {
    if fb < steer then (if fb + 25 < steer then fb + 25 else steer)
    else if fb > steer then (if fb - 25 > steer then fb - 25 else steer)
    else fb
  }

  function SlewFor(fb: i16, steer: i16, turns: nat): i16
    decreases turns
  {
    if turns == 0 then fb else SlewFor(Slew(fb, steer), steer, turns - 1)
  }

  function Distance(a: int, b: int): nat {
    if a < b then b - a else a - b
  }

  /** Steering closes in by 25 a turn, arrives, stays, and never passes its command. */
  lemma {:induction false} SlewArrives(fb: i16, steer: i16, turns: nat)
    ensures var r := SlewFor(fb, steer, turns);
            && Distance(r, steer) == (if 25 * turns < Distance(fb, steer) then Distance(fb, steer) - 25 * turns else 0)
            && (fb <= steer ==> r == if fb + 25 * turns < steer then fb + 25 * turns else steer)
            && (fb >= steer ==> r == if fb - 25 * turns > steer then fb - 25 * turns else steer)
    decreases turns
  {
    if turns > 0 { SlewArrives(Slew(fb, steer), steer, turns - 1); }
  }

  lemma CongruentStep(enc: int, travel: int, step: int)
    requires Wrap32(enc) == Wrap32(travel)
    ensures Wrap32(enc + step) == Wrap32(travel + step)
  {}

  /** The simulated motor current and battery voltage, in hundredths. */
  function CurrentOf(drive: i16): int {
    TruncDiv(Distance(drive, 0) * 3, 2)
  }

  function VoltageOf(drive: i16): int {
    2400 - TruncDiv(Distance(drive, 0), 40)
  }

  /** The current is three halves of the command's magnitude and the sag a fortieth, both rounded down. */
  lemma LoadOf(drive: i16)
    ensures var m := if drive >= 0 then drive as int else -(drive as int); var sag := 2400 - VoltageOf(drive);
            2 * CurrentOf(drive) <= 3 * m < 2 * CurrentOf(drive) + 2 && 40 * sag <= m < 40 * sag + 40
  {}
}
