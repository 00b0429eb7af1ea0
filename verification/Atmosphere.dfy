/**
 The pressure and altitude of firmware/core/flight/atmosphere: a table of the standard atmosphere
 read with straight lines between its knots, and the search that reads it the other way.
 */
module Atmosphere {
  import opened Remainders

  const ENTRIES: nat := 169
  const LOWEST_MPA: nat := 26000000
  const HIGHEST_MPA: nat := 110000000
  const STEP_MPA: nat := 500000

  // The table in centimetres, eight entries to a row.
  function Row(r: nat): (row: seq<int>)
    ensures |row| == 8
  {
    match r
    case 0 => [1010851, 998426, 986189, 974134, 962256, 950548, 939005, 927622]
    case 1 => [916395, 905318, 894387, 883597, 872946, 862429, 852041, 841781]
    case 2 => [831644, 821626, 811726, 801939, 792264, 782696, 773235, 763876]
    case 3 => [754617, 745457, 736393, 727422, 718543, 709753, 701051, 692434]
    case 4 => [683900, 675449, 667078, 658785, 650569, 642428, 634361, 626367]
    case 5 => [618443, 610588, 602802, 595082, 587428, 579838, 572312, 564847]
    case 6 => [557443, 550099, 542813, 535585, 528414, 521298, 514237, 507230]
    case 7 => [500275, 493373, 486521, 479720, 472968, 466265, 459610, 453002]
    case 8 => [446440, 439924, 433452, 427025, 420642, 414302, 408003, 401747]
    case 9 => [395531, 389356, 383221, 377126, 371068, 365050, 359068, 353124]
    case 10 => [347217, 341345, 335510, 329709, 323943, 318212, 312514, 306849]
    case 11 => [301218, 295619, 290052, 284516, 279012, 273539, 268096, 262683]
    case 12 => [257300, 251947, 246622, 241326, 236059, 230819, 225607, 220423]
    case 13 => [215265, 210134, 205030, 199951, 194899, 189872, 184870, 179893]
    case 14 => [174940, 170013, 165109, 160229, 155373, 150540, 145730, 140943]
    case 15 => [136179, 131437, 126717, 122019, 117342, 112688, 108054, 103442]
    case 16 => [98850, 94279, 89728, 85198, 80687, 76197, 71726, 67274]
    case 17 => [62842, 58428, 54034, 49658, 45301, 40962, 36641, 32338]
    case 18 => [28053, 23786, 19536, 15304, 11088, 6890, 2709, -1456]
    case 19 => [-5604, -9735, -13851, -17950, -22033, -26100, -30152, -34188]
    case 20 => [-38208, -42214, -46204, -50178, -54138, -58084, -62014, -65930]
    case _ => [-69831, 0, 0, 0, 0, 0, 0, 0]
  }

  // altitude_mm_at.
  function Knot(i: nat): int
    requires i < ENTRIES
  {
    10 * Row(i / 8)[i % 8]
  }

  lemma RowDescends(r: nat, k: nat)
    requires r < 21 && k < 7
    ensures Row(r)[k] > Row(r)[k + 1]
  {
    match r
    case 0 => case 1 => case 2 => case 3 => case 4 => case 5 => case 6 => case 7 => case 8 => case 9 =>
    case 10 => case 11 => case 12 => case 13 => case 14 => case 15 => case 16 => case 17 => case 18 => case 19 => case 20 =>
    case _ =>
  }

  lemma RowsDescend(r: nat)
    requires r < 21
    ensures Row(r)[7] > Row(r + 1)[0]
  {
    match r
    case 0 => case 1 => case 2 => case 3 => case 4 => case 5 => case 6 => case 7 => case 8 => case 9 =>
    case 10 => case 11 => case 12 => case 13 => case 14 => case 15 => case 16 => case 17 => case 18 => case 19 => case 20 =>
    case _ =>
  }

  lemma KnotsDescend(i: nat)
    requires i + 1 < ENTRIES
    ensures Knot(i) > Knot(i + 1)
  {
    hide Row;
    if i % 8 < 7 {
      RowDescends(i / 8, i % 8);
      assert (i + 1) / 8 == i / 8 && (i + 1) % 8 == i % 8 + 1;
    } else {
      RowsDescend(i / 8);
      assert (i + 1) / 8 == i / 8 + 1 && (i + 1) % 8 == 0;
    }
  }

  lemma {:induction false} KnotsOrdered(i: nat, j: nat)
    requires i < j < ENTRIES
    ensures Knot(i) > Knot(j)
    decreases j
  {
    hide Knot;
    KnotsDescend(j - 1);
    if i < j - 1 { KnotsOrdered(i, j - 1); }
  }

  // ----- rounding

  // divide_rounded: to the nearest, halves away from zero.
  function DivideRounded(number: int, divisor: nat): int
    requires divisor > 0
  {
    if number >= 0 then (number + divisor / 2) / divisor else -((-number + divisor / 2) / divisor)
  }

  lemma RoundingKeepsOrder(a: int, b: int, divisor: nat)
    requires a <= b && divisor > 0
    ensures DivideRounded(a, divisor) <= DivideRounded(b, divisor)
  {
    var h := divisor / 2;
    if a >= 0 {
      QuotientsKeepOrder(a + h, b + h, divisor);
    } else if b < 0 {
      QuotientsKeepOrder(-b + h, -a + h, divisor);
    } else {
      QuotientsKeepOrder(0, -a + h, divisor);
      QuotientsKeepOrder(0, b + h, divisor);
    }
  }

  lemma QuotientsKeepOrder(a: nat, b: nat, n: nat)
    requires a <= b && n > 0
    ensures 0 <= a / n <= b / n
  {
    QuotientGrows(a / n, a % n, (b - a) / n, (b - a) % n, n);
    assert a == (a / n) * n + a % n;
    assert b - a == ((b - a) / n) * n + (b - a) % n;
  }

  lemma QuotientGrows(p: nat, r: nat, s: nat, t: nat, n: nat)
    requires r < n && t < n
    ensures (p * n + r + s * n + t) / n >= p
  {
    var sum := (p + s) * n;
    assert sum == p * n + s * n;
    if r + t < n {
      Remainder(p + s, n, r + t);
    } else {
      assert (p + s + 1) * n == sum + n;
      Remainder(p + s + 1, n, r + t - n);
    }
  }

  lemma RoundingIsExact(k: int, divisor: nat)
    requires divisor > 0
    ensures DivideRounded(k * divisor, divisor) == k
  {
    var h := divisor / 2;
    if k >= 0 {
      Remainder(k, divisor, h);
    } else {
      assert -(k * divisor) == (-k) * divisor;
      Remainder(-k, divisor, h);
      if k * divisor >= 0 { Larger(1, -k, divisor); }
    }
  }

  // Never more than half a unit away.
  lemma RoundingIsNear(number: int, divisor: nat)
    requires divisor > 0
    ensures -(divisor as int) <= 2 * (DivideRounded(number, divisor) * divisor - number) <= divisor
  {
    var h := divisor / 2;
    if number >= 0 {
      DividesBack(number + h, divisor);
    } else {
      DividesBack(-number + h, divisor);
      var q: int := (-number + h) / divisor;
      assert (-q) * divisor == -(q * divisor);
    }
  }

  lemma DividesBack(a: nat, n: nat)
    requires n > 0
    ensures a - n < (a / n) * n <= a
  {
    assert a == (a / n) * n + a % n;
  }

  // ----- pressure to altitude

  function AltitudeMm(pressure: nat): int {
    if pressure <= LOWEST_MPA then Knot(0)
    else if pressure >= HIGHEST_MPA then Knot(ENTRIES - 1)
    else
      var offset := pressure - LOWEST_MPA;
      Between(offset / STEP_MPA, offset % STEP_MPA)
  }

  // So far past a knot.
  function Between(i: nat, fraction: nat): int
    requires i + 1 < ENTRIES
  {
    if fraction == 0 then Knot(i)
    else Knot(i) + DivideRounded((Knot(i + 1) - Knot(i)) * fraction, STEP_MPA)
  }

  lemma BetweenDescends(i: nat, f: nat, g: nat)
    requires i + 1 < ENTRIES && f <= g <= STEP_MPA
    ensures Knot(i) >= Between(i, f) >= Between(i, g) >= Knot(i + 1)
  {
    hide Knot, DivideRounded;
    var span := Knot(i + 1) - Knot(i);
    KnotsDescend(i);
    Falls(span, 0, f);
    Falls(span, f, g);
    Falls(span, g, STEP_MPA);
    RoundingKeepsOrder(span * f, 0, STEP_MPA);
    RoundingKeepsOrder(span * g, span * f, STEP_MPA);
    RoundingKeepsOrder(span * STEP_MPA, span * g, STEP_MPA);
    RoundingIsExact(0, STEP_MPA);
    RoundingIsExact(span, STEP_MPA);
  }

  // At a knot the altitude is the table's; past it, within half a millimetre of the straight line to
  // the next.
  lemma WithinHalfAMillimetre(i: nat, fraction: nat)
    requires i + 1 < 169 && fraction < 500_000
    ensures var p, span := 26_000_000 + 500_000 * i + fraction, Knot(i + 1) - Knot(i);
      && (fraction == 0 ==> AltitudeMm(p) == Knot(i))
      && -500_000 <= 2 * (500_000 * (AltitudeMm(p) - Knot(i)) - span * fraction) <= 500_000
  {
    hide Knot, DivideRounded;
    Steps(i, fraction);
    var span := Knot(i + 1) - Knot(i);
    RoundingIsNear(span * fraction, STEP_MPA);
    if i == 0 && fraction == 0 {
      assert AltitudeMm(LOWEST_MPA) == Knot(0);
    } else {
      assert AltitudeMm(26_000_000 + 500_000 * i + fraction) == Between(i, fraction);
    }
  }

  lemma Steps(i: nat, fraction: nat)
    requires i + 1 < 169 && fraction < 500_000
    ensures (500_000 * i + fraction) / 500_000 == i && (500_000 * i + fraction) % 500_000 == fraction
    ensures 26_000_000 + 500_000 * i + fraction < 110_000_000
  {}

  lemma Falls(span: int, f: nat, g: nat)
    requires span <= 0 && f <= g
    ensures span * g <= span * f
  {
    Larger(f, g, -span);
    assert f * (-span) == -(span * f) && g * (-span) == -(span * g);
  }

  // The altitude never rises with the pressure, across knots, between them and past the table.
  lemma AltitudeNeverRises(p: nat, q: nat)
    requires p <= q
    ensures AltitudeMm(p) >= AltitudeMm(q)
    ensures Knot(0) >= AltitudeMm(p) >= Knot(ENTRIES - 1)
  {
    hide Knot, Between;
    Bounded(p);
    Bounded(q);
    if LOWEST_MPA < p && q < HIGHEST_MPA {
      var a, b := p - LOWEST_MPA, q - LOWEST_MPA;
      var i, j := a / STEP_MPA, b / STEP_MPA;
      BetweenDescends(i, a % STEP_MPA, STEP_MPA);
      BetweenDescends(j, 0, b % STEP_MPA);
      if i == j {
        BetweenDescends(i, a % STEP_MPA, b % STEP_MPA);
      } else {
        QuotientsKeepOrder(a, b, STEP_MPA);
        if i + 1 < j { KnotsOrdered(i + 1, j); }
      }
    }
  }

  lemma Bounded(p: nat)
    ensures Knot(0) >= AltitudeMm(p) >= Knot(ENTRIES - 1)
  {
    hide Knot, Between;
    KnotsOrdered(0, ENTRIES - 1);
    if LOWEST_MPA < p < HIGHEST_MPA {
      var a := p - LOWEST_MPA;
      var i := a / STEP_MPA;
      BetweenDescends(i, 0, a % STEP_MPA);
      if i > 0 { KnotsOrdered(0, i); }
      if i + 1 < ENTRIES - 1 { KnotsOrdered(i + 1, ENTRIES - 1); }
    }
  }

  // ----- and back

  // Of the table's pressures, the least whose altitude is no higher than this.
  ghost predicate IsLeast(altitude: int, pressure: nat) {
    && LOWEST_MPA <= pressure <= HIGHEST_MPA && AltitudeMm(pressure) <= altitude
    && forall p: nat :: LOWEST_MPA <= p < pressure ==> AltitudeMm(p) > altitude
  }

  lemma LastAbove(altitude: int, pressure: nat)
    requires LOWEST_MPA < pressure <= HIGHEST_MPA && AltitudeMm(pressure - 1) > altitude >= AltitudeMm(pressure)
    ensures IsLeast(altitude, pressure)
  {
    hide AltitudeMm;
    forall p: nat | LOWEST_MPA <= p < pressure ensures AltitudeMm(p) > altitude {
      AltitudeNeverRises(p, pressure - 1);
    }
  }

  // At the table's foot itself the pressure given is not the least: rounding reaches the foot's
  // altitude a little before its pressure.
  lemma FootIsNotLeast()
    ensures !IsLeast(Knot(ENTRIES - 1), HIGHEST_MPA)
  {
    var p := HIGHEST_MPA - 1;
    var i := ENTRIES - 2;
    var span := Knot(i + 1) - Knot(i);
    assert Knot(i) == 10 * Row(20)[7] && Knot(i + 1) == 10 * Row(21)[0];
    assert (p - LOWEST_MPA) / STEP_MPA == i && (p - LOWEST_MPA) % STEP_MPA == STEP_MPA - 1;
    assert DivideRounded(span * (STEP_MPA - 1), STEP_MPA) == span;
    assert AltitudeMm(p) == Knot(ENTRIES - 1);
  }

  // The ends of the table, in millipascals and millimetres.
  lemma EndsOfTheTable(p: nat)
    ensures p <= 26_000_000 ==> AltitudeMm(p) == 10_108_510
    ensures p >= 110_000_000 ==> AltitudeMm(p) == -698_310
  {}

  // altitude_mm_to_pressure_mpa: the least pressure exactly for the altitudes above the table's foot.
  method PressureMpa(altitude: int) returns (pressure: nat)
    ensures LOWEST_MPA <= pressure <= HIGHEST_MPA
    ensures IsLeast(altitude, pressure) <==> altitude > Knot(ENTRIES - 1)
    ensures altitude <= Knot(ENTRIES - 1) ==> pressure == HIGHEST_MPA
  {
    hide AltitudeMm, Knot;
    FootIsNotLeast();
    TableEnds();
    if altitude >= Knot(0) {
      return LOWEST_MPA;
    }
    if altitude <= Knot(ENTRIES - 1) {
      return HIGHEST_MPA;
    }
    var low, high := LOWEST_MPA, HIGHEST_MPA;
    while high - low > 1
      invariant LOWEST_MPA <= low < high <= HIGHEST_MPA
      invariant AltitudeMm(low) > altitude >= AltitudeMm(high)
    {
      var middle := low + (high - low) / 2;
      if AltitudeMm(middle) > altitude {
        low := middle;
      } else {
        high := middle;
      }
    }
    LastAbove(altitude, high);
    pressure := high;
  }

  lemma TableEnds()
    ensures AltitudeMm(LOWEST_MPA) == Knot(0) && AltitudeMm(HIGHEST_MPA) == Knot(ENTRIES - 1)
    ensures Knot(0) > Knot(ENTRIES - 1)
  {
    hide Knot, Between;
    KnotsOrdered(0, ENTRIES - 1);
  }
}
