/** The CO₂ simulator's condition bands: a CO₂ concentration in ppm is
    classified into one of six bands by five inclusive upper bounds. */
module CO2Condition {

  /** The six bands, from the pre-industrial level upwards. */
  datatype Band = PraIndustri | Aman | Peringatan | Berbahaya | Kritis | Katastrofik

  /** Upper bounds (inclusive, in ppm) of the first five bands. */
  const Thresholds: seq<int> := [280, 350, 450, 600, 800]

  /** The label shown for each band. */
  function Label(b: Band): (l: string) {
    match b
    case PraIndustri => "Pra-Industri"
    case Aman => "Aman"
    case Peringatan => "Peringatan"
    case Berbahaya => "Berbahaya"
    case Kritis => "Kritis"
    case Katastrofik => "Katastrofik"
  }

  /** Position of a band in the order of increasing concentration. */
  function Rank(b: Band): (n: nat) {
    match b
    case PraIndustri => 0
    case Aman => 1
    case Peringatan => 2
    case Berbahaya => 3
    case Kritis => 4
    case Katastrofik => 5
  }

  /** `getCondition`: the first band whose upper bound is at least `co2`,
      and the last band above all bounds. Each band is exactly the
      interval between the previous bound (exclusive) and its own
      (inclusive). */
  function GetCondition(co2: int): (b: Band)
    ensures b == PraIndustri <==> co2 <= 280
    ensures b == Aman <==> 280 < co2 <= 350
    ensures b == Peringatan <==> 350 < co2 <= 450
    ensures b == Berbahaya <==> 450 < co2 <= 600
    ensures b == Kritis <==> 600 < co2 <= 800
    ensures b == Katastrofik <==> 800 < co2
  {
    if co2 <= 280 then PraIndustri
    else if co2 <= 350 then Aman
    else if co2 <= 450 then Peringatan
    else if co2 <= 600 then Berbahaya
    else if co2 <= 800 then Kritis
    else Katastrofik
  }

  /** How many of the bounds `ts` lie strictly below `x`. */
  function CountBelow(ts: seq<int>, x: int): (n: nat)
    ensures n <= |ts|
  {
    if |ts| == 0 then 0
    else (if ts[0] < x then 1 else 0) + CountBelow(ts[1..], x)
  }

  /** Counting bounds below a larger value never gives fewer. */
  lemma {:induction false} CountBelowMonotone(ts: seq<int>, a: int, b: int)
    requires a <= b
    ensures CountBelow(ts, a) <= CountBelow(ts, b)
  {
    if |ts| > 0 {
      CountBelowMonotone(ts[1..], a, b);
    }
  }

  /** The band's rank is the number of thresholds the concentration exceeds. */
  lemma ConditionCountsThresholds(co2: int)
    ensures Rank(GetCondition(co2)) == CountBelow(Thresholds, co2)
  {
    var c5 := CountBelow([], co2);
    var c4 := CountBelow([800], co2);
    assert [800][1..] == [];
    assert c4 == (if 800 < co2 then 1 else 0) + c5;
    var c3 := CountBelow([600, 800], co2);
    assert [600, 800][1..] == [800];
    assert c3 == (if 600 < co2 then 1 else 0) + c4;
    var c2 := CountBelow([450, 600, 800], co2);
    assert [450, 600, 800][1..] == [600, 800];
    assert c2 == (if 450 < co2 then 1 else 0) + c3;
    var c1 := CountBelow([350, 450, 600, 800], co2);
    assert [350, 450, 600, 800][1..] == [450, 600, 800];
    assert c1 == (if 350 < co2 then 1 else 0) + c2;
    assert Thresholds[1..] == [350, 450, 600, 800];
    assert CountBelow(Thresholds, co2) == (if 280 < co2 then 1 else 0) + c1;
  }

  /** A higher concentration is never classified in a lower band. */
  lemma ConditionMonotone(a: int, b: int)
    requires a <= b
    ensures Rank(GetCondition(a)) <= Rank(GetCondition(b))
  {
    ConditionCountsThresholds(a);
    ConditionCountsThresholds(b);
    CountBelowMonotone(Thresholds, a, b);
  }

  /** Distinct bands carry distinct labels. */
  lemma LabelIdentifiesBand(a: Band, b: Band)
    ensures Label(a) == Label(b) <==> a == b
  {
  }

  /** The label shown names the interval the concentration lies in. */
  lemma ConditionLabel(co2: int)
    ensures Label(GetCondition(co2)) == "Pra-Industri" <==> co2 <= 280
    ensures Label(GetCondition(co2)) == "Aman" <==> 280 < co2 <= 350
    ensures Label(GetCondition(co2)) == "Peringatan" <==> 350 < co2 <= 450
    ensures Label(GetCondition(co2)) == "Berbahaya" <==> 450 < co2 <= 600
    ensures Label(GetCondition(co2)) == "Kritis" <==> 600 < co2 <= 800
    ensures Label(GetCondition(co2)) == "Katastrofik" <==> 800 < co2
  {
    var b := GetCondition(co2);
    LabelIdentifiesBand(b, PraIndustri);
    LabelIdentifiesBand(b, Aman);
    LabelIdentifiesBand(b, Peringatan);
    LabelIdentifiesBand(b, Berbahaya);
    LabelIdentifiesBand(b, Kritis);
    LabelIdentifiesBand(b, Katastrofik);
  }
}
