/** The self-contained mono IMA ADPCM block codec. */
module ImaAdpcm {
  import opened Bytes

  type Sample = x: int | -32768 <= x <= 32767

  const MAX_SAMPLES := 4096
  const HEADER_SIZE := 6
  const WAV_HEADER_SIZE := 4
  const WAV_MAX_BYTES := 2048

  /** The step table, ten entries a row. */
  function StepRow(r: nat): (s: seq<int>)
    requires r < 9
    ensures |s| == if r < 8 then 10 else 9
  {
    if r == 0 then [7, 8, 9, 10, 11, 12, 13, 14, 16, 17]
    else if r == 1 then [19, 21, 23, 25, 28, 31, 34, 37, 41, 45]
    else if r == 2 then [50, 55, 60, 66, 73, 80, 88, 97, 107, 118]
    else if r == 3 then [130, 143, 157, 173, 190, 209, 230, 253, 279, 307]
    else if r == 4 then [337, 371, 408, 449, 494, 544, 598, 658, 724, 796]
    else if r == 5 then [876, 963, 1060, 1166, 1282, 1411, 1552, 1707, 1878, 2066]
    else if r == 6 then [2272, 2499, 2749, 3024, 3327, 3660, 4026, 4428, 4871, 5358]
    else if r == 7 then [5894, 6484, 7132, 7845, 8630, 9493, 10442, 11487, 12635, 13899]
    else [15289, 16818, 18500, 20350, 22385, 24623, 27086, 29794, 32767]
  }

  function IndexDelta(code: int): (d: int)
    requires 0 <= code < 16
  {
    var low := code % 8;
    if low < 4 then -1 else 2 * (low - 3)
  }

  function ClampIndex(v: int): (i: nat)
    ensures i <= 88 && (0 <= v <= 88 ==> i == v)
  {
    if v < 0 then 0 else if v > 88 then 88 else v
  }

  function ClampPredictor(v: int): (p: Sample)
    ensures forall x: Sample :: Distance(p, x) <= Distance(v, x)
  {
    if v > 32767 then 32767 else if v < -32768 then -32768 else v
  }

  function Distance(a: int, b: int): (d: nat)
  {
    if a >= b then a - b else b - a
  }

  function StepAt(i: nat): (step: int)
    requires i <= 88
  {
    StepRow(i / 10)[i % 10]
  }

  lemma RowRises(r: nat, j: nat)
    requires r < 9 && j + 1 < |StepRow(r)|
    ensures StepRow(r)[j] < StepRow(r)[j + 1]
  {
    if r < 3 {
    } else if r < 6 {
    } else {
    }
  }

  lemma RowsMeet(r: nat)
    requires r < 8
    ensures StepRow(r)[9] < StepRow(r + 1)[0]
  {
  }

  lemma StepRises(i: nat)
    requires i < 88
    ensures StepAt(i) < StepAt(i + 1)
  {
    hide StepRow;
    if i % 10 < 9 {
      RowRises(i / 10, i % 10);
    } else {
      RowsMeet(i / 10);
    }
  }

  lemma TopStep()
    ensures StepAt(0) == 7 && StepAt(87) == 29794 && StepAt(88) == 32767
  {
  }

  /** The table rises, so that an index is determined by its step. */
  lemma {:induction false} StepsOrdered(i: nat, j: nat)
    requires i < j <= 88
    ensures StepAt(i) < StepAt(j)
  {
    hide StepAt;
    StepRises(j - 1);
    if i < j - 1 {
      StepsOrdered(i, j - 1);
    }
  }

  lemma StepRange(i: nat)
    requires i <= 88
    ensures 7 <= StepAt(i) <= 32767
  {
    hide StepAt;
    TopStep();
    if i > 0 {
      StepsOrdered(0, i);
    }
    if i < 88 {
      StepsOrdered(i, 88);
    }
  }

  /** The step of an index, known by its range. */
  function Step(i: nat): (step: nat)
    requires i <= 88
    ensures 7 <= step <= 32767
  {
    StepRange(i);
    StepAt(i)
  }

  // -------------------------------------------------------------- the step table

  function Power(b: nat, n: nat): (v: nat)
  {
    if n == 0 then 1 else b * Power(b, n - 1)
  }

  lemma {:induction false} PowerAdd(b: nat, m: nat, n: nat)
    ensures Power(b, m + n) == Power(b, m) * Power(b, n)
  {
    if n > 0 {
      PowerAdd(b, m, n - 1);
    }
  }

  /** The n steps from index i on are e / t, 1.1 e / t, and so on, rounded down. */
  predicate Grows(i: nat, n: nat, e: nat, t: nat)
    requires i + n <= 88
    decreases n
  {
    n == 0 || (StepAt(i) * t <= e < (StepAt(i) + 1) * t && Grows(i + 1, n - 1, 11 * e, 10 * t))
  }

  lemma {:induction false} GrowsAt(i: nat, n: nat, k: nat)
    requires 8 <= i && i + n <= 88 && k < n && Grows(i, n, 16 * Power(11, i - 8), Power(10, i - 8))
    ensures var m := i + k - 8; StepAt(i + k) * Power(10, m) <= 16 * Power(11, m) < (StepAt(i + k) + 1) * Power(10, m)
    decreases k
  {
    hide StepAt;
    if k > 0 {
      PowerNext(i - 8);
      GrowsAt(i + 1, n - 1, k - 1);
    }
  }

  lemma PowerNext(m: nat)
    ensures 16 * Power(11, m + 1) == 11 * (16 * Power(11, m)) && Power(10, m + 1) == 10 * Power(10, m)
  {
  }

  /** Ten steps further, both powers in figures. */
  lemma PowerTen(m: nat)
    ensures Power(11, m + 10) == Power(11, m) * 25937424601 && Power(10, m + 10) == Power(10, m) * 10000000000
  {
    PowerAdd(11, m, 10);
    PowerAdd(10, m, 10);
    assert Power(11, 10) == 25937424601 && Power(10, 10) == 10000000000;
  }

  lemma Decade0()
    ensures Power(11, 0) == 1
    ensures Power(10, 0) == 1
    ensures Grows(8, 10, 16 * Power(11, 0), Power(10, 0))
  {
    assert Grows(8, 10, 16, 1);
    hide Grows;
  }

  lemma Decade1()
    ensures Power(11, 10) == 25937424601
    ensures Power(10, 10) == 10000000000
    ensures Grows(18, 10, 16 * Power(11, 10), Power(10, 10))
  {
    Decade0();
    PowerTen(0);
    assert Grows(18, 10, 414998793616, 10000000000);
    hide Grows;
  }

  lemma Decade2()
    ensures Power(11, 20) == 672749994932560009201
    ensures Power(10, 20) == 100000000000000000000
    ensures Grows(28, 10, 16 * Power(11, 20), Power(10, 20))
  {
    Decade1();
    PowerTen(10);
    assert Grows(28, 10, 10763999918920960147216, 100000000000000000000);
    hide Grows;
  }

  lemma Decade3()
    ensures Power(11, 30) == 17449402268886407318558803753801
    ensures Power(10, 30) == 1000000000000000000000000000000
    ensures Grows(38, 10, 16 * Power(11, 30), Power(10, 30))
  {
    Decade2();
    PowerTen(20);
    assert Grows(38, 10, 279190436302182517096940860060816, 1000000000000000000000000000000);
    hide Grows;
  }

  lemma Decade4()
    ensures Power(11, 40) == 452592555681759518058893560348969204658401
    ensures Power(10, 40) == 10000000000000000000000000000000000000000
    ensures Grows(48, 10, 16 * Power(11, 40), Power(10, 40))
  {
    Decade3();
    PowerTen(30);
    assert Grows(48, 10, 7241480890908152288942296965583507274534416, 10000000000000000000000000000000000000000);
    hide Grows;
  }

  lemma Decade5()
    ensures Power(11, 50) == 11739085287969531650666649599035831993898213898723001
    ensures Power(10, 50) == 100000000000000000000000000000000000000000000000000
    ensures Grows(58, 10, 16 * Power(11, 50), Power(10, 50))
  {
    Decade4();
    PowerTen(40);
    assert Grows(58, 10, 187825364607512506410666393584573311902371422379568016, 100000000000000000000000000000000000000000000000000);
    hide Grows;
  }

  lemma Decade6()
    ensures Power(11, 60) == 304481639541418099574449295360278774639038415066698088621947601
    ensures Power(10, 60) == 1000000000000000000000000000000000000000000000000000000000000
    ensures Grows(68, 10, 16 * Power(11, 60), Power(10, 60))
  {
    Decade5();
    PowerTen(50);
    assert Grows(68, 10, 4871706232662689593191188725764460394224614641067169417951161616, 1000000000000000000000000000000000000000000000000000000000000);
    hide Grows;
  }

  lemma Decade7()
    ensures Power(11, 70) == 7897469567994392174328988784504809847540729881935024059662581894710332201
    ensures Power(10, 70) == 10000000000000000000000000000000000000000000000000000000000000000000000
    ensures Grows(78, 10, 16 * Power(11, 70), Power(10, 70))
  {
    Decade6();
    PowerTen(60);
    assert Grows(78, 10, 126359513087910274789263820552076957560651678110960384954601310315365315216, 10000000000000000000000000000000000000000000000000000000000000000000000);
    hide Grows;
  }

  /** A step as sixteen times 1.1 to the power of the index less 8, rounded down. */
  predicate TenthMore(i: nat)
    requires 8 <= i <= 88
  {
    StepAt(i) * Power(10, i - 8) <= 16 * Power(11, i - 8) < (StepAt(i) + 1) * Power(10, i - 8)
  }

  /** The first eight steps count up from 7, the last one is 32767, and each of the others is a power of 1.1. */
  lemma StepGrowth(i: nat)
    requires i <= 88
    ensures i < 8 ==> StepAt(i) == 7 + i
    ensures 8 <= i < 88 ==> TenthMore(i)
    ensures i == 88 ==> StepAt(i) == 32767
  {
    hide TenthMore, StepAt, Grows, Power;
    if i < 8 {
      FirstSteps(i);
    } else if i < 88 {
      var q := (i - 8) / 10;
      DecadeOf(q);
      DecadeStep(q, i - 8 - 10 * q);
    } else {
      TopStep();
    }
  }

  lemma FirstSteps(i: nat)
    requires i < 8
    ensures StepAt(i) == 7 + i
  {
  }

  lemma DecadeStep(q: nat, k: nat)
    requires q < 8 && k < 10 && Grows(10 * q + 8, 10, 16 * Power(11, 10 * q), Power(10, 10 * q))
    ensures TenthMore(10 * q + 8 + k)
  {
    hide StepAt, Grows, Power;
    GrowsAt(10 * q + 8, 10, k);
  }

  lemma DecadeOf(q: nat)
    requires q < 8
    ensures Grows(10 * q + 8, 10, 16 * Power(11, 10 * q), Power(10, 10 * q))
  {
    hide Grows, Power;
    match q {
      case 0 => Decade0();
      case 1 => Decade1();
      case 2 => Decade2();
      case 3 => Decade3();
      case 4 => Decade4();
      case 5 => Decade5();
      case 6 => Decade6();
      case _ => Decade7();
    }
  }

  /** Eight indices up the step is more than twice as large. */
  lemma EightDouble(i: nat)
    requires i <= 80
    ensures StepAt(i + 8) > 2 * StepAt(i)
  {
    hide StepRow;
    var r, j := i / 10, i % 10;
    if j < 2 {
      SameRow(r, j);
      assert i + 8 == 10 * r + (j + 8);
    } else {
      NextRow(r, j);
      assert i + 8 == 10 * (r + 1) + (j - 2);
    }
  }

  lemma SameRow(r: nat, j: nat)
    requires j < 2 && r < 9 && (r == 8 ==> j == 0)
    ensures StepRow(r)[j + 8] > 2 * StepRow(r)[j]
  {
  }

  lemma NextRow(r: nat, j: nat)
    requires 2 <= j < 10 && r < 8
    ensures StepRow(r + 1)[j - 2] > 2 * StepRow(r)[j]
  {
    if r < 3 {
    } else if r < 6 {
    } else {
    }
  }

  // ----------------------------------------------------------------- one code

  /** Predictor and step index. */
  datatype State = State(predictor: int, index: int)

  predicate Legal(s: State)
  {
    -32768 <= s.predictor <= 32767 && 0 <= s.index <= 88
  }

  /** The three magnitude bits of a code, and what the residual leaves. */
  function Magnitude(difference: nat, step: nat): (m: int)
    ensures 0 <= m < 8
  {
    var b4 := if difference >= step then 1 else 0;
    var d1 := difference - b4 * step;
    var b2 := if d1 >= step / 2 then 1 else 0;
    var d2 := d1 - b2 * (step / 2);
    var b1 := if d2 >= step / 4 then 1 else 0;
    4 * b4 + 2 * b2 + b1
  }

  /** The difference a magnitude stands for. */
  function Amount(m: int, step: nat): (d: nat)
    requires 0 <= m < 8
  {
    step / 8 + (if m >= 4 then step else 0) + (if m % 4 >= 2 then step / 2 else 0) + (if m % 2 == 1 then step / 4 else 0)
  }

  function CodeFor(s: State, sample: Sample): (code: int)
    ensures 0 <= code < 16
  {
    hide Step;
    var delta := sample - s.predictor;
    (if delta < 0 then 8 else 0) + Magnitude(if delta < 0 then -delta else delta, Step(ClampIndex(s.index)))
  }

  /** The state after a code: what the decoder computes. */
  function Next(s: State, code: int): (t: State)
    requires 0 <= code < 16
    ensures Legal(t)
  {
    hide Step;
    var index := ClampIndex(s.index);
    var amount := Amount(code % 8, Step(index));
    State(ClampPredictor(s.predictor + if code >= 8 then 0 - amount else amount), ClampIndex(index + IndexDelta(code)))
  }

  /** The index after a code: one down for the four small magnitudes, 2, 4, 6 or 8 up for the others, kept from 0 to 88. */
  lemma IndexMoves(s: State, code: int)
    requires Legal(s) && 0 <= code < 16
    ensures var m, t := code % 8, Next(s, code).index;
            && (m < 4 ==> t == if s.index == 0 then 0 else s.index - 1)
            && (m == 4 ==> t == if s.index > 86 then 88 else s.index + 2)
            && (m == 5 ==> t == if s.index > 84 then 88 else s.index + 4)
            && (m == 6 ==> t == if s.index > 82 then 88 else s.index + 6)
            && (m == 7 ==> t == if s.index > 80 then 88 else s.index + 8)
  {
    hide Step, Amount;
  }

  /** After a largest code the step is more than twice as large, up to index 80. */
  lemma LargestDoubles(s: State, code: int)
    requires Legal(s) && s.index <= 80 && (code == 7 || code == 15)
    ensures Step(Next(s, code).index) > 2 * Step(s.index)
  {
    hide Amount, StepAt;
    IndexMoves(s, code);
    EightDouble(s.index);
  }

  lemma QuarterStep(step: nat)
    ensures step / 2 / 2 == step / 4
  {
  }

  lemma CodeBits(code: int)
    requires 0 <= code < 16
    ensures code / 8 == 1 <==> code >= 8
    ensures code / 4 % 2 == 1 <==> code % 8 >= 4
    ensures code / 2 % 2 == 1 <==> code % 8 % 4 >= 2
    ensures code % 2 == code % 8 % 2
  {
  }

  /** Successive approximation: each comparison takes its part off the difference and adds it to the reconstruction. */
  method Successive(magnitude: nat, whole: nat) returns (code: int, reconstructed: int)
    ensures code == Magnitude(magnitude, whole) && reconstructed == Amount(code, whole)
  {
    QuarterStep(whole);
    var difference, step := magnitude, whole;
    code, reconstructed := 0, step / 8;
    if difference >= step {
      code := code + 4;
      difference := difference - step;
      reconstructed := reconstructed + step;
    }
    step := step / 2;
    if difference >= step {
      code := code + 2;
      difference := difference - step;
      reconstructed := reconstructed + step;
    }
    step := step / 2;
    if difference >= step {
      code := code + 1;
      reconstructed := reconstructed + step;
    }
  }

  class Coder {
    var predictor: int
    var stepIndex: int

    ghost function Value(): (s: State)
      reads this
    {
      State(predictor, stepIndex)
    }

    constructor (predictor: int, stepIndex: int)
      ensures Value() == State(predictor, stepIndex)
    {
      this.predictor := predictor;
      this.stepIndex := stepIndex;
    }

    /** ima_adpcm_encode_sample: the encoder's new state is the decoder's after the same code. */
    method EncodeSample(sample: Sample) returns (code: int)
      modifies this
      ensures code == CodeFor(old(Value()), sample) && Value() == Next(old(Value()), code)
    {
      hide Step, Magnitude, Amount;
      stepIndex := ClampIndex(stepIndex);
      var step := Step(stepIndex);
      var delta := sample - predictor;
      code := 0;
      var difference := delta;
      if delta < 0 {
        code := 8;
        difference := -delta;
      }
      var bits, reconstructed := Successive(difference, step);
      code := code + bits;
      if code >= 8 {
        reconstructed := -reconstructed;
      }
      predictor := ClampPredictor(predictor + reconstructed);
      stepIndex := ClampIndex(stepIndex + IndexDelta(code));
    }

    /** ima_adpcm_decode_nibble. */
    method DecodeNibble(value: Byte) returns (sample: Sample)
      modifies this
      ensures Value() == Next(old(Value()), value % 16) && sample == predictor
    {
      hide Step;
      var code := value % 16;
      stepIndex := ClampIndex(stepIndex);
      var step := Step(stepIndex);
      var difference: int := step / 8;
      CodeBits(code);
      if code / 4 % 2 == 1 {
        difference := difference + step;
      }
      if code / 2 % 2 == 1 {
        difference := difference + step / 2;
      }
      if code % 2 == 1 {
        difference := difference + step / 4;
      }
      if code / 8 == 1 {
        difference := -difference;
      }
      predictor := ClampPredictor(predictor + difference);
      stepIndex := ClampIndex(stepIndex + IndexDelta(code));
      sample := predictor;
    }
  }

  // -------------------------------------------------------------- error bound

  /** A magnitude of m stands for m and a half quarter steps, rounded down part by part. */
  lemma AmountIs(m: int, step: nat)
    requires 0 <= m < 8
    ensures 8 * Amount(m, step) <= (2 * m + 1) * step <= 8 * Amount(m, step) + 17
  {
    assert m == 0 || m == 1 || m == 2 || m == 3 || m == 4 || m == 5 || m == 6 || m == 7;
  }

  lemma AmountNear(difference: nat, step: nat)
    requires difference < 2 * step
    ensures Distance(Amount(Magnitude(difference, step), step), difference) <= step / 8 + 2
  {
  }

  /** Outside two steps the code is as large as it can be. */
  lemma AmountFar(difference: nat, step: nat)
    requires difference >= 2 * step
    ensures Magnitude(difference, step) == 7
    ensures Amount(7, step) <= difference
  {
  }

  /**
   Within two steps of the predictor the reconstruction is off by at most an
   eighth of the step and two, clamping included; outside, it moves towards the
   sample by the largest amount and never past it.
   */
  lemma StepError(s: State, sample: Sample)
    requires Legal(s)
    ensures var step, t := Step(s.index), Next(s, CodeFor(s, sample));
            && (Distance(sample, s.predictor) < 2 * step ==> Distance(t.predictor, sample) <= step / 8 + 2)
            && (Distance(sample, s.predictor) >= 2 * step ==>
                  Distance(t.predictor, sample) == Distance(sample, s.predictor) - Amount(7, step))
  {
    hide Step, Magnitude, Amount;
    var step, difference := Step(s.index), Distance(sample, s.predictor);
    if difference < 2 * step {
      AmountNear(difference, step);
    } else {
      AmountFar(difference, step);
    }
  }

  // ------------------------------------------------------------- initial step

  /** Four sevenths of the first difference, rounded up. */
  function Target(samples: seq<Sample>): (t: nat)
    requires |samples| >= 2
    ensures t <= 37449
  {
    (Distance(samples[1], samples[0]) * 4 + 3) / 7
  }

  function Unsigned(v: int): (u: nat)
  {
    v % 0x1_0000_0000
  }

  /** First index whose step reaches the target, or the last index. */
  function Reach(target: nat, index: nat): (r: nat)
    requires index <= 88
    ensures index <= r <= 88
    decreases 88 - index
  {
    if index < 88 && Step(index) < target then Reach(target, index + 1) else index
  }

  /** The lower neighbour wins when it is nearer, by differences of unsigned numbers. */
  function Settle(target: nat, index: nat): (r: nat)
    requires index <= 88
    ensures r <= 88
  {
    if index > 0 && Unsigned(target - Step(index - 1)) < Unsigned(Step(index) - target) then index - 1 else index
  }

  function InitialIndex(samples: seq<Sample>): (r: nat)
    ensures r <= 88
  {
    if |samples| < 2 then 0 else Settle(Target(samples), Reach(Target(samples), 0))
  }

  method ReachStep(target: nat) returns (index: nat)
    ensures index == Reach(target, 0)
  {
    hide Step;
    index := 0;
    while index < 88 && Step(index) < target
      invariant index <= 88 && Reach(target, 0) == Reach(target, index)
    {
      index := index + 1;
    }
  }

  method InitialStepIndex(samples: seq<Sample>) returns (index: nat)
    ensures index == InitialIndex(samples)
  {
    hide Step, Unsigned, Reach;
    if |samples| < 2 {
      return 0;
    }
    var first: int, second: int := samples[0], samples[1];
    var difference: nat := if second >= first then second - first else first - second;
    var target := (difference * 4 + 3) / 7;
    index := ReachStep(target);
    if index > 0 && Unsigned(target - Step(index - 1)) < Unsigned(Step(index) - target) {
      index := index - 1;
    }
  }

  lemma {:induction false} ReachMeaning(target: nat, index: nat)
    requires index <= 88
    ensures var r := Reach(target, index);
            && (forall j :: index <= j < r ==> Step(j) < target)
            && (r < 88 ==> Step(r) >= target)
    decreases 88 - index
  {
    hide Step;
    if index < 88 && Step(index) < target {
      ReachMeaning(target, index + 1);
    }
  }

  lemma StepOrder(i: nat, j: nat)
    requires i <= j <= 88
    ensures Step(i) <= Step(j) && (i < j ==> Step(i) < Step(j))
  {
    hide StepAt;
    if i < j {
      StepsOrdered(i, j);
    }
  }

  /** No step is nearer, and no larger one as near. */
  ghost predicate Nearest(target: nat, r: nat)
    requires r <= 88
  {
    forall j :: 0 <= j <= 88 ==>
      Distance(Step(r), target) <= Distance(Step(j), target) && (j > r ==> Distance(Step(r), target) < Distance(Step(j), target))
  }

  /** The target is the step of which seven quarters come nearest to the first difference. */
  lemma TargetIs(samples: seq<Sample>)
    requires |samples| >= 2
    ensures forall t: nat :: Distance(7 * Target(samples), 4 * Distance(samples[1], samples[0])) <= Distance(7 * t, 4 * Distance(samples[1], samples[0]))
  {
    var d := 4 * Distance(samples[1], samples[0]);
    assert Distance(7 * Target(samples), d) <= 3;
    forall t: nat ensures Distance(7 * Target(samples), d) <= Distance(7 * t, d) {
    }
  }

  /** Up to the largest step the choice is a nearest step, and the upper one of two. */
  lemma NearestBelow(target: nat)
    requires target <= 32767
    ensures Nearest(target, Settle(target, Reach(target, 0)))
  {
    hide Step, Reach;
    ReachMeaning(target, 0);
    LastStep();
    var index := Reach(target, 0);
    var r := Settle(target, index);
    forall j | 0 <= j <= 88
      ensures Distance(Step(r), target) <= Distance(Step(j), target) && (j > r ==> Distance(Step(r), target) < Distance(Step(j), target))
    {
      if j >= index {
        StepOrder(index, j);
      } else {
        StepOrder(j, index - 1);
      }
    }
  }

  lemma LastStep()
    ensures Step(87) == 29794 && Step(88) == 32767
  {
    hide StepAt;
    TopStep();
  }

  /** The chosen step is a nearest one exactly up to 32767; above that the subtraction wraps and the choice is 87. */
  lemma NearestStep(target: nat)
    requires target <= 37449
    ensures var r := Settle(target, Reach(target, 0));
            && (Nearest(target, r) <==> target <= 32767)
            && (target > 32767 ==> r == 87)
  {
    hide Step, Reach, Settle;
    LastStep();
    if target <= 32767 {
      NearestBelow(target);
    } else {
      WrappedChoice(target);
      assert Distance(Step(88), target) < Distance(Step(87), target);
    }
  }

  lemma WrappedChoice(target: nat)
    requires 32767 < target <= 37449
    ensures Settle(target, Reach(target, 0)) == 87
  {
    hide Step, Reach;
    LastStep();
    ReachMeaning(target, 0);
    var r := Reach(target, 0);
    StepOrder(r, 88);
  }

  /** A jump of more than 57342 between the first two samples wraps. */
  lemma WrapExample()
    ensures var samples: seq<Sample> := [-32768, 32767];
            && Target(samples) == 37449 && InitialIndex(samples) == 87 && !Nearest(Target(samples), InitialIndex(samples))
  {
    hide Step, Reach, Settle;
    NearestStep(37449);
  }

  // ------------------------------------------------------------------ blocks

  /** Codes of samples 1 to n - 1, and the encoder's state behind them. */
  function Encoded(samples: seq<Sample>, n: nat): (r: (seq<int>, State))
    requires 1 <= n <= |samples|
    ensures |r.0| == n - 1 && Legal(r.1)
    ensures forall i :: 0 <= i < |r.0| ==> 0 <= r.0[i] < 16
  {
    if n == 1 then ([], State(samples[0], InitialIndex(samples)))
    else
      var (codes, s) := Encoded(samples, n - 1);
      var code := CodeFor(s, samples[n - 1]);
      (codes + [code], Next(s, code))
  }

  predicate AreCodes(codes: seq<int>)
  {
    forall i :: 0 <= i < |codes| ==> 0 <= codes[i] < 16
  }

  /** State of the decoder after n codes. */
  function Replay(start: State, codes: seq<int>, n: nat): (s: State)
    requires Legal(start) && AreCodes(codes) && n <= |codes|
    ensures Legal(s)
  {
    if n == 0 then start else Next(Replay(start, codes, n - 1), codes[n - 1])
  }

  /** Two codes a byte, low nibble first; the last byte of an odd list has one. */
  function Nibbles(codes: seq<int>): (s: seq<Byte>)
    requires AreCodes(codes)
    ensures |s| == (|codes| + 1) / 2
    ensures forall j :: 0 <= j < |s| ==> s[j] == codes[2 * j] + (if 2 * j + 1 < |codes| then 16 * codes[2 * j + 1] else 0)
  {
    seq((|codes| + 1) / 2, j requires 0 <= j < (|codes| + 1) / 2 && AreCodes(codes) =>
      codes[2 * j] + (if 2 * j + 1 < |codes| then 16 * codes[2 * j + 1] else 0))
  }

  /** Code i of packed bytes. */
  function CodeAt(bytes: seq<Byte>, i: nat): (c: int)
    requires i / 2 < |bytes|
    ensures 0 <= c < 16
  {
    if i % 2 == 0 then bytes[i / 2] % 16 else bytes[i / 2] / 16
  }

  lemma NibblesBack(codes: seq<int>, i: nat)
    requires AreCodes(codes) && i < |codes|
    ensures i / 2 < |Nibbles(codes)| && CodeAt(Nibbles(codes), i) == codes[i]
  {
    var b := Nibbles(codes)[i / 2];
    if i % 2 == 0 {
      assert 2 * (i / 2) == i;
      PairApart(codes[i], if i + 1 < |codes| then codes[i + 1] else 0);
    } else {
      assert 2 * (i / 2) + 1 == i;
      PairApart(codes[i - 1], codes[i]);
    }
  }

  lemma PairApart(low: int, high: int)
    requires 0 <= low < 16 && 0 <= high < 16
    ensures (low + 16 * high) % 16 == low && (low + 16 * high) / 16 == high
  {
  }

  function BlockSize(count: nat): (n: nat)
  {
    if count == 0 || count > MAX_SAMPLES then 0 else HEADER_SIZE + count / 2
  }

  /** A 16-bit sample as two bytes. */
  function SampleBytes(v: Sample): (s: seq<Byte>)
    ensures |s| == 2
  {
    U16(v % 65536)
  }

  function SampleOf(low: Byte, high: Byte): (v: Sample)
  {
    var u := low as int + 256 * high as int;
    if u >= 32768 then u - 65536 else u
  }

  lemma SampleRoundTrip(v: Sample)
    ensures SampleOf(SampleBytes(v)[0], SampleBytes(v)[1]) == v
  {
    hide U16;
    Unwrapped(v);
    SixteenBits(v % 65536);
  }

  lemma Unwrapped(v: Sample)
    ensures v % 65536 == if v < 0 then v + 65536 else v
  {
  }

  lemma SixteenBits(u: nat)
    requires u < 65536
    ensures U16(u)[0] as int + 256 * U16(u)[1] as int == u
  {
  }

  function HeaderBytes(predictor: Sample, index: nat, count: nat): (s: seq<Byte>)
    requires index <= 88
    ensures |s| == HEADER_SIZE
  {
    SampleBytes(predictor) + [index, 0] + U16(count)
  }

  /** What ima_adpcm_block_header_read accepts, and what it reads. */
  function ReadHeader(bytes: seq<Byte>): (r: Outcome<(State, nat)>)
    ensures r.Ok? ==> Legal(r.value.0) && 1 <= r.value.1 <= MAX_SAMPLES && |bytes| >= HEADER_SIZE
  {
    if |bytes| < HEADER_SIZE || bytes[3] != 0 || bytes[2] > 88 then Fail
    else
      var count := bytes[4] as int + 256 * bytes[5] as int;
      if count == 0 || count > MAX_SAMPLES then Fail
      else Ok((State(SampleOf(bytes[0], bytes[1]), bytes[2]), count))
  }

  lemma HeaderRoundTrip(predictor: Sample, index: nat, count: nat, rest: seq<Byte>)
    requires index <= 88 && 1 <= count <= MAX_SAMPLES
    ensures ReadHeader(HeaderBytes(predictor, index, count) + rest) == Ok((State(predictor, index), count))
  {
    hide U16, SampleOf, SampleBytes;
    SampleRoundTrip(predictor);
    SixteenBits(count);
    var bytes := HeaderBytes(predictor, index, count) + rest;
    assert bytes[0] == SampleBytes(predictor)[0] && bytes[1] == SampleBytes(predictor)[1];
    assert bytes[4] == U16(count)[0] && bytes[5] == U16(count)[1];
  }

  function BlockBytes(samples: seq<Sample>): (s: seq<Byte>)
    requires 1 <= |samples| <= MAX_SAMPLES
    ensures |s| == BlockSize(|samples|)
  {
    HeaderBytes(samples[0], InitialIndex(samples), |samples|) + Nibbles(Encoded(samples, |samples|).0)
  }

  /** The samples a state and packed codes stand for. */
  function Played(start: State, bytes: seq<Byte>, count: nat): (samples: seq<Sample>)
    requires Legal(start) && count / 2 <= |bytes| && count >= 1
    ensures |samples| == count
  {
    var codes := seq(count - 1, i requires 0 <= i < count - 1 => CodeAt(bytes, i));
    seq(count, n requires 0 <= n < count => Replay(start, codes, n).predictor)
  }

  /** ima_adpcm_decode_block on an exact block. */
  function DecodedBlock(bytes: seq<Byte>): (r: Outcome<seq<Sample>>)
    ensures r.Ok? ==> 1 <= |r.value| <= MAX_SAMPLES
  {
    var (start, count) :- ReadHeader(bytes);
    if |bytes| != BlockSize(count) then Fail else Ok(Played(start, bytes[HEADER_SIZE..], count))
  }

  /** Two largest codes from zero: the step grows from 7 to 16, and the samples are 0, 11 and 41. */
  lemma DecodeExample()
    ensures DecodedBlock([0, 0, 0, 0, 3, 0, 0x77]) == Ok([0, 11, 41])
  {
    var bytes: seq<Byte> := [0, 0, 0, 0, 3, 0, 0x77];
    assert bytes[HEADER_SIZE..] == [0x77];
    assert ReadHeader(bytes) == Ok((State(0, 0), 3));
    PlayExample();
    hide Played, ReadHeader;
  }

  lemma PlayExample()
    ensures Played(State(0, 0), [0x77], 3) == [0, 11, 41]
  {
    hide StepAt, Next;
    var codes := seq(2, i requires 0 <= i < 2 => CodeAt([0x77], i));
    assert codes == [7, 7];
    TwoLargest();
    assert Replay(State(0, 0), codes, 0) == State(0, 0);
    assert Replay(State(0, 0), codes, 1) == State(11, 8);
    assert Replay(State(0, 0), codes, 2) == State(41, 16);
  }

  lemma TwoLargest()
    ensures Next(State(0, 0), 7) == State(11, 8) && Next(State(11, 8), 7) == State(41, 16)
  {
    FirstSteps(0);
    EighthStep();
    hide StepAt;
  }

  lemma EighthStep()
    ensures StepAt(8) == 16
  {
  }

  lemma NibblesGrow(codes: seq<int>, code: int)
    requires AreCodes(codes) && 0 <= code < 16
    ensures AreCodes(codes + [code])
    ensures var s, t := Nibbles(codes), Nibbles(codes + [code]);
            if |codes| % 2 == 0 then t == s + [code]
            else |s| > 0 && s[|s| - 1] < 16 && s[|s| - 1] + 16 * code < 256 && t == s[|s| - 1 := s[|s| - 1] + 16 * code]
  {
  }

  lemma EncodedStep(samples: seq<Sample>, n: nat)
    requires 1 <= n < |samples|
    ensures var (codes, s) := Encoded(samples, n);
            Encoded(samples, n + 1) == (codes + [CodeFor(s, samples[n])], Next(s, CodeFor(s, samples[n])))
  {
    hide CodeFor, Next, InitialIndex;
  }

  /** A block with the codes of samples 1 to n - 1 in place. */
  ghost predicate Filled(bytes: seq<Byte>, samples: seq<Sample>, n: nat, rest: seq<Byte>)
    requires 1 <= n <= |samples| <= MAX_SAMPLES
  {
    && |bytes| >= BlockSize(|samples|) && bytes[BlockSize(|samples|)..] == rest
    && bytes[..HEADER_SIZE] == HeaderBytes(samples[0], InitialIndex(samples), |samples|)
    && bytes[HEADER_SIZE..HEADER_SIZE + n / 2] == Nibbles(Encoded(samples, n).0)
  }

  /** Stores one code; a high nibble joins the low one that is already there. */
  method PutCode(encoded: array<Byte>, samples: seq<Sample>, sample: nat, code: int, ghost rest: seq<Byte>)
    requires 1 <= sample < |samples| <= MAX_SAMPLES && Filled(encoded[..], samples, sample, rest)
    requires 0 <= code < 16 && code == CodeFor(Encoded(samples, sample).1, samples[sample])
    modifies encoded
    ensures Filled(encoded[..], samples, sample + 1, rest)
  {
    hide CodeFor, Next, InitialIndex, HeaderBytes, Nibbles, Encoded;
    ghost var codes, before := Encoded(samples, sample).0, encoded[..];
    EncodedStep(samples, sample);
    NibblesGrow(codes, code);
    var index := HEADER_SIZE + (sample - 1) / 2;
    if sample % 2 == 1 {
      encoded[index] := code;
    } else {
      // only the low nibble is set, so that the OR adds
      assert encoded[index] == Nibbles(codes)[(sample - 1) / 2] by {
        assert before[HEADER_SIZE..HEADER_SIZE + sample / 2][(sample - 1) / 2] == before[index];
      }
      encoded[index] := encoded[index] + 16 * code;
    }
    PackedGrows(before, encoded[..], sample, codes, code, BlockSize(|samples|));
  }

  /** ima_adpcm_encode_block. */
  method EncodeBlock(samples: seq<Sample>, encoded: array<Byte>) returns (ok: bool, size: nat)
    modifies encoded
    ensures ok <==> 1 <= |samples| <= MAX_SAMPLES && encoded.Length >= BlockSize(|samples|)
    ensures ok ==> size == BlockSize(|samples|) && encoded[..size] == BlockBytes(samples)
    ensures ok ==> encoded[size..] == old(encoded[size..])
    ensures !ok ==> encoded[..] == old(encoded[..])
  {
    hide CodeFor, Next, InitialIndex, HeaderBytes, Nibbles, Encoded, Filled;
    size := BlockSize(|samples|);
    if size == 0 || encoded.Length < size {
      return false, 0;
    }
    ghost var rest := encoded[size..];
    var stepIndex := InitialStepIndex(samples);
    var coder := new Coder(samples[0], stepIndex);
    WriteHeader(encoded, samples[0], stepIndex, |samples|);
    FirstFilled(encoded[..], samples, rest);
    var sample := 1;
    while sample < |samples|
      invariant 1 <= sample <= |samples| && fresh(coder) && coder.Value() == Encoded(samples, sample).1
      invariant Filled(encoded[..], samples, sample, rest)
    {
      EncodedStep(samples, sample);
      var code := coder.EncodeSample(samples[sample]);
      PutCode(encoded, samples, sample, code, rest);
      sample := sample + 1;
    }
    FilledIsBlock(encoded[..], samples, rest);
    ok := true;
    assert encoded[..][..size] == encoded[..size];
  }

  lemma FirstFilled(bytes: seq<Byte>, samples: seq<Sample>, rest: seq<Byte>)
    requires 1 <= |samples| <= MAX_SAMPLES && |bytes| >= BlockSize(|samples|) && bytes[BlockSize(|samples|)..] == rest
    requires bytes[..HEADER_SIZE] == HeaderBytes(samples[0], InitialIndex(samples), |samples|)
    ensures Filled(bytes, samples, 1, rest) && Encoded(samples, 1).1 == State(samples[0], InitialIndex(samples))
  {
    hide InitialIndex, HeaderBytes;
  }

  lemma FilledIsBlock(bytes: seq<Byte>, samples: seq<Sample>, rest: seq<Byte>)
    requires 1 <= |samples| <= MAX_SAMPLES && Filled(bytes, samples, |samples|, rest)
    ensures bytes[..BlockSize(|samples|)] == BlockBytes(samples) && bytes[BlockSize(|samples|)..] == rest
  {
    hide InitialIndex, HeaderBytes, Nibbles, Encoded;
    var size := BlockSize(|samples|);
    assert bytes[..size] == bytes[..HEADER_SIZE] + bytes[HEADER_SIZE..size];
  }

  lemma PackedGrows(before: seq<Byte>, after: seq<Byte>, sample: nat, codes: seq<int>, code: int, size: nat)
    requires |before| == |after| >= size && HEADER_SIZE + (sample + 1) / 2 <= size && sample == |codes| + 1
    requires AreCodes(codes) && 0 <= code < 16
    requires before[HEADER_SIZE..HEADER_SIZE + sample / 2] == Nibbles(codes)
    requires var i := HEADER_SIZE + (sample - 1) / 2;
             && (sample % 2 == 1 ==> after == before[i := code])
             && (sample % 2 == 0 ==> before[i] + 16 * code < 256 && after == before[i := before[i] + 16 * code])
    ensures AreCodes(codes + [code]) && after[HEADER_SIZE..HEADER_SIZE + (sample + 1) / 2] == Nibbles(codes + [code])
    ensures after[..HEADER_SIZE] == before[..HEADER_SIZE] && after[size..] == before[size..]
  {
    NibblesGrow(codes, code);
    hide Nibbles, AreCodes;
    var old_, new_ := before[HEADER_SIZE..HEADER_SIZE + sample / 2], after[HEADER_SIZE..HEADER_SIZE + (sample + 1) / 2];
    var j := (sample - 1) / 2;
    if sample % 2 == 1 {
      assert new_ == old_ + [code];
    } else {
      assert old_[j] == before[HEADER_SIZE + j];
      assert new_ == old_[j := old_[j] + 16 * code];
    }
  }

  /** ima_adpcm_block_header_write. */
  method WriteHeader(header: array<Byte>, predictor: Sample, index: nat, count: nat)
    requires header.Length >= HEADER_SIZE && index <= 88
    modifies header
    ensures header[..HEADER_SIZE] == HeaderBytes(predictor, index, count)
    ensures header[HEADER_SIZE..] == old(header[HEADER_SIZE..])
  {
    var low, n := SampleBytes(predictor), U16(count);
    header[0] := low[0];
    header[1] := low[1];
    header[2] := index;
    header[3] := 0;
    header[4] := n[0];
    header[5] := n[1];
  }

  function UnpackedCodes(bytes: seq<Byte>, n: nat): (codes: seq<int>)
    requires (n + 1) / 2 <= |bytes|
    ensures |codes| == n && AreCodes(codes) && forall i :: 0 <= i < n ==> codes[i] == CodeAt(bytes, i)
  {
    seq(n, i requires 0 <= i < n => CodeAt(bytes, i))
  }

  lemma PlayedAt(start: State, bytes: seq<Byte>, count: nat, n: nat)
    requires Legal(start) && count >= 1 && count / 2 <= |bytes| && n < count
    ensures Played(start, bytes, count)[n] == Replay(start, UnpackedCodes(bytes, count - 1), n).predictor
  {
    hide CodeAt, Replay;
    assert UnpackedCodes(bytes, count - 1) == seq(count - 1, i requires 0 <= i < count - 1 => CodeAt(bytes, i));
  }

  lemma ReplayStep(start: State, codes: seq<int>, n: nat)
    requires Legal(start) && AreCodes(codes) && n < |codes|
    ensures Replay(start, codes, n + 1) == Next(Replay(start, codes, n), codes[n])
  {
    hide Next;
  }

  /** The sample loop of both block decoders: codes from index `base` on, low nibble first. */
  method PlayCodes(encoded: seq<Byte>, base: nat, start: State, count: nat, samples: array<Sample>)
    requires Legal(start) && 1 <= count <= samples.Length && base + count / 2 <= |encoded|
    modifies samples
    ensures samples[..count] == Played(start, encoded[base..], count) && samples[count..] == old(samples[count..])
  {
    hide Next, Played, Replay;
    ghost var bytes := encoded[base..];
    ghost var codes := UnpackedCodes(bytes, count - 1);
    var coder := new Coder(start.predictor, start.index);
    samples[0] := start.predictor;
    ReplayStart(start, codes);
    PlayedAt(start, bytes, count, 0);
    var sample := 1;
    while sample < count
      invariant 1 <= sample <= count && fresh(coder) && coder.Value() == Replay(start, codes, sample - 1)
      invariant forall n :: 0 <= n < sample ==> samples[n] == Played(start, bytes, count)[n]
      invariant samples[count..] == old(samples[count..])
    {
      var packed := encoded[base + (sample - 1) / 2];
      var code: Byte := if sample % 2 == 1 then packed % 16 else packed / 16;
      assert code == CodeAt(bytes, sample - 1);
      var decoded := coder.DecodeNibble(code);
      ReplayStep(start, codes, sample - 1);
      PlayedAt(start, bytes, count, sample);
      samples[sample] := decoded;
      sample := sample + 1;
    }
  }

  lemma ReplayStart(start: State, codes: seq<int>)
    requires Legal(start) && AreCodes(codes)
    ensures Replay(start, codes, 0) == start
  {
  }

  /** ima_adpcm_decode_block. */
  method DecodeBlock(encoded: seq<Byte>, samples: array<Sample>) returns (ok: bool, count: nat)
    modifies samples
    ensures ok <==> DecodedBlock(encoded).Ok? && |DecodedBlock(encoded).value| <= samples.Length
    ensures ok ==> count == |DecodedBlock(encoded).value| && samples[..count] == DecodedBlock(encoded).value
    ensures ok ==> samples[count..] == old(samples[count..])
    ensures !ok ==> samples[..] == old(samples[..])
  {
    hide Played;
    count := 0;
    var header := ReadHeader(encoded);
    if header.Fail? {
      return false, 0;
    }
    var (start, n) := header.value;
    if |encoded| != BlockSize(n) || samples.Length < n {
      return false, 0;
    }
    PlayCodes(encoded, HEADER_SIZE, start, n, samples);
    ok, count := true, n;
  }

  // ---------------------------------------------------------------- lock step

  function PredictorAt(samples: seq<Sample>, n: nat): (v: Sample)
    requires n < |samples|
  {
    Encoded(samples, n + 1).1.predictor
  }

  /** The encoder's predictor at every sample. */
  function Predictors(samples: seq<Sample>): (r: seq<Sample>)
    requires |samples| >= 1
    ensures |r| == |samples| && forall n :: 0 <= n < |samples| ==> r[n] == Encoded(samples, n + 1).1.predictor
  {
    seq(|samples|, n requires 0 <= n < |samples| => PredictorAt(samples, n))
  }

  lemma {:induction false} EncodedPrefix(samples: seq<Sample>, k: nat, n: nat)
    requires 1 <= k <= n <= |samples|
    ensures Encoded(samples, k).0 <= Encoded(samples, n).0
    decreases n
  {
    hide CodeFor, Next, InitialIndex;
    if k < n {
      EncodedPrefix(samples, k, n - 1);
    }
  }

  /** After n codes the decoder has the encoder's state. */
  lemma {:induction false} SameState(samples: seq<Sample>, codes: seq<int>, n: nat)
    requires 1 <= |samples| && codes == Encoded(samples, |samples|).0 && n < |samples|
    ensures Replay(State(samples[0], InitialIndex(samples)), codes, n) == Encoded(samples, n + 1).1
  {
    hide CodeFor, Next, InitialIndex;
    if n > 0 {
      SameState(samples, codes, n - 1);
      EncodedPrefix(samples, n + 1, |samples|);
      EncodedStep(samples, n);
      assert codes[n - 1] == Encoded(samples, n + 1).0[n - 1];
    }
  }

  lemma CodesBack(codes: seq<int>)
    requires AreCodes(codes)
    ensures UnpackedCodes(Nibbles(codes), |codes|) == codes
  {
    hide CodeAt, Nibbles;
    forall i | 0 <= i < |codes| ensures UnpackedCodes(Nibbles(codes), |codes|)[i] == codes[i] {
      NibblesBack(codes, i);
    }
  }

  /**
   Lock step: every encoded block decodes to as many samples, the first exactly
   and each later one equal to the encoder's predictor there.
   */
  lemma LockStep(samples: seq<Sample>)
    requires 1 <= |samples| <= MAX_SAMPLES
    ensures DecodedBlock(BlockBytes(samples)) == Ok(Predictors(samples))
    ensures Predictors(samples)[0] == samples[0]
  {
    hide CodeFor, Next, InitialIndex, Played, HeaderBytes, Encoded, Nibbles, Replay, ReadHeader, UnpackedCodes;
    FirstState(samples);
    var codes := Encoded(samples, |samples|).0;
    var bytes := BlockBytes(samples);
    var start := State(samples[0], InitialIndex(samples));
    HeaderRoundTrip(samples[0], InitialIndex(samples), |samples|, Nibbles(codes));
    assert bytes[HEADER_SIZE..] == Nibbles(codes);
    CodesBack(codes);
    var played := Played(start, Nibbles(codes), |samples|);
    forall n | 0 <= n < |samples| ensures played[n] == Predictors(samples)[n] {
      PlayedAt(start, Nibbles(codes), |samples|, n);
      SameState(samples, codes, n);
    }
    assert played == Predictors(samples);
    assert DecodedBlock(bytes) == Ok(played);
  }

  lemma FirstState(samples: seq<Sample>)
    requires |samples| >= 1
    ensures Encoded(samples, 1) == ([], State(samples[0], InitialIndex(samples)))
  {
    hide InitialIndex;
  }

  /** The error bound on the decoded signal: sample n is near its input whenever the input is within two steps of the last output. */
  lemma DecodedNear(samples: seq<Sample>, n: nat)
    requires 1 <= n < |samples| <= MAX_SAMPLES
    ensures var out := DecodedBlock(BlockBytes(samples));
            out.Ok? && |out.value| == |samples| &&
            var step := Step(Encoded(samples, n).1.index);
            Distance(samples[n], out.value[n - 1]) < 2 * step ==> Distance(out.value[n], samples[n]) <= step / 8 + 2
  {
    hide CodeFor, Next, InitialIndex, BlockBytes, DecodedBlock, Encoded, Step;
    LockStep(samples);
    EncodedStep(samples, n);
    StepError(Encoded(samples, n).1, samples[n]);
  }

  // ---------------------------------------------------------------------- WAV

  function WavSampleCount(size: nat): (n: nat)
  {
    if size < WAV_HEADER_SIZE || size > WAV_MAX_BYTES then 0 else 1 + (size - WAV_HEADER_SIZE) * 2
  }

  function DecodedWav(bytes: seq<Byte>): (r: Outcome<seq<Sample>>)
    ensures r.Ok? ==> |r.value| == WavSampleCount(|bytes|) > 0
  {
    if WavSampleCount(|bytes|) == 0 || bytes[2] > 88 || bytes[3] != 0 then Fail
    else Ok(Played(State(SampleOf(bytes[0], bytes[1]), bytes[2]), bytes[WAV_HEADER_SIZE..], WavSampleCount(|bytes|)))
  }

  /** ima_adpcm_decode_wav_mono_block. */
  method DecodeWavBlock(encoded: seq<Byte>, samples: array<Sample>) returns (ok: bool, count: nat)
    modifies samples
    ensures ok <==> DecodedWav(encoded).Ok? && |DecodedWav(encoded).value| <= samples.Length
    ensures ok ==> count == |DecodedWav(encoded).value| && samples[..count] == DecodedWav(encoded).value
    ensures ok ==> samples[count..] == old(samples[count..])
    ensures !ok ==> samples[..] == old(samples[..])
  {
    hide Played;
    count := WavSampleCount(|encoded|);
    if count == 0 || samples.Length < count || encoded[2] > 88 || encoded[3] != 0 {
      return false, 0;
    }
    PlayCodes(encoded, WAV_HEADER_SIZE, State(SampleOf(encoded[0], encoded[1]), encoded[2]), count, samples);
    ok := true;
  }

  /** Both containers: an odd-length block and the WAV block with the same codes sound the same. */
  lemma WavAgrees(samples: seq<Sample>)
    requires |samples| % 2 == 1 && |samples| <= 1 + 2 * (WAV_MAX_BYTES - WAV_HEADER_SIZE)
    ensures |samples| <= MAX_SAMPLES
    ensures var block := BlockBytes(samples);
            DecodedWav(block[..4] + block[HEADER_SIZE..]) == DecodedBlock(block)
  {
    hide InitialIndex, Played, Encoded, Nibbles, SampleOf;
    var block := BlockBytes(samples);
    var wav := block[..4] + block[HEADER_SIZE..];
    HeaderRoundTrip(samples[0], InitialIndex(samples), |samples|, Nibbles(Encoded(samples, |samples|).0));
    assert wav[WAV_HEADER_SIZE..] == block[HEADER_SIZE..];
  }
}
