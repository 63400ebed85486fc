/**
 * The statistics count-up. Each `.stat-number` element has an observer of
 * its own. The first entry that finds the element intersecting classifies
 * its text: text with a trend arrow is left alone and stays observed; text
 * with no leading integer is left alone and is no longer observed; any
 * other text starts an interval timer that adds a sixtieth of the number to
 * `current` per tick and writes `floor(current)`, followed by `%` when the
 * text had one, until `current` reaches the number, where it snaps to the
 * number and the timer is cleared.
 *
 * Arithmetic is exact (`real`), so the run takes exactly sixty ticks for a
 * positive number and one tick otherwise. The interval's period and the
 * intersection threshold of 0.5 are not modelled: a tick is one step, and
 * each entry carries the `isIntersecting` flag the browser computed.
 */
module CountUp {

  import opened JsNumber
  import opened RealArith

  /** The trend arrow that marks a stat as not to be animated. */
  const Arrow: char := '\U{2192}'

  /** A run adds the number divided by this on each tick. */
  const Steps: nat := 60

  /** How the callback treats a stat, by its text. */
  datatype StatKind = ArrowText | NotANumber | Numeric(target: int, percent: bool)

  /** Text with the trend arrow anywhere is an arrow stat; otherwise the
    * leading integer `parseInt` reads decides, and the percent flag is
    * whether a `%` occurs anywhere in the text. */
  function Classify(text: string): StatKind
  {
    if Arrow in text then ArrowText
    else match ParseInt(text)
      case NaN => NotANumber
      case Int(n) => Numeric(n, '%' in text)
  }

  /** The text a tick writes: the decimal form of the integral value, with a
    * percent sign after it for a percentage stat. */
  function Render(value: int, percent: bool): string
  {
    IntToDecimal(value) + (if percent then "%" else "")
  }

  lemma DecimalCharacters(v: int)
    ensures forall i :: 0 <= i < |IntToDecimal(v)| ==>
      IsDigit(IntToDecimal(v)[i], 10) || IntToDecimal(v)[i] == '-'
  {
    var s := IntToDecimal(v);
    if v < 0 {
      var ds := NatToDecimal(-v);
      forall i | 0 <= i < |s| ensures IsDigit(s[i], 10) || s[i] == '-' {
        if i > 0 { assert s[i] == ds[i - 1]; }
      }
    }
  }

  /** A written value classifies back to the same number and percent flag:
    * the rendered text carries no arrow, has `%` exactly when asked to, and
    * `parseInt` reads the value back. */
  lemma RenderClassifies(v: int, percent: bool)
    ensures Classify(Render(v, percent)) == Numeric(v, percent)
    ensures '%' in Render(v, percent) <==> percent
    ensures Arrow !in Render(v, percent)
  {
    var d := IntToDecimal(v);
    var suffix := if percent then "%" else "";
    var s := Render(v, percent);
    DecimalCharacters(v);
    assert forall i :: 0 <= i < |d| ==> d[i] != Arrow && d[i] != '%';
    assert forall i :: |d| <= i < |s| ==> s[i] == '%' by {
      forall i | |d| <= i < |s| ensures s[i] == '%' {
        assert s[i] == suffix[i - |d|];
      }
    }
    forall i | 0 <= i < |s| ensures s[i] != Arrow {
      if i < |d| { assert s[i] == d[i]; }
    }
    if percent {
      assert s[|d|] == '%';
    } else {
      assert s == d;
    }
    ParseIntOfDecimal(v, suffix);
  }

  /** The number of ticks a run takes: sixty for a positive number, one
    * otherwise. */
  function TickCount(n: int): nat
  {
    if n > 0 then Steps else 1
  }

  /** `current` after k ticks of `current += increment`, before any snap. */
  function Accumulated(n: int, k: nat): real
  {
    if k == 0 then 0.0 else Accumulated(n, k - 1) + (n as real) / (Steps as real)
  }

  /** The value written on tick k (counting from 1) of a run to n. */
  function Shown(n: int, k: nat): int
  {
    if k >= TickCount(n) then n else Accumulated(n, k).Floor
  }

  /** Every value a run to n writes, in order. */
  function Schedule(n: int): seq<int>
  {
    seq(TickCount(n), i requires 0 <= i => Shown(n, i + 1))
  }

  /** Repeated increments add up to k sixtieths of the number. */
  lemma {:induction false} AccumulatedIsLinear(n: int, k: nat)
    ensures Accumulated(n, k) == Mul(k as real, (n as real) / 60.0)
  {
    if k > 0 {
      AccumulatedIsLinear(n, k - 1);
      MulSuccessor((k - 1) as real, (n as real) / 60.0);
      assert (k - 1) as real + 1.0 == k as real;
    }
  }

  /** Within a run, `current >= number` first holds on the last tick: tick
    * sixty for a positive number, tick one otherwise. Before that the
    * accumulated value is non-negative and below the number. */
  lemma SnapsExactlyAt(n: int, k: nat)
    requires 1 <= k <= TickCount(n)
    ensures Accumulated(n, k) >= n as real <==> k == TickCount(n)
    ensures k < TickCount(n) ==> 0.0 <= Accumulated(n, k) < n as real
  {
    AccumulatedIsLinear(n, k);
    var c := (n as real) / 60.0;
    assert n as real == Mul(60.0, c);
    if n > 0 {
      if k < 60 {
        MulStrict(c, k as real, 60.0);
        MulNonNegative(c, k as real);
      } else {
        assert k as real == 60.0;
      }
      MulCommutes(c, k as real);
      MulCommutes(c, 60.0);
    } else {
      assert k == 1;
      assert Mul(1.0, c) == c;
    }
  }

  /** For a positive number the accumulated value only grows. */
  lemma {:induction false} AccumulatedRises(n: int, j: nat, k: nat)
    requires n > 0 && j <= k
    ensures Accumulated(n, j) <= Accumulated(n, k)
  {
    if j < k {
      AccumulatedRises(n, j, k - 1);
    }
  }

  /** What tick k writes is the floor of `current` after the tick, with the
    * snap applied: the schedule is what the code computes. */
  lemma ShownIsFloorOfCurrent(n: int, k: nat)
    requires 1 <= k <= TickCount(n)
    ensures Shown(n, k) ==
      (if Accumulated(n, k) >= n as real then n as real else Accumulated(n, k)).Floor
  {
    SnapsExactlyAt(n, k);
  }

  /** A run writes TickCount(n) values and the last one is exactly n. */
  lemma ScheduleEndsAtTarget(n: int)
    ensures |Schedule(n)| == TickCount(n)
    ensures Schedule(n)[|Schedule(n)| - 1] == n
  {
  }

  /** The written values never decrease and never exceed n. */
  lemma ScheduleRises(n: int)
    ensures forall i, j :: 0 <= i <= j < |Schedule(n)| ==>
      Schedule(n)[i] <= Schedule(n)[j] <= n
  {
    var s := Schedule(n);
    forall i, j | 0 <= i <= j < |s| ensures s[i] <= s[j] <= n {
      ShownRises(n, i + 1, j + 1);
    }
  }

  lemma ShownRises(n: int, j: nat, k: nat)
    requires 1 <= j <= k <= TickCount(n)
    ensures Shown(n, j) <= Shown(n, k) <= n
  {
    SnapsExactlyAt(n, j);
    SnapsExactlyAt(n, k);
    if n > 0 {
      AccumulatedRises(n, j, k);
      if k < TickCount(n) {
        assert Accumulated(n, j).Floor <= Accumulated(n, k).Floor;
      }
    }
  }

  /** For a non-negative number every written value is non-negative. */
  lemma ScheduleNonNegative(n: int)
    requires n >= 0
    ensures forall i :: 0 <= i < |Schedule(n)| ==> 0 <= Schedule(n)[i]
  {
    forall i | 0 <= i < |Schedule(n)| ensures 0 <= Schedule(n)[i] {
      SnapsExactlyAt(n, i + 1);
    }
  }

  /** For a number of at most zero the first tick already snaps: the run
    * writes the number once and stops. */
  lemma ScheduleOfNonPositive(n: int)
    requires n <= 0
    ensures Schedule(n) == [n]
  {
  }

  /** One tick on values: tick k adds the increment to the value after
    * tick k - 1, snaps exactly on the last tick, and writes Shown(n, k). */
  lemma TickAdvances(n: int, k: nat, current: real, increment: real)
    requires 1 <= k <= TickCount(n)
    requires current == Accumulated(n, k - 1)
    requires increment == (n as real) / (Steps as real)
    ensures current + increment >= n as real <==> k == TickCount(n)
    ensures current + increment < n as real ==> current + increment == Accumulated(n, k)
    ensures (if current + increment >= n as real then n as real
             else current + increment).Floor == Shown(n, k)
  {
    SnapsExactlyAt(n, k);
    ShownIsFloorOfCurrent(n, k);
  }

  lemma ScheduleExtends(n: int, k: nat)
    requires 1 <= k <= TickCount(n)
    ensures Schedule(n)[..k] == Schedule(n)[..k - 1] + [Shown(n, k)]
  {
    assert Schedule(n)[k - 1] == Shown(n, k);
  }

  /** The state of a started count-up: the text classified to the number
    * and flag the run uses, the increment is a sixtieth of the number, and
    * the values written so far are the schedule's first ones; the timer is
    * set until the whole schedule is written; `current` is the accumulated
    * value while the timer runs and the number once it stops; and the text
    * is the last value written, or the original text before the first tick. */
  ghost predicate RunInvariant(original: string, number: int, isPercent: bool, increment: real,
                               current: real, running: bool, shown: seq<int>, text: string)
  {
    && Classify(original) == Numeric(number, isPercent)
    && increment == (number as real) / (Steps as real)
    && |shown| <= TickCount(number)
    && shown == Schedule(number)[..|shown|]
    && (running <==> |shown| < TickCount(number))
    && (running ==> current == Accumulated(number, |shown|))
    && (!running ==> current == number as real)
    && (shown == [] ==> text == original)
    && (shown != [] ==> text == Render(shown[|shown| - 1], isPercent))
  }

  /** A tick keeps the invariant of a running count-up. */
  lemma TickPreservesRun(original: string, number: int, isPercent: bool, increment: real,
                         current: real, shown: seq<int>, text: string)
    requires RunInvariant(original, number, isPercent, increment, current, true, shown, text)
    ensures var next := current + increment;
            var snapped := if next >= number as real then number as real else next;
            RunInvariant(original, number, isPercent, increment, snapped, next < number as real,
                         shown + [snapped.Floor], Render(snapped.Floor, isPercent))
  {
    TickAdvances(number, |shown| + 1, current, increment);
    ScheduleExtends(number, |shown| + 1);
  }

  /** One `.stat-number` element, its observer and its count-up timer. */
  class StatCounter {
    /** The element's `textContent`. */
    var text: string
    /** Whether the element's observer still observes it. */
    var observed: bool
    /** Whether the interval timer is set. */
    var running: bool
    var current: real
    var increment: real
    var number: int
    var isPercent: bool
    /** The text the element had when the page loaded. */
    ghost const original: string
    /** Whether a count-up was started. */
    ghost var started: bool
    /** Every value the timer has written so far. */
    ghost var shown: seq<int>

    ghost predicate Valid()
      reads this
    {
      && (observed ==> !started)
      && (!started ==> !running && text == original && shown == [])
      && (!observed && !started ==> Classify(original) == NotANumber)
      && (started ==>
            && !observed
            && RunInvariant(original, number, isPercent, increment, current, running, shown, text))
    }

    /** The element as the page loads it, and `observeStat.observe(stat)`. */
    constructor (content: string)
      ensures Valid()
      ensures original == content && text == content
      ensures observed && !started && !running
    {
      original := content;
      text := content;
      observed := true;
      running := false;
      current, increment, number, isPercent := 0.0, 0.0, 0, false;
      started := false;
      shown := [];
    }

    /** The observer callback. The browser delivers entries only while the
      * element is observed. For numeric text a batch holds at most one
      * intersecting entry, since a second one would start a second timer. */
    method OnEntries(entries: seq<bool>)
      requires Valid() && observed
      requires !Classify(text).Numeric? ||
               forall i, j :: 0 <= i < j < |entries| && entries[i] ==> !entries[j]
      modifies this
      ensures Valid()
      ensures text == old(text)
      ensures true !in entries || Classify(text).ArrowText? ==> unchanged(this)
      ensures true in entries && Classify(text) == NotANumber ==>
                !observed && !started && !running
      ensures true in entries && Classify(text).Numeric? ==>
                && !observed && started && running && shown == []
                && Classify(text) == Numeric(number, isPercent)
                && current == 0.0
    {
      ghost var kind := Classify(text);
      ghost var fired := false;
      var i := 0;
      while i < |entries|
        invariant 0 <= i <= |entries|
        invariant fired <==> true in entries[..i]
        invariant Valid()
        invariant text == original && text == old(text) && shown == []
        invariant !fired || kind.ArrowText? ==> unchanged(this)
        invariant fired && kind == NotANumber ==> !observed && !started && !running
        invariant fired && kind.Numeric? ==>
                    && !observed && started && running
                    && kind == Numeric(number, isPercent)
                    && current == 0.0
      {
        assert entries[..i + 1] == entries[..i] + [entries[i]];
        assert fired && kind.Numeric? ==> !entries[i] by {
          if fired && kind.Numeric? {
            var j :| 0 <= j < i && entries[..i][j];
            assert entries[j];
          }
        }
        if entries[i] {
          var t := text;
          var percent := '%' in t;
          var hasArrow := Arrow in t;
          if !hasArrow {
            var parsed := ParseInt(t);
            if parsed.Int? {
              number := parsed.value;
              isPercent := percent;
              current := 0.0;
              increment := (number as real) / (Steps as real);
              running := true;
              started := true;
            }
            observed := false;
          }
          fired := true;
        }
        i := i + 1;
      }
      assert entries[..|entries|] == entries;
    }

    /** One run of the interval callback. */
    method Tick()
      requires Valid() && running
      modifies this
      ensures Valid()
      ensures number == old(number) && isPercent == old(isPercent) && started
      ensures current == if old(current) + increment >= number as real
                         then number as real else old(current) + increment
      ensures running <==> old(current) + increment < number as real
      ensures text == Render(current.Floor, isPercent)
      ensures shown == old(shown) + [current.Floor]
    {
      TickPreservesRun(original, number, isPercent, increment, current, shown, text);
      current := current + increment;
      if current >= number as real {
        current := number as real;
        running := false;
      }
      var value := current.Floor;
      text := Render(value, isPercent);
      shown := shown + [value];
    }

    /** The timer from its start until it clears itself: the run writes
      * exactly the schedule and ends on the number. */
    method RunTimer()
      requires Valid() && started
      modifies this
      ensures Valid() && !running
      ensures number == old(number) && isPercent == old(isPercent)
      ensures shown == Schedule(number)
      ensures text == Render(number, isPercent)
    {
      while running
        invariant Valid() && started
        invariant number == old(number) && isPercent == old(isPercent)
        decreases TickCount(number) - |shown|
      {
        Tick();
      }
      ScheduleEndsAtTarget(number);
      assert shown == Schedule(number)[..TickCount(number)];
    }
  }

  /** Text such as "500+" counts up to 500 and loses the "+" on the first
    * write: `parseInt` stops at the first character that is not a digit. */
  lemma TrailingTextIsDropped()
    ensures Classify("500+") == Numeric(500, false)
    ensures Render(500, false) == "500"
  {
    DigitsOf500();
    ParseIntOfDigits("", "500", "+");
    assert "" + "500" + "+" == "500+";
  }

  /** A percentage keeps its sign on every write: "150%" counts up to 150
    * and is written back as "150%". */
  lemma PercentIsKept()
    ensures Classify("150%") == Numeric(150, true)
    ensures Render(150, true) == "150%"
  {
    DigitsOf150();
    ParseIntOfDigits("", "150", "%");
    assert "" + "150" + "%" == "150%";
  }

  lemma DigitsOf500()
    ensures AllDigits("500", 10) && DigitsValue("500", 10) == 500
    ensures NatToDecimal(500) == "500"
  {
    assert "500"[..2] == "50" && "50"[..1] == "5";
    assert NatToDecimal(5) == "5";
    assert NatToDecimal(50) == "50";
  }

  lemma DigitsOf150()
    ensures AllDigits("150", 10) && DigitsValue("150", 10) == 150
    ensures NatToDecimal(150) == "150"
  {
    assert "150"[..2] == "15" && "15"[..1] == "1";
    assert NatToDecimal(1) == "1";
    assert NatToDecimal(15) == "15";
  }
}
