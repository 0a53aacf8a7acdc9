/**
 * The bounded counter behind every dial (FlipNumberDisplay): one integer
 * kept in [min, max], either wrapping around (WRAP) or saturating (CLAMP)
 * when it is written. The bounds and the mode are fixed at construction;
 * the value is the only state that changes.
 */
module FlipNumber {
  import opened Arith

  datatype WrapMode = Wrap | Clamp

  /**
   * Java's int remainder `a % b` for b > 0: truncated toward zero, so it
   * has the sign of `a`, and it differs from the Euclidean remainder by b
   * exactly when `a` is negative and not a multiple of b.
   */
  function JavaRem(a: int, b: int): (r: int)
    requires b > 0
    ensures -b < r < b
    ensures a >= 0 ==> r >= 0
    ensures a <= 0 ==> r <= 0
    ensures r == (if a < 0 && a % b != 0 then a % b - b else a % b)
  {
    if a >= 0 then a % b
    else
      var m := (-a) % b;
      var q := (-a) / b;
      assert -a == q * b + m;
      if m == 0 then
        DivModUnique(a, b, -q, 0);
        0
      else
        DivModUnique(a, b, -q - 1, b - m);
        -m
  }

  /**
   * The value setValue(v) stores for the given bounds and mode
   * (FlipNumberDisplay.setValue, WRAP and CLAMP branches).
   */
  function Normalize(v: int, min: int, max: int, mode: WrapMode): (r: int)
    requires min <= max
    ensures min <= r <= max
    // WRAP is the Euclidean remainder of the offset from min
    ensures mode == Wrap ==> r == min + (v - min) % (max - min + 1)
    // CLAMP keeps v in range and otherwise saturates at the nearer bound
    ensures mode == Clamp ==> r == (if v < min then min else if v > max then max else v)
  {
    match mode
    case Wrap =>
      var range := max - min + 1;
      var normalized := JavaRem(v - min, range);
      min + (if normalized < 0 then normalized + range else normalized)
    case Clamp =>
      Max(min, Min(max, v))
  }

  /** A value already in range is stored unchanged, in either mode. */
  lemma NormalizeInRange(v: int, min: int, max: int, mode: WrapMode)
    requires min <= v <= max
    ensures Normalize(v, min, max, mode) == v
  {
    if mode == Wrap {
      DivModUnique(v - min, max - min + 1, 0, v - min);
    }
  }

  /** Writing twice stores what writing once does. */
  lemma NormalizeIdempotent(v: int, min: int, max: int, mode: WrapMode)
    requires min <= max
    ensures Normalize(Normalize(v, min, max, mode), min, max, mode) == Normalize(v, min, max, mode)
  {
    NormalizeInRange(Normalize(v, min, max, mode), min, max, mode);
  }

  /** WRAP is periodic: v and v + k * range store the same value. */
  lemma WrapPeriodic(v: int, k: int, min: int, max: int)
    requires min <= max
    ensures Normalize(v + k * (max - min + 1), min, max, Wrap) == Normalize(v, min, max, Wrap)
  {
    var range := max - min + 1;
    var a := v - min;
    assert a == (a / range) * range + a % range;
    assert a + k * range == (a / range + k) * range + a % range;
    DivModUnique(a + k * range, range, a / range + k, a % range);
    assert v + k * range - min == a + k * range;
  }

  /** WRAP steps around the ends: one past max is min, one below min is max. */
  lemma WrapAround(min: int, max: int)
    requires min <= max
    ensures Normalize(max + 1, min, max, Wrap) == min
    ensures Normalize(min - 1, min, max, Wrap) == max
  {
    WrapPeriodic(min, 1, min, max);
    NormalizeInRange(min, min, max, Wrap);
    WrapPeriodic(max, -1, min, max);
    NormalizeInRange(max, min, max, Wrap);
  }

  /** One dial: a value and the fixed bounds and mode of FlipNumberDisplay. */
  class FlipNumberDisplay {
    var value: int
    const min: int
    const max: int
    const wrapMode: WrapMode

    /** min <= max, the bounds the calendar constructs every dial with. */
    predicate Valid() {
      min <= max
    }

    /** The range invariant, established by the first setValue or add. */
    predicate InRange()
      reads this
    {
      min <= value <= max
    }

    /** Stores `initial` as it is: the constructor does not normalise. */
    constructor (initial: int, min: int, max: int, wrapMode: WrapMode)
      requires min <= max
      ensures Valid()
      ensures value == initial
      ensures this.min == min && this.max == max && this.wrapMode == wrapMode
    {
      value := initial;
      this.min := min;
      this.max := max;
      this.wrapMode := wrapMode;
    }

    method GetValue() returns (v: int)
      ensures v == value
    {
      v := value;
    }

    method SetValue(newValue: int)
      requires Valid()
      modifies this`value
      ensures value == Normalize(newValue, min, max, wrapMode)
      ensures InRange()
      ensures old(InRange()) && old(value) == newValue ==> value == old(value)
    {
      if wrapMode == Wrap {
        var range := max - min + 1;
        var normalized := JavaRem(newValue - min, range);
        if normalized < 0 {
          normalized := normalized + range;
        }
        value := min + normalized;
      } else {
        value := Max(min, Min(max, newValue));
      }
      if min <= newValue <= max {
        NormalizeInRange(newValue, min, max, wrapMode);
      }
    }

    /** add(delta) is setValue(value + delta). */
    method Add(delta: int)
      requires Valid()
      modifies this`value
      ensures value == Normalize(old(value) + delta, min, max, wrapMode)
      ensures InRange()
    {
      SetValue(value + delta);
    }
  }
}
