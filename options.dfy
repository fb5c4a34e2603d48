/**
 * The board-size and time-limit options: the clamps setOptionsFromUI
 * applies to the menu controls, and the checks loadOptions applies to a
 * stored options record.
 */
module Options {
  import opened Wrappers

  /** What parseInt(text, 10) gives: NaN, or an integer. */
  datatype Parsed = NaN | Int(v: int)

  /** A menu control: missing or empty (then it is skipped), or holding text that parses as p. */
  datatype Control = Skipped | Value(p: Parsed)

  function Min(a: int, b: int): int { if a <= b then a else b }

  function Max(a: int, b: int): int { if a >= b then a else b }

  /** `p || fallback`: NaN and 0 are the falsy results of parseInt. */
  function OrElse(p: Parsed, fallback: int): (r: int)
    ensures p.NaN? || p.v == 0 ==> r == fallback
    ensures p.Int? && p.v != 0 ==> r == p.v
  {
    if p.NaN? || p.v == 0 then fallback else p.v
  }

  /** The size rule of setOptionsFromUI: 3, 4 or 5, depending on the number typed. */
  function SizeFromControl(c: Control, size: int): (r: int)
    ensures c.Skipped? ==> r == size
    ensures c.Value? ==> 3 <= r <= 5
    ensures c.Value? && (c.p.NaN? || c.p.v == 0) ==> r == 4
    ensures c.Value? && c.p.Int? && 3 <= c.p.v <= 5 ==> r == c.p.v
    ensures c.Value? && c.p.Int? && c.p.v > 5 ==> r == 5
    ensures c.Value? && c.p.Int? && c.p.v < 3 && c.p.v != 0 ==> r == 3
  {
    match c
    case Skipped => size
    case Value(p) => Max(3, Min(5, OrElse(p, 4)))
  }

  /** The limit rule of setOptionsFromUI: at least 60 seconds, 300 when nothing usable was typed. */
  function LimitFromControl(c: Control, limit: int): (r: int)
    ensures c.Skipped? ==> r == limit
    ensures c.Value? ==> r >= 60
    ensures c.Value? && (c.p.NaN? || c.p.v == 0) ==> r == 300
    ensures c.Value? && c.p.Int? && c.p.v >= 60 ==> r == c.p.v
    ensures c.Value? && c.p.Int? && c.p.v < 60 && c.p.v != 0 ==> r == 60
  {
    match c
    case Skipped => limit
    case Value(p) => Max(60, OrElse(p, 300))
  }

  /** Reading back a value the menu produced gives the same value. */
  lemma ControlsIdempotent(c: Control, size: int, limit: int)
    ensures var s := SizeFromControl(c, size);
      c.Value? ==> SizeFromControl(Value(Int(s)), size) == s
    ensures var l := LimitFromControl(c, limit);
      c.Value? ==> LimitFromControl(Value(Int(l)), limit) == l
  {
  }

  /** A field of the parsed JSON record: a number, or anything else (absent, a string, ...). */
  datatype Field = Number(n: int) | Other

  /** The stored options record {size, limitSeconds}. */
  datatype Stored = Stored(size: Field, limitSeconds: Field)

  /** The record setOptionsFromUI writes. */
  function Save(size: int, limit: int): (o: Stored)
    ensures o.size == Number(size) && o.limitSeconds == Number(limit)
  {
    Stored(Number(size), Number(limit))
  }

  /**
   * loadOptions on the parsed record (None when nothing is stored, the text
   * is not JSON or it is null): a size is taken only when it is 3, 4 or 5,
   * a limit whenever it is a number.
   */
  function Load(raw: Option<Stored>, size: int, limit: int): (r: (int, int))
    ensures raw.None? ==> r == (size, limit)
    ensures r.0 == size || r.0 == 3 || r.0 == 4 || r.0 == 5
    ensures raw.Some? && raw.value.size.Number? && 3 <= raw.value.size.n <= 5 ==> r.0 == raw.value.size.n
    ensures raw.Some? && !(raw.value.size.Number? && 3 <= raw.value.size.n <= 5) ==> r.0 == size
    ensures raw.Some? && raw.value.limitSeconds.Number? ==> r.1 == raw.value.limitSeconds.n
    ensures raw.Some? && raw.value.limitSeconds.Other? ==> r.1 == limit
  {
    match raw
    case None => (size, limit)
    case Some(o) =>
      var size' := if o.size.Number? && (o.size.n == 3 || o.size.n == 4 || o.size.n == 5) then o.size.n else size;
      var limit' := if o.limitSeconds.Number? then o.limitSeconds.n else limit;
      (size', limit')
  }

  /** Saving and then loading restores the options, whatever was set in between. */
  lemma SaveLoadRoundTrip(size: int, limit: int, size0: int, limit0: int)
    requires 3 <= size <= 5
    ensures Load(Some(Save(size, limit)), size0, limit0) == (size, limit)
  {
  }

  /** Unlike the menu, loading takes a stored limit below 60 as it is. */
  lemma LoadDoesNotClampLimit()
    ensures Load(Some(Stored(Other, Number(5))), 4, 300) == (4, 5)
    ensures LimitFromControl(Value(Int(5)), 300) == 60
  {
  }
}
