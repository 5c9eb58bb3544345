/** One field of a cron expression: comma lists of `*`, number or range with an optional `/step`. */
module CronField {
  import opened Wrappers
  import opened GoText

  /** `any` is a bare `*`, which keeps no values. */
  datatype Field = Field(any: bool, values: set<int>)

  predicate Hits(f: Field, value: int) { f.any || value in f.values }

  /** The largest bound a field is parsed with. */
  const MAX_BOUND: int := 59

  function ParseNumber(text: string, min: int, max: int): Option<int> {
    match Atoi(TrimSpace(text))
    case None => None
    case Some(n) => if n < min || n > max then None else Some(n)
  }

  function ParseRange(text: string, min: int, max: int): (r: Option<(int, int)>)
    ensures r.Some? && min <= max ==> min <= r.value.0 <= r.value.1 <= max
  {
    if text == "*" then Some((min, max))
    else if '-' in text then
      var pieces := Split(text, '-');
      if |pieces| != 2 then None
      else
        var start, end := ParseNumber(pieces[0], min, max), ParseNumber(pieces[1], min, max);
        if start.None? || end.None? || start.value > end.value then None else Some((start.value, end.value))
    else
      match ParseNumber(text, min, max)
      case None => None
      case Some(n) => Some((n, n))
  }

  /** Bounds how often the loop over a range still runs: the counter grows until it passes `end`, but a
      step near the largest int64 makes it wrap below zero and come back two lower. */
  function Turns(i: int, end: int, step: int): nat
    requires IsInt64(i) && 0 <= end <= MAX_BOUND && 0 < step <= MAX_INT64
  {
    if i > end then 0
    else if step + end <= MAX_INT64 then end - i + 1
    else if i >= 0 then 2 * i + 3
    else if i + step > end then 1
    else if i + step >= 0 then 2 * (i + step) + 4
    else 2
  }

  /** The values the loop `for i := start; i <= end; i += step` visits. */
  function StepFrom(i: int, end: int, step: int): set<int>
    requires IsInt64(i) && 0 <= end <= MAX_BOUND && 0 < step <= MAX_INT64
    decreases Turns(i, end, step)
  {
    if i > end then {} else {i} + StepFrom(Add64(i, step), end, step)
  }

  function ParsePart(text: string, min: int, max: int): Option<set<int>>
    requires 0 <= min <= max <= MAX_BOUND
  {
    var part := TrimSpace(text);
    if part == "" then None
    else
      var pieces := if '/' in part then Split(part, '/') else [part];
      if |pieces| > 2 then None
      else
        var step := if |pieces| == 2 then Atoi(pieces[1]) else Some(1);
        if step.None? || step.value <= 0 then None
        else
          match ParseRange(pieces[0], min, max)
          case None => None
          case Some(range) => Some(StepFrom(range.0, range.1, step.value))
  }

  function ParseParts(parts: seq<string>, min: int, max: int): Option<set<int>>
    requires 0 <= min <= max <= MAX_BOUND
  {
    if parts == [] then Some({})
    else
      var init := ParseParts(parts[..|parts| - 1], min, max);
      if init.None? then None
      else
        var last := ParsePart(parts[|parts| - 1], min, max);
        if last.None? then None else Some(init.value + last.value)
  }

  function ParseField(text: string, min: int, max: int): Option<Field>
    requires 0 <= min <= max <= MAX_BOUND
  {
    var value := TrimSpace(text);
    if value == "*" then Some(Field(true, {}))
    else
      var values := ParseParts(Split(value, ','), min, max);
      if values.None? || values.value == {} then None else Some(Field(false, values.value))
  }

  /** The parser's outer loop, over the comma list. */
  method Parse(text: string, min: int, max: int) returns (r: Option<Field>)
    requires 0 <= min <= max <= MAX_BOUND
    ensures r == ParseField(text, min, max)
  {
    hide ParsePart, Split;
    var value := TrimSpace(text);
    if value == "*" { return Some(Field(true, {})); }
    var parts := Split(value, ',');
    var values: set<int> := {};
    for k := 0 to |parts|
      invariant ParseParts(parts[..k], min, max) == Some(values)
    {
      assert parts[..k + 1][..k] == parts[..k];
      PrefixFails(parts, k + 1, min, max);
      var grown := AddPart(values, parts[k], min, max);
      if grown.None? { return None; }
      values := grown.value;
    }
    assert parts[..|parts|] == parts;
    if values == {} { return None; }
    return Some(Field(false, values));
  }

  /** The body of that loop: the values of one part, added by the inner loop. */
  method AddPart(before: set<int>, text: string, min: int, max: int) returns (r: Option<set<int>>)
    requires 0 <= min <= max <= MAX_BOUND
    ensures r == match ParsePart(text, min, max) case None => None case Some(found) => Some(before + found)
  {
    var part := TrimSpace(text);
    if part == "" { return None; }
    var step, rangePart := 1, part;
    if '/' in part {
      var pieces := Split(part, '/');
      TwoPieces(part, '/');
      if |pieces| != 2 { return None; }
      rangePart := pieces[0];
      var parsed := Atoi(pieces[1]);
      if parsed.None? || parsed.value <= 0 { return None; }
      step := parsed.value;
    }
    var range := ParseRange(rangePart, min, max);
    if range.None? { return None; }
    var values := AddSteps(before, range.value.0, range.value.1, step);
    return Some(values);
  }

  /** The inner loop, over the values of one range; it ends even when the counter wraps. */
  method AddSteps(before: set<int>, start: int, end: int, step: int) returns (values: set<int>)
    requires IsInt64(start) && 0 <= end <= MAX_BOUND && 0 < step <= MAX_INT64
    ensures values == before + StepFrom(start, end, step)
  {
    values := before;
    var i := start;
    while i <= end
      invariant IsInt64(i) && values + StepFrom(i, end, step) == before + StepFrom(start, end, step)
      decreases Turns(i, end, step)
    {
      values := values + {i};
      i := Add64(i, step);
    }
  }

  lemma {:induction false} PrefixFails(parts: seq<string>, k: nat, min: int, max: int)
    requires k <= |parts| && 0 <= min <= max <= MAX_BOUND
    ensures ParseParts(parts[..k], min, max).None? ==> ParseParts(parts, min, max).None?
    decreases |parts| - k
  {
    if k < |parts| {
      assert parts[..k + 1][..k] == parts[..k];
      PrefixFails(parts, k + 1, min, max);
    } else {
      assert parts[..k] == parts;
    }
  }

  lemma {:induction false} TwoPieces(s: string, sep: char)
    requires sep in s
    ensures |Split(s, sep)| >= 2
  {
    if s[0] != sep {
      assert s == [s[0]] + s[1..];
      TwoPieces(s[1..], sep);
    }
  }

  // ---------------------------------------------------------------- what the loop's values are

  /** start, start + step, ... up to end. */
  ghost function Progression(start: int, end: int, step: int): set<int>
    requires step > 0
  {
    set i | start <= i <= end && OnStep(i, start, step)
  }

  predicate OnStep(i: int, start: int, step: int)
    requires step > 0
  {
    (i - start) % step == 0
  }

  /** The loop's counter does not wrap: a caller can test this on the text's numbers. */
  predicate NoWrap(start: int, step: int) { start + step <= MAX_INT64 }

  lemma ProgressionStep(start: int, end: int, step: int)
    requires step > 0 && start <= end
    ensures Progression(start, end, step) == {start} + Progression(start + step, end, step)
  {
    forall i ensures i in Progression(start, end, step) <==> i in {start} + Progression(start + step, end, step) {
      if start < i <= end {
        assert (i - start) % step == (i - (start + step)) % step by { ModMinus(i - start, step); }
        if (i - start) % step == 0 { AtLeastOneStep(i - start, step); }
      }
    }
  }

  lemma ModMinus(x: int, step: int)
    requires step > 0
    ensures x % step == (x - step) % step
  {
    assert x == step * (x / step) + x % step;
    assert x - step == step * ((x - step) / step) + (x - step) % step;
    UniqueRemainder(step, x / step - 1, x % step, (x - step) / step, (x - step) % step);
  }

  lemma UniqueRemainder(step: int, q: int, r: int, q': int, r': int)
    requires step > 0 && 0 <= r < step && 0 <= r' < step && step * q + r == step * q' + r'
    ensures r == r'
  {
    var d := q' - q;
    assert step * d == r - r';
    Multiples(step, d);
  }

  lemma Multiples(step: int, d: int)
    requires step > 0
    ensures d > 0 ==> step * d >= step
    ensures d < 0 ==> step * d <= -step
  {}

  lemma AtLeastOneStep(x: int, step: int)
    requires x > 0 && step > 0 && x % step == 0
    ensures x >= step
  {}

  /** Without wrap-around the loop visits exactly the progression. */
  lemma {:induction false} StepFromIsProgression(start: int, end: int, step: int)
    requires 0 <= start && 0 <= end <= MAX_BOUND && 0 < step <= MAX_INT64 && IsInt64(start)
    requires start <= end ==> NoWrap(start, step)
    ensures StepFrom(start, end, step) == Progression(start, end, step)
    decreases end - start
  {
    if start <= end {
      ProgressionStep(start, end, step);
      if start + step <= end { assert NoWrap(start + step, step); }
      StepFromIsProgression(start + step, end, step);
    }
  }

  /** With wrap-around a value below zero gets in. */
  lemma StepFromWraps(start: int, end: int, step: int)
    requires 0 <= start <= end <= MAX_BOUND && 0 < step <= MAX_INT64
    requires !NoWrap(start, step)
    ensures exists v | v in StepFrom(start, end, step) :: v < 0
  {
    var next := Add64(start, step);
    assert next < 0 && next in StepFrom(next, end, step);
    assert StepFrom(start, end, step) == {start} + StepFrom(next, end, step);
  }

  /** The wrapped counter can also come back inside the bounds: "5/9223372036854775807" hits 3. */
  lemma WrapHitsOtherValues()
    ensures 3 in StepFrom(5, 5, MAX_INT64) && 3 !in Progression(5, 5, MAX_INT64)
  {
    var a := Add64(5, MAX_INT64);
    var b := Add64(a, MAX_INT64);
    assert b == 3 && 3 in StepFrom(b, 5, MAX_INT64);
    assert StepFrom(a, 5, MAX_INT64) == {a} + StepFrom(b, 5, MAX_INT64);
    assert StepFrom(5, 5, MAX_INT64) == {5} + StepFrom(a, 5, MAX_INT64);
  }
}
