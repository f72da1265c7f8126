/** `parseCronField`: one field of a cron expression as the set of values it stands for. */
module CronFields {
  import opened Arithmetic
  import opened CronText
  import opened Int64
  import opened Options

  datatype Problem =
    | InvalidStep(part: string)
    | InvalidStart(part: string)
    | InvalidValue(part: string)
    | OutOfRange(value: int)

  datatype Parsed = Ok(values: set<int>) | Err(problem: Problem)

  /** Ranges of the cron fields are small; `step` and `start` are any 64-bit integers. */
  predicate Stepping(i: int, step: int, max: int) {
    0 <= max < 1000 && 1 <= step <= MAX_INT && MIN_INT <= i <= MAX_INT
  }

  /** Turns of the stepping loop still to come, or more: a step near 2^63 wraps around, so that two turns
      bring the variable back a little lower. */
  function TurnsLeft(i: int, step: int, max: int): nat
    requires Stepping(i, step, max)
  {
    if i > max then 0
    else if step <= MAX_INT - max then max - i + 1
    else if i >= 0 then 2 * i + 3
    else if i + step > max then 1
    else if i + step >= 0 then 2 * (i + step) + 4
    else 2
  }

  lemma TurnTaken(i: int, step: int, max: int)
    requires Stepping(i, step, max) && i <= max
    ensures Stepping(Wrap(i + step), step, max) && TurnsLeft(Wrap(i + step), step, max) < TurnsLeft(i, step, max)
  {
  }

  /** What `for i := start; i <= max; i += step` collects. */
  function Steps(i: int, step: int, max: int): set<int>
    requires Stepping(i, step, max)
    decreases TurnsLeft(i, step, max)
  {
    if i > max then {}
    else
      TurnTaken(i, step, max);
      {i} + Steps(Wrap(i + step), step, max)
  }

  function Range(min: int, max: int): (r: set<int>)
    ensures forall x :: x in r <==> min <= x <= max
    decreases max - min
  {
    if min > max then {} else Range(min, max - 1) + {max}
  }

  /** One part of a comma-separated field. */
  function PartOf(part: string, min: int, max: int): Parsed
    requires 0 <= min <= max < 1000
  {
    if '/' in part then
      var (from, stride) := SplitFirst(part, '/');
      match Atoi(stride)
      case None => Err(InvalidStep(part))
      case Some(step) =>
        if step <= 0 then Err(InvalidStep(part))
        else if from == "*" then
          assert 1 <= step <= MAX_INT;
          Ok(Steps(min, step, max))
        else
          match Atoi(from)
          case None => Err(InvalidStart(part))
          case Some(start) => Ok(Steps(start, step, max))
    else if part == "*" then Ok(Range(min, max))
    else
      match Atoi(part)
      case None => Err(InvalidValue(part))
      case Some(v) => if v < min || v > max then Err(OutOfRange(v)) else Ok({v})
  }

  /** What a part may look like, and what it then stands for. */
  ghost predicate Reads(part: string, min: int, max: int, values: set<int>)
    requires 0 <= min <= max < 1000
  {
    || (part == "*" && forall x :: x in values <==> min <= x <= max)
    || (exists v :: Atoi(part) == Some(v) && min <= v <= max && values == {v})
    || (exists from, stride, start, step | Stepping(start, step, max) ::
          && part == from + ['/'] + stride && '/' !in from && Atoi(stride) == Some(step)
          && (if from == "*" then start == min else Atoi(from) == Some(start)) && values == Steps(start, step, max))
  }

  lemma SplitAt(part: string) returns (from: string, stride: string)
    requires '/' in part
    ensures part == from + ['/'] + stride && '/' !in from && SplitFirst(part, '/') == (from, stride)
  {
    from, stride := SplitFirst(part, '/').0, SplitFirst(part, '/').1;
    SplitFirstParts(part, '/');
  }

  /** A part is accepted iff it is `*`, a number within the limits, or a step of at least one behind `*` or a
      number; it then stands for what it should. */
  lemma PartOfIff(part: string, min: int, max: int, values: set<int>)
    requires 0 <= min <= max < 1000
    ensures PartOf(part, min, max) == Ok(values) <==> Reads(part, min, max, values)
  {
    hide Atoi, SplitFirst, Steps, TurnsLeft;
    if PartOf(part, min, max) == Ok(values) && '/' in part {
      var from, stride := SplitAt(part);
      AtoiRange(stride);
      AtoiRange(from);
      var start := if from == "*" then min else Atoi(from).value;
      assert Stepping(start, Atoi(stride).value, max);
    }
    if Reads(part, min, max, values) {
      if Atoi(part).Some? { AtoiPlain(part); }
      if part == "*" {
        assert "*"[0] == '*';
        assert values == Range(min, max);
      } else if !(exists v :: Atoi(part) == Some(v) && min <= v <= max && values == {v}) {
        var from, stride, start, step :| Stepping(start, step, max)
          && part == from + ['/'] + stride && '/' !in from && Atoi(stride) == Some(step)
          && (if from == "*" then start == min else Atoi(from) == Some(start)) && values == Steps(start, step, max);
        SplitFirstOf(from, stride, '/');
      }
    }
  }

  /** The errors of a part: its step first, then its start; its number, then the limits. */
  lemma PartErrs(a: string, b: string, min: int, max: int)
    requires 0 <= min <= max < 1000 && '/' !in a
    ensures (Atoi(b).None? || Atoi(b).value <= 0) ==>
              PartOf(a + ['/'] + b, min, max) == Err(InvalidStep(a + ['/'] + b))
    ensures Atoi(b).Some? && Atoi(b).value > 0 && a != "*" && Atoi(a).None? ==>
              PartOf(a + ['/'] + b, min, max) == Err(InvalidStart(a + ['/'] + b))
    ensures a != "*" && Atoi(a).None? ==> PartOf(a, min, max) == Err(InvalidValue(a))
    ensures Atoi(a).Some? && !(min <= Atoi(a).value <= max) ==> PartOf(a, min, max) == Err(OutOfRange(Atoi(a).value))
  {
    hide Atoi, SplitFirst, Steps, TurnsLeft;
    SplitFirstOf(a, b, '/');
    if Atoi(a).Some? { AtoiPlain(a); }
    AtoiRange(b);
  }

  /** The parts from left to right; the first bad one decides. */
  function PartsOf(parts: seq<string>, min: int, max: int): Parsed
    requires 0 <= min <= max < 1000
  {
    if parts == [] then Ok({})
    else
      var n := |parts| - 1;
      var before := PartsOf(parts[..n], min, max);
      if before.Err? then before
      else
        var last := PartOf(TrimSpace(parts[n]), min, max);
        if last.Err? then last else Ok(before.values + last.values)
  }

  function FieldOf(field: string, min: int, max: int): Parsed
    requires 0 <= min <= max < 1000
  {
    PartsOf(Split(field, ','), min, max)
  }

  lemma {:induction false} FirstErrorDecides(parts: seq<string>, n: nat, min: int, max: int)
    requires 0 <= min <= max < 1000 && n <= |parts| && PartsOf(parts[..n], min, max).Err?
    ensures PartsOf(parts, min, max) == PartsOf(parts[..n], min, max)
  {
    hide PartOf;
    if n < |parts| {
      assert parts[..|parts| - 1][..n] == parts[..n];
      FirstErrorDecides(parts[..|parts| - 1], n, min, max);
    } else {
      assert parts[..n] == parts;
    }
  }

  /** The stepping loop of a `/` part. */
  method AddSteps(result: set<int>, start: int, step: int, max: int) returns (r: set<int>)
    requires Stepping(start, step, max)
    ensures r == result + Steps(start, step, max)
  {
    r := result;
    var i := start;
    while i <= max
      invariant Stepping(i, step, max)
      invariant r + Steps(i, step, max) == result + Steps(start, step, max)
      decreases TurnsLeft(i, step, max)
    {
      TurnTaken(i, step, max);
      r := r + {i};
      i := Wrap(i + step);
    }
  }

  method AddRange(result: set<int>, min: int, max: int) returns (r: set<int>)
    requires min <= max
    ensures r == result + Range(min, max)
  {
    r := result;
    var i := min;
    while i <= max
      invariant min <= i <= max + 1
      invariant r == result + Range(min, i - 1)
    {
      r := r + {i};
      i := i + 1;
    }
  }

  /** One turn of the loop over the parts. */
  method AddPart(result: set<int>, part: string, min: int, max: int) returns (r: Parsed)
    requires 0 <= min <= max < 1000
    ensures var p := PartOf(part, min, max); r == if p.Err? then p else Ok(result + p.values)
  {
    hide Atoi, SplitFirst;
    if '/' in part {
      var (from, stride) := SplitFirst(part, '/');
      var step := Atoi(stride);
      AtoiRange(stride);
      if step.None? || step.value <= 0 { return Err(InvalidStep(part)); }
      var start := min;
      if from != "*" {
        var parsed := Atoi(from);
        AtoiRange(from);
        if parsed.None? { return Err(InvalidStart(part)); }
        start := parsed.value;
      }
      var s := AddSteps(result, start, step.value, max);
      return Ok(s);
    } else if part == "*" {
      var s := AddRange(result, min, max);
      return Ok(s);
    }
    var v := Atoi(part);
    if v.None? { return Err(InvalidValue(part)); }
    if v.value < min || v.value > max { return Err(OutOfRange(v.value)); }
    r := Ok(result + {v.value});
  }

  lemma AtoiRange(s: string)
    ensures Atoi(s).Some? ==> MIN_INT <= Atoi(s).value <= MAX_INT
  {
  }

  method ParseCronField(field: string, min: int, max: int) returns (r: Parsed)
    requires 0 <= min <= max < 1000
    ensures r == FieldOf(field, min, max)
  {
    hide PartOf, Split, TrimSpace;
    var parts := Split(field, ',');
    var result: set<int> := {};
    for i := 0 to |parts|
      invariant PartsOf(parts[..i], min, max) == Ok(result)
    {
      var part := TrimSpace(parts[i]);
      var added := AddPart(result, part, min, max);
      assert parts[..i + 1][..i] == parts[..i];
      if added.Err? {
        FirstErrorDecides(parts, i + 1, min, max);
        return added;
      }
      result := added.values;
    }
    assert parts[..|parts|] == parts;
    r := Ok(result);
  }

  // ---------------------------------------------------------------- what stepping means

  /** `start, start + step, ...` up to `max`. */
  ghost predicate InProgression(x: int, start: int, step: int, max: int)
    requires step > 0
  {
    start <= x <= max && (x - start) % step == 0
  }

  /** No value of the progression overflows when the step is added. */
  ghost predicate Fits(start: int, step: int, max: int)
    requires step > 0
  {
    forall x | InProgression(x, start, step, max) :: x + step <= MAX_INT
  }

  lemma ProgressionStep(x: int, start: int, step: int, max: int)
    requires step > 0
    ensures InProgression(x, start, step, max) <==>
            (x == start && start <= max) || InProgression(x, start + step, step, max)
  {
    var q := (x - start) / step;
    assert x - start == q * step + (x - start) % step;
    Shift(x - start, step);
    if start <= x < start + step && (x - start) % step == 0 {
      Small(x - start, step);
    }
    Zero(step);
  }

  lemma Zero(step: int)
    requires step > 0
    ensures 0 % step == 0
  {
  }

  lemma Small(y: int, step: int)
    requires 0 <= y < step && y % step == 0
    ensures y == 0
  {
  }

  lemma Shift(y: int, step: int)
    requires step > 0
    ensures (y - step) % step == y % step
  {
    var q, r := y / step, y % step;
    var q', r' := (y - step) / step, (y - step) % step;
    assert y == q * step + r && y - step == q' * step + r';
    assert (q - 1 - q') * step == q * step - step - q' * step;
    SmallMultiple(q - 1 - q', step);
  }

  /** Without overflow the loop collects exactly the arithmetic progression. */
  lemma {:induction false} StepsAreProgression(start: int, step: int, max: int)
    requires Stepping(start, step, max) && Fits(start, step, max)
    ensures forall x :: x in Steps(start, step, max) <==> InProgression(x, start, step, max)
    decreases TurnsLeft(start, step, max)
  {
    hide InProgression, TurnsLeft;
    forall x { ProgressionStep(x, start, step, max); }
    if start <= max {
      assert InProgression(start, start, step, max);
      TurnTaken(start, step, max);
      FitsOn(start, step, max);
      StepsAreProgression(start + step, step, max);
    } else {
      Beyond(start, step, max);
    }
  }

  lemma FitsOn(start: int, step: int, max: int)
    requires step > 0 && Fits(start, step, max)
    ensures Fits(start + step, step, max)
  {
    hide InProgression;
    var next := start + step;
    forall x | InProgression(x, next, step, max) ensures x + step <= MAX_INT {
      ProgressionStep(x, start, step, max);
    }
  }

  lemma Beyond(start: int, step: int, max: int)
    requires step > 0 && start > max
    ensures forall x :: !InProgression(x, start, step, max)
  {
  }

  /** From a value of the progression the loop goes on as it would from there. */
  lemma {:induction false} StepsReach(start: int, step: int, max: int, x: int)
    requires Stepping(start, step, max) && InProgression(x, start, step, max)
    ensures Stepping(x, step, max) && Steps(x, step, max) <= Steps(start, step, max)
    decreases TurnsLeft(start, step, max)
  {
    hide InProgression, TurnsLeft;
    InBounds(x, start, step, max);
    ProgressionStep(x, start, step, max);
    if x != start {
      InBounds(x, start + step, step, max);
      TurnTaken(start, step, max);
      StepsReach(start + step, step, max, x);
    }
  }

  lemma InBounds(x: int, start: int, step: int, max: int)
    requires step > 0 && InProgression(x, start, step, max)
    ensures start <= x <= max
  {
  }

  /** Twice the step would leave the 64-bit range. */
  lemma BelowStart(start: int, step: int, max: int, x: int)
    requires Stepping(start, step, max) && InProgression(x, start, step, max) && x + step > MAX_INT
    ensures x + step - TWO_64 < start
  {
    var k := (x - start) / step;
    assert x - start == k * step;
    if k >= 2 { Twice(k, step); }
  }

  /** An overflowing step comes back below where the loop started. */
  lemma WrapsBelow(start: int, step: int, max: int, x: int)
    requires Stepping(start, step, max) && InProgression(x, start, step, max) && x + step > MAX_INT
    ensures x + step - TWO_64 in Steps(start, step, max) && x + step - TWO_64 < start
  {
    hide TurnsLeft, InProgression;
    StepsReach(start, step, max, x);
    BelowStart(start, step, max, x);
    InBounds(x, start, step, max);
    StepsHasNext(x, step, max);
  }

  lemma StepsHasNext(x: int, step: int, max: int)
    requires Stepping(x, step, max) && x <= max && x + step > MAX_INT
    ensures x + step - TWO_64 in Steps(x, step, max)
  {
    hide TurnsLeft;
    TurnTaken(x, step, max);
    assert Wrap(x + step) in Steps(Wrap(x + step), step, max);
  }

  lemma Twice(k: int, w: int)
    requires k >= 2 && w > 0
    ensures k * w >= 2 * w
  {
  }

  /** A `/` part stands for the arithmetic progression exactly when no addition overflows. */
  lemma StepsProgressionIff(start: int, step: int, max: int)
    requires Stepping(start, step, max)
    ensures (forall x :: x in Steps(start, step, max) <==> InProgression(x, start, step, max)) <==>
            Fits(start, step, max)
  {
    hide InProgression, Steps;
    if Fits(start, step, max) {
      StepsAreProgression(start, step, max);
    } else {
      var x :| InProgression(x, start, step, max) && x + step > MAX_INT;
      WrapsBelow(start, step, max, x);
      NotBelow(x + step - TWO_64, start, step, max);
    }
  }

  lemma NotBelow(x: int, start: int, step: int, max: int)
    requires step > 0 && x < start
    ensures !InProgression(x, start, step, max)
  {
  }

  /** Steps short of 2^63 by the size of the field never overflow: every ordinary `/` part stands for its
      arithmetic progression. */
  lemma ModerateStepsAreProgression(start: int, step: int, max: int)
    requires Stepping(start, step, max) && step <= MAX_INT - max
    ensures forall x :: x in Steps(start, step, max) <==> InProgression(x, start, step, max)
  {
    StepsAreProgression(start, step, max);
  }

  // ---------------------------------------------------------------- writing and reading fields

  datatype Term = Star | Every(step: int) | From(start: int, step: int) | Value(v: int)

  predicate WellFormed(t: Term, min: int, max: int) {
    match t
    case Star => true
    case Every(step) => 1 <= step <= MAX_INT
    case From(start, step) => MIN_INT <= start <= MAX_INT && 1 <= step <= MAX_INT
    case Value(v) => min <= v <= max
  }

  function Text(t: Term): string {
    match t
    case Star => "*"
    case Every(step) => "*" + "/" + Itoa(step)
    case From(start, step) => Itoa(start) + "/" + Itoa(step)
    case Value(v) => Itoa(v)
  }

  function Meaning(t: Term, min: int, max: int): set<int>
    requires 0 <= min <= max < 1000 && WellFormed(t, min, max)
  {
    match t
    case Star => Range(min, max)
    case Every(step) => Steps(min, step, max)
    case From(start, step) => Steps(start, step, max)
    case Value(v) => {v}
  }

  predicate Plain(s: string) {
    forall i | 0 <= i < |s| :: IsDigit(s[i]) || s[i] == '-' || s[i] == '*' || s[i] == '/'
  }

  lemma TextPlain(t: Term)
    ensures Text(t) != [] && Plain(Text(t))
  {
    hide Itoa;
    match t {
      case Every(step) => ItoaPlain(step);
      case From(start, step) => ItoaPlain(start); ItoaPlain(step);
      case Value(v) => ItoaPlain(v);
      case Star =>
    }
  }

  lemma PlainIsSolid(s: string)
    requires Plain(s)
    ensures Solid(s) && ',' !in s
  {
  }

  lemma NoSlash(v: int)
    ensures '/' !in Itoa(v) && Itoa(v) != "*"
  {
    ItoaPlain(v);
    assert "*"[0] == '*';
  }

  lemma PartOfText(t: Term, min: int, max: int)
    requires 0 <= min <= max < 1000 && WellFormed(t, min, max)
    ensures PartOf(Text(t), min, max) == Ok(Meaning(t, min, max))
  {
    hide Itoa, Atoi, SplitFirst, Steps;
    match t {
      case Star =>
      case Every(step) => AtoiItoa(step); SplitFirstOf("*", Itoa(step), '/');
      case From(start, step) =>
        AtoiItoa(start); AtoiItoa(step); NoSlash(start);
        SplitFirstOf(Itoa(start), Itoa(step), '/');
      case Value(v) => AtoiItoa(v); NoSlash(v);
    }
  }

  function Texts(ts: seq<Term>): seq<string> { seq(|ts|, i requires 0 <= i < |ts| => Text(ts[i])) }

  function Union(ts: seq<Term>, min: int, max: int): set<int>
    requires 0 <= min <= max < 1000 && forall i | 0 <= i < |ts| :: WellFormed(ts[i], min, max)
  {
    if ts == [] then {} else Union(ts[..|ts| - 1], min, max) + Meaning(ts[|ts| - 1], min, max)
  }

  lemma {:induction false} PartsOfTexts(ts: seq<Term>, min: int, max: int)
    requires 0 <= min <= max < 1000 && forall i | 0 <= i < |ts| :: WellFormed(ts[i], min, max)
    ensures PartsOf(Texts(ts), min, max) == Ok(Union(ts, min, max))
  {
    hide Text, PartOf, Meaning, WellFormed, TrimSpace, Plain, Solid;
    if ts != [] {
      var n := |ts| - 1;
      PartsOfTexts(ts[..n], min, max);
      assert Texts(ts)[..n] == Texts(ts[..n]);
      TextPlain(ts[n]);
      PlainIsSolid(Text(ts[n]));
      TrimSolid(Text(ts[n]));
      PartOfText(ts[n], min, max);
    }
  }

  /** What the `i`-th part of a field comes to. */
  function PartAt(parts: seq<string>, i: nat, min: int, max: int): Parsed
    requires 0 <= min <= max < 1000 && i < |parts|
  {
    PartOf(TrimSpace(parts[i]), min, max)
  }

  ghost predicate AllRead(parts: seq<string>, k: nat, min: int, max: int)
    requires 0 <= min <= max < 1000 && k <= |parts|
  {
    forall i: nat | i < k :: PartAt(parts, i, min, max).Ok?
  }

  ghost predicate InSomePart(parts: seq<string>, x: int, min: int, max: int)
    requires 0 <= min <= max < 1000 && AllRead(parts, |parts|, min, max)
  {
    exists i: nat :: i < |parts| && x in PartAt(parts, i, min, max).values
  }

  lemma {:induction false} AllPartsRead(parts: seq<string>, min: int, max: int)
    requires 0 <= min <= max < 1000 && AllRead(parts, |parts|, min, max)
    ensures PartsOf(parts, min, max).Ok?
    ensures forall x :: x in PartsOf(parts, min, max).values <==> InSomePart(parts, x, min, max)
  {
    hide PartOf, TrimSpace;
    if parts != [] {
      var n := |parts| - 1;
      var init := parts[..n];
      assert forall i: nat | i < n :: PartAt(init, i, min, max) == PartAt(parts, i, min, max);
      AllPartsRead(init, min, max);
      assert PartAt(parts, n, min, max).Ok?;
      forall x ensures InSomePart(parts, x, min, max) <==>
                       InSomePart(init, x, min, max) || x in PartAt(parts, n, min, max).values
      {
        if InSomePart(init, x, min, max) {
          var i: nat :| i < n && x in PartAt(init, i, min, max).values;
          assert x in PartAt(parts, i, min, max).values;
        }
      }
    }
  }

  /** A field whose parts all read stands for all of them together. */
  lemma FieldIs(field: string, min: int, max: int)
    requires 0 <= min <= max < 1000 && AllRead(Split(field, ','), |Split(field, ',')|, min, max)
    ensures FieldOf(field, min, max).Ok?
    ensures forall x :: x in FieldOf(field, min, max).values <==> InSomePart(Split(field, ','), x, min, max)
  {
    hide PartOf, TrimSpace, PartsOf, InSomePart, AllRead, Split;
    AllPartsRead(Split(field, ','), min, max);
  }

  /** Any other field errs as the first of its parts that does. */
  lemma FieldErrs(field: string, k: nat, min: int, max: int)
    requires 0 <= min <= max < 1000 && k < |Split(field, ',')|
    requires AllRead(Split(field, ','), k, min, max) && PartAt(Split(field, ','), k, min, max).Err?
    ensures FieldOf(field, min, max) == PartAt(Split(field, ','), k, min, max)
  {
    hide PartOf, TrimSpace, PartsOf, Split;
    var parts := Split(field, ',');
    assert forall i: nat | i < k :: PartAt(parts[..k], i, min, max) == PartAt(parts, i, min, max);
    AllPartsRead(parts[..k], min, max);
    FirstErr(parts, k, min, max);
  }

  lemma FirstErr(parts: seq<string>, k: nat, min: int, max: int)
    requires 0 <= min <= max < 1000 && k < |parts|
    requires PartsOf(parts[..k], min, max).Ok? && PartAt(parts, k, min, max).Err?
    ensures PartsOf(parts, min, max) == PartAt(parts, k, min, max)
  {
    hide PartOf, TrimSpace;
    assert parts[..k + 1][..k] == parts[..k];
    FirstErrorDecides(parts, k + 1, min, max);
  }

  /** Any list of terms, written out with commas, parses to the union of what the terms stand for. */
  lemma FieldRoundTrip(ts: seq<Term>, min: int, max: int)
    requires 0 <= min <= max < 1000 && ts != [] && forall i | 0 <= i < |ts| :: WellFormed(ts[i], min, max)
    ensures FieldOf(Join(Texts(ts), ','), min, max) == Ok(Union(ts, min, max))
  {
    hide Text, PartOf, Meaning, WellFormed, TrimSpace, Plain, Solid, Split, Join;
    forall i | 0 <= i < |ts| ensures ',' !in Texts(ts)[i] {
      TextPlain(ts[i]);
      PlainIsSolid(Text(ts[i]));
    }
    SplitJoin(Texts(ts), ',');
    PartsOfTexts(ts, min, max);
  }
}
