/** `expandSchedule` from tokenised field elements: the worklist, the wrap-around
    ranges, and the collapse of a full list to `*`. */
module CronExpand {
  import opened Arithmetic
  import opened Basics
  import opened CronSchedule

  datatype Result<T> = Ok(value: T) | SyntaxError

  datatype Field = MinuteField | HourField | DayField | MonthField | DowField

  function FieldMin(f: Field): int {
    if f == DayField || f == MonthField then 1 else 0
  }

  function FieldMax(f: Field): int {
    match f
    case MinuteField => 59
    case HourField => 23
    case DayField => 31
    case MonthField => 12
    case DowField => 6
  }

  function LenMeansAll(f: Field): nat {
    match f
    case MinuteField => 60
    case HourField => 24
    case DayField => 31
    case MonthField => 12
    case DowField => 7
  }

  // ----- tokens -----

  datatype Word = Ell | MonthName(month: nat) | WeekdayName(weekday: nat) | OtherWord

  datatype End = IntEnd(n: nat) | WordEnd(word: Word)

  /** `*`, `7`, `mon`, `a-b/s`, `* /s` (without the blank) and `a/s`. */
  datatype Core =
    | StarItem
    | IntItem(n: int)
    | WordItem(word: Word)
    | RangeItem(low: End, high: End, step: nat)
    | StarStep(step: nat)
    | FromStep(low: End, step: nat)

  /** A list element: a core, or one of `2#3`, `l5` and `15w`. */
  datatype Element =
    | Plain(core: Core)
    | Hash(core: Core, position: nat)
    | LastWeekday(n: int)
    | NearestItem(day: int)

  /** A field as written; `?` reads as `*` but does not contain one. */
  datatype RawField = Question | Items(elements: seq<Element>)

  predicate HasStar(raw: RawField) {
    raw.Items? && exists e :: e in raw.elements && e.Plain? && (e.core.StarItem? || e.core.StarStep?)
  }

  // ----- single elements -----

  /** Only the 7 of the weekday field has an alias. */
  function ValueAlias(value: int, f: Field): int {
    if f == DowField && value == 7 then 0 else value
  }

  function Alphaconv(f: Field, word: Word): Option<Value> {
    match word
    case Ell => if f == DayField then Some(Last) else None
    case MonthName(k) => if f == MonthField then Some(Num(k)) else None
    case WeekdayName(k) => if f == DowField then Some(Num(k)) else None
    case OtherWord => None
  }

  function EndValue(f: Field, e: End): Option<int> {
    match e
    case IntEnd(n) => Some(ValueAlias(n, f))
    case WordEnd(w) =>
      match Alphaconv(f, w)
      case Some(Num(k)) => Some(ValueAlias(k, f))
      case _ => None
  }

  /** A position goes with a number, a word or two names with a dash; anything else before the `#` is not
      read as one. */
  predicate Positional(core: Core) {
    || core.IntItem? || core.WordItem?
    || (core.RangeItem? && core.low.WordEnd? && core.high.WordEnd? && core.step == 1)
  }

  /** The element without its position, with the position checked. */
  function SplitSpecial(f: Field, e: Element): Option<(Core, Option<NthSpec>)> {
    match e
    case Plain(core) => Some((core, None))
    case Hash(core, k) =>
      if f == DowField && Positional(core) && 1 <= k <= 5 then Some((core, Some(Nth(k)))) else None
    case LastWeekday(n) => if f == DowField then Some((IntItem(n), Some(LastOne))) else None
    case NearestItem(_) => None
  }

  predicate IsRange(core: Core) {
    core.RangeItem? || core.StarStep? || core.FromStep?
  }

  datatype Span = Span(low: int, high: int, step: int)

  /** The bounds of a range, or none when croniter would refuse it. */
  function SpanOf(f: Field, core: Core): (span: Option<Span>)
    requires IsRange(core)
    ensures span.Some? ==>
      span.value.step >= 1 && 0 <= span.value.low <= FieldMax(f) && 0 <= span.value.high <= FieldMax(f)
  {
    var low := match core
      case RangeItem(low, _, _) => EndValue(f, low)
      case FromStep(low, _) => EndValue(f, low)
      case StarStep(_) => Some(FieldMin(f));
    var high := if !core.RangeItem? then Some(FieldMax(f))
                else if f == DayField && core.high == WordEnd(Ell) then Some(31)
                else EndValue(f, core.high);
    if low.Some? && high.Some? && core.step > 0 && low.value <= FieldMax(f) && high.value <= FieldMax(f)
    then Some(Span(low.value, high.value, core.step))
    else None
  }

  // ----- ranges -----

  /** Python's `range` with a positive step. */
  function Progression(start: int, stop: int, step: int): seq<int>
    requires step >= 1
    decreases stop - start
  {
    if start >= stop then [] else [start] + Progression(start + step, stop, step)
  }

  lemma {:induction false} ProgressionIs(start: int, stop: int, step: int)
    requires step >= 1
    ensures forall v :: v in Progression(start, stop, step) <==> start <= v < stop && (v - start) % step == 0
    decreases stop - start
  {
    if start >= stop {
    } else {
      var rest := Progression(start + step, stop, step);
      ProgressionIs(start + step, stop, step);
      assert forall v :: v in Progression(start, stop, step) <==> v == start || v in rest;
      forall v ensures (v == start || v in rest) <==> (start <= v < stop && (v - start) % step == 0) {
        StepBack(v - start, step);
      }
    }
  }

  lemma StepBack(x: int, step: int)
    requires step >= 1
    ensures x % step == 0 <==> (x - step) % step == 0
    ensures 0 <= x < step ==> (x % step == 0 <==> x == 0)
  {
    ModStep(x - step, step);
    if 0 <= x < step { ModOf(x, 0, x, step); }
  }

  method PyRange(start: int, stop: int, step: int) returns (out: seq<int>)
    requires step >= 1
    ensures out == Progression(start, stop, step)
  {
    out := [];
    var value := start;
    while value < stop
      invariant out + Progression(value, stop, step) == Progression(start, stop, step)
      decreases stop - value
    {
      out := out + [value];
      value := value + step;
    }
  }

  // ----- wrap-around -----

  /** croniter's correction after the end of the field: 0, or what is missing from the
      last step plus one too many. `left` is the distance of the last value from the end. */
  function ToSkip(left: int, step: int): int {
    if step > left + 1 then step - left else 0
  }

  /** The values of a range, in the source's order. */
  function RangeValues(f: Field, span: Span): seq<int>
    requires span.step >= 1
  {
    var lo, hi := FieldMin(f), FieldMax(f);
    if span.low > span.high then
      var left := (hi - span.low) % span.step;
      Progression(span.low, hi + 1, span.step) + Progression(lo + ToSkip(left, span.step), span.high + 1, span.step)
    else if span.low == span.high then Progression(lo, hi + 1, span.step)
    else Progression(span.low, span.high + 1, span.step)
  }

  lemma {:induction false} LastOfProgression(start: int, stop: int, step: int)
    requires step >= 1 && start < stop
    ensures var p := Progression(start, stop, step); p != [] && p[|p| - 1] == stop - 1 - (stop - 1 - start) % step
    decreases stop - start
  {
    var span := stop - 1 - start;
    if span < step {
      assert Progression(start, stop, step) == [start];
      ModOf(span, 0, span, step);
    } else {
      var rest := Progression(start + step, stop, step);
      LastOfProgression(start + step, stop, step);
      OneStrideLess(span, step);
      assert ([start] + rest)[|rest|] == rest[|rest| - 1];
    }
  }

  lemma OneStrideLess(x: int, step: int)
    requires step >= 1
    ensures (x - step) % step == x % step
  {
    ModStep(x - step, step);
  }

  method ExpandRange(f: Field, span: Span) returns (values: seq<int>)
    requires span.step >= 1 && 0 <= span.low <= FieldMax(f) && 0 <= span.high <= FieldMax(f)
    ensures values == RangeValues(f, span)
  {
    var lo, hi := FieldMin(f), FieldMax(f);
    if span.low > span.high {
      values := PyRange(span.low, hi + 1, span.step);
      var toSkip := 0;
      LastOfProgression(span.low, hi + 1, span.step);
      if |values| > 0 {
        // `whole` lists lo..hi, so its two `indexOf` searches are differences.
        var lastValue := values[|values| - 1];
        var alreadySkipped := hi - lastValue;
        var position := lastValue - lo;
        if position + span.step > hi + 1 - lo && alreadySkipped < span.step {
          toSkip := span.step - alreadySkipped;
        }
      }
      var rest := PyRange(lo + toSkip, span.high + 1, span.step);
      values := values + rest;
    } else if span.low == span.high {
      values := PyRange(lo, hi + 1, span.step);
    } else {
      values := PyRange(span.low, span.high + 1, span.step);
    }
  }

  /** `v` is reached from `low` by whole strides round a field from `lo` to `hi`, without
      passing `high`. */
  predicate OnCyclicStride(f: Field, span: Span, v: int)
    requires span.step >= 1
  {
    var lo, hi := FieldMin(f), FieldMax(f);
    || (span.low <= v <= hi && (v - span.low) % span.step == 0)
    || (lo <= v <= span.high && (v + (hi + 1 - lo) - span.low) % span.step == 0)
  }

  /** Where the second lap would start if the stride went on. */
  function SecondLap(f: Field, span: Span): int
    requires span.step >= 1
  {
    FieldMin(f) + span.step - 1 - (FieldMax(f) - span.low) % span.step
  }

  /** What a wrap-around range contains, as the source computes it. */
  lemma WrapValues(f: Field, span: Span)
    requires span.step >= 1 && span.high < span.low
    ensures var start := FieldMin(f) + ToSkip((FieldMax(f) - span.low) % span.step, span.step);
            forall v :: v in RangeValues(f, span) <==>
              (|| (span.low <= v <= FieldMax(f) && (v - span.low) % span.step == 0)
               || (start <= v <= span.high && (v - start) % span.step == 0))
  {
    var start := FieldMin(f) + ToSkip((FieldMax(f) - span.low) % span.step, span.step);
    ProgressionIs(span.low, FieldMax(f) + 1, span.step);
    ProgressionIs(start, span.high + 1, span.step);
  }

  /** A wrap-around range goes on with its stride exactly when the stride happens to end
      with the field, or the second lap is empty anyway. */
  lemma WrapAround(f: Field, span: Span)
    requires span.step >= 1 && FieldMin(f) <= span.low <= FieldMax(f) && span.high < span.low
    ensures (forall v :: v in RangeValues(f, span) <==> OnCyclicStride(f, span, v))
       <==> (FieldMax(f) + 1 - span.low) % span.step == 0 || span.high < SecondLap(f, span)
  {
    hide RangeValues;
    var lo, step := FieldMin(f), span.step;
    var skip, lap := ToSkip((FieldMax(f) - span.low) % step, step), SecondLap(f, span);
    WrapValues(f, span);
    StrideEndsWithField(f, span);
    if skip != 0 && lap <= span.high {
      SecondLapMember(f, span, lap);
      ModOf(0, 0, 0, step);
      assert OnCyclicStride(f, span, lap) && lap !in RangeValues(f, span);
    } else {
      forall v ensures v in RangeValues(f, span) <==> OnCyclicStride(f, span, v) {
        if lo <= v { SecondLapMember(f, span, v); }
      }
    }
  }

  /** With step 1 the range is the cyclic interval from `low` to `high`. */
  lemma WrapAroundByOne(f: Field, span: Span)
    requires span.step == 1 && FieldMin(f) <= span.low <= FieldMax(f) && span.high < span.low
    ensures forall v :: v in RangeValues(f, span) <==> span.low <= v <= FieldMax(f) || FieldMin(f) <= v <= span.high
  {
    hide RangeValues;
    WrapValues(f, span);
  }

  lemma StrideEndsWithField(f: Field, span: Span)
    requires span.step >= 1 && span.low <= FieldMax(f)
    ensures (FieldMax(f) + 1 - span.low) % span.step == 0
        <==> ToSkip((FieldMax(f) - span.low) % span.step, span.step) == 0
  {
    var x, step := FieldMax(f) - span.low, span.step;
    var left := x % step;
    DivLaw(x, step);
    if left + 1 == step {
      Distribute(step, x / step + 1, 1);
      ModOf(x + 1, x / step + 1, 0, step);
    } else {
      ModOf(x + 1, x / step, left + 1, step);
    }
  }

  lemma SecondLapMember(f: Field, span: Span, v: int)
    requires span.step >= 1 && span.low <= FieldMax(f) && FieldMin(f) <= v
    ensures var lap := SecondLap(f, span);
            (v + (FieldMax(f) + 1 - FieldMin(f)) - span.low) % span.step == 0
            <==> lap <= v && (v - lap) % span.step == 0
  {
    var x, step, lap := FieldMax(f) - span.low, span.step, SecondLap(f, span);
    DivLaw(x, step);
    Distribute(step, x / step + 1, 1);
    ModMany(v - lap, x / step + 1, step);
    assert v + (FieldMax(f) + 1 - FieldMin(f)) - span.low == v - lap + step * (x / step + 1);
    if v < lap { ModOf(v - lap, -1, v - lap + step, step); }
  }

  // ----- what an element stands for -----

  predicate Expands(f: Field, e: Element) {
    var split := SplitSpecial(f, e);
    split.Some? && IsRange(split.value.0)
  }

  predicate InField(f: Field, v: int) {
    FieldMin(f) <= v <= FieldMax(f)
  }

  /** The value of an element that is not a range, or none when it is refused. */
  function PlainValue(f: Field, core: Core): (v: Option<Value>)
    requires !IsRange(core)
    ensures v.Some? && v.value.Num? ==> InField(f, v.value.n)
    ensures v.Some? && v.value.Last? ==> f == DayField
  {
    var value: Option<Value> := match core
      case StarItem => Some(Star)
      case IntItem(n) => Some(Num(n))
      case WordItem(w) => Alphaconv(f, w);
    match value
    case Some(Num(n)) => if InField(f, ValueAlias(n, f)) then Some(Num(ValueAlias(n, f))) else None
    case _ => value
  }

  function RangeOf(f: Field, e: Element): (r: Option<seq<int>>)
    requires Expands(f, e)
  {
    var span := SpanOf(f, SplitSpecial(f, e).value.0);
    if span.Some? then Some(RangeValues(f, span.value)) else None
  }

  /** The element an expanded range puts back on the worklist for value `v`. */
  function ItemOf(f: Field, e: Element, v: int): Element {
    if e.Hash? && f == DowField then Hash(IntItem(v), e.position) else Plain(IntItem(v))
  }

  predicate Acceptable(f: Field, e: Element) {
    if e.NearestItem? then f == DayField && 1 <= e.day <= 31
    else if SplitSpecial(f, e) == None then false
    else if Expands(f, e) then RangeOf(f, e).Some? && forall v :: v in RangeOf(f, e).value ==> InField(f, v)
    else PlainValue(f, SplitSpecial(f, e).value.0).Some?
  }

  /** What an expansion can say: a value is in the list, a weekday has a position, the
      day nearest to `day` is allowed. */
  datatype Fact = InList(v: Value) | AtPosition(weekday: int, spec: NthSpec) | NearestTo(day: int)

  predicate StandsFor(f: Field, e: Element, v: Value)
    requires Acceptable(f, e)
  {
    if e.NearestItem? then v == Num(e.day)
    else if Expands(f, e) then v.Num? && v.n in RangeOf(f, e).value
    else v == PlainValue(f, SplitSpecial(f, e).value.0).value
  }

  predicate Denotes(f: Field, e: Element, fact: Fact)
    requires Acceptable(f, e)
  {
    match fact
    case InList(v) => StandsFor(f, e, v)
    case AtPosition(w, spec) => !e.NearestItem? && SplitSpecial(f, e).value.1 == Some(spec) && StandsFor(f, e, Num(w))
    case NearestTo(t) => e == NearestItem(t)
  }

  /** Every element can be read, and `W` stands alone. */
  predicate Readable(f: Field, elements: seq<Element>) {
    && (forall e :: e in elements ==> Acceptable(f, e))
    && ((exists e :: e in elements && e.NearestItem?) ==> |elements| == 1)
  }

  datatype Expansion = Expansion(values: seq<Value>, nth: map<int, set<NthSpec>>, nearest: set<int>)

  function PutNth(nth: map<int, set<NthSpec>>, weekday: int, spec: NthSpec): map<int, set<NthSpec>> {
    nth[weekday := (if weekday in nth then nth[weekday] else {}) + {spec}]
  }

  predicate Holds(x: Expansion, fact: Fact) {
    match fact
    case InList(v) => v in x.values
    case AtPosition(w, spec) => w in x.nth && spec in x.nth[w]
    case NearestTo(t) => t in x.nearest
  }

  ghost predicate Said(f: Field, elements: set<Element>, fact: Fact)
    requires forall e :: e in elements ==> Acceptable(f, e)
  {
    exists e :: e in elements && Denotes(f, e, fact)
  }

  /** The expansion is the union of what the elements stand for. */
  ghost predicate IsUnion(f: Field, elements: set<Element>, x: Expansion)
    requires forall e :: e in elements ==> Acceptable(f, e)
  {
    && (forall fact :: Holds(x, fact) <==> Said(f, elements, fact))
    && (forall w :: w in x.nth ==> x.nth[w] != {})
  }

  /** An item of a range is a plain element that stands for its one value. */
  lemma ItemIsPlain(f: Field, e: Element, v: int)
    requires Acceptable(f, e) && Expands(f, e) && v in RangeOf(f, e).value
    ensures var item := ItemOf(f, e, v);
            && !Expands(f, item) && !item.NearestItem? && Acceptable(f, item)
            && (forall fact :: Denotes(f, item, fact) ==> Denotes(f, e, fact))
            && (forall spec :: SplitSpecial(f, e).value.1 == Some(spec) ==> Denotes(f, item, AtPosition(v, spec)))
            && Denotes(f, item, InList(Num(v)))
  {}

  /** The value whose item carries a fact of a range. */
  function ValueIn(fact: Fact): int {
    match fact
    case InList(Num(n)) => n
    case AtPosition(w, _) => w
    case _ => 0
  }

  lemma RangeFact(f: Field, e: Element, fact: Fact)
    requires Acceptable(f, e) && Expands(f, e) && Denotes(f, e, fact)
    ensures ValueIn(fact) in RangeOf(f, e).value
    ensures var item := ItemOf(f, e, ValueIn(fact)); Acceptable(f, item) && Denotes(f, item, fact)
  {
    ItemIsPlain(f, e, ValueIn(fact));
  }

  // ----- the worklist -----

  function RangeCount(f: Field, pending: seq<Element>): nat {
    if pending == [] then 0
    else RangeCount(f, pending[..|pending| - 1]) + (if Expands(f, pending[|pending| - 1]) then 1 else 0)
  }

  lemma {:induction false} PlainItemsCountNothing(f: Field, pending: seq<Element>, items: seq<Element>)
    requires forall e :: e in items ==> !Expands(f, e)
    ensures RangeCount(f, pending + items) == RangeCount(f, pending)
    decreases |items|
  {
    if items != [] {
      var all := pending + items;
      assert all[..|all| - 1] == pending + items[..|items| - 1];
      PlainItemsCountNothing(f, pending, items[..|items| - 1]);
    } else {
      assert pending + items == pending;
    }
  }

  /** Pushes the items not seen before, then marks them all as seen. */
  method PushItems(items: seq<Element>, seen: set<Element>) returns (extra: seq<Element>, seen': set<Element>)
    ensures seen' == seen + set e | e in items
    ensures forall e :: e in extra <==> e in items && e !in seen
  {
    extra := [];
    seen' := seen;
    for i := 0 to |items|
      invariant forall e :: e in extra <==> e in items[..i] && e !in seen
    {
      if items[i] !in seen { extra := extra + [items[i]]; }
    }
    for i := 0 to |items|
      invariant seen' == seen + set e | e in items[..i]
    {
      seen' := seen' + {items[i]};
    }
  }

  /** The check made when an element is popped: a range is opened, anything else is read. */
  predicate Popped(f: Field, e: Element) {
    if Expands(f, e) then RangeOf(f, e).Some? else Acceptable(f, e)
  }

  /** Ghost view of the worklist: `elements[..k] + extra` is pending, `processed` was popped. */
  ghost predicate Progress(f: Field, elements: seq<Element>, k: nat, extra: seq<Element>,
                           processed: set<Element>, seen: set<Element>, x: Expansion)
  {
    && k <= |elements|
    && (forall j :: k <= j < |elements| ==> elements[j] in processed)
    && (forall e :: e in processed ==> Popped(f, e) && (e in elements || FromRange(f, elements, e)))
    && (forall e :: e in extra ==> FromRange(f, elements, e))
    && (forall e, v, item :: e in processed && IsItem(f, e, v, item) ==> item in seen)
    && (forall e :: e in seen ==> e in extra || e in processed)
    && IsUnion(f, PlainOnes(f, processed), x)
    && (|elements| != 1 ==> forall e :: e in processed ==> !e.NearestItem?)
    && (if k == |elements| then extra == [] && x.values == [] else extra != [] || x.values != [])
    && (seen == {} || extra != [] || x.values != [])
  }

  ghost function PlainOnes(f: Field, processed: set<Element>): set<Element> {
    set e | e in processed && !Expands(f, e)
  }

  /** A range of the field put `item` on the worklist. */
  ghost predicate FromRange(f: Field, elements: seq<Element>, item: Element) {
    exists e, v :: e in elements && IsItem(f, e, v, item)
  }

  predicate IsItem(f: Field, e: Element, v: int, item: Element) {
    Expands(f, e) && RangeOf(f, e).Some? && v in RangeOf(f, e).value && item == ItemOf(f, e, v)
  }

  ghost predicate HasItem(f: Field, e: Element, item: Element) {
    exists v :: IsItem(f, e, v, item)
  }

  lemma ItemsArePlain(f: Field, elements: seq<Element>, item: Element)
    requires FromRange(f, elements, item)
    ensures !Expands(f, item) && !item.NearestItem?
    ensures !Acceptable(f, item) ==> !Readable(f, elements)
  {
    var e, v :| e in elements && IsItem(f, e, v, item);
    if Acceptable(f, e) { ItemIsPlain(f, e, v); }
  }

  /** One more plain element: its value joins the list, its position the map. */
  lemma UnionGrows(f: Field, plain: set<Element>, e: Element, x: Expansion, x': Expansion)
    requires forall p :: p in plain ==> Acceptable(f, p)
    requires IsUnion(f, plain, x) && Acceptable(f, e) && !Expands(f, e)
    requires if e.NearestItem? then x' == x.(values := x.values + [Num(e.day)], nearest := x.nearest + {e.day})
             else var split := SplitSpecial(f, e).value; var v := PlainValue(f, split.0).value;
               x' == x.(values := x.values + [v],
                        nth := if split.1.Some? && v.Num? then PutNth(x.nth, v.n, split.1.value) else x.nth)
    ensures IsUnion(f, plain + {e}, x')
  {
    hide SplitSpecial, PlainValue, Acceptable, Expands;
    forall fact ensures Holds(x', fact) <==> Said(f, plain + {e}, fact) {
      assert Holds(x', fact) <==> Holds(x, fact) || Denotes(f, e, fact);
      if p :| p in plain && Denotes(f, p, fact) { assert p in plain + {e}; }
      if Denotes(f, e, fact) { assert e in plain + {e}; }
    }
  }

  /** Once nothing is pending, the union over the popped plain elements is the union over
      the field: a range and its items stand for the same values. */
  lemma ProgressDone(f: Field, elements: seq<Element>, processed: set<Element>, seen: set<Element>, x: Expansion)
    requires Progress(f, elements, 0, [], processed, seen, x)
    ensures Readable(f, elements) && IsUnion(f, (set e | e in elements), x)
  {
    hide SplitSpecial, PlainValue, RangeOf, ItemOf;
    var all, plain := (set e | e in elements), PlainOnes(f, processed);
    forall e | e in elements ensures e in processed && Acceptable(f, e) {
      var j :| 0 <= j < |elements| && elements[j] == e;
      OpenedIsAcceptable(f, elements, processed, seen, x, e);
    }
    forall fact ensures Said(f, all, fact) <==> Said(f, plain, fact) {
      if e :| e in all && Denotes(f, e, fact) {
        if Expands(f, e) {
          RangeFact(f, e, fact);
          var item := ItemOf(f, e, ValueIn(fact));
          ItemIsPlain(f, e, ValueIn(fact));
          assert IsItem(f, e, ValueIn(fact), item);
          assert item in plain;
        }
      }
      if e :| e in plain && Denotes(f, e, fact) {
        if e !in elements {
          var r, v :| r in elements && IsItem(f, r, v, e);
          ItemIsPlain(f, r, v);
          assert r in all && Denotes(f, r, fact);
        }
      }
    }
  }

  lemma OpenedIsAcceptable(f: Field, elements: seq<Element>, processed: set<Element>, seen: set<Element>,
                           x: Expansion, e: Element)
    requires Progress(f, elements, 0, [], processed, seen, x) && e in processed
    ensures Acceptable(f, e)
  {
    hide RangeOf;
    if Expands(f, e) {
      RangeBounds(f, e);
      forall v | v in RangeOf(f, e).value ensures InField(f, v) {
        assert IsItem(f, e, v, ItemOf(f, e, v));
        assert Popped(f, ItemOf(f, e, v));
      }
    }
  }

  method ItemsOf(f: Field, e: Element, values: seq<int>) returns (items: seq<Element>)
    requires Expands(f, e) && RangeOf(f, e) == Some(values)
    ensures |items| == |values| && forall item :: item in items <==> HasItem(f, e, item)
  {
    hide RangeOf, ItemOf, Expands;
    items := seq(|values|, i requires 0 <= i < |values| => ItemOf(f, e, values[i]));
    forall v | v in values ensures ItemOf(f, e, v) in items {
      var i :| 0 <= i < |values| && values[i] == v;
      assert items[i] == ItemOf(f, e, v);
    }
    forall item | item in items ensures HasItem(f, e, item) {
      var i :| 0 <= i < |items| && items[i] == item;
      assert IsItem(f, e, values[i], item);
    }
  }

  lemma RangeBounds(f: Field, e: Element)
    requires Expands(f, e) && RangeOf(f, e).Some?
    ensures RangeOf(f, e).value != [] && forall v :: v in RangeOf(f, e).value ==> v <= FieldMax(f)
  {
    hide Progression;
    var span := SpanOf(f, SplitSpecial(f, e).value.0).value;
    var lo, hi := FieldMin(f), FieldMax(f);
    if span.low > span.high {
      WrapValues(f, span);
      LastOfProgression(span.low, hi + 1, span.step);
    } else if span.low == span.high {
      ProgressionIs(lo, hi + 1, span.step);
      LastOfProgression(lo, hi + 1, span.step);
    } else {
      ProgressionIs(span.low, span.high + 1, span.step);
      LastOfProgression(span.low, span.high + 1, span.step);
    }
  }

  lemma PopStep(f: Field, elements: seq<Element>, k: nat, extra: seq<Element>, pending: seq<Element>)
    requires k <= |elements| && pending == elements[..k] + extra && pending != []
    ensures var e, rest := pending[|pending| - 1], pending[..|pending| - 1];
            RangeCount(f, pending) == RangeCount(f, rest) + (if Expands(f, e) then 1 else 0)
    ensures var e, rest := pending[|pending| - 1], pending[..|pending| - 1];
            if extra != [] then rest == elements[..k] + extra[..|extra| - 1] && e == extra[|extra| - 1]
            else k > 0 && rest == elements[..k - 1] + [] && e == elements[k - 1]
  {}

  /** A plain element was popped and read. */
  lemma ProgressPlain(f: Field, elements: seq<Element>, k: nat, extra: seq<Element>, processed: set<Element>,
                      seen: set<Element>, x: Expansion, e: Element, x': Expansion)
    requires Progress(f, elements, k, extra, processed, seen, x)
    requires if extra != [] then e == extra[|extra| - 1] else k > 0 && e == elements[k - 1]
    requires !Expands(f, e) && Acceptable(f, e) && (e.NearestItem? ==> |elements| == 1)
    requires IsUnion(f, PlainOnes(f, processed) + {e}, x') && x'.values != []
    ensures Progress(f, elements, if extra != [] then k else k - 1, if extra != [] then extra[..|extra| - 1] else [],
                     processed + {e}, seen, x')
  {
    hide Acceptable, Expands, IsUnion, RangeOf;
    assert PlainOnes(f, processed + {e}) == PlainOnes(f, processed) + {e};
    if extra != [] { assert e in extra; }
  }

  /** A range was popped, opened, and its new items pushed. */
  lemma ProgressRange(f: Field, elements: seq<Element>, k: nat, processed: set<Element>, seen: set<Element>,
                      x: Expansion, pushed: seq<Element>, seen': set<Element>)
    requires Progress(f, elements, k, [], processed, seen, x)
    requires k > 0 && Opened(f, elements[k - 1], seen, pushed, seen')
    ensures Progress(f, elements, k - 1, pushed, processed + {elements[k - 1]}, seen', x)
  {
    hide Acceptable, Expands, IsUnion, RangeOf, IsItem;
    var e := elements[k - 1];
    assert PlainOnes(f, processed + {e}) == PlainOnes(f, processed);
    forall item | item in pushed ensures FromRange(f, elements, item) {
      var v :| IsItem(f, e, v, item);
    }
    var some :| HasItem(f, e, some);
    assert some in pushed || some in seen;
    SplitOfNearest(f, e);
  }

  /** `e` is a range that can be opened; its items are all seen now, the new ones pushed. */
  ghost predicate Opened(f: Field, e: Element, seen: set<Element>, pushed: seq<Element>, seen': set<Element>) {
    && Expands(f, e) && RangeOf(f, e).Some?
    && (exists item :: HasItem(f, e, item))
    && (forall item :: item in seen' <==> item in seen || HasItem(f, e, item))
    && (forall item :: item in pushed <==> item !in seen && HasItem(f, e, item))
  }

  method OpenRange(f: Field, e: Element, core: Core, seen: set<Element>)
    returns (r: Option<seq<Element>>, seen': set<Element>)
    requires Expands(f, e) && SplitSpecial(f, e).value.0 == core
    ensures r == None <==> RangeOf(f, e) == None
    ensures r.Some? ==> Opened(f, e, seen, r.value, seen') && forall item :: item in r.value ==> !Expands(f, item)
  {
    hide SplitSpecial, ItemOf, SpanOf, RangeValues;
    var span := SpanOf(f, core);
    if span == None { return None, seen; }
    var values := ExpandRange(f, span.value);
    var items := ItemsOf(f, e, values);
    RangeBounds(f, e);
    RangeItemsArePlain(f, e);
    assert HasItem(f, e, items[0]);
    var pushed;
    pushed, seen' := PushItems(items, seen);
    r := Some(pushed);
  }

  lemma SplitOfNearest(f: Field, e: Element)
    ensures e.NearestItem? ==> !Expands(f, e)
  {}

  lemma NotReadable(f: Field, elements: seq<Element>, e: Element)
    requires e in elements
    ensures !Acceptable(f, e) || (e.NearestItem? && |elements| > 1) ==> !Readable(f, elements)
  {}

  lemma RangeItemsArePlain(f: Field, e: Element)
    ensures forall item :: HasItem(f, e, item) ==> !Expands(f, item)
  {}

  method ExpandElements(f: Field, elements: seq<Element>) returns (r: Result<Expansion>)
    requires elements != []
    ensures r.Ok? <==> Readable(f, elements)
    ensures r.Ok? ==> IsUnion(f, (set e | e in elements), r.value) && r.value.values != []
  {
    hide SplitSpecial, PlainValue, ItemOf, IsUnion, SpanOf, FromRange, Said, RangeOf, HasItem, RangeCount, Opened;
    var pending, x := elements, Expansion([], map[], {});
    var seen: set<Element> := {};
    ghost var k: nat, extra, processed: set<Element> := |elements|, [], {};
    NothingYet(f, elements);
    while pending != []
      invariant k <= |elements| && pending == elements[..k] + extra
      invariant Progress(f, elements, k, extra, processed, seen, x)
      decreases RangeCount(f, pending), |pending|
    {
      PopStep(f, elements, k, extra, pending);
      var element := pending[|pending| - 1];
      pending := pending[..|pending| - 1];
      if extra != [] { ItemsArePlain(f, elements, element); } else { NotReadable(f, elements, element); }
      if element.NearestItem? {
        if f != DayField || element.day < 1 || element.day > 31 || pending != [] || x.values != [] {
          return SyntaxError;
        }
        ghost var before := x;
        x := x.(values := x.values + [Num(element.day)], nearest := x.nearest + {element.day});
        SplitOfNearest(f, element);
        UnionGrows(f, PlainOnes(f, processed), element, before, x);
        ProgressPlain(f, elements, k, extra, processed, seen, before, element, x);
        k := k - 1;
      } else {
        var split := SplitSpecial(f, element);
        if split == None { return SyntaxError; }
        var (core, nthSpec) := split.value;
        if IsRange(core) {
          var pushed, seen' := OpenRange(f, element, core, seen);
          if pushed == None { return SyntaxError; }
          ProgressRange(f, elements, k, processed, seen, x, pushed.value, seen');
          PlainItemsCountNothing(f, pending, pushed.value);
          k, extra := k - 1, pushed.value;
          pending, seen := pending + pushed.value, seen';
        } else {
          var value := PlainValue(f, core);
          if value == None { return SyntaxError; }
          ghost var before := x;
          x := x.(values := x.values + [value.value],
                  nth := if nthSpec.Some? && value.value.Num? then PutNth(x.nth, value.value.n, nthSpec.value)
                         else x.nth);
          UnionGrows(f, PlainOnes(f, processed), element, before, x);
          ProgressPlain(f, elements, k, extra, processed, seen, before, element, x);
          if extra != [] { extra := extra[..|extra| - 1]; } else { k := k - 1; }
        }
      }
      processed := processed + {element};
    }
    ProgressDone(f, elements, processed, seen, x);
    r := Ok(x);
  }

  lemma NothingYet(f: Field, elements: seq<Element>)
    requires elements != []
    ensures Progress(f, elements, |elements|, [], {}, {}, Expansion([], map[], {}))
  {}

  // ----- the list of a field -----

  predicate Sortable(v: Value) {
    v.Num? ==> 0 <= v.n < 100
  }

  function Insert(values: seq<Value>, v: Value): (r: seq<Value>)
    requires Sorted(values) && Sortable(v) && forall x :: x in values ==> Sortable(x)
    ensures Sorted(r) && forall x :: x in r <==> x in values || x == v
  {
    if values == [] || SortKey(v) < SortKey(values[0]) then [v] + values
    else if v == values[0] then values
    else
      var rest := Insert(values[1..], v);
      InsertBehind(values, v, rest);
      [values[0]] + rest
  }

  lemma InsertBehind(values: seq<Value>, v: Value, rest: seq<Value>)
    requires values != [] && Sorted(values) && Sortable(v) && Sortable(values[0])
    requires SortKey(values[0]) <= SortKey(v) && v != values[0]
    requires Sorted(rest) && forall x :: x in rest <==> x in values[1..] || x == v
    ensures Sorted([values[0]] + rest) && forall x :: x in [values[0]] + rest <==> x in values || x == v
  {
    forall i | 0 <= i < |rest| ensures SortKey(values[0]) < SortKey(rest[i]) {
      assert rest[i] in rest;
      if rest[i] != v {
        var j :| 0 <= j < |values[1..]| && values[1..][j] == rest[i];
      }
    }
    assert forall x :: x in values <==> x == values[0] || x in values[1..];
  }

  /** One entry per sort key, in the order of the keys. */
  function SortUnique(values: seq<Value>): (r: seq<Value>)
    requires forall x :: x in values ==> Sortable(x)
    ensures Sorted(r) && forall x :: x in r <==> x in values
  {
    if values == [] then []
    else
      var last := values[|values| - 1];
      assert forall x :: x in values <==> x in values[..|values| - 1] || x == last;
      Insert(SortUnique(values[..|values| - 1]), last)
  }

  /** A list as long as the field becomes `*`, unless the other day field decides. */
  function Collapse(f: Field, listed: seq<Value>, keepList: bool): seq<Value> {
    if |listed| == LenMeansAll(f) && !keepList then [Star] else listed
  }

  function ElementsOf(raw: RawField): seq<Element> {
    match raw case Question => [Plain(StarItem)] case Items(elements) => elements
  }

  predicate FieldReadable(f: Field, raw: RawField) {
    (raw.Question? ==> f == DayField || f == DowField) && Readable(f, ElementsOf(raw))
  }

  datatype FieldExpansion = FieldExpansion(listed: seq<Value>, values: seq<Value>, nth: map<int, set<NthSpec>>,
                                           nearest: set<int>)

  /** `listed` is the sorted union of what the elements stand for, `values` what is left of
      it after the collapse; positions and nearest days come from the elements too. */
  ghost predicate IsExpansion(f: Field, raw: RawField, keepList: bool, x: FieldExpansion)
    requires Readable(f, ElementsOf(raw))
  {
    && IsUnion(f, (set e | e in ElementsOf(raw)), Expansion(x.listed, x.nth, x.nearest))
    && x.listed != [] && Sorted(x.listed)
    && x.values == Collapse(f, x.listed, keepList)
  }

  /** What the elements of a field stand for lies within the bounds of the field. */
  lemma UnionInBounds(f: Field, elements: seq<Element>, x: Expansion)
    requires Readable(f, elements) && IsUnion(f, (set e | e in elements), x)
    ensures InBounds(x.values, FieldMin(f), FieldMax(f)) && (f != DayField ==> Last !in x.values)
    ensures f != DayField ==> x.nearest == {}
    ensures f != DowField ==> x.nth == map[]
    ensures forall t :: t in x.nearest ==> 1 <= t <= 31
    ensures forall w :: w in x.nth ==> 0 <= w <= 6 && x.nth[w] != {} && forall spec :: spec in x.nth[w] ==> SpecOk(spec)
  {
    hide PlainValue, RangeOf;
    var all := set e | e in elements;
    forall v | v in x.values ensures v.Num? ==> InField(f, v.n) {
      assert Holds(x, InList(v));
      var e :| e in all && Denotes(f, e, InList(v));
    }
    forall v | v in x.values ensures v.Last? ==> f == DayField {
      assert Holds(x, InList(v));
      var e :| e in all && Denotes(f, e, InList(v));
    }
    forall t | t in x.nearest ensures f == DayField && 1 <= t <= 31 {
      assert Holds(x, NearestTo(t));
      var e :| e in all && Denotes(f, e, NearestTo(t));
    }
    forall w | w in x.nth
      ensures f == DowField && 0 <= w <= 6 && x.nth[w] != {} && forall spec :: spec in x.nth[w] ==> SpecOk(spec)
    {
      forall spec | spec in x.nth[w] ensures f == DowField && 0 <= w <= 6 && SpecOk(spec) {
        assert Holds(x, AtPosition(w, spec));
        var e :| e in all && Denotes(f, e, AtPosition(w, spec));
      }
      var spec :| spec in x.nth[w];
    }
  }

  method ExpandField(f: Field, raw: RawField, keepList: bool) returns (r: Result<FieldExpansion>)
    requires ElementsOf(raw) != []
    ensures r.Ok? <==> FieldReadable(f, raw)
    ensures r.Ok? ==> IsExpansion(f, raw, keepList, r.value)
  {
    hide IsUnion, Acceptable;
    if raw.Question? && f != DayField && f != DowField { return SyntaxError; }
    var expanded := ExpandElements(f, ElementsOf(raw));
    if expanded.SyntaxError? { return SyntaxError; }
    var x := expanded.value;
    UnionInBounds(f, ElementsOf(raw), x);
    assert forall v :: v in x.values ==> Sortable(v);
    var listed := SortUnique(x.values);
    SameMembersSameUnion(f, (set e | e in ElementsOf(raw)), x, listed);
    assert listed != [] by { assert x.values[0] in listed; }
    r := Ok(FieldExpansion(listed, Collapse(f, listed, keepList), x.nth, x.nearest));
  }

  lemma SameMembersSameUnion(f: Field, elements: set<Element>, x: Expansion, listed: seq<Value>)
    requires forall e :: e in elements ==> Acceptable(f, e)
    requires IsUnion(f, elements, x) && forall v :: v in listed <==> v in x.values
    ensures IsUnion(f, elements, x.(values := listed))
  {
    forall fact ensures Holds(x.(values := listed), fact) <==> Holds(x, fact) {}
  }

  // ----- the collapse and what it means -----

  lemma {:induction false} FullList(values: seq<Value>, lo: int, hi: int)
    requires Sorted(values) && |values| == hi - lo + 1
    requires forall v :: v in values ==> v.Num? && lo <= v.n <= hi
    ensures forall i :: 0 <= i < |values| ==> values[i] == Num(lo + i)
    decreases |values|
  {
    if values == [] {
    } else {
      var last := |values| - 1;
      var front := values[..last];
      Spread(values, 0, last);
      assert values[0] in values && values[last] in values;
      forall v | v in front ensures v.Num? && lo <= v.n <= hi - 1 {
        var i :| 0 <= i < last && values[i] == v;
        assert SortKey(values[i]) < SortKey(values[last]);
      }
      FullList(front, lo, hi - 1);
    }
  }

  lemma {:induction false} Spread(values: seq<Value>, i: nat, j: nat)
    requires Sorted(values) && i <= j < |values|
    ensures SortKey(values[j]) - SortKey(values[i]) >= j - i
    decreases j - i
  {
    if i == j {
    } else {
      Spread(values, i, j - 1);
    }
  }

  /** Outside the day of the month, a list that collapses to `*` already held every value. */
  lemma CollapseKeepsMeaning(f: Field, listed: seq<Value>, keepList: bool, x: int)
    requires f != DayField && FieldOk(listed, FieldMin(f), FieldMax(f)) && Last !in listed && InField(f, x)
    ensures Listed(Collapse(f, listed, keepList), x) <==> Listed(listed, x)
  {
    if |listed| == LenMeansAll(f) && Star !in listed {
      FullList(listed, FieldMin(f), FieldMax(f));
      assert listed[x - FieldMin(f)] == Num(x);
    }
  }

  /** The 31 entries of a day list that collapses are every day, unless `l` stands in for
      one of the days 1..30: then the collapse adds that day. */
  lemma CollapseOfDays(listed: seq<Value>)
    requires FieldOk(listed, 1, 31) && |listed| == LenMeansAll(DayField) && Star !in listed
    ensures (forall d, len :: 28 <= len <= 31 && 1 <= d <= len ==>
               (DayListed(Collapse(DayField, listed, false), d, len) <==> DayListed(listed, d, len)))
       <==> (Last in listed ==> forall m :: 1 <= m <= 30 ==> Num(m) in listed)
  {
    assert Star in Collapse(DayField, listed, false);
    if Last in listed {
      if m :| 1 <= m <= 30 && Num(m) !in listed {
        assert !DayListed(listed, m, 31) && DayListed(Collapse(DayField, listed, false), m, 31);
      }
    } else {
      FullList(listed, 1, 31);
      forall d | 1 <= d <= 31 ensures Num(d) in listed { assert listed[d - 1] == Num(d); }
    }
  }

  /** The day list of `2-31,l` becomes `*`, although it does not hold day 1. */
  lemma CollapseAddsDayOne()
    ensures var listed := seq(30, (i: int) => Num(i + 2)) + [Last];
            && FieldOk(listed, 1, 31) && !DayListed(listed, 1, 31)
            && DayListed(Collapse(DayField, listed, false), 1, 31)
  {
    var listed := seq(30, (i: int) => Num(i + 2)) + [Last];
    assert listed[0] == Num(2);
  }

  // ----- the whole expression -----

  datatype RawCron = RawCron(minute: RawField, hour: RawField, day: RawField, month: RawField, dow: RawField)

  predicate AllReadable(raw: RawCron) {
    && FieldReadable(MinuteField, raw.minute) && FieldReadable(HourField, raw.hour) && FieldReadable(DayField, raw.day)
    && FieldReadable(MonthField, raw.month) && FieldReadable(DowField, raw.dow)
  }

  /** Some weekdays with positions, some without, and not all seven of them. */
  predicate Mixed(dow: FieldExpansion) {
    && dow.nth != map[] && |dow.listed| != LenMeansAll(DowField)
    && exists v :: v in dow.listed && v.Num? && v.n !in dow.nth
  }

  datatype Expansions = Expansions(minute: FieldExpansion, hour: FieldExpansion, day: FieldExpansion,
                                   month: FieldExpansion, dow: FieldExpansion)

  /** The five fields, each the union of its elements; a full day list is kept as a list
      when the other day field has no `*` in its text. */
  ghost predicate AreExpansions(raw: RawCron, xs: Expansions)
    requires AllReadable(raw)
  {
    && IsExpansion(MinuteField, raw.minute, false, xs.minute)
    && IsExpansion(HourField, raw.hour, false, xs.hour)
    && IsExpansion(DayField, raw.day, !HasStar(raw.dow), xs.day)
    && IsExpansion(MonthField, raw.month, false, xs.month)
    && IsExpansion(DowField, raw.dow, !HasStar(raw.day), xs.dow)
  }

  function ScheduleOf(xs: Expansions): Schedule {
    Schedule(Fields(xs.minute.values, xs.hour.values, xs.day.values, xs.month.values, xs.dow.values),
             xs.dow.nth, xs.day.nearest)
  }

  lemma ExpansionFieldOk(f: Field, raw: RawField, keepList: bool, x: FieldExpansion)
    requires FieldReadable(f, raw) && IsExpansion(f, raw, keepList, x)
    ensures FieldOk(x.listed, FieldMin(f), FieldMax(f)) && FieldOk(x.values, FieldMin(f), FieldMax(f))
    ensures f != DayField ==> Last !in x.listed && Last !in x.values
    ensures forall t :: t in x.nearest ==> 1 <= t <= 31
    ensures forall w :: w in x.nth ==> 0 <= w <= 6 && x.nth[w] != {} && forall spec :: spec in x.nth[w] ==> SpecOk(spec)
  {
    hide Readable, IsUnion;
    UnionInBounds(f, ElementsOf(raw), Expansion(x.listed, x.nth, x.nearest));
  }

  lemma {:induction false} SortedSize(values: seq<Value>)
    requires Sorted(values)
    ensures |set v | v in values| == |values|
    decreases |values|
  {
    if values == [] {
    } else {
      var rest := values[1..];
      SortedSize(rest);
      assert (set v | v in values) == (set v | v in rest) + {values[0]};
      assert values[0] !in rest;
    }
  }

  /** The expression is refused exactly when an element cannot be read or `#` is mixed with
      plain weekdays; otherwise the result is well formed and means what was written. */
  method ExpandSchedule(raw: RawCron) returns (r: Result<Schedule>, ghost xs: Expansions)
    requires ElementsOf(raw.minute) != [] && ElementsOf(raw.hour) != [] && ElementsOf(raw.day) != []
    requires ElementsOf(raw.month) != [] && ElementsOf(raw.dow) != []
    ensures !AllReadable(raw) ==> r == SyntaxError
    ensures AllReadable(raw) ==>
      AreExpansions(raw, xs) && r == if Mixed(xs.dow) then SyntaxError else Ok(ScheduleOf(xs))
    ensures r.Ok? ==> WellFormed(r.value)
  {
    hide FieldReadable, IsExpansion, FieldOk;
    var none := FieldExpansion([], [], map[], {});
    xs := Expansions(none, none, none, none, none);
    var minute := ExpandField(MinuteField, raw.minute, false);
    if minute.SyntaxError? { return SyntaxError, xs; }
    var hour := ExpandField(HourField, raw.hour, false);
    if hour.SyntaxError? { return SyntaxError, xs; }
    var day := ExpandField(DayField, raw.day, !HasStar(raw.dow));
    if day.SyntaxError? { return SyntaxError, xs; }
    var month := ExpandField(MonthField, raw.month, false);
    if month.SyntaxError? { return SyntaxError, xs; }
    var dow := ExpandField(DowField, raw.dow, !HasStar(raw.day));
    if dow.SyntaxError? { return SyntaxError, xs; }
    var all := Expansions(minute.value, hour.value, day.value, month.value, dow.value);
    xs := all;
    ExpansionFieldOk(MinuteField, raw.minute, false, xs.minute);
    ExpansionFieldOk(HourField, raw.hour, false, xs.hour);
    ExpansionFieldOk(DayField, raw.day, !HasStar(raw.dow), xs.day);
    ExpansionFieldOk(MonthField, raw.month, false, xs.month);
    ExpansionFieldOk(DowField, raw.dow, !HasStar(raw.day), xs.dow);
    var values := all.dow.values;
    if all.dow.nth != map[] {
      var plain := set v | v in values && v.Num? && v.n !in all.dow.nth;
      MixedValues(raw, xs.dow);
      if plain != {} && |set v | v in values| != LenMeansAll(DowField) { return SyntaxError, xs; }
    }
    r := Ok(ScheduleOf(all));
  }

  /** The check on the collapsed list agrees with the definition on the list before. */
  lemma MixedValues(raw: RawCron, x: FieldExpansion)
    requires FieldReadable(DowField, raw.dow) && IsExpansion(DowField, raw.dow, !HasStar(raw.day), x) && x.nth != map[]
    ensures Mixed(x) <==>
              (&& (set v | v in x.values && v.Num? && v.n !in x.nth) != {}
               && |set v | v in x.values| != LenMeansAll(DowField))
  {
    ExpansionFieldOk(DowField, raw.dow, !HasStar(raw.day), x);
    hide Readable, IsUnion;
    SortedSize(x.values);
    var plain := set v | v in x.values && v.Num? && v.n !in x.nth;
    if Mixed(x) {
      var v :| v in x.listed && v.Num? && v.n !in x.nth;
      assert v in plain;
    }
    if plain != {} {
      var v :| v in plain;
    }
  }
}
