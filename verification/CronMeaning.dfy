/** What an expression means as it is written, said of its tokens and of the clock without a list or a
    search; and that the expansion means just that. */
module CronMeaning {
  import opened Arithmetic
  import opened Basics
  import opened Calendar
  import opened CronSchedule
  import opened CronExpand
  import opened CronSearch
  import CronFire

  // ----- the numbers an element allows -----

  /** The number written is itself, save that the 7 of the weekdays is Sunday, 0. */
  predicate IsNumber(f: Field, written: int, n: int) {
    if f == DowField && written == 7 then n == 0 else n == written
  }

  /** A number, or a name of the field. */
  predicate Names(f: Field, e: End, n: int) {
    match e
    case IntEnd(k) => IsNumber(f, k, n)
    case WordEnd(MonthName(k)) => f == MonthField && n == k
    case WordEnd(WeekdayName(k)) => f == DowField && IsNumber(f, k, n)
    case WordEnd(_) => false
  }

  /** At the end of a range of days, `l` is 31. */
  predicate NamesHigh(f: Field, e: End, n: int) {
    if f == DayField && e == WordEnd(Ell) then n == 31 else Names(f, e, n)
  }

  /** The whole field from its minimum on, in strides of `k`. */
  predicate Strides(f: Field, k: int, n: int)
    requires k >= 1
  {
    FieldMin(f) <= n <= FieldMax(f) && (n - FieldMin(f)) % k == 0
  }

  /** Where a range that runs past the end of the field goes on. */
  function Resumes(f: Field, a: int, k: int): int
    requires k >= 1
  {
    var left := (FieldMax(f) - a) % k;
    FieldMin(f) + if left + 1 < k then k - left else 0
  }

  /** `a-b/k`: from `a` to `b` in strides of `k`; over the end of the field when `b` comes first; and
      the whole field when they are the same. */
  predicate Ranges(f: Field, a: int, b: int, k: int, n: int)
    requires k >= 1
  {
    if a < b then a <= n <= b && (n - a) % k == 0
    else if a == b then Strides(f, k, n)
    else
      || (a <= n <= FieldMax(f) && (n - a) % k == 0)
      || (Resumes(f, a, k) <= n <= b && (n - Resumes(f, a, k)) % k == 0)
  }

  /** The ends of a range and its step, as written. */
  ghost predicate RangeReads(f: Field, core: Core, a: int, b: int, k: int) {
    match core
    case RangeItem(low, high, step) => Names(f, low, a) && NamesHigh(f, high, b) && k == step
    case StarStep(step) => a == FieldMin(f) && b == FieldMax(f) && k == step
    case FromStep(low, step) => Names(f, low, a) && b == FieldMax(f) && k == step
    case _ => false
  }

  ghost predicate CoreAllows(f: Field, core: Core, n: int) {
    match core
    case StarItem => true
    case IntItem(k) => IsNumber(f, k, n)
    case WordItem(word) => Names(f, WordEnd(word), n)
    case _ => exists a, b, k :: RangeReads(f, core, a, b, k) && k >= 1 && Ranges(f, a, b, k, n)
  }

  ghost predicate Allows(f: Field, e: Element, n: int) {
    match e
    case Plain(core) => CoreAllows(f, core, n)
    case Hash(core, _) => CoreAllows(f, core, n)
    case LastWeekday(k) => IsNumber(f, k, n)
    case NearestItem(day) => n == day
  }

  // ----- which elements are refused -----

  ghost predicate CoreLegible(f: Field, core: Core) {
    match core
    case StarItem => true
    case IntItem(k) => exists n :: IsNumber(f, k, n) && FieldMin(f) <= n <= FieldMax(f)
    case WordItem(word) =>
      (f == DayField && word == Ell) || exists n :: Names(f, WordEnd(word), n) && FieldMin(f) <= n <= FieldMax(f)
    case _ =>
      exists a, b, k ::
        RangeReads(f, core, a, b, k) && k >= 1 && a <= FieldMax(f) && b <= FieldMax(f) && (a < b ==> FieldMin(f) <= a)
  }

  /** Positions stand with weekdays, 1 to 5; `W` with days, 1 to 31. */
  ghost predicate Legible(f: Field, e: Element) {
    match e
    case Plain(core) => CoreLegible(f, core)
    case Hash(core, position) => f == DowField && Positional(core) && 1 <= position <= 5 && CoreLegible(f, core)
    case LastWeekday(k) => f == DowField && CoreLegible(f, IntItem(k))
    case NearestItem(day) => f == DayField && 1 <= day <= 31
  }

  // ----- the expansion of one element -----

  lemma SpanReads(f: Field, core: Core)
    requires IsRange(core)
    ensures SpanOf(f, core).Some? ==>
      var span := SpanOf(f, core).value; RangeReads(f, core, span.low, span.high, span.step)
    ensures SpanOf(f, core).Some? <==>
      exists a, b, k :: RangeReads(f, core, a, b, k) && k >= 1 && a <= FieldMax(f) && b <= FieldMax(f)
  {
    if SpanOf(f, core).Some? {
      var span := SpanOf(f, core).value;
      assert RangeReads(f, core, span.low, span.high, span.step);
    }
  }

  lemma ReadsOnce(f: Field, core: Core, a: int, b: int, k: int, a': int, b': int, k': int)
    requires RangeReads(f, core, a, b, k) && RangeReads(f, core, a', b', k')
    ensures a == a' && b == b' && k == k'
  {}

  /** The loops of a range yield what the congruences say. */
  lemma RangeValuesMean(f: Field, span: Span, n: int)
    requires span.step >= 1
    ensures n in RangeValues(f, span) <==> Ranges(f, span.low, span.high, span.step, n)
  {
    var lo, hi := FieldMin(f), FieldMax(f);
    if span.low > span.high {
      WrapValues(f, span);
    } else if span.low == span.high {
      ProgressionIs(lo, hi + 1, span.step);
    } else {
      ProgressionIs(span.low, span.high + 1, span.step);
    }
  }

  lemma CoreOf(f: Field, e: Element)
    requires SplitSpecial(f, e).Some?
    ensures var core := SplitSpecial(f, e).value.0;
            && !e.NearestItem? && (forall n :: Allows(f, e, n) <==> CoreAllows(f, core, n))
            && (e.Plain? || e.Hash? ==> core == e.core) && (e.LastWeekday? ==> core == IntItem(e.n))
  {}

  /** Every readable element stands for the numbers it allows, `*` and `l` apart. */
  lemma StandsForAllowed(f: Field, e: Element, n: int)
    requires Acceptable(f, e) && !StandsFor(f, e, Star)
    ensures StandsFor(f, e, Num(n)) <==> Allows(f, e, n)
  {
    hide RangeValues, SpanOf, Ranges, Acceptable;
    if e.NearestItem? {
    } else {
      NotNearest(f, e);
      var core := SplitSpecial(f, e).value.0;
      CoreOf(f, e);
      if Expands(f, e) {
        var span := SpanOf(f, core).value;
        SpanReads(f, core);
        RangeValuesMean(f, span, n);
        forall a, b, k | RangeReads(f, core, a, b, k) ensures a == span.low && b == span.high && k == span.step {
          ReadsOnce(f, core, a, b, k, span.low, span.high, span.step);
        }
      }
    }
  }

  lemma NotNearest(f: Field, e: Element)
    requires Acceptable(f, e) && !e.NearestItem?
    ensures SplitSpecial(f, e).Some? && (Expands(f, e) ==> SpanOf(f, SplitSpecial(f, e).value.0).Some?)
    ensures !Expands(f, e) ==> PlainValue(f, SplitSpecial(f, e).value.0).Some?
  {}

  /** `*` alone stands for everything, `l` alone for the last day. */
  lemma StandsForStar(f: Field, e: Element)
    requires Acceptable(f, e)
    ensures StandsFor(f, e, Star) <==> e == Plain(StarItem)
    ensures StandsFor(f, e, Last) <==> (e.Plain? || e.Hash?) && e.core == WordItem(Ell)
  {
    hide RangeValues, SpanOf;
  }

  /** An element is refused exactly when its tokens are. */
  lemma LegibleExactly(f: Field, e: Element)
    ensures Acceptable(f, e) <==> Legible(f, e)
  {
    hide RangeValues, SpanOf, Ranges;
    if !e.NearestItem? && SplitSpecial(f, e).Some? {
      var core := SplitSpecial(f, e).value.0;
      if IsRange(core) { LegibleRange(f, e, core); } else { LegibleCore(f, core); }
    }
  }

  lemma LegibleCore(f: Field, core: Core)
    requires !IsRange(core)
    ensures PlainValue(f, core).Some? <==> CoreLegible(f, core)
  {
    match core
    case IntItem(k) => assert IsNumber(f, k, ValueAlias(k, f));
    case WordItem(MonthName(k)) => assert Names(f, WordEnd(MonthName(k)), k) <==> f == MonthField;
    case WordItem(WeekdayName(k)) => assert Names(f, WordEnd(WeekdayName(k)), ValueAlias(k, f)) <==> f == DowField;
    case _ =>
  }

  lemma LegibleRange(f: Field, e: Element, core: Core)
    requires !e.NearestItem? && IsRange(core) && SplitSpecial(f, e).Some? && SplitSpecial(f, e).value.0 == core
    ensures Acceptable(f, e) <==> CoreLegible(f, core)
  {
    hide RangeValues, SpanOf, Acceptable, CoreLegible;
    AcceptableRange(f, e, core);
    RangeLegible(f, core);
    if SpanOf(f, core).Some? { RangeInField(f, SpanOf(f, core).value); }
  }

  lemma AcceptableRange(f: Field, e: Element, core: Core)
    requires !e.NearestItem? && IsRange(core) && SplitSpecial(f, e).Some? && SplitSpecial(f, e).value.0 == core
    ensures Acceptable(f, e)
        <==> SpanOf(f, core).Some? && forall v :: v in RangeValues(f, SpanOf(f, core).value) ==> InField(f, v)
  {
    hide RangeValues, SpanOf, SplitSpecial;
  }

  lemma RangeLegible(f: Field, core: Core)
    requires IsRange(core)
    ensures CoreLegible(f, core)
        <==> SpanOf(f, core).Some?
             && var span := SpanOf(f, core).value; (span.low < span.high ==> FieldMin(f) <= span.low)
  {
    hide SpanOf, RangeReads;
    SpanReads(f, core);
    if SpanOf(f, core).Some? {
      var span := SpanOf(f, core).value;
      forall a, b, k | RangeReads(f, core, a, b, k) ensures a == span.low && b == span.high && k == span.step {
        ReadsOnce(f, core, a, b, k, span.low, span.high, span.step);
      }
    }
  }

  lemma RangeInField(f: Field, span: Span)
    requires span.step >= 1 && 0 <= span.low <= FieldMax(f) && 0 <= span.high <= FieldMax(f)
    ensures (forall v :: v in RangeValues(f, span) ==> InField(f, v))
        <==> (span.low < span.high ==> FieldMin(f) <= span.low)
  {
    hide RangeValues;
    ModOf(0, 0, 0, span.step);
    RangeValuesMean(f, span, span.low);
    forall v | v in RangeValues(f, span) && (span.low < span.high ==> FieldMin(f) <= span.low) ensures InField(f, v) {
      RangeValuesMean(f, span, v);
    }
  }

  // ----- the expansion of a field -----

  /** Some element of the field allows the number. */
  ghost predicate Wants(f: Field, raw: RawField, n: int) {
    exists e :: e in ElementsOf(raw) && Allows(f, e, n)
  }

  /** A field has `l` for the last day of the month. */
  predicate WantsLast(raw: RawField) {
    Plain(WordItem(Ell)) in ElementsOf(raw)
  }

  /** The list before the collapse holds what the elements allow. */
  lemma ListedIsWanted(f: Field, raw: RawField, keepList: bool, x: FieldExpansion, n: int)
    requires FieldReadable(f, raw) && IsExpansion(f, raw, keepList, x)
    ensures Listed(x.listed, n) <==> Wants(f, raw, n)
    ensures f == DayField ==> (Last in x.listed <==> WantsLast(raw))
  {
    hide Allows, StandsFor, Acceptable;
    var u, all := Expansion(x.listed, x.nth, x.nearest), set e | e in ElementsOf(raw);
    assert forall v :: v in x.listed <==> Holds(u, InList(v));
    if Listed(x.listed, n) {
      var v := if Star in x.listed then Star else Num(n);
      assert Holds(u, InList(v));
      var e :| e in all && Denotes(f, e, InList(v));
      AllowedBy(f, e, n);
    }
    if Wants(f, raw, n) {
      var e :| e in ElementsOf(raw) && Allows(f, e, n);
      AllowedBy(f, e, n);
      var v := if StandsFor(f, e, Star) then Star else Num(n);
      assert e in all && Denotes(f, e, InList(v));
      assert Holds(u, InList(v));
    }
    if f == DayField { LastIsWanted(raw, keepList, x); }
  }

  lemma AllowedBy(f: Field, e: Element, n: int)
    requires Acceptable(f, e)
    ensures Allows(f, e, n) <==> StandsFor(f, e, Star) || StandsFor(f, e, Num(n))
  {
    hide StandsFor, Acceptable;
    StandsForStar(f, e);
    if !StandsFor(f, e, Star) { StandsForAllowed(f, e, n); }
  }

  lemma LastIsWanted(raw: RawField, keepList: bool, x: FieldExpansion)
    requires FieldReadable(DayField, raw) && IsExpansion(DayField, raw, keepList, x)
    ensures Last in x.listed <==> WantsLast(raw)
  {
    hide StandsFor;
    var u, all := Expansion(x.listed, x.nth, x.nearest), set e | e in ElementsOf(raw);
    assert Last in x.listed <==> Holds(u, InList(Last));
    if Last in x.listed {
      var e :| e in all && Denotes(DayField, e, InList(Last));
      StandsForStar(DayField, e);
    }
    if WantsLast(raw) {
      var e := Plain(WordItem(Ell));
      StandsForStar(DayField, e);
      assert e in all && Denotes(DayField, e, InList(Last));
    }
  }

  /** Outside the day field the list of the schedule, collapsed or not, holds just the numbers that
      some element allows. */
  lemma FieldMeans(f: Field, raw: RawField, keepList: bool, x: FieldExpansion, n: int)
    requires f != DayField && FieldReadable(f, raw) && IsExpansion(f, raw, keepList, x) && InField(f, n)
    ensures Listed(x.values, n) <==> Wants(f, raw, n)
  {
    hide FieldReadable, IsExpansion, Wants, Collapse;
    ListedIsWanted(f, raw, keepList, x, n);
    ExpansionFieldOk(f, raw, keepList, x);
    CollapseKeepsMeaning(f, x.listed, keepList, n);
    assert x.values == Collapse(f, x.listed, keepList) by { CollapseOf(f, raw, keepList, x); }
  }

  lemma CollapseOf(f: Field, raw: RawField, keepList: bool, x: FieldExpansion)
    requires FieldReadable(f, raw) && IsExpansion(f, raw, keepList, x)
    ensures x.values == Collapse(f, x.listed, keepList) && (x.values == x.listed || x.values == [Star])
  {}

  /** So does the day field, with `l` for the last day, unless its list is collapsed and `l` stands in
      for a day. */
  lemma DaysMean(raw: RawField, keepList: bool, x: FieldExpansion, d: int, len: int)
    requires FieldReadable(DayField, raw) && IsExpansion(DayField, raw, keepList, x)
    requires 28 <= len <= 31 && 1 <= d <= len
    requires x.values == x.listed || !WantsLast(raw) || forall m :: 1 <= m <= 30 ==> Wants(DayField, raw, m)
    ensures DayListed(x.values, d, len) <==> Wants(DayField, raw, d) || (WantsLast(raw) && d == len)
  {
    hide FieldReadable, IsExpansion, Wants, Collapse;
    ListedIsWanted(DayField, raw, keepList, x, d);
    ExpansionFieldOk(DayField, raw, keepList, x);
    CollapseOf(DayField, raw, keepList, x);
    if x.values != x.listed {
      if Star !in x.listed { FullDays(raw, keepList, x, d, len); }
    }
  }

  lemma FullDays(raw: RawField, keepList: bool, x: FieldExpansion, d: int, len: int)
    requires FieldReadable(DayField, raw) && IsExpansion(DayField, raw, keepList, x)
    requires 28 <= len <= 31 && 1 <= d <= len && x.values != x.listed && Star !in x.listed
    requires !WantsLast(raw) || forall m :: 1 <= m <= 30 ==> Wants(DayField, raw, m)
    ensures DayListed(x.values, d, len) <==> DayListed(x.listed, d, len)
  {
    hide FieldReadable, IsExpansion, Wants;
    ExpansionFieldOk(DayField, raw, keepList, x);
    CollapseOf(DayField, raw, keepList, x);
    ListedIsWanted(DayField, raw, keepList, x, 1);
    forall m | 1 <= m <= 30 && WantsLast(raw) ensures Num(m) in x.listed {
      ListedIsWanted(DayField, raw, keepList, x, m);
    }
    CollapseOfDays(x.listed);
    assert x.values == Collapse(DayField, x.listed, false);
  }

  // ----- positions and nearest days -----

  /** `2#3` asks for a position, `l5` for the last one. */
  predicate AsksFor(e: Element, spec: NthSpec) {
    match e
    case Hash(_, k) => spec == Nth(k)
    case LastWeekday(_) => spec == LastOne
    case _ => false
  }

  ghost predicate WantsPosition(raw: RawField, weekday: int, spec: NthSpec) {
    exists e :: e in ElementsOf(raw) && AsksFor(e, spec) && Allows(DowField, e, weekday)
  }

  ghost predicate HasPositions(raw: RawField) {
    exists weekday, spec :: WantsPosition(raw, weekday, spec)
  }

  /** The positions of the schedule are those that are asked for. */
  lemma PositionsMean(raw: RawField, keepList: bool, x: FieldExpansion, weekday: int, spec: NthSpec)
    requires FieldReadable(DowField, raw) && IsExpansion(DowField, raw, keepList, x)
    ensures (weekday in x.nth && spec in x.nth[weekday]) <==> WantsPosition(raw, weekday, spec)
  {
    hide Allows, StandsFor, Acceptable;
    var u, all := Expansion(x.listed, x.nth, x.nearest), set e | e in ElementsOf(raw);
    assert (weekday in x.nth && spec in x.nth[weekday]) <==> Holds(u, AtPosition(weekday, spec));
    if Holds(u, AtPosition(weekday, spec)) {
      var e :| e in all && Denotes(DowField, e, AtPosition(weekday, spec));
      PositionOf(e, weekday, spec);
    }
    if WantsPosition(raw, weekday, spec) {
      var e :| e in ElementsOf(raw) && AsksFor(e, spec) && Allows(DowField, e, weekday);
      PositionOf(e, weekday, spec);
      assert e in all && Denotes(DowField, e, AtPosition(weekday, spec));
    }
  }

  lemma PositionOf(e: Element, weekday: int, spec: NthSpec)
    requires Acceptable(DowField, e)
    ensures Denotes(DowField, e, AtPosition(weekday, spec)) <==> AsksFor(e, spec) && Allows(DowField, e, weekday)
  {
    hide Allows, StandsFor;
    StandsForStar(DowField, e);
    if StandsFor(DowField, e, Star) {
      OnlyStar(e, weekday);
    } else {
      StandsForAllowed(DowField, e, weekday);
    }
  }

  lemma OnlyStar(e: Element, weekday: int)
    requires Acceptable(DowField, e) && StandsFor(DowField, e, Star)
    ensures !StandsFor(DowField, e, Num(weekday))
  {}

  lemma NoPositions(raw: RawField, keepList: bool, x: FieldExpansion)
    requires FieldReadable(DowField, raw) && IsExpansion(DowField, raw, keepList, x)
    ensures x.nth == map[] <==> !HasPositions(raw)
  {
    hide WantsPosition;
    if forall w :: w !in x.nth {
      assert x.nth == map[];
    } else {
      var w :| w in x.nth;
      var spec :| spec in x.nth[w];
      PositionsMean(raw, keepList, x, w, spec);
    }
    if HasPositions(raw) {
      var w, spec :| WantsPosition(raw, w, spec);
      PositionsMean(raw, keepList, x, w, spec);
    }
  }

  lemma NearestMean(raw: RawField, keepList: bool, x: FieldExpansion, t: int)
    requires FieldReadable(DayField, raw) && IsExpansion(DayField, raw, keepList, x)
    ensures t in x.nearest <==> NearestItem(t) in ElementsOf(raw)
  {
    hide StandsFor, Acceptable;
    var u, all := Expansion(x.listed, x.nth, x.nearest), set e | e in ElementsOf(raw);
    assert t in x.nearest <==> Holds(u, NearestTo(t));
    if NearestItem(t) in ElementsOf(raw) {
      assert NearestItem(t) in all && Denotes(DayField, NearestItem(t), NearestTo(t));
    }
  }

  // ----- which expressions are refused -----

  /** `?` is for the two day fields, every element can be read, and `W` stands alone. */
  ghost predicate FieldLegible(f: Field, raw: RawField) {
    && (raw == Question ==> f == DayField || f == DowField)
    && (forall e :: e in ElementsOf(raw) ==> Legible(f, e))
    && forall t :: NearestItem(t) in ElementsOf(raw) ==> |ElementsOf(raw)| == 1
  }

  lemma ReadableExactly(raw: RawCron)
    ensures AllReadable(raw)
        <==> (&& FieldLegible(MinuteField, raw.minute) && FieldLegible(HourField, raw.hour)
              && FieldLegible(DayField, raw.day) && FieldLegible(MonthField, raw.month)
              && FieldLegible(DowField, raw.dow))
  {
    hide FieldReadable, FieldLegible;
    FieldReadableExactly(MinuteField, raw.minute);
    FieldReadableExactly(HourField, raw.hour);
    FieldReadableExactly(DayField, raw.day);
    FieldReadableExactly(MonthField, raw.month);
    FieldReadableExactly(DowField, raw.dow);
  }

  lemma FieldReadableExactly(f: Field, raw: RawField)
    ensures FieldReadable(f, raw) <==> FieldLegible(f, raw)
  {
    hide Acceptable, Legible;
    forall e ensures Acceptable(f, e) <==> Legible(f, e) { LegibleExactly(f, e); }
    if t :| NearestItem(t) in ElementsOf(raw) { assert NearestItem(t).NearestItem?; }
    if e :| e in ElementsOf(raw) && e.NearestItem? { assert e == NearestItem(e.day); }
  }

  lemma StarOfList(f: Field, raw: RawField, keepList: bool, x: FieldExpansion)
    requires FieldReadable(f, raw) && IsExpansion(f, raw, keepList, x)
    ensures Star in x.listed <==> Plain(StarItem) in ElementsOf(raw)
  {
    hide StandsFor, Acceptable;
    var u, all := Expansion(x.listed, x.nth, x.nearest), set e | e in ElementsOf(raw);
    assert Star in x.listed <==> Holds(u, InList(Star));
    if Plain(StarItem) in ElementsOf(raw) {
      StandsForStar(f, Plain(StarItem));
      assert Plain(StarItem) in all && Denotes(f, Plain(StarItem), InList(Star));
    }
    if Star in x.listed {
      var e :| e in all && Denotes(f, e, InList(Star));
      StandsForStar(f, e);
    }
  }

  /** The weekdays that some element other than `*` allows. */
  ghost function NamedDays(raw: RawField): set<int> {
    set n | 0 <= n <= 6 && Named(raw, n)
  }

  ghost predicate Named(raw: RawField, n: int) {
    exists e :: e in ElementsOf(raw) && e != Plain(StarItem) && Allows(DowField, e, n)
  }

  lemma NamedAreListed(raw: RawField, keepList: bool, x: FieldExpansion, n: int)
    requires FieldReadable(DowField, raw) && IsExpansion(DowField, raw, keepList, x)
    ensures Num(n) in x.listed <==> n in NamedDays(raw)
  {
    hide Allows, StandsFor, Acceptable;
    ExpansionFieldOk(DowField, raw, keepList, x);
    var u, all := Expansion(x.listed, x.nth, x.nearest), set e | e in ElementsOf(raw);
    assert Num(n) in x.listed <==> Holds(u, InList(Num(n)));
    if Num(n) in x.listed {
      var e :| e in all && Denotes(DowField, e, InList(Num(n)));
      StandsForStar(DowField, e);
      if e != Plain(StarItem) { StandsForAllowed(DowField, e, n); } else { OnlyStar(e, n); }
    }
    if n in NamedDays(raw) {
      var e :| e in ElementsOf(raw) && e != Plain(StarItem) && Allows(DowField, e, n);
      StandsForStar(DowField, e);
      StandsForAllowed(DowField, e, n);
      assert e in all && Denotes(DowField, e, InList(Num(n)));
    }
  }

  /** A `*` counts as one more entry of the list. */
  lemma ListedSize(raw: RawField, keepList: bool, x: FieldExpansion)
    requires FieldReadable(DowField, raw) && IsExpansion(DowField, raw, keepList, x)
    ensures |x.listed| == |NamedDays(raw)| + if Plain(StarItem) in ElementsOf(raw) then 1 else 0
  {
    hide FieldReadable, IsExpansion, NamedDays;
    ExpansionFieldOk(DowField, raw, keepList, x);
    StarOfList(DowField, raw, keepList, x);
    SortedSize(x.listed);
    var numbers := set n | n in NamedDays(raw) :: Num(n);
    Numbers(NamedDays(raw));
    forall n ensures Num(n) in x.listed <==> n in NamedDays(raw) { NamedAreListed(raw, keepList, x, n); }
    forall v ensures v in x.listed <==> v in numbers || (v == Star && Plain(StarItem) in ElementsOf(raw)) {
      match v
      case Num(n) => assert v in numbers <==> n in NamedDays(raw);
      case _ =>
    }
    assert (set v | v in x.listed) == numbers + if Plain(StarItem) in ElementsOf(raw) then {Star} else {};
  }

  lemma {:induction false} Numbers(ns: set<int>)
    ensures |set n | n in ns :: Num(n)| == |ns|
  {
    if forall n :: n !in ns {
      assert ns == {} && (set n | n in ns :: Num(n)) == {};
    } else {
      var n :| n in ns;
      Numbers(ns - {n});
      assert (set m | m in ns :: Num(m)) == (set m | m in ns - {n} :: Num(m)) + {Num(n)};
    }
  }

  /** A field with positions is refused exactly when it also has a weekday without one, unless its list
      is full: the weekdays and the star, when there is one, are seven together. */
  lemma MixedExactly(raw: RawField, keepList: bool, x: FieldExpansion)
    requires FieldReadable(DowField, raw) && IsExpansion(DowField, raw, keepList, x)
    ensures Mixed(x)
        <==> (&& HasPositions(raw)
              && (exists n :: n in NamedDays(raw) && forall spec :: !WantsPosition(raw, n, spec))
              && |NamedDays(raw)| + (if Plain(StarItem) in ElementsOf(raw) then 1 else 0) != 7)
  {
    hide FieldReadable, IsExpansion, NamedDays, WantsPosition, HasPositions;
    NoPositions(raw, keepList, x);
    ListedSize(raw, keepList, x);
    forall n ensures Num(n) in x.listed <==> n in NamedDays(raw) { NamedAreListed(raw, keepList, x, n); }
    forall n ensures n in x.nth <==> exists spec :: WantsPosition(raw, n, spec) {
      forall spec ensures (n in x.nth && spec in x.nth[n]) <==> WantsPosition(raw, n, spec) {
        PositionsMean(raw, keepList, x, n, spec);
      }
      ExpansionFieldOk(DowField, raw, keepList, x);
    }
    if Mixed(x) {
      var v :| v in x.listed && v.Num? && v.n !in x.nth;
      assert v.n in NamedDays(raw);
    }
    if n :| n in NamedDays(raw) && forall spec :: !WantsPosition(raw, n, spec) { assert Num(n) in x.listed; }
  }

  // ----- positions in a month -----

  /** The k-th of the days of a month that fall on a weekday has position k, and the last of them is
      the last one. */
  lemma PositionIsCounted(y: int, mo: int, weekday: int, days: seq<int>, k: int)
    requires 1 <= mo <= 12 && 0 <= weekday < 7 && Ascending(days) && 0 <= k < |days|
    requires forall d :: d in days <==> 1 <= d <= DaysInMonth(y, mo) && DowIn(y, mo, d) == weekday
    ensures IsNth(y, mo, days[k], weekday, Nth(k + 1))
    ensures IsNth(y, mo, days[k], weekday, LastOne) <==> k == |days| - 1
  {
    hide MonthStart, DaysInMonth;
    WeekApart(y, mo, weekday, days, k);
    if days[k] + 7 <= DaysInMonth(y, mo) {
      WeekLater(y, mo, days[k]);
      assert days[k] + 7 in days;
    } else if k < |days| - 1 {
      WeekApart(y, mo, weekday, days, k + 1);
    }
  }

  lemma WeekLater(y: int, mo: int, d: int)
    requires 1 <= mo <= 12
    ensures DowIn(y, mo, d + 7) == DowIn(y, mo, d) == DowIn(y, mo, d - 7)
  {
    hide MonthStart;
  }

  lemma {:induction false} WeekApart(y: int, mo: int, weekday: int, days: seq<int>, k: int)
    requires 1 <= mo <= 12 && 0 <= weekday < 7 && Ascending(days) && 0 <= k < |days|
    requires forall d :: d in days <==> 1 <= d <= DaysInMonth(y, mo) && DowIn(y, mo, d) == weekday
    ensures 7 * k + 1 <= days[k] <= 7 * k + 7 && DowIn(y, mo, days[k]) == weekday
    decreases k
  {
    hide MonthStart, DaysInMonth;
    assert days[k] in days;
    if days[k] > 7 {
      WeekLater(y, mo, days[k]);
      var i :| 0 <= i < |days| && days[i] == days[k] - 7;
      assert i < k;
      if i < k - 1 {
        assert days[i] < days[i + 1] < days[k] && days[i + 1] in days;
        NotWithinWeek(y, mo, days[i], days[i + 1]);
      }
      WeekApart(y, mo, weekday, days, k - 1);
    } else if k > 0 {
      assert days[k - 1] in days && days[k - 1] < days[k];
      NotWithinWeek(y, mo, days[k - 1], days[k]);
    }
  }

  lemma NotWithinWeek(y: int, mo: int, d: int, d': int)
    requires 1 <= mo <= 12 && d < d' < d + 7
    ensures DowIn(y, mo, d) != DowIn(y, mo, d')
  {
    hide MonthStart;
  }

  // ----- the whole expression -----

  /** The day of the month suits: it is nearest to a `W` day when one is written, else it is allowed,
      or the last one where `l` is. */
  ghost predicate DaySuits(raw: RawField, date: Date)
    requires ValidDate(date)
  {
    if exists t :: NearestItem(t) in ElementsOf(raw) then
      && date.y >= 100
      && exists t :: t >= 1 && NearestItem(t) in ElementsOf(raw) && NearestWeekday(date.y, date.mo, t) == date.d
    else Wants(DayField, raw, date.d) || (WantsLast(raw) && date.d == DaysInMonth(date.y, date.mo))
  }

  /** The weekday suits: it has a position when some are asked for, else it is allowed. */
  ghost predicate WeekdaySuits(raw: RawField, date: Date)
    requires ValidDate(date)
  {
    if HasPositions(raw) then
      exists weekday, spec :: WantsPosition(raw, weekday, spec) && IsNth(date.y, date.mo, date.d, weekday, spec)
    else Wants(DowField, raw, (DayNumber(date) + 4) % 7)
  }

  /** The collapse of a full day list does not add a day. */
  ghost predicate DaysKept(raw: RawField, x: FieldExpansion) {
    x.values == x.listed || !WantsLast(raw) || forall m :: 1 <= m <= 30 ==> Wants(DayField, raw, m)
  }

  function WallAt(date: Date, h: int, mi: int): int
    requires ValidDate(date)
  {
    DAY_MS * DayNumber(date) + HOUR_MS * h + MINUTE_MS * mi
  }

  lemma WallAtParts(date: Date, h: int, mi: int)
    requires ValidDate(date) && 0 <= h < 24 && 0 <= mi < 60
    ensures CivilOf(WallAt(date, h, mi)) == Civil(date.y, date.mo, date.d, h, mi, (DayNumber(date) + 4) % 7)
    ensures WallAt(date, h, mi) % MINUTE_MS == 0
    ensures DowIn(date.y, date.mo, date.d) == (DayNumber(date) + 4) % 7
  {
    hide DateOfDay, YearStart, DaysBeforeMonth;
    var day := DayNumber(date);
    DayNumberInverse(date);
    CivilOfParts(day, h, mi);
    ModOf(WallAt(date, h, mi), 1440 * day + 60 * h + mi, 0, MINUTE_MS);
  }

  lemma DayOkMeans(raw: RawField, keepList: bool, x: FieldExpansion, f: Fields, s: Schedule, date: Date, wall: int)
    requires FieldReadable(DayField, raw) && IsExpansion(DayField, raw, keepList, x) && DaysKept(raw, x)
    requires ValidDate(date) && s.nearest == x.nearest && f.day == x.values
    requires CivilOf(wall).y == date.y && CivilOf(wall).mo == date.mo && CivilOf(wall).d == date.d
    ensures DayOk(f, s, wall) <==> DaySuits(raw, date)
  {
    hide FieldReadable, IsExpansion, CivilOf, NearestWeekday, Wants, DaysInMonth, Collapse;
    forall t ensures t in x.nearest <==> NearestItem(t) in ElementsOf(raw) { NearestMean(raw, keepList, x, t); }
    DaysMean(raw, keepList, x, date.d, DaysInMonth(date.y, date.mo));
    if forall t :: t !in x.nearest { assert x.nearest == {}; }
  }

  lemma DowOkMeans(raw: RawField, keepList: bool, x: FieldExpansion, f: Fields, s: Schedule, date: Date, wall: int)
    requires FieldReadable(DowField, raw) && IsExpansion(DowField, raw, keepList, x)
    requires ValidDate(date) && s.nth == x.nth && f.dow == x.values
    requires var c := CivilOf(wall);
             c.y == date.y && c.mo == date.mo && c.d == date.d && c.dow == (DayNumber(date) + 4) % 7
    ensures DowOk(f, s, wall) <==> WeekdaySuits(raw, date)
  {
    hide FieldReadable, IsExpansion, CivilOf, DayNumber, Wants, WantsPosition, IsNth;
    NoPositions(raw, keepList, x);
    forall w, spec ensures (w in x.nth && spec in x.nth[w]) <==> WantsPosition(raw, w, spec) {
      PositionsMean(raw, keepList, x, w, spec);
    }
    FieldMeans(DowField, raw, keepList, x, (DayNumber(date) + 4) % 7);
  }

  lemma YearOfWall(wall: int)
    ensures YearOf(wall) == CivilOf(wall).y
  {
    hide YearStart, DaysBeforeMonth, DaysInMonth, MonthOfYearDay, DayNumber;
  }

  lemma MinuteAfter(wall: int)
    requires wall % MINUTE_MS == 0
    ensures NextMinute(wall - 1) == wall
  {}

  /** The search from just before a minute looks as far as the fiftieth year after. */
  lemma FiftyYears(date: Date, h: int, mi: int, far: Date, h': int, mi': int)
    requires ValidDate(date) && 0 <= h < 24 && 0 <= mi < 60 && ValidDate(far) && 0 <= h' < 24 && 0 <= mi' < 60
    ensures InHorizon(WallAt(date, h, mi) - 1, WallAt(far, h', mi')) <==> far.y <= date.y + 50
  {
    hide WallAt, CivilOf, YearOf, NextMinute;
    WallAtParts(date, h, mi);
    WallAtParts(far, h', mi');
    MinuteAfter(WallAt(date, h, mi));
    YearOfWall(WallAt(date, h, mi));
    YearOfWall(WallAt(far, h', mi'));
  }

  /** The schedule of a readable expression matches a time of a date exactly when every field, as it is
      written, allows its number: minute, hour and month, the day and the weekday. */
  lemma ScheduleMeans(raw: RawCron, xs: Expansions, date: Date, h: int, mi: int)
    requires AllReadable(raw) && AreExpansions(raw, xs) && DaysKept(raw.day, xs.day)
    requires ValidDate(date) && 0 <= h < 24 && 0 <= mi < 60
    ensures Matches(ScheduleOf(xs).fields, ScheduleOf(xs), WallAt(date, h, mi))
        <==> (&& Wants(MinuteField, raw.minute, mi) && Wants(HourField, raw.hour, h)
              && Wants(MonthField, raw.month, date.mo) && DaySuits(raw.day, date) && WeekdaySuits(raw.dow, date))
  {
    hide FieldReadable, IsExpansion, CivilOf, Wants, DaySuits, WeekdaySuits, WallAt, DayOk, DowOk, Listed, DaysKept;
    var s, wall := ScheduleOf(xs), WallAt(date, h, mi);
    WallAtParts(date, h, mi);
    FieldMeans(MinuteField, raw.minute, false, xs.minute, mi);
    FieldMeans(HourField, raw.hour, false, xs.hour, h);
    FieldMeans(MonthField, raw.month, false, xs.month, date.mo);
    DayOkMeans(raw.day, !HasStar(raw.dow), xs.day, s.fields, s, date, wall);
    DowOkMeans(raw.dow, !HasStar(raw.day), xs.dow, s.fields, s, date, wall);
  }

  /** `?` is no star in the text. */
  ghost predicate StarWritten(raw: RawField) {
    raw != Question && (Plain(StarItem) in ElementsOf(raw) || exists k :: Plain(StarStep(k)) in ElementsOf(raw))
  }

  /** The list of a day field holds a star exactly when `*` alone is written in it, or when it is full
      and a star, alone or with a step, is written in the other one. */
  lemma StarsAsWritten(raw: RawCron, xs: Expansions)
    requires AllReadable(raw) && AreExpansions(raw, xs)
    ensures Star in xs.dow.values
        <==> Plain(StarItem) in ElementsOf(raw.dow) || (StarWritten(raw.day) && |NamedDays(raw.dow)| == 7)
    ensures Star in xs.day.values
        <==> Plain(StarItem) in ElementsOf(raw.day) || (StarWritten(raw.dow) && |xs.day.listed| == 31)
  {
    hide FieldReadable, IsExpansion, NamedDays;
    StarOf(DayField, raw.day, !HasStar(raw.dow), xs.day);
    StarOf(DowField, raw.dow, !HasStar(raw.day), xs.dow);
    ListedSize(raw.dow, !HasStar(raw.day), xs.dow);
    StarIsWritten(raw.day);
    StarIsWritten(raw.dow);
  }

  lemma StarIsWritten(raw: RawField)
    ensures HasStar(raw) <==> StarWritten(raw)
  {
    if HasStar(raw) {
      var e :| e in raw.elements && e.Plain? && (e.core.StarItem? || e.core.StarStep?);
      assert e == Plain(StarItem) || e == Plain(StarStep(e.core.step));
    }
    if k :| raw != Question && Plain(StarStep(k)) in ElementsOf(raw) { assert Plain(StarStep(k)).core.StarStep?; }
    if raw != Question && Plain(StarItem) in ElementsOf(raw) { assert Plain(StarItem).core.StarItem?; }
  }

  lemma StarOf(f: Field, raw: RawField, keepList: bool, x: FieldExpansion)
    requires FieldReadable(f, raw) && IsExpansion(f, raw, keepList, x)
    ensures Star in x.values <==> Plain(StarItem) in ElementsOf(raw) || (!keepList && |x.listed| == LenMeansAll(f))
  {
    hide FieldReadable, IsExpansion;
    StarOfList(f, raw, keepList, x);
    assert x.values == Collapse(f, x.listed, keepList) by { CollapseOf(f, raw, keepList, x); }
  }

  predicate HasNearest(raw: RawField) {
    exists e :: e in ElementsOf(raw) && e.NearestItem?
  }

  lemma NoNearest(raw: RawField, keepList: bool, x: FieldExpansion)
    requires FieldReadable(DayField, raw) && IsExpansion(DayField, raw, keepList, x)
    ensures x.nearest == {} <==> !HasNearest(raw)
  {
    hide FieldReadable, IsExpansion;
    forall t ensures t in x.nearest <==> NearestItem(t) in ElementsOf(raw) { NearestMean(raw, keepList, x, t); }
    if forall t :: t !in x.nearest {
      assert x.nearest == {};
    } else {
      var t :| t in x.nearest;
      assert NearestItem(t) in ElementsOf(raw);
    }
    if HasNearest(raw) {
      var e :| e in ElementsOf(raw) && e.NearestItem?;
      assert e == NearestItem(e.day);
    }
  }

  /** The crontab rule from the tokens: with a star in the list of either day field both must suit, and
      with none either will do, unless positions or nearest weekdays are asked for, which always must. */
  lemma CrontabMeans(raw: RawCron, xs: Expansions, date: Date, h: int, mi: int)
    requires AllReadable(raw) && AreExpansions(raw, xs) && DaysKept(raw.day, xs.day)
    requires ValidDate(date) && 0 <= h < 24 && 0 <= mi < 60
    ensures CronFire.Wanted(ScheduleOf(xs), WallAt(date, h, mi))
        <==> (&& Wants(MinuteField, raw.minute, mi) && Wants(HourField, raw.hour, h)
              && Wants(MonthField, raw.month, date.mo)
              && if Star in xs.day.values || Star in xs.dow.values then
                   DaySuits(raw.day, date) && WeekdaySuits(raw.dow, date)
                 else if !HasPositions(raw.dow) && !HasNearest(raw.day) then
                   DaySuits(raw.day, date) || WeekdaySuits(raw.dow, date)
                 else
                   && (HasPositions(raw.dow) ==> WeekdaySuits(raw.dow, date))
                   && (HasNearest(raw.day) ==> DaySuits(raw.day, date)))
  {
    hide FieldReadable, IsExpansion, CivilOf, Wants, DaySuits, WeekdaySuits, WallAt, DayOk, DowOk, Listed, DaysKept;
    hide Matches, HasPositions;
    var s, wall := ScheduleOf(xs), WallAt(date, h, mi);
    WallAtParts(date, h, mi);
    FieldMeans(MinuteField, raw.minute, false, xs.minute, mi);
    FieldMeans(HourField, raw.hour, false, xs.hour, h);
    FieldMeans(MonthField, raw.month, false, xs.month, date.mo);
    DayOkMeans(raw.day, !HasStar(raw.dow), xs.day, s.fields, s, date, wall);
    DowOkMeans(raw.dow, !HasStar(raw.day), xs.dow, s.fields, s, date, wall);
    NoPositions(raw.dow, !HasStar(raw.day), xs.dow);
    NoNearest(raw.day, !HasStar(raw.dow), xs.day);
    if Star in xs.day.values || Star in xs.dow.values {
      CronFire.WantedWithStar(s, wall);
    } else if HasPositions(raw.dow) || HasNearest(raw.day) {
      CronFire.WantedWithSpecials(s, wall);
    } else {
      CronFire.WantedIsEitherDay(s, wall);
    }
  }

  // ----- lines of a crontab -----

  const ALWAYS := Items([Plain(StarItem)])

  lemma AlwaysWants(f: Field, n: int)
    ensures Wants(f, ALWAYS, n)
    ensures !HasPositions(ALWAYS) && !WantsLast(ALWAYS) && forall t :: NearestItem(t) !in ElementsOf(ALWAYS)
  {
    assert Plain(StarItem) in ElementsOf(ALWAYS) && Allows(f, Plain(StarItem), n);
  }

  lemma OneElement(f: Field, e: Element, n: int)
    ensures Wants(f, Items([e]), n) <==> Allows(f, e, n)
    ensures e.Plain? ==> !HasPositions(Items([e]))
  {
    hide Allows;
    assert e in ElementsOf(Items([e]));
  }

  /** `*`, `k` in the minutes with a slash between: every k-th minute of every hour. */
  lemma EveryKthMinute(k: nat, xs: Expansions, date: Date, h: int, mi: int)
    requires var raw := RawCron(Items([Plain(StarStep(k))]), ALWAYS, ALWAYS, ALWAYS, ALWAYS);
             AllReadable(raw) && AreExpansions(raw, xs)
    requires ValidDate(date) && 0 <= h < 24 && 0 <= mi < 60
    ensures k >= 1 && (Matches(ScheduleOf(xs).fields, ScheduleOf(xs), WallAt(date, h, mi)) <==> mi % k == 0)
  {
    hide AreExpansions, Matches, Wants, Allows, DayNumber, WantsPosition, HasPositions, Acceptable, DaysInMonth, WallAt;
    var raw := RawCron(Items([Plain(StarStep(k))]), ALWAYS, ALWAYS, ALWAYS, ALWAYS);
    AlwaysWants(HourField, h);
    AlwaysWants(MonthField, date.mo);
    AlwaysWants(DayField, date.d);
    AlwaysWants(DowField, (DayNumber(date) + 4) % 7);
    assert Acceptable(MinuteField, Plain(StarStep(k)));
    LegibleExactly(MinuteField, Plain(StarStep(k)));
    OneElement(MinuteField, Plain(StarStep(k)), mi);
    StepAllows(MinuteField, k, mi);
    ScheduleMeans(raw, xs, date, h, mi);
  }

  lemma StepAllows(f: Field, k: nat, n: int)
    requires k >= 1
    ensures Allows(f, Plain(StarStep(k)), n) <==> FieldMin(f) <= n <= FieldMax(f) && (n - FieldMin(f)) % k == 0
  {
    assert RangeReads(f, StarStep(k), FieldMin(f), FieldMax(f), k);
  }

  /** `m h * * w`: at that time on that weekday, and 7 is Sunday like 0. */
  lemma OnceAWeek(m: nat, hour: nat, w: nat, xs: Expansions, date: Date, h: int, mi: int)
    requires m < 60 && hour < 24 && w <= 7
    requires var raw := RawCron(Items([Plain(IntItem(m))]), Items([Plain(IntItem(hour))]), ALWAYS, ALWAYS,
                                Items([Plain(IntItem(w))]));
             AllReadable(raw) && AreExpansions(raw, xs)
    requires ValidDate(date) && 0 <= h < 24 && 0 <= mi < 60
    ensures Matches(ScheduleOf(xs).fields, ScheduleOf(xs), WallAt(date, h, mi))
        <==> mi == m && h == hour && (DayNumber(date) + 4) % 7 == w % 7
  {
    hide AreExpansions, Matches, Wants, DayNumber, WantsPosition, HasPositions, Acceptable, DaysInMonth, WallAt;
    hide AllReadable;
    var raw := RawCron(Items([Plain(IntItem(m))]), Items([Plain(IntItem(hour))]), ALWAYS, ALWAYS,
                       Items([Plain(IntItem(w))]));
    AlwaysWants(MonthField, date.mo);
    AlwaysWants(DayField, date.d);
    OneElement(MinuteField, Plain(IntItem(m)), mi);
    OneElement(HourField, Plain(IntItem(hour)), h);
    OneElement(DowField, Plain(IntItem(w)), (DayNumber(date) + 4) % 7);
    ScheduleMeans(raw, xs, date, h, mi);
  }

  /** `a/k` is the strides from `a` to the end of the field, unless `a` is that end: then it is the
      whole field. */
  lemma FromStepExactly(f: Field, a: nat, k: nat)
    requires k >= 1 && FieldMin(f) <= a <= FieldMax(f)
    ensures (forall n :: Allows(f, Plain(FromStep(IntEnd(a), k)), n) <==> a <= n <= FieldMax(f) && (n - a) % k == 0)
        <==> a < FieldMax(f)
  {
    assert RangeReads(f, FromStep(IntEnd(a), k), a, FieldMax(f), k);
    forall n ensures Allows(f, Plain(FromStep(IntEnd(a), k)), n) <==> Ranges(f, a, FieldMax(f), k, n) {
      if Allows(f, Plain(FromStep(IntEnd(a), k)), n) {
        var a', b', k' :| RangeReads(f, FromStep(IntEnd(a), k), a', b', k') && k' >= 1 && Ranges(f, a', b', k', n);
      }
    }
    ModOf(0, 0, 0, k);
    if a == FieldMax(f) {
      assert Ranges(f, a, a, k, FieldMin(f)) && FieldMin(f) < a;
    }
  }
}
