/** What the text of a cron field means: numbers, ranges, steps, and lists of them. */
module CronFields {
  import opened Wrappers
  import opened Text
  import opened Cron

  datatype Field =
    | Any
    | Number(n: nat)
    | Range(from: nat, to: nat)
    | Every(step: nat)
    | RangeEvery(from: nat, to: nat, step: nat)
    | NumberEvery(n: nat, step: nat)

  function Written(f: Field): string {
    match f
    case Any => "*"
    case Number(n) => Decimal(n)
    case Range(from, to) => Decimal(from) + "-" + Decimal(to)
    case Every(step) => "*" + "/" + Decimal(step)
    case RangeEvery(from, to, step) => Decimal(from) + "-" + Decimal(to) + "/" + Decimal(step)
    case NumberEvery(n, step) => Decimal(n) + "/" + Decimal(step)
  }

  /** A step of zero matches nothing, and a step behind a single number is ignored. */
  predicate Means(f: Field, value: int) {
    match f
    case Any => true
    case Number(n) => value == n
    case Range(from, to) => from <= value <= to
    case Every(step) => step != 0 && value % step == 0
    case RangeEvery(from, to, step) => from <= value <= to && step != 0 && (value - from) % step == 0
    case NumberEvery(n, _) => value == n
  }

  lemma NoSigns(n: nat)
    ensures ',' !in Decimal(n) && '/' !in Decimal(n) && '-' !in Decimal(n) && '*' !in Decimal(n)
  {
  }

  lemma SplitOnce(a: string, b: string, sep: char)
    requires sep !in a && sep !in b
    ensures Split(a + [sep] + b, sep) == [a, b]
  {
    SplitAt(a, b, sep);
    SplitFree(a, sep);
    SplitFree(b, sep);
  }

  lemma NumberPart(value: int, n: nat)
    ensures MatchesPart(value, Decimal(n)) <==> value == n
  {
    NoSigns(n);
    ParseDecimal(n);
  }

  lemma RangeText(from: nat, to: nat)
    ensures var text := Decimal(from) + "-" + Decimal(to);
            && Split(text, '-') == [Decimal(from), Decimal(to)]
            && ',' !in text && '/' !in text && '-' in text && '*' !in text
  {
    NoSigns(from);
    NoSigns(to);
    SplitOnce(Decimal(from), Decimal(to), '-');
  }

  lemma RangePart(value: int, from: nat, to: nat)
    ensures MatchesPart(value, Decimal(from) + "-" + Decimal(to)) <==> from <= value <= to
  {
    RangeText(from, to);
    ParseDecimal(from);
    ParseDecimal(to);
  }

  lemma EveryPart(value: int, step: nat)
    ensures MatchesPart(value, "*" + "/" + Decimal(step)) <==> step != 0 && value % step == 0
  {
    NoSigns(step);
    SplitOnce("*", Decimal(step), '/');
    ParseDecimal(step);
  }

  lemma SteppedRange(value: int, base: string, step: nat, from: nat, to: nat)
    requires '/' !in base && '-' in base && Split(base, '-') == [Decimal(from), Decimal(to)]
    ensures MatchesPart(value, base + "/" + Decimal(step)) <==>
              InRange(value, [Decimal(from), Decimal(to)]) && DividesOffset(value - from, Some(step))
  {
    hide InRange, DividesOffset, Split, ParseInt, Decimal;
    NoSigns(step);
    SplitOnce(base, Decimal(step), '/');
    ParseDecimal(from);
    ParseDecimal(step);
  }

  lemma RangeEveryPart(value: int, from: nat, to: nat, step: nat)
    ensures MatchesPart(value, Decimal(from) + "-" + Decimal(to) + "/" + Decimal(step)) <==>
              from <= value <= to && step != 0 && (value - from) % step == 0
  {
    hide MatchesPart;
    RangeText(from, to);
    SteppedRange(value, Decimal(from) + "-" + Decimal(to), step, from, to);
    ParseDecimal(from);
    ParseDecimal(to);
  }

  lemma NumberEveryPart(value: int, n: nat, step: nat)
    ensures MatchesPart(value, Decimal(n) + "/" + Decimal(step)) <==> value == n
  {
    NoSigns(n);
    NoSigns(step);
    SplitOnce(Decimal(n), Decimal(step), '/');
    ParseDecimal(n);
  }

  /** The evaluation of a written part is its meaning. */
  lemma PartExactlyWhen(value: int, f: Field)
    ensures MatchesPart(value, Written(f)) <==> Means(f, value)
  {
    match f
    case Any =>
    case Number(n) => NumberPart(value, n);
    case Range(from, to) => RangePart(value, from, to);
    case Every(step) => EveryPart(value, step);
    case RangeEvery(from, to, step) => RangeEveryPart(value, from, to, step);
    case NumberEvery(n, step) => NumberEveryPart(value, n, step);
  }

  lemma NoComma(f: Field)
    ensures ',' !in Written(f)
  {
    match f
    case Any =>
    case Number(n) => NoSigns(n);
    case Range(from, to) => RangeText(from, to);
    case Every(step) => NoSigns(step);
    case RangeEvery(from, to, step) => RangeText(from, to); NoSigns(step);
    case NumberEvery(n, step) => NoSigns(n); NoSigns(step);
  }

  lemma FieldExactlyWhen(value: int, f: Field)
    ensures MatchesCronField(value, Written(f)) <==> Means(f, value)
  {
    NoComma(f);
    PartExactlyWhen(value, f);
  }

  function AllWritten(fields: seq<Field>): seq<string> {
    seq(|fields|, i requires 0 <= i < |fields| => Written(fields[i]))
  }

  lemma ListSplits(fields: seq<Field>)
    requires |fields| >= 2
    ensures Split(Join(AllWritten(fields), ','), ',') == AllWritten(fields)
    ensures ',' in Join(AllWritten(fields), ',')
  {
    forall p | p in AllWritten(fields) ensures ',' !in p {
      var i :| 0 <= i < |fields| && p == AllWritten(fields)[i];
      NoComma(fields[i]);
    }
    SplitJoin(AllWritten(fields), ',');
    if ',' !in Join(AllWritten(fields), ',') {
      SplitFree(Join(AllWritten(fields), ','), ',');
    }
  }

  /** A list means any of its parts. */
  lemma ListExactlyWhen(value: int, fields: seq<Field>)
    requires |fields| >= 2
    ensures MatchesCronField(value, Join(AllWritten(fields), ',')) <==> exists f :: f in fields && Means(f, value)
  {
    var parts := AllWritten(fields);
    ListSplits(fields);
    forall i | 0 <= i < |fields|
      ensures parts[i] in parts && (MatchesPart(value, parts[i]) <==> Means(fields[i], value))
    {
      PartExactlyWhen(value, fields[i]);
    }
    if part :| part in parts && MatchesPart(value, part) {
      var i :| 0 <= i < |parts| && parts[i] == part;
      assert fields[i] in fields && Means(fields[i], value);
    }
    if f :| f in fields && Means(f, value) {
      var i :| 0 <= i < |fields| && fields[i] == f;
      assert parts[i] in parts && MatchesPart(value, parts[i]);
    }
  }

  // ----- whole expressions: each field one part, or a list of parts

  type Parts = seq<Field>

  datatype Expression = Expression(minutes: Parts, hours: Parts, dates: Parts, months: Parts, weekdays: Parts)

  predicate IsExpression(e: Expression) {
    e.minutes != [] && e.hours != [] && e.dates != [] && e.months != [] && e.weekdays != []
  }

  function WrittenParts(parts: Parts): string {
    Join(AllWritten(parts), ',')
  }

  function WrittenExpression(e: Expression): string {
    WrittenParts(e.minutes) + " " + (WrittenParts(e.hours) + " " + (WrittenParts(e.dates) + " "
      + (WrittenParts(e.months) + " " + WrittenParts(e.weekdays))))
  }

  ghost predicate MeansAny(parts: Parts, value: int) {
    exists f :: f in parts && Means(f, value)
  }

  ghost predicate MeansWeekday(parts: Parts, weekday: int) {
    MeansAny(parts, weekday) || (weekday == 0 && MeansAny(parts, 7))
  }

  /** An open field leaves the day to the other; two restricted fields are alternatives. */
  ghost predicate MeansDay(dates: Parts, weekdays: Parts, date: int, weekday: int) {
    match (dates == [Any], weekdays == [Any])
    case (true, true) => true
    case (true, false) => MeansWeekday(weekdays, weekday)
    case (false, true) => MeansAny(dates, date)
    case (false, false) => MeansAny(dates, date) || MeansWeekday(weekdays, weekday)
  }

  lemma DecimalIsWord(n: nat)
    ensures IsWord(Decimal(n))
  {
  }

  lemma WrittenIsWord(f: Field)
    ensures IsWord(Written(f)) && ' ' !in Written(f)
  {
    match f
    case Any =>
    case Number(n) => DecimalIsWord(n);
    case Range(from, to) => DecimalIsWord(from); DecimalIsWord(to);
    case Every(step) => DecimalIsWord(step);
    case RangeEvery(from, to, step) => DecimalIsWord(from); DecimalIsWord(to); DecimalIsWord(step);
    case NumberEvery(n, step) => DecimalIsWord(n); DecimalIsWord(step);
  }

  lemma {:induction false} JoinedWords(parts: seq<string>)
    requires parts != [] && forall p :: p in parts ==> IsWord(p)
    ensures IsWord(Join(parts, ','))
  {
    assert parts[0] in parts;
    if |parts| > 1 {
      JoinedWords(parts[1..]);
    }
  }

  lemma PartsAreWord(parts: Parts)
    requires parts != []
    ensures IsWord(WrittenParts(parts))
  {
    forall p | p in AllWritten(parts) ensures IsWord(p) {
      var i :| 0 <= i < |parts| && p == AllWritten(parts)[i];
      WrittenIsWord(parts[i]);
    }
    JoinedWords(AllWritten(parts));
  }

  lemma PartsExactlyWhen(value: int, parts: Parts)
    requires parts != []
    ensures MatchesCronField(value, WrittenParts(parts)) <==> MeansAny(parts, value)
  {
    if |parts| == 1 {
      assert AllWritten(parts) == [Written(parts[0])];
      FieldExactlyWhen(value, parts[0]);
    } else {
      ListExactlyWhen(value, parts);
    }
  }

  lemma OnlyAnyIsStar(f: Field)
    ensures Written(f) == "*" <==> f == Any
  {
    match f
    case Any =>
    case Number(n) => NoSigns(n);
    case Range(from, to) => RangeText(from, to);
    case Every(step) =>
    case RangeEvery(from, to, step) => RangeText(from, to); assert Written(f)[0] == Decimal(from)[0];
    case NumberEvery(n, step) => NoSigns(n);
  }

  /** Only the open field is written as a star. */
  lemma StarExactlyWhen(parts: Parts)
    requires parts != []
    ensures WrittenParts(parts) == "*" <==> parts == [Any]
  {
    if |parts| == 1 {
      assert AllWritten(parts) == [Written(parts[0])];
      OnlyAnyIsStar(parts[0]);
    } else {
      ListSplits(parts);
    }
  }

  lemma ExpressionWords(e: Expression)
    requires IsExpression(e)
    ensures Words(WrittenExpression(e)) == [WrittenParts(e.minutes), WrittenParts(e.hours), WrittenParts(e.dates),
                                            WrittenParts(e.months), WrittenParts(e.weekdays)]
  {
    PartsAreWord(e.minutes);
    PartsAreWord(e.hours);
    PartsAreWord(e.dates);
    PartsAreWord(e.months);
    PartsAreWord(e.weekdays);
    FiveWords(WrittenParts(e.minutes), WrittenParts(e.hours), WrittenParts(e.dates), WrittenParts(e.months),
              WrittenParts(e.weekdays));
  }

  lemma FiveWords(a: string, b: string, c: string, d: string, e: string)
    requires IsWord(a) && IsWord(b) && IsWord(c) && IsWord(d) && IsWord(e)
    ensures Words(a + " " + (b + " " + (c + " " + (d + " " + e)))) == [a, b, c, d, e]
  {
    WordsOne(e);
    WordsCons(d, e);
    WordsCons(c, d + " " + e);
    WordsCons(b, c + " " + (d + " " + e));
    WordsCons(a, b + " " + (c + " " + (d + " " + e)));
  }

  lemma DayExactlyWhen(dates: Parts, weekdays: Parts, date: int, weekday: int)
    requires dates != [] && weekdays != []
    ensures var d, w := WrittenParts(dates), WrittenParts(weekdays);
            var dom := MatchesCronField(date, d);
            var dow := MatchesCronField(weekday, w) || (weekday == 0 && MatchesCronField(7, w));
            (if d != "*" && w != "*" then dom || dow else dom && dow) <==> MeansDay(dates, weekdays, date, weekday)
  {
    hide MatchesCronField, WrittenParts;
    PartsExactlyWhen(date, dates);
    PartsExactlyWhen(weekday, weekdays);
    PartsExactlyWhen(7, weekdays);
    StarExactlyWhen(dates);
    StarExactlyWhen(weekdays);
    if dates == [Any] { assert Means(dates[0], date); }
    if weekdays == [Any] { assert Means(weekdays[0], weekday); }
  }

  /** A written expression fires when its fields say so, for every expression of this grammar, calendar and minute. */
  lemma FiresExactlyWhen(cal: Calendar, e: Expression, t: int)
    requires IsExpression(e)
    ensures WellFormed(WrittenExpression(e))
    ensures var (date, month) := cal(DayOf(t));
            FiresAt(cal, WrittenExpression(e), t) <==>
              && MeansAny(e.minutes, Minutes(t)) && MeansAny(e.hours, Hours(t)) && MeansAny(e.months, month)
              && MeansDay(e.dates, e.weekdays, date, Weekday(t))
  {
    hide MatchesCronField, MeansDay, MeansAny, WrittenParts, WrittenExpression, Minutes, Hours, Weekday, DayOf;
    var (date, month) := cal(DayOf(t));
    ExpressionWords(e);
    PartsExactlyWhen(Minutes(t), e.minutes);
    PartsExactlyWhen(Hours(t), e.hours);
    PartsExactlyWhen(month, e.months);
    DayExactlyWhen(e.dates, e.weekdays, date, Weekday(t));
  }
}
