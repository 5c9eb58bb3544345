/** What NextRun answers for the text of five fields, told by what is written and by the calendar alone. */
module CronTexts {
  import opened Wrappers
  import opened GoText
  import opened Calendar
  import opened CronField
  import opened CronGrammar
  import opened CronSchedule

  datatype Schedule = Schedule(minute: Syntax, hour: Syntax, day: Syntax, month: Syntax, weekday: Syntax)

  predicate WellFormed(s: Schedule) {
    Good(s.minute, 0, 59) && Good(s.hour, 0, 23) && Good(s.day, 1, 31) && Good(s.month, 1, 12) && Good(s.weekday, 0, 7)
  }

  /** No loop counter of any field wraps. */
  predicate Unwrapped(s: Schedule)
    requires WellFormed(s)
  {
    && (s.minute.Parts? ==> NoneWraps(s.minute, 0, 59)) && (s.hour.Parts? ==> NoneWraps(s.hour, 0, 23))
    && (s.day.Parts? ==> NoneWraps(s.day, 1, 31)) && (s.month.Parts? ==> NoneWraps(s.month, 1, 12))
    && (s.weekday.Parts? ==> NoneWraps(s.weekday, 0, 7))
  }

  function Printed(s: Schedule): seq<string> { [Print(s.minute), Print(s.hour), Print(s.day), Print(s.month), Print(s.weekday)] }

  // ---------------------------------------------------------------- the words of a text

  /** What stands between five words. */
  datatype Gaps = Gaps(a: string, b: string, c: string, d: string)

  predicate Separates(g: string) { g != "" && Blank(g) }

  predicate Separate(g: Gaps) { Separates(g.a) && Separates(g.b) && Separates(g.c) && Separates(g.d) }

  function Text(w: seq<string>, g: Gaps): string
    requires |w| == 5
  {
    w[0] + (g.a + (w[1] + (g.b + (w[2] + (g.c + (w[3] + (g.d + w[4])))))))
  }

  lemma {:induction false} WordStops(word: string, rest: string)
    requires NoSpace(word) && (rest == "" || IsSpace(rest[0]))
    ensures WordLength(word + rest) == |word|
  {
    if word == "" {
      assert word + rest == rest;
    } else {
      WordStops(word[1..], rest);
      assert (word + rest)[1..] == word[1..] + rest;
    }
  }

  lemma {:induction false} SkipBlank(gap: string, rest: string)
    requires Blank(gap)
    ensures Words(gap + rest) == Words(rest)
    decreases |gap|
  {
    if gap == "" {
      assert gap + rest == rest;
    } else {
      assert (gap + rest)[1..] == gap[1..] + rest;
      SkipBlank(gap[1..], rest);
    }
  }

  lemma NextWord(word: string, gap: string, rest: string)
    requires word != "" && NoSpace(word) && Separates(gap)
    ensures Words(word + (gap + rest)) == [word] + Words(rest)
  {
    var s := word + (gap + rest);
    WordStops(word, gap + rest);
    assert s[..|word|] == word && s[|word|..] == gap + rest;
    SkipBlank(gap, rest);
  }

  lemma LastWord(word: string)
    requires word != "" && NoSpace(word)
    ensures Words(word) == [word]
  {
    WordStops(word, "");
    assert word + "" == word && word[..|word|] == word && word[|word|..] == "";
  }

  lemma WordsOfText(w: seq<string>, g: Gaps)
    requires |w| == 5 && Separate(g) && forall i | 0 <= i < 5 :: w[i] != "" && NoSpace(w[i])
    ensures Words(Text(w, g)) == w
  {
    hide Words, NoSpace, Separates;
    var r3 := w[3] + (g.d + w[4]);
    var r2 := w[2] + (g.c + r3);
    var r1 := w[1] + (g.b + r2);
    NextWord(w[0], g.a, r1);
    NextWord(w[1], g.b, r2);
    NextWord(w[2], g.c, r3);
    NextWord(w[3], g.d, w[4]);
    LastWord(w[4]);
  }

  /** Characters of a field: none is a blank, a capital or an at sign. */
  predicate FieldChar(c: char) { PartChar(c) || c == ',' }

  predicate FieldText(s: string) { s != "" && forall i | 0 <= i < |s| :: FieldChar(s[i]) }

  lemma {:induction false} JoinChars(texts: seq<string>)
    requires texts != [] && forall t | t in texts :: PartChars(t)
    ensures FieldText(Join(texts, ","))
  {
    assert texts[0] in texts;
    if |texts| > 1 { JoinChars(texts[1..]); }
  }

  lemma PrintChars(s: Syntax, min: int, max: int)
    requires Good(s, min, max) && 0 <= min <= max <= MAX_BOUND
    ensures FieldText(Print(s)) && NoSpace(Print(s))
  {
    if s.Parts? {
      hide GoodPart, PrintPart, PartChars;
      TextsArePartChars(s.parts, min, max);
      JoinChars(PrintParts(s.parts));
    }
  }

  lemma PrintedChars(s: Schedule)
    requires WellFormed(s)
    ensures forall i | 0 <= i < 5 :: FieldText(Printed(s)[i]) && NoSpace(Printed(s)[i])
  {
    PrintChars(s.minute, 0, 59);
    PrintChars(s.hour, 0, 23);
    PrintChars(s.day, 1, 31);
    PrintChars(s.month, 1, 12);
    PrintChars(s.weekday, 0, 7);
    hide Good, Print, FieldText, NoSpace;
  }

  predicate TextChars(s: string) { forall i | 0 <= i < |s| :: FieldChar(s[i]) || IsSpace(s[i]) }

  lemma CharsConcat(a: string, b: string)
    requires TextChars(a) && TextChars(b)
    ensures TextChars(a + b)
  {}

  lemma PlainIsLower(s: string)
    requires TextChars(s)
    ensures ToLower(s) == s
  {}

  lemma TextShape(w: seq<string>, g: Gaps)
    requires |w| == 5 && Separate(g) && forall i | 0 <= i < 5 :: FieldText(w[i])
    ensures w[0] != "" && w[4] != "" && FieldChar(w[0][0]) && FieldChar(w[4][|w[4]| - 1])
    ensures var t := Text(w, g); TextChars(t) && t != "" && t[0] == w[0][0] && t[|t| - 1] == w[4][|w[4]| - 1]
  {
    assert forall i | 0 <= i < 5 :: TextChars(w[i]);
    hide FieldChar;
    assert TextChars(g.a) && TextChars(g.b) && TextChars(g.c) && TextChars(g.d);
    hide TextChars;
    CharsConcat(g.d, w[4]);
    CharsConcat(w[3], g.d + w[4]);
    CharsConcat(g.c, w[3] + (g.d + w[4]));
    CharsConcat(w[2], g.c + (w[3] + (g.d + w[4])));
    CharsConcat(g.b, w[2] + (g.c + (w[3] + (g.d + w[4]))));
    CharsConcat(w[1], g.b + (w[2] + (g.c + (w[3] + (g.d + w[4])))));
    CharsConcat(g.a, w[1] + (g.b + (w[2] + (g.c + (w[3] + (g.d + w[4]))))));
    CharsConcat(w[0], g.a + (w[1] + (g.b + (w[2] + (g.c + (w[3] + (g.d + w[4])))))));
  }

  /** White space around and between the words does not matter. */
  lemma TextIsWords(w: seq<string>, g: Gaps, before: string, after: string)
    requires |w| == 5 && Separate(g) && Blank(before) && Blank(after)
    requires forall i | 0 <= i < 5 :: FieldText(w[i]) && NoSpace(w[i])
    ensures var s := TrimSpace(ToLower(before + (Text(w, g) + after)));
            Words(s) == w && s != "" && s[0] != '@'
  {
    hide Words, Text;
    TextShape(w, g);
    var t := Text(w, g);
    assert TextChars(before) && TextChars(after);
    CharsConcat(t, after);
    CharsConcat(before, t + after);
    PlainIsLower(before + (t + after));
    TrimPadding(before, t, after);
    WordsOfText(w, g);
  }

  // ---------------------------------------------------------------- what is written

  /** The value is written: by a bare star, or in one of the denoted progressions. */
  ghost predicate Selects(f: Syntax, v: int, min: int, max: int)
    requires Good(f, min, max)
  {
    f.Any? || Denoted(v, f.parts, min, max)
  }

  /** The minute is written: its minute, hour, day, month and weekday are; weekday 7 is Sunday, like 0. */
  ghost predicate Due(s: Schedule, k: int)
    requires WellFormed(s)
  {
    var day := k / 1440;
    && Selects(s.minute, k % 60, 0, 59)
    && Selects(s.hour, k / 60 % 24, 0, 23)
    && Selects(s.day, DayOfMonth(day), 1, 31)
    && Selects(s.month, MonthOf(day), 1, 12)
    && (Selects(s.weekday, Weekday(day), 0, 7) || (Weekday(day) == 0 && Selects(s.weekday, 7, 0, 7)))
  }

  lemma FieldSelects(f: Syntax, v: int, min: int, max: int)
    requires Good(f, min, max) && 0 <= min <= max <= MAX_BOUND && (f.Parts? ==> NoneWraps(f, min, max))
    ensures Hits(FieldOf(f, min, max), v) <==> Selects(f, v, min, max)
    ensures f.Parts? ==> !FieldOf(f, min, max).any
  {
    if f.Parts? { ValuesAreTheDenotedOnes(f, min, max); }
  }

  /** The fields that a well-formed schedule is read as. */
  function FieldsOf(s: Schedule): Fields
    requires WellFormed(s)
  {
    Fields(FieldOf(s.minute, 0, 59), FieldOf(s.hour, 0, 23), FieldOf(s.day, 1, 31), FieldOf(s.month, 1, 12),
           FoldSunday(FieldOf(s.weekday, 0, 7)))
  }

  lemma WeekdaySelects(f: Syntax, v: int)
    requires Good(f, 0, 7) && (f.Parts? ==> NoneWraps(f, 0, 7)) && 0 <= v <= 6
    ensures Hits(FoldSunday(FieldOf(f, 0, 7)), v) <==> Selects(f, v, 0, 7) || (v == 0 && Selects(f, 7, 0, 7))
  {
    FieldSelects(f, v, 0, 7);
    FieldSelects(f, 7, 0, 7);
    hide FieldOf, Selects, NoneWraps, Good;
  }

  lemma MatchesWhatIsWritten(s: Schedule, k: int)
    requires WellFormed(s) && Unwrapped(s)
    ensures Matches(FieldsOf(s), k) <==> Due(s, k)
  {
    hide FieldOf, Selects, NoneWraps, Good, MonthOf, DayOfMonth, FoldSunday;
    var day := k / 1440;
    FieldSelects(s.minute, k % 60, 0, 59);
    FieldSelects(s.hour, k / 60 % 24, 0, 23);
    FieldSelects(s.day, DayOfMonth(day), 1, 31);
    FieldSelects(s.month, MonthOf(day), 1, 12);
    WeekdaySelects(s.weekday, Weekday(day));
  }

  lemma PrintedParses(s: Schedule)
    requires WellFormed(s)
    ensures ParseFields(Printed(s)) == Some(FieldsOf(s))
  {
    hide ParseField, Print, FieldOf;
    PrintedFieldParses(s.minute, 0, 59);
    PrintedFieldParses(s.hour, 0, 23);
    PrintedFieldParses(s.day, 1, 31);
    PrintedFieldParses(s.month, 1, 12);
    PrintedFieldParses(s.weekday, 0, 7);
    hide Good;
  }

  lemma AcceptedAsPrinted(words: seq<string>) returns (s: Schedule)
    requires |words| == 5 && (forall i | 0 <= i < 5 :: NoSpace(words[i])) && ParseFields(words).Some?
    ensures WellFormed(s) && words == Printed(s)
  {
    hide NoSpace, ParseField;
    var minute := AcceptedFieldIsPrinted(words[0], 0, 59);
    var hour := AcceptedFieldIsPrinted(words[1], 0, 23);
    var day := AcceptedFieldIsPrinted(words[2], 1, 31);
    var month := AcceptedFieldIsPrinted(words[3], 1, 12);
    var weekday := AcceptedFieldIsPrinted(words[4], 0, 7);
    hide Print, Good;
    s := Schedule(minute, hour, day, month, weekday);
  }

  /** Words are accepted exactly when they are five: a printed minute, hour, day, month and weekday, in this order. */
  lemma ParseFieldsExactly(words: seq<string>)
    requires forall w | w in words :: NoSpace(w)
    ensures ParseFields(words).Some? <==> exists s :: WellFormed(s) && words == Printed(s)
  {
    hide NoSpace, ParseField, WellFormed, Print, FieldsOf;
    if ParseFields(words).Some? {
      assert forall i | 0 <= i < 5 :: words[i] in words;
      var s := AcceptedAsPrinted(words);
    }
    forall s | WellFormed(s) && words == Printed(s) ensures ParseFields(words).Some? { PrintedParses(s); }
  }

  // ---------------------------------------------------------------- the next run of a text

  /** The instant of a minute. */
  function Instant(k: int): int { k * 60_000_000_000 }

  /** The text of five fields, with any white space around and between them, runs next at the least minute after the
      instant whose minute, hour, day of the month, month and weekday are written in the first, second, third, fourth
      and fifth field; there is an error exactly when no such minute comes within 366 days. */
  lemma NextRunOfText(s: Schedule, g: Gaps, before: string, after: string, from: int, parseDuration: string -> Option<int>)
    requires WellFormed(s) && Unwrapped(s) && Separate(g) && Blank(before) && Blank(after)
    ensures match NextRun(before + (Text(Printed(s), g) + after), from, parseDuration)
            case Some(next) =>
              exists k :: next == Instant(k) && next > from && Due(s, k) && forall j | from < Instant(j) && j < k :: !Due(s, j)
            case None =>
              forall k | from < Instant(k) <= from + 366 * 86_400_000_000_000 :: !Due(s, k)
  {
    PrintedChars(s);
    TextIsWords(Printed(s), g, before, after);
    PrintedParses(s);
    NextRunOfWords(before + (Text(Printed(s), g) + after), Printed(s), FieldsOf(s), from, parseDuration);
    hide NextRun, Text, Printed, FieldsOf, Due, WellFormed, Unwrapped, NextMinute;
    SearchedInstants(s, FieldsOf(s), from);
  }

  lemma NextRunOfWords(schedule: string, words: seq<string>, f: Fields, from: int, parseDuration: string -> Option<int>)
    requires var t := TrimSpace(ToLower(schedule)); Words(t) == words && t != "" && t[0] != '@'
    requires ParseFields(words) == Some(f)
    ensures NextRun(schedule, from, parseDuration)
         == match NextMinute(f, from) case None => None case Some(k) => Some(Instant(k))
  {
    hide TrimSpace, ToLower, Words, ParseFields, NextMinute;
    var t := TrimSpace(ToLower(schedule));
    assert t != "@hourly" && t != "@daily" && t != "@weekly" && !HasPrefix(t, "@every ");
  }

  lemma SearchedInstants(s: Schedule, f: Fields, from: int)
    requires WellFormed(s) && Unwrapped(s) && f == FieldsOf(s)
    ensures match NextMinute(f, from)
            case Some(k) => Instant(k) > from && Due(s, k) && forall j | from < Instant(j) && j < k :: !Due(s, j)
            case None => forall k | from < Instant(k) <= from + 366 * 86_400_000_000_000 :: !Due(s, k)
  {
    SearchFindsLeast(f, from);
    forall k ensures Matches(f, k) <==> Due(s, k) { MatchesWhatIsWritten(s, k); }
    hide Matches, Due, FieldsOf, WellFormed, Unwrapped, NextMinute;
    assert forall k :: AfterInstant(k, from) <==> from < Instant(k);
    assert forall k | from < Instant(k) <= from + 366 * 86_400_000_000_000 :: Candidate(from) <= k < Candidate(from) + SEARCH_MINUTES;
  }

  // ---------------------------------------------------------------- a date and a time of day

  function Number(n: nat): Syntax { Parts([Part(One(Num(false, Itoa(n))), None)]) }

  lemma NumberSelects(n: nat, min: int, max: int)
    requires 0 <= min <= n <= max <= MAX_BOUND
    ensures Good(Number(n), min, max) && NoneWraps(Number(n), min, max) && Print(Number(n)) == Itoa(n)
    ensures forall v :: Selects(Number(n), v, min, max) <==> v == n
  {
    hide Digits, Value;
    ValueOfDigits(n);
    assert Itoa(n) == Digits(n);
    var p := Part(One(Num(false, Itoa(n))), None);
    assert "" + Itoa(n) == Itoa(n) && Itoa(n) + "" == Itoa(n);
    assert GoodPart(p, min, max) && Low(p, min, max) == n == High(p, min, max) && Step(p, min, max) == 1;
    OnePart(p, min, max);
    assert p in [p];
    forall v ensures Selects(Number(n), v, min, max) <==> v == n {
      assert InPart(v, p, min, max) <==> v == n;
    }
  }

  /** The instant at which a date and a time of day fall in a year. */
  function At(y: int, m: int, d: int, h: int, n: int): int
    requires 1 <= m <= 12
  {
    Instant(DayNumber(y, m, d) * 1440 + h * 60 + n)
  }

  lemma {:induction false} LaterYear(y: int, z: int, m: int, d: int)
    requires y < z && 1 <= m <= 12
    ensures DayNumber(y, m, d) + 365 <= DayNumber(z, m, d)
    decreases z - y
  {
    YearLength(z - 1);
    if y < z - 1 { LaterYear(y, z - 1, m, d); }
  }

  lemma NextYear(y: int, m: int, d: int)
    requires 1 <= m <= 12
    ensures DayNumber(y + 1, m, d) <= DayNumber(y, m, d) + 366
  {
    YearLength(y);
  }

  /** The date exists in every year. */
  predicate Yearly(m: int, d: int) { 1 <= m <= 12 && 1 <= d <= DaysIn(false, m) }

  lemma YearlyIsValid(y: int, m: int, d: int)
    requires Yearly(m, d)
    ensures ValidDate(y, m, d) && d <= 31
  {}

  function Once(n: nat, h: nat, d: nat, m: nat): Schedule { Schedule(Number(n), Number(h), Number(d), Number(m), Any) }

  lemma OnceIsWellFormed(n: nat, h: nat, d: nat, m: nat)
    requires n <= 59 && h <= 23 && Yearly(m, d)
    ensures WellFormed(Once(n, h, d, m)) && Unwrapped(Once(n, h, d, m))
    ensures Printed(Once(n, h, d, m)) == [Itoa(n), Itoa(h), Itoa(d), Itoa(m), "*"]
  {
    hide Number, Selects, NoneWraps, Itoa, DaysIn, ValidDate;
    YearlyIsValid(1, m, d);
    NumberSelects(n, 0, 59);
    NumberSelects(h, 0, 23);
    NumberSelects(d, 1, 31);
    NumberSelects(m, 1, 12);
  }

  lemma AnySelects(v: int)
    ensures Good(Any, 0, 7) && Selects(Any, v, 0, 7)
  {}

  lemma OnceIsDue(n: nat, h: nat, d: nat, m: nat, k: int)
    requires n <= 59 && h <= 23 && Yearly(m, d) && WellFormed(Once(n, h, d, m))
    ensures Due(Once(n, h, d, m), k)
            <==> k % 60 == n && k / 60 % 24 == h && DayOfMonth(k / 1440) == d && MonthOf(k / 1440) == m
  {
    hide Number, Selects, Good, NoneWraps, Weekday, MonthOf, DayOfMonth, Itoa, Print, DaysIn, ValidDate;
    YearlyIsValid(1, m, d);
    NumberSelects(n, 0, 59);
    NumberSelects(h, 0, 23);
    NumberSelects(d, 1, 31);
    NumberSelects(m, 1, 12);
    AnySelects(Weekday(k / 1440));
  }

  /** A minute of a day is told by its day, hour and minute. */
  lemma TimeExactly(k: int, day: int, h: int, n: int)
    requires 0 <= h < 24 && 0 <= n < 60
    ensures k == day * 1440 + h * 60 + n <==> k / 1440 == day && k / 60 % 24 == h && k % 60 == n
  {
    TimeOfDay(day, h, n);
    assert k / 60 / 24 == k / 1440;
  }

  lemma SameDay(day: int, y: int, m: int, d: int)
    requires Yearly(m, d) && y == YearOf(day)
    ensures DayNumber(y, m, d) == day <==> DayOfMonth(day) == d && MonthOf(day) == m
  {
    YearlyIsValid(y, m, d);
    DayRoundTrip(day);
    DateRoundTrip(y, m, d);
    hide *;
  }

  /** The schedule of a date and a time of day is due once a year. */
  lemma DueOnceAYear(n: nat, h: nat, d: nat, m: nat, k: int)
    requires n <= 59 && h <= 23 && Yearly(m, d) && WellFormed(Once(n, h, d, m))
    ensures Due(Once(n, h, d, m), k) <==> k == DayNumber(YearOf(k / 1440), m, d) * 1440 + h * 60 + n
  {
    OnceIsDue(n, h, d, m, k);
    SameDay(k / 1440, YearOf(k / 1440), m, d);
    TimeExactly(k, DayNumber(YearOf(k / 1440), m, d), h, n);
    hide *;
  }

  /** "n h d m *", for a date that every year has, runs next at the first such date and time after the instant: the
      one before it is not after the instant. */
  lemma YearlyRun(n: nat, h: nat, d: nat, m: nat, from: int, parseDuration: string -> Option<int>) returns (y: int)
    requires n <= 59 && h <= 23 && Yearly(m, d)
    ensures NextRun(Itoa(n) + " " + Itoa(h) + " " + Itoa(d) + " " + Itoa(m) + " *", from, parseDuration) == Some(At(y, m, d, h, n))
    ensures At(y - 1, m, d, h, n) <= from < At(y, m, d, h, n)
  {
    y := YearlyText(n, h, d, m, from, parseDuration);
    hide *;
    FromTheRight(Itoa(n), Itoa(h), Itoa(d), Itoa(m), " ", " *");
    assert " " + "*" == " *";
  }

  lemma Associate(a: string, b: string, c: string)
    ensures a + b + c == a + (b + c)
  {}

  lemma FromTheRight(a: string, b: string, c: string, d: string, g: string, end: string)
    ensures a + g + b + g + c + g + d + end == a + (g + (b + (g + (c + (g + (d + end))))))
  {
    Associate(a + g + b + g + c + g, d, end);
    Associate(a + g + b + g + c, g, d + end);
    Associate(a + g + b + g, c, g + (d + end));
    Associate(a + g + b, g, c + (g + (d + end)));
    Associate(a + g, b, g + (c + (g + (d + end))));
    Associate(a, g, b + (g + (c + (g + (d + end)))));
  }

  lemma YearlyText(n: nat, h: nat, d: nat, m: nat, from: int, parseDuration: string -> Option<int>) returns (y: int)
    requires n <= 59 && h <= 23 && Yearly(m, d)
    ensures NextRun(Itoa(n) + (" " + (Itoa(h) + (" " + (Itoa(d) + (" " + (Itoa(m) + (" " + "*"))))))), from, parseDuration)
         == Some(At(y, m, d, h, n))
    ensures At(y - 1, m, d, h, n) <= from < At(y, m, d, h, n)
  {
    var s, g := Once(n, h, d, m), Gaps(" ", " ", " ", " ");
    OnceIsWellFormed(n, h, d, m);
    assert "" + (Text(Printed(s), g) + "") == Text(Printed(s), g);
    NextRunOfText(s, g, "", "", from, parseDuration);
    y := FirstAfter(n, h, d, m, from);
    hide NextRun, Once, Printed, WellFormed, Unwrapped, Itoa, DayNumber;
    OnlyDue(n, h, d, m, from, y);
  }

  lemma InstantsOfDays(day: int, time: int, from: int)
    requires 0 <= time < 1440
    ensures day < from / 86_400_000_000_000 ==> Instant(day * 1440 + time) <= from
    ensures day > from / 86_400_000_000_000 ==> Instant(day * 1440 + time) > from
  {}

  lemma YearsAround(today: int, m: int, d: int)
    requires Yearly(m, d)
    ensures DayNumber(YearOf(today) - 1, m, d) < today < DayNumber(YearOf(today) + 1, m, d)
  {
    hide YearOf, DayNumber, DaysBeforeYear, MonthOf, DayOfMonth, DaysIn;
    var y := YearOf(today);
    YearOfBrackets(today);
    YearlyIsValid(y - 1, m, d);
    YearlyIsValid(y + 1, m, d);
    DateRoundTrip(y - 1, m, d);
    DateRoundTrip(y + 1, m, d);
    YearOfBrackets(DayNumber(y - 1, m, d));
    YearOfBrackets(DayNumber(y + 1, m, d));
  }

  /** The year of the first such date and time after the instant. */
  lemma FirstAfter(n: nat, h: nat, d: nat, m: nat, from: int) returns (y: int)
    requires n <= 59 && h <= 23 && Yearly(m, d)
    ensures At(y - 1, m, d, h, n) <= from < At(y, m, d, h, n)
  {
    hide YearOf, DayNumber, DaysIn;
    var today := from / 86_400_000_000_000;
    y := YearOf(today);
    YearsAround(today, m, d);
    InstantsOfDays(DayNumber(y - 1, m, d), h * 60 + n, from);
    InstantsOfDays(DayNumber(y + 1, m, d), h * 60 + n, from);
    if At(y, m, d, h, n) <= from { y := y + 1; }
  }

  lemma OnlyDue(n: nat, h: nat, d: nat, m: nat, from: int, y: int)
    requires n <= 59 && h <= 23 && Yearly(m, d) && WellFormed(Once(n, h, d, m))
    requires At(y - 1, m, d, h, n) <= from < At(y, m, d, h, n)
    ensures var t := DayNumber(y, m, d) * 1440 + h * 60 + n;
            && Due(Once(n, h, d, m), t) && Instant(t) <= from + 366 * 86_400_000_000_000
            && forall j | from < Instant(j) && j < t :: !Due(Once(n, h, d, m), j)
  {
    hide Due, Once, WellFormed, YearOf, DayNumber, DaysIn, MonthOf, DayOfMonth, ValidDate;
    var t := DayNumber(y, m, d) * 1440 + h * 60 + n;
    NextYear(y - 1, m, d);
    YearlyIsValid(y, m, d);
    DateRoundTrip(y, m, d);
    assert t / 1440 == DayNumber(y, m, d) by { TimeExactly(t, DayNumber(y, m, d), h, n); }
    DueOnceAYear(n, h, d, m, t);
    forall j | from < Instant(j) && j < t ensures !Due(Once(n, h, d, m), j) { NotDueBetween(n, h, d, m, from, y, j); }
  }

  lemma YearsInOrder(z: int, y: int, m: int, d: int, h: int, n: int)
    requires 1 <= m <= 12
    ensures z <= y ==> At(z, m, d, h, n) <= At(y, m, d, h, n)
  {
    if z < y { LaterYear(z, y, m, d); }
    hide DayNumber;
  }

  lemma NotDueBetween(n: nat, h: nat, d: nat, m: nat, from: int, y: int, j: int)
    requires n <= 59 && h <= 23 && Yearly(m, d) && WellFormed(Once(n, h, d, m))
    requires At(y - 1, m, d, h, n) <= from < Instant(j) < At(y, m, d, h, n)
    ensures !Due(Once(n, h, d, m), j)
  {
    hide Due, Once, WellFormed, YearOf, DayNumber, DaysIn;
    DueOnceAYear(n, h, d, m, j);
    var z := YearOf(j / 1440);
    YearsInOrder(z, y - 1, m, d, h, n);
    YearsInOrder(y, z, m, d, h, n);
  }

  // ---------------------------------------------------------------- the other schedules

  /** The two characters are the same, or the second is the lower case of the first. */
  predicate LowerCaseOf(a: char, b: char) {
    || a == b || ('A' <= a <= 'Z' && b as int == a as int + 32)
    || (a == '\U{212A}' && b == 'k') || (a == '\U{130}' && b == 'i') || (a == '\U{39C}' && b == '\U{3BC}')
  }

  /** Capitals in a schedule read like small letters. */
  lemma CaseDoesNotMatter(schedule: string, lower: string, from: int, parseDuration: string -> Option<int>)
    requires |schedule| == |lower| && forall i | 0 <= i < |lower| :: LowerCaseOf(schedule[i], lower[i])
    ensures NextRun(schedule, from, parseDuration) == NextRun(lower, from, parseDuration)
  {
    assert ToLower(schedule) == ToLower(lower);
    hide NextRun;
    SameLower(schedule, lower, from, parseDuration);
  }

  lemma SameLower(s: string, t: string, from: int, parseDuration: string -> Option<int>)
    requires ToLower(s) == ToLower(t)
    ensures NextRun(s, from, parseDuration) == NextRun(t, from, parseDuration)
  {
    hide ToLower, TrimSpace, Words, ParseFields, NextMinute, MidnightAhead, DaysUntilMonday;
  }

  /** "@every" adds its duration exactly when that lies between ten seconds and 366 days; nothing is an error. */
  lemma EveryExactly(schedule: string, rest: string, from: int, parseDuration: string -> Option<int>)
    ensures TrimSpace(ToLower(schedule)) == "" ==> NextRun(schedule, from, parseDuration).None?
    ensures TrimSpace(ToLower(schedule)) == "@every " + rest ==>
              NextRun(schedule, from, parseDuration)
              == match parseDuration(TrimSpace(rest))
                 case None => None
                 case Some(d) =>
                   if 10 * 1_000_000_000 <= d <= 366 * 86_400_000_000_000 then Some(from + d) else None
  {
    hide TrimSpace, ToLower;
    if TrimSpace(ToLower(schedule)) == "@every " + rest {
      var s := "@every " + rest;
      assert s[..7] == "@every " && s[7..] == rest;
      assert s[1] == 'e';
    }
  }
}
